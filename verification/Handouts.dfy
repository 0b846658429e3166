/** Exactly which sets of tasks some run hands out twice. */
module Handouts {
  import opened Wrappers
  import opened Sequences
  import opened Graphs
  import opened SchedulerState
  import opened Dispatch
  import opened Workflows

  // A run that adds only these tasks and completes each at most once; a strict run
  // completes them only after they were handed out.
  ghost predicate RunOf(ts: seq<Task>, strict: bool, ws: seq<World>, ops: seq<Op>) {
    && IsRun(ws, ops)
    && forall i :: 0 <= i < |ops| ==> StepOf(ts, strict, ws[i], ops[i])
  }

  ghost predicate StepOf(ts: seq<Task>, strict: bool, w: World, op: Op) {
    && (op.Add? || op.AddUnchecked? ==> op.task in ts)
    && (op.Complete? ==> op.id !in w.s.completed && (strict ==> op.id in w.handed))
  }

  ghost predicate Reachable(ts: seq<Task>, strict: bool, w: World) {
    exists ws, ops :: RunOf(ts, strict, ws, ops) && ws[|ops|] == w
  }

  ghost predicate HandsOutTwice(ts: seq<Task>, strict: bool, t: Id) {
    exists w :: Reachable(ts, strict, w) && w.handed[t] >= 2
  }

  lemma RunExtends(ts: seq<Task>, strict: bool, ws: seq<World>, ops: seq<Op>, op: Op, w': World)
    requires RunOf(ts, strict, ws, ops) && Step(ws[|ops|], op, w') && StepOf(ts, strict, ws[|ops|], op)
    ensures RunOf(ts, strict, ws + [w'], ops + [op])
  {
    var ws', ops' := ws + [w'], ops + [op];
    forall i | 0 <= i < |ops'|
      ensures Step(ws'[i], ops'[i], ws'[i + 1]) && StepOf(ts, strict, ws'[i], ops'[i])
    {
      if i < |ops| {
        assert Step(ws[i], ops[i], ws[i + 1]) && StepOf(ts, strict, ws[i], ops[i]);
      }
    }
  }

  lemma ReachStep(ts: seq<Task>, strict: bool, w: World, op: Op, w': World)
    requires Reachable(ts, strict, w) && Step(w, op, w') && StepOf(ts, strict, w, op)
    ensures Reachable(ts, strict, w')
  {
    var ws, ops :| RunOf(ts, strict, ws, ops) && ws[|ops|] == w;
    RunExtends(ts, strict, ws, ops, op, w');
    assert (ws + [w'])[|ops + [op]|] == w';
  }

  lemma ReachableInvariant(ts: seq<Task>, strict: bool, w: World)
    requires Reachable(ts, strict, w)
    ensures Invariant(w)
  {
    var ws, ops :| RunOf(ts, strict, ws, ops) && ws[|ops|] == w;
    RunKeeps(ws, ops, |ops|);
  }

  // The first k tasks added, and nothing else done.
  ghost predicate Filled(ts: seq<Task>, k: nat, w: World)
    requires k <= |ts|
  {
    && w.s.deps == GraphOf(ts[..k]) && w.s.tasks.Keys == w.s.deps.Keys
    && w.s.completed == w.s.failed == {} && w.handed == multiset{}
  }

  lemma {:induction false} Fill(ts: seq<Task>, strict: bool, k: nat) returns (w: World)
    requires UniqueIds(ts) && k <= |ts|
    ensures Reachable(ts, strict, w) && Filled(ts, k, w)
  {
    if k == 0 {
      w := START;
      var none: seq<Op> := [];
      assert RunOf(ts, strict, [START], none) && [START][|none|] == START;
    } else {
      var before := Fill(ts, strict, k - 1);
      var t := ts[k - 1];
      assert ts[..k][..k - 1] == ts[..k - 1] && ts[..k][k - 1] == t;
      GraphOfMembers(ts[..k - 1]);
      assert t.id !in before.s.tasks;
      w := before.(s := Added(before.s, t));
      ReachStep(ts, strict, before, AddUnchecked(t), w);
    }
  }

  // Only the queue, the hand-outs and the completed tasks change, the last as given.
  ghost predicate SameBut(w: World, done: set<Id>, w': World) {
    && w'.s.deps == w.s.deps && w'.s.tasks == w.s.tasks && w'.s.failed == w.s.failed
    && w'.s.completed == w.s.completed + done
  }

  lemma SmallerQueue(q: multiset<Entry>, q': multiset<Entry>, e: Entry)
    requires q' <= q && q'[e] < q[e]
    ensures |q'| < |q|
  {
    assert q == q' + (q - q') && e in q - q';
  }

  // Queued copies of a live task are all handed out sooner or later.
  lemma {:induction false} TakeCopies(ts: seq<Task>, strict: bool, w: World, t: Id, k: nat) returns (w': World)
    requires Reachable(ts, strict, w) && w.s.Live(t) && w.s.queue[EntryFor(w.s, t)] >= k
    ensures Reachable(ts, strict, w') && w'.handed[t] >= w.handed[t] + k && SameBut(w, {}, w')
    decreases |w.s.queue|
  {
    if k == 0 {
      w' := w;
    } else {
      var s1, e := TakeOne(ts, strict, w, t);
      var mid := World(s1, w.handed + multiset{e.id});
      ReachStep(ts, strict, w, Take(Some(e.id)), mid);
      SmallerQueue(w.s.queue, s1.queue, e);
      w' := TakeCopies(ts, strict, mid, t, if e.id == t then k - 1 else k);
    }
  }

  lemma TakeOne(ts: seq<Task>, strict: bool, w: World, t: Id) returns (s1: Sched, e: Entry)
    requires Reachable(ts, strict, w) && w.s.Live(t) && EntryFor(w.s, t) in w.s.queue
    ensures Next(w.s, s1, Some(e.id)) && s1 == w.s.(queue := s1.queue)
    ensures s1.queue <= w.s.queue && s1.queue[e] < w.s.queue[e]
    ensures s1.queue[EntryFor(w.s, t)] == w.s.queue[EntryFor(w.s, t)] - if e.id == t then 1 else 0
  {
    var x := EntryFor(w.s, t);
    var got;
    s1, got := NextExists(w.s, w.s.queue);
    e :| PopsTo(w.s, s1, e) && e.id == got.value;
    ReachableInvariant(ts, strict, w);
    assert Sound(w.s, e);
    assert x.AtMost(e);
  }

  // Completing the last open dependency of a task queues it once per mention.
  lemma CompleteLast(ts: seq<Task>, strict: bool, w: World, t: Id, d: Id) returns (w': World)
    requires Reachable(ts, strict, w) && StepOf(ts, strict, w, Complete(d)) && d in w.s.tasks
    requires w.s.Live(t) && t != d && t in w.s.deps
    requires forall e :: e in w.s.deps[t] && e != d ==> e in w.s.completed
    ensures Reachable(ts, strict, w') && w'.handed[t] >= Count(w.s.deps[t], d)
  {
    var mid := w.(s := SchedulerState.Completed(w.s, d));
    ReachStep(ts, strict, w, Complete(d), mid);
    ReachableInvariant(ts, strict, w);
    CompletedQueue(w.s, d, EntryFor(w.s, t));
    w' := TakeCopies(ts, strict, mid, t, Count(w.s.deps[t], d));
  }

  // --- Runs that may complete any task ---

  // A task that names a dependency twice, knows all of them and is none of them.
  ghost predicate Doubling(ts: seq<Task>, t: Task) {
    && !NoDup(t.dependencies)
    && t.id !in t.dependencies
    && forall d :: d in t.dependencies ==> d in Ids(ts)
  }

  lemma {:induction false} CompleteEach(ts: seq<Task>, w: World, ids: set<Id>) returns (w': World)
    requires Reachable(ts, false, w) && ids <= w.s.tasks.Keys && ids !! w.s.completed
    ensures Reachable(ts, false, w') && SameBut(w, ids, w')
    decreases ids
  {
    if ids == {} {
      w' := w;
    } else {
      var id :| id in ids;
      var mid := CompleteEach(ts, w, ids - {id});
      w' := mid.(s := SchedulerState.Completed(mid.s, id));
      ReachStep(ts, false, mid, Complete(id), w');
    }
  }

  lemma CountTwice(s: seq<Id>, i: nat, j: nat)
    requires i < j < |s| && s[i] == s[j]
    ensures Count(s, s[i]) >= 2
  {
    assert s == s[..i] + [s[i]] + s[i + 1..j] + [s[j]] + s[j + 1..];
  }

  // Complete its other dependencies, then the repeated one.
  lemma RepeatedDependencyHandsOutTwice(ts: seq<Task>, t: Task)
    requires UniqueIds(ts) && t in ts && Doubling(ts, t)
    ensures HandsOutTwice(ts, false, t.id)
  {
    var w0 := Fill(ts, false, |ts|);
    assert ts[..|ts|] == ts;
    GraphOfMembers(ts);
    var ds := t.dependencies;
    var i, j :| 0 <= i < j < |ds| && ds[i] == ds[j];
    CountTwice(ds, i, j);
    var w1 := CompleteEach(ts, w0, Elements(ds) - {ds[i]});
    var w := CompleteLast(ts, false, w1, t.id, ds[i]);
  }

  // The tasks a run holds are those given.
  ghost predicate Drawn(g: Graph, s: Sched) {
    forall x :: x in s.deps ==> x in g && s.deps[x] == g[x]
  }

  lemma {:induction false} RunDrawn(ts: seq<Task>, strict: bool, ws: seq<World>, ops: seq<Op>, i: nat)
    requires UniqueIds(ts) && RunOf(ts, strict, ws, ops) && i < |ws|
    ensures Drawn(GraphOf(ts), ws[i].s)
    decreases i
  {
    GraphOfMembers(ts);
    if i > 0 {
      RunDrawn(ts, strict, ws, ops, i - 1);
      assert Step(ws[i - 1], ops[i - 1], ws[i - 1 + 1]) && StepOf(ts, strict, ws[i - 1], ops[i - 1]);
    }
  }

  lemma OnceUnlessDoubling(ts: seq<Task>, t: Task, w: World)
    requires UniqueIds(ts) && t in ts && !Doubling(ts, t) && Reachable(ts, false, w)
    ensures w.handed[t.id] <= 1
  {
    GraphOfMembers(ts);
    var ws: seq<World>, ops: seq<Op> :| RunOf(ts, false, ws, ops) && ws[|ops|] == w;
    forall k | 0 <= k < |ops|
      ensures Single(ws[k], ops[k], t.id)
    {
      RunKeeps(ws, ops, k);
      RunDrawn(ts, false, ws, ops, k);
      assert StepOf(ts, false, ws[k], ops[k]);
      if NoDup(t.dependencies) && ops[k].Complete? {
        NoDupCount(t.dependencies, ops[k].id);
      }
    }
    OnceRun(ws, ops, t.id, |ops|);
  }

  // Some run hands a task out twice exactly when the task is one of those.
  lemma HandedTwiceExactly(ts: seq<Task>, id: Id)
    requires UniqueIds(ts)
    ensures HandsOutTwice(ts, false, id) <==> exists t :: t in ts && t.id == id && Doubling(ts, t)
  {
    if t :| t in ts && t.id == id && Doubling(ts, t) {
      RepeatedDependencyHandsOutTwice(ts, t);
    } else if w :| Reachable(ts, false, w) && w.handed[id] >= 2 {
      var t := TaskHanded(ts, false, w, id);
      OnceUnlessDoubling(ts, t, w);
    }
  }

  lemma TaskHanded(ts: seq<Task>, strict: bool, w: World, id: Id) returns (t: Task)
    requires UniqueIds(ts) && Reachable(ts, strict, w) && id in w.handed
    ensures t in ts && t.id == id
  {
    var ws, ops :| RunOf(ts, strict, ws, ops) && ws[|ops|] == w;
    RunKeeps(ws, ops, |ops|);
    RunDrawn(ts, strict, ws, ops, |ops|);
    GraphOfMembers(ts);
    assert id in Ids(ts);
    t :| t in ts && t.id == id;
  }

  // --- Runs that complete only what they handed out ---

  ghost predicate OnCycle(g: Graph, x: Id) {
    exists p :: IsCycle(g, p) && p[0] == x
  }

  // Whatever the task depends on, directly or not, is a task and on no cycle.
  ghost predicate Attainable(g: Graph, t: Id) {
    forall x :: Reaches(g, t, x) ==> x in g && !OnCycle(g, x)
  }

  // The task names `d` twice and no other dependency of the task leads to `d`.
  ghost predicate LastTwice(g: Graph, t: Id, d: Id) {
    && t in g && Count(g[t], d) >= 2
    && forall e :: e in g[t] && e != d ==> !Reaches(g, e, d)
  }

  lemma ReachesSelf(g: Graph, x: Id)
    ensures Reaches(g, x, x)
  {
    assert IsPath(g, [x]);
  }

  lemma ReachesNext(g: Graph, a: Id, b: Id, c: Id)
    requires Reaches(g, a, b) && Edge(g, b, c)
    ensures Reaches(g, a, c)
  {
    var p :| IsPath(g, p) && p[0] == a && p[|p| - 1] == b;
    PathAppend(g, p, c);
    assert (p + [c])[0] == a;
  }

  lemma EdgeReaches(g: Graph, a: Id, b: Id, c: Id)
    requires Edge(g, a, b) && Reaches(g, b, c)
    ensures Reaches(g, a, c)
    ensures a == c ==> OnCycle(g, a)
  {
    var p :| IsPath(g, p) && p[0] == b && p[|p| - 1] == c;
    var q := [a] + p;
    forall i | 0 <= i < |q| - 1
      ensures Edge(g, q[i], q[i + 1])
    {
      if i > 0 {
        assert Edge(g, p[i - 1], p[i - 1 + 1]);
      }
    }
    assert IsPath(g, q);
  }

  lemma HandOut(ts: seq<Task>, w: World, t: Id) returns (w': World)
    requires Reachable(ts, true, w) && t in w.s.tasks && w.s.DepsDone(t) && w.s.Live(t)
    ensures Reachable(ts, true, w') && t in w'.handed && SameBut(w, {}, w')
  {
    ReachableInvariant(ts, true, w);
    assert w.handed[t] == 0 ==> Waiting(w, t);
    w' := TakeCopies(ts, true, w, t, if w.handed[t] == 0 then 1 else 0);
  }

  // A set that holds the dependencies of its members.
  ghost predicate Closed(g: Graph, all: set<Id>) {
    forall x, d :: x in all && Edge(g, x, d) ==> d in all
  }

  // Tasks on no cycle, with all they depend on, can be completed in some order.
  lemma {:induction false} CompleteClosed(ts: seq<Task>, w: World, all: set<Id>) returns (w': World)
    requires Reachable(ts, true, w) && w.s.failed == {} && w.s.completed <= all <= w.s.tasks.Keys
    requires Closed(w.s.deps, all) && forall x :: x in all ==> !OnCycle(w.s.deps, x)
    ensures Reachable(ts, true, w') && SameBut(w, all, w')
    decreases all - w.s.completed
  {
    var left := all - w.s.completed;
    ReachableInvariant(ts, true, w);
    if left == {} {
      w' := w;
      assert forall x :: x in all ==> x !in left;
    } else if x :| x in left && !DependsWithin(w.s.deps, left, x) {
      forall d | d in w.s.deps[x]
        ensures d in w.s.completed
      {
        assert Edge(w.s.deps, x, d) && d !in left;
      }
      var mid := HandOut(ts, w, x);
      var next := mid.(s := SchedulerState.Completed(mid.s, x));
      ReachStep(ts, true, mid, Complete(x), next);
      w' := CompleteClosed(ts, next, all);
      assert next.s.completed + all == w.s.completed + all;
    } else {
      var p := NoSinkCycle(w.s.deps, left);
      assert OnCycle(w.s.deps, p[0]);
      w' := w;
    }
  }

  // Everything below the task that does not lead to `d`.
  ghost function Before(g: Graph, t: Id, d: Id): set<Id> {
    set x | x in g && Reaches(g, t, x) && !Reaches(g, x, d)
  }

  lemma BeforeClosed(g: Graph, t: Id, d: Id)
    requires Attainable(g, t) && LastTwice(g, t, d)
    ensures t != d && d in g && d !in Before(g, t, d) && t !in Before(g, t, d)
    ensures Closed(g, Before(g, t, d)) && forall x :: x in Before(g, t, d) ==> !OnCycle(g, x)
    ensures forall e :: e in g[t] && e != d ==> e in Before(g, t, d)
    ensures forall e :: e in g[d] ==> e in Before(g, t, d)
  {
    ReachesSelf(g, t);
    ReachesSelf(g, d);
    assert Edge(g, t, d);
    EdgeReaches(g, t, d, d);
    forall x, e | Reaches(g, t, x) && Edge(g, x, e)
      ensures Reaches(g, t, e) && e in g && (Reaches(g, e, d) ==> Reaches(g, x, d) && x != d)
    {
      ReachesNext(g, t, x, e);
      if Reaches(g, e, d) {
        EdgeReaches(g, x, e, d);
      }
    }
    forall e | e in g[t]
      ensures Edge(g, t, e)
    {
    }
    forall e | e in g[d]
      ensures Edge(g, d, e)
    {
    }
  }

  // Complete all that does not need the repeated dependency, then that one.
  lemma LastTwiceHandsOutTwice(ts: seq<Task>, t: Id, d: Id)
    requires UniqueIds(ts) && Attainable(GraphOf(ts), t) && LastTwice(GraphOf(ts), t, d)
    ensures HandsOutTwice(ts, true, t)
  {
    var g := GraphOf(ts);
    var w0 := Fill(ts, true, |ts|);
    assert ts[..|ts|] == ts;
    BeforeClosed(g, t, d);
    var w1 := CompleteClosed(ts, w0, Before(g, t, d));
    var w2 := HandOut(ts, w1, d);
    var w := CompleteLast(ts, true, w2, t, d);
  }

  // In a strict run tasks are handed out and completed after their dependencies.
  ghost predicate InOrder(w: World) {
    && (forall x :: x in w.handed ==> w.s.DepsDone(x))
    && exists done: seq<Id> :: DoneInOrder(w.s, done)
  }

  ghost predicate DoneInOrder(s: Sched, done: seq<Id>) {
    NoDup(done) && Elements(done) == s.completed && DependsFirst(s.deps, done)
  }

  lemma CompleteInOrder(s: Sched, done: seq<Id>, id: Id)
    requires DoneInOrder(s, done) && s.DepsDone(id) && id !in s.completed
    ensures DoneInOrder(SchedulerState.Completed(s, id), done + [id])
  {
    forall d | d in s.deps[id] || d == id
      ensures d in done <==> d in s.completed
    {
      assert d in done <==> d in Elements(done);
    }
    DependsFirstAppend(s.deps, done, id);
    assert Elements(done + [id]) == Elements(done) + {id};
  }

  lemma TakeInOrder(w: World, got: Option<Id>, w': World)
    requires Invariant(w) && InOrder(w) && Step(w, Take(got), w')
    ensures InOrder(w')
  {
    var done: seq<Id> :| DoneInOrder(w.s, done);
    assert DoneInOrder(w'.s, done);
    if got.Some? {
      var e :| PopsTo(w.s, w'.s, e) && e.id == got.value;
      assert Sound(w.s, e);
    }
  }

  lemma AddInOrder(w: World, t: Task)
    requires Invariant(w) && InOrder(w) && t.id !in w.s.tasks
    ensures InOrder(w.(s := Added(w.s, t)))
  {
    var done: seq<Id> :| DoneInOrder(w.s, done);
    var s' := Added(w.s, t);
    assert DependsFirst(s'.deps, done);
    assert DoneInOrder(s', done);
  }

  lemma InOrderStep(ts: seq<Task>, w: World, op: Op, w': World)
    requires Invariant(w) && InOrder(w) && Step(w, op, w') && StepOf(ts, true, w, op)
    ensures InOrder(w')
  {
    var done: seq<Id> :| DoneInOrder(w.s, done);
    match op
    case Complete(id) =>
      if id in w.s.tasks {
        CompleteInOrder(w.s, done, id);
      }
    case Take(got) => TakeInOrder(w, got, w');
    case Fail(id) =>
      assert DoneInOrder(w'.s, done);
    case _ =>
      if w' != w {
        AddInOrder(w, op.task);
      }
  }

  lemma DoneDeps(s: Sched, done: seq<Id>, x: Id)
    requires DoneInOrder(s, done) && x in s.completed
    ensures s.DepsDone(x)
  {
    assert x in Elements(done);
    var k :| 0 <= k < |done| && done[k] == x;
    forall d | d in s.deps[x]
      ensures d in s.completed
    {
      assert d in done[..k];
      assert d in Elements(done);
    }
  }

  lemma {:induction false} StrictInOrder(ts: seq<Task>, ws: seq<World>, ops: seq<Op>, i: nat)
    requires RunOf(ts, true, ws, ops) && i < |ws|
    ensures InOrder(ws[i])
    decreases i
  {
    if i == 0 {
      assert DoneInOrder(ws[0].s, []);
    } else {
      var j := i - 1;
      StrictInOrder(ts, ws, ops, j);
      RunKeeps(ws, ops, j);
      assert Step(ws[j], ops[j], ws[j + 1]) && StepOf(ts, true, ws[j], ops[j]);
      InOrderStep(ts, ws[j], ops[j], ws[j + 1]);
    }
  }

  // Along a path from a task whose dependencies are done, all the rest is done.
  lemma {:induction false} PathDone(g: Graph, s: Sched, done: seq<Id>, p: seq<Id>)
    requires Drawn(g, s) && DoneInOrder(s, done) && IsPath(g, p) && s.DepsDone(p[0])
    ensures forall i :: 1 <= i < |p| ==> p[i] in s.completed
  {
    if |p| > 1 {
      assert Edge(g, p[0], p[0 + 1]);
      DoneDeps(s, done, p[1]);
      SubPath(g, p, 1, |p|);
      PathDone(g, s, done, p[1..]);
      forall i | 1 <= i < |p|
        ensures p[i] in s.completed
      {
        assert i > 1 ==> p[i] == p[1..][i - 1];
      }
    }
  }

  lemma DoneOnNoCycle(g: Graph, s: Sched, done: seq<Id>, x: Id)
    requires Drawn(g, s) && DoneInOrder(s, done) && s.DepsDone(x)
    ensures !OnCycle(g, x)
  {
    if p :| IsCycle(g, p) && p[0] == x {
      PathDone(g, s, done, p);
      assert p[|p| - 1] in Elements(done);
      var k :| 0 <= k < |done| && done[k] == x;
      forall i | 0 <= i < |p|
        ensures p[i] in g
      {
        assert p[if i == 0 then |p| - 1 else i] in Elements(done);
      }
      PathDescends(g, done, p, k);
      assert false;
    }
  }

  lemma HandedAttainable(g: Graph, w: World, t: Id)
    requires Drawn(g, w.s) && InOrder(w) && t in w.handed
    ensures Attainable(g, t)
  {
    var done: seq<Id> :| DoneInOrder(w.s, done);
    forall x | Reaches(g, t, x)
      ensures x in g && !OnCycle(g, x)
    {
      var p :| IsPath(g, p) && p[0] == t && p[|p| - 1] == x;
      PathDone(g, w.s, done, p);
      if x != t {
        DoneDeps(w.s, done, x);
      }
      DoneOnNoCycle(g, w.s, done, x);
    }
  }

  lemma SingleUnlessLastTwice(g: Graph, w: World, id: Id, t: Id)
    requires Drawn(g, w.s) && InOrder(w) && id !in w.s.completed && !LastTwice(g, t, id)
    ensures Single(w, Complete(id), t)
  {
    if id in w.s.tasks && t in w.s.deps && Readies(w.s, id, t) && Count(w.s.deps[t], id) > 1 {
      var done: seq<Id> :| DoneInOrder(w.s, done);
      var e :| e in g[t] && e != id && Reaches(g, e, id);
      var p :| IsPath(g, p) && p[0] == e && p[|p| - 1] == id;
      assert e in SchedulerState.Completed(w.s, id).completed;
      DoneDeps(w.s, done, e);
      PathDone(g, w.s, done, p);
    }
  }

  lemma OnceUnlessLastTwice(ts: seq<Task>, t: Id, ws: seq<World>, ops: seq<Op>)
    requires UniqueIds(ts) && RunOf(ts, true, ws, ops)
    requires forall d :: !LastTwice(GraphOf(ts), t, d)
    ensures ws[|ops|].handed[t] <= 1
  {
    forall k | 0 <= k < |ops|
      ensures Single(ws[k], ops[k], t)
    {
      RunDrawn(ts, true, ws, ops, k);
      StrictInOrder(ts, ws, ops, k);
      assert StepOf(ts, true, ws[k], ops[k]);
      if ops[k].Complete? {
        SingleUnlessLastTwice(GraphOf(ts), ws[k], ops[k].id, t);
      }
    }
    OnceRun(ws, ops, t, |ops|);
  }

  // Some run that completes only handed-out tasks hands `t` out twice exactly when `t` can
  // be reached and names a dependency twice to which none of its others leads.
  lemma HandedTwiceStrictly(ts: seq<Task>, t: Id)
    requires UniqueIds(ts)
    ensures HandsOutTwice(ts, true, t) <==>
              Attainable(GraphOf(ts), t) && exists d :: LastTwice(GraphOf(ts), t, d)
  {
    var g := GraphOf(ts);
    if d :| Attainable(g, t) && LastTwice(g, t, d) {
      LastTwiceHandsOutTwice(ts, t, d);
    } else if w :| Reachable(ts, true, w) && w.handed[t] >= 2 {
      var ws, ops :| RunOf(ts, true, ws, ops) && ws[|ops|] == w;
      RunDrawn(ts, true, ws, ops, |ops|);
      StrictInOrder(ts, ws, ops, |ops|);
      HandedAttainable(g, w, t);
      OnceUnlessLastTwice(ts, t, ws, ops);
    }
  }
}
