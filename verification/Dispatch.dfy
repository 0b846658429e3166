/** Runs of the scheduler: any interleaving of additions, hand-outs, completions and failures. */
module Dispatch {
  import opened Wrappers
  import opened Sequences
  import opened Graphs
  import opened SchedulerState

  // Additions use fresh ids; `handed` counts how often each id was handed out.

  datatype World = World(s: Sched, handed: multiset<Id>)

  datatype Op =
    | Add(task: Task)
    | AddUnchecked(task: Task)
    | Take(got: Option<Id>)
    | Complete(id: Id)
    | Fail(id: Id)

  const START := World(EMPTY, multiset{})

  ghost predicate Step(w: World, op: Op, w': World) {
    match op
    case Add(t) =>
      t.id !in w.s.tasks
      && w' == if AllIn(t.dependencies, w.s.tasks.Keys) then w.(s := Added(w.s, t)) else w
    case AddUnchecked(t) =>
      t.id !in w.s.tasks && w' == w.(s := Added(w.s, t))
    case Take(got) =>
      Next(w.s, w'.s, got)
      && w'.handed == w.handed + if got.Some? then multiset{got.value} else multiset{}
    case Complete(id) =>
      w' == if id in w.s.tasks then w.(s := Completed(w.s, id)) else w
    case Fail(id) =>
      w' == if id in w.s.tasks then w.(s := Failed(w.s, id)) else w
  }

  ghost predicate IsRun(ws: seq<World>, ops: seq<Op>) {
    && |ws| == |ops| + 1 && ws[0] == START
    && forall i :: 0 <= i < |ops| ==> Step(ws[i], ops[i], ws[i + 1])
  }

  // A queued entry is a task whose dependencies are done, under its own priority.
  ghost predicate Sound(s: Sched, e: Entry) {
    e.id in s.tasks && e == EntryFor(s, e.id) && s.DepsDone(e.id)
  }

  // A live task with all dependencies done that was never handed out.
  ghost predicate Waiting(w: World, t: Id) {
    t in w.s.tasks && w.s.DepsDone(t) && w.s.Live(t) && w.handed[t] == 0
  }

  ghost predicate Recorded(s: Sched, t: Id) {
    t in s.tasks && t in s.deps && s.tasks[t].id == t && s.tasks[t].dependencies == s.deps[t]
  }

  // The registry and the graph agree on each task.
  ghost predicate Records(s: Sched) {
    forall t {:trigger Recorded(s, t)} :: t in s.tasks ==> Recorded(s, t)
  }

  ghost predicate Indexed(w: World) {
    && w.s.deps.Keys == w.s.tasks.Keys
    && Records(w.s)
    && w.s.completed <= w.s.tasks.Keys && w.s.failed <= w.s.tasks.Keys
    && (forall t :: t in w.handed ==> t in w.s.tasks)
    && Mirrored(w.s)
  }

  ghost predicate QueueExact(w: World) {
    && (forall e :: e in w.s.queue ==> Sound(w.s, e))
    && (forall t :: Waiting(w, t) ==> EntryFor(w.s, t) in w.s.queue)
  }

  ghost predicate Invariant(w: World) {
    Indexed(w) && QueueExact(w)
  }

  lemma SameRecords(s: Sched, s': Sched)
    requires Records(s) && s'.tasks == s.tasks && s'.deps == s.deps
    ensures Records(s')
  {
    forall t | t in s'.tasks
      ensures Recorded(s', t)
    {
      assert Recorded(s, t);
    }
  }

  // What adding `t` under a fresh id does outside the reverse index.
  ghost predicate Adds(s: Sched, t: Task, s': Sched) {
    && t.id !in s.tasks
    && s'.deps == s.deps[t.id := t.dependencies] && s'.tasks == s.tasks[t.id := t]
    && s'.completed == s.completed && s'.failed == s.failed
    && s'.queue == if AllIn(t.dependencies, s.completed)
                   then s.queue + multiset{Entry(t.priority, t.id)} else s.queue
  }

  lemma AddKeepsQueue(w: World, t: Task, w': World)
    requires Invariant(w) && Adds(w.s, t, w'.s) && w'.handed == w.handed
    ensures QueueExact(w')
  {
    forall e | e in w'.s.queue
      ensures Sound(w'.s, e)
    {
      if e in w.s.queue {
        assert Sound(w.s, e);
      }
    }
    forall u | Waiting(w', u)
      ensures EntryFor(w'.s, u) in w'.s.queue
    {
      if u != t.id {
        assert Waiting(w, u);
      }
    }
  }

  lemma AddKeeps(w: World, t: Task)
    requires Invariant(w) && t.id !in w.s.tasks
    ensures Invariant(w.(s := Added(w.s, t)))
  {
    AddedMirrored(w.s, t);
    forall u | u in Added(w.s, t).tasks
      ensures Recorded(Added(w.s, t), u)
    {
      assert u != t.id ==> Recorded(w.s, u);
    }
    AddKeepsQueue(w, t, w.(s := Added(w.s, t)));
  }

  lemma CompleteKeeps(w: World, id: Id)
    requires Invariant(w) && id in w.s.tasks
    ensures Invariant(w.(s := Completed(w.s, id)))
  {
    var s, s' := w.s, Completed(w.s, id);
    var w' := w.(s := s');
    SameRecords(s, s');
    forall e | e in s'.queue
      ensures Sound(s', e)
    {
      CompletedQueue(s, id, e);
      if e in s.queue {
        assert Sound(s, e);
      }
    }
    forall t | Waiting(w', t)
      ensures EntryFor(s', t) in s'.queue
    {
      CompletedQueue(s, id, EntryFor(s, t));
      if s.DepsDone(t) {
        assert Waiting(w, t);
      } else {
        assert id in s.deps[t];
        assert Mentions(s.deps, t, id) > 0;
      }
    }
  }

  lemma TakeKeeps(w: World, w': World, got: Option<Id>)
    requires Invariant(w) && Step(w, Take(got), w')
    ensures Invariant(w')
  {
    SameRecords(w.s, w'.s);
    TakeKeepsQueue(w, w', got);
    if got.Some? {
      var e :| PopsTo(w.s, w'.s, e) && e.id == got.value;
      assert Sound(w.s, e);
    }
  }

  lemma TakeKeepsQueue(w: World, w': World, got: Option<Id>)
    requires QueueExact(w) && Step(w, Take(got), w')
    ensures QueueExact(w')
  {
    var s, s' := w.s, w'.s;
    forall e | e in s'.queue
      ensures Sound(s', e)
    {
      assert e in s.queue;
      assert Sound(s, e);
    }
    forall t | Waiting(w', t)
      ensures EntryFor(s', t) in s'.queue
    {
      assert Waiting(w, t);
      var x := EntryFor(s, t);
      assert x in s.queue && s.Live(x.id);
      var e :| PopsTo(s, s', e) && e.id == got.value;
      assert x.AtMost(e);
    }
  }

  lemma FailKeeps(w: World, id: Id)
    requires Invariant(w) && id in w.s.tasks
    ensures Invariant(w.(s := Failed(w.s, id)))
  {
    var s, s' := w.s, Failed(w.s, id);
    SameRecords(s, s');
    forall e | e in s'.queue
      ensures Sound(s', e)
    {
      assert Sound(s, e);
    }
    forall t | Waiting(w.(s := s'), t)
      ensures EntryFor(s', t) in s'.queue
    {
      assert Waiting(w, t);
    }
  }

  lemma StepKeeps(w: World, op: Op, w': World)
    requires Invariant(w) && Step(w, op, w')
    ensures Invariant(w')
  {
    if w' != w {
      match op
      case Add(t) => AddKeeps(w, t);
      case AddUnchecked(t) => AddKeeps(w, t);
      case Take(got) => TakeKeeps(w, w', got);
      case Complete(id) => CompleteKeeps(w, id);
      case Fail(id) => FailKeeps(w, id);
    }
  }

  // Every state of every run satisfies the invariant.
  lemma {:induction false} RunKeeps(ws: seq<World>, ops: seq<Op>, i: nat)
    requires IsRun(ws, ops) && i < |ws|
    ensures Invariant(ws[i])
    decreases i
  {
    if i > 0 {
      RunKeeps(ws, ops, i - 1);
      StepKeeps(ws[i - 1], ops[i - 1], ws[i - 1 + 1]);
    }
  }

  // A task neither completed nor failed, all of whose dependencies are completed.
  ghost predicate Ready(s: Sched, t: Id) {
    && t in s.tasks && t !in s.completed && t !in s.failed
    && forall d :: d in s.tasks[t].dependencies ==> d in s.completed
  }

  // Dispatch safety: an id handed out is a ready task, and no ready task never handed out
  // has a higher priority, or the same priority and a greater id.
  lemma DispatchSafe(ws: seq<World>, ops: seq<Op>, i: nat, id: Id)
    requires IsRun(ws, ops) && i < |ops| && ops[i] == Take(Some(id))
    ensures var s := ws[i].s;
            && Ready(s, id)
            && forall t :: Ready(s, t) && ws[i].handed[t] == 0 ==>
                  MayPrecede(s.tasks[id].priority, id, s.tasks[t].priority, t)
  {
    RunKeeps(ws, ops, i);
    var s := ws[i].s;
    assert Step(ws[i], ops[i], ws[i + 1]);
    var e :| PopsTo(s, ws[i + 1].s, e) && e.id == id;
    assert Sound(s, e) && Recorded(s, id);
    forall t | Ready(s, t) && ws[i].handed[t] == 0
      ensures MayPrecede(s.tasks[id].priority, id, s.tasks[t].priority, t)
    {
      assert Recorded(s, t);
      assert Waiting(ws[i], t);
      var x := EntryFor(s, t);
      assert x in s.queue && s.Live(x.id);
      assert x.AtMost(e);
    }
  }

  // What a completion reports: each task that is ready now and names the completed one, as
  // often as it names it.
  lemma CompletionReports(ws: seq<World>, ops: seq<Op>, i: nat, id: Id, t: Id)
    requires IsRun(ws, ops) && i < |ws| && id in ws[i].s.tasks
    ensures Count(UnblockedBy(ws[i].s, id), t)
         == if Ready(Completed(ws[i].s, id), t) then Count(ws[i].s.tasks[t].dependencies, id) else 0
    ensures Completed(ws[i].s, id).completed == ws[i].s.completed + {id}
  {
    RunKeeps(ws, ops, i);
    var s := ws[i].s;
    UnblockedMembers(s.(completed := s.completed + {id}), Lookup(s.dependents, id), t);
    assert Mentions(s.dependents, id, t) == Mentions(s.deps, t, id);
    assert t in s.tasks ==> Recorded(s, t);
  }

  // Nothing can be handed out, and nothing handed out is unresolved.
  ghost predicate Stuck(w: World) {
    && (forall t :: t in w.handed ==> t in w.s.completed || t in w.s.failed)
    && (forall e :: e in w.s.queue ==> !w.s.Live(e.id))
  }

  // Why a task can never run: a failed task, an unknown one or a cycle.
  ghost predicate Obstacle(s: Sched, t: Id) {
    || (t in s.failed && t !in s.completed)
    || t !in s.tasks
    || (exists p :: IsCycle(s.deps, p) && p[0] == t)
  }

  // No deadlock: when next_task returns nothing and nothing is outstanding, every
  // task neither completed nor failed depends, through some chain, on an obstacle;
  // with all dependencies registered and no cycle, on a failed task.
  lemma NoDeadlock(ws: seq<World>, ops: seq<Op>, i: nat, t: Id)
    requires IsRun(ws, ops) && i < |ops| && ops[i] == Take(None)
    requires forall h :: h in ws[i].handed ==> h in ws[i].s.completed || h in ws[i].s.failed
    requires t in ws[i].s.tasks && ws[i].s.Live(t)
    ensures exists d :: Reaches(ws[i].s.deps, t, d) && Obstacle(ws[i].s, d)
    ensures !Cyclic(ws[i].s.deps) && Registered(ws[i].s.deps)
            ==> exists d :: Reaches(ws[i].s.deps, t, d) && d in ws[i].s.failed && d !in ws[i].s.completed
  {
    RunKeeps(ws, ops, i);
    assert Step(ws[i], ops[i], ws[i + 1]);
    var d := StuckBlames(ws[i], t);
  }

  lemma StuckBlames(w: World, t: Id) returns (d: Id)
    requires Invariant(w) && Stuck(w) && t in w.s.tasks && w.s.Live(t)
    ensures Reaches(w.s.deps, t, d) && Obstacle(w.s, d)
    ensures !Cyclic(w.s.deps) && Registered(w.s.deps) ==> d in w.s.failed && d !in w.s.completed
  {
    var p := Blame(w, [t]);
    d := p[|p| - 1];
    assert Registered(w.s.deps) ==> d in w.s.tasks by {
      assert Edge(w.s.deps, p[|p| - 2], p[|p| - 2 + 1]);
    }
  }

  // A live task of a stuck scheduler has a dependency that is not completed.
  lemma Unmet(w: World, t: Id) returns (d: Id)
    requires Invariant(w) && Stuck(w) && t in w.s.tasks && w.s.Live(t)
    ensures Edge(w.s.deps, t, d) && d !in w.s.completed
  {
    assert !Waiting(w, t) by {
      assert EntryFor(w.s, t).id == t;
    }
    d :| d in w.s.deps[t] && d !in w.s.completed;
  }

  lemma PathAppend(g: Graph, p: seq<Id>, d: Id)
    requires IsPath(g, p) && Edge(g, p[|p| - 1], d)
    ensures IsPath(g, p + [d])
  {
    var q := p + [d];
    forall k | 0 <= k < |q| - 1
      ensures Edge(g, q[k], q[k + 1])
    {
      if k < |p| - 1 {
        assert Edge(g, p[k], p[k + 1]);
      }
    }
  }

  lemma FitsIn(p: seq<Id>, s: set<Id>)
    requires NoDup(p) && forall k :: 0 <= k < |p| ==> p[k] in s
    ensures |p| <= |s|
  {
    NoDupSize(p);
    SubsetSize(Elements(p), s);
  }

  // Follows unmet dependencies from the end of `path` until an obstacle.
  lemma {:induction false} Blame(w: World, path: seq<Id>) returns (p: seq<Id>)
    requires Invariant(w) && Stuck(w)
    requires IsPath(w.s.deps, path) && NoDup(path)
    requires forall k :: 0 <= k < |path| ==> path[k] in w.s.tasks.Keys && w.s.Live(path[k])
    ensures IsPath(w.s.deps, p) && p[0] == path[0] && Obstacle(w.s, p[|p| - 1]) && |p| > 1
    decreases |w.s.tasks| - |path|
  {
    FitsIn(path, w.s.tasks.Keys);
    var d := Unmet(w, path[|path| - 1]);
    PathAppend(w.s.deps, path, d);
    p := path + [d];
    if k :| 0 <= k < |path| && path[k] == d {
      SubPath(w.s.deps, p, k, |p|);
      assert IsCycle(w.s.deps, p[k..|p|]) && p[k..|p|][0] == d;
    } else if d in w.s.tasks && w.s.Live(d) {
      FitsIn(p, w.s.tasks.Keys);
      p := Blame(w, p);
    }
  }

  // Queued copies and hand-outs of a task together never exceed one, and there are
  // none before its dependencies are done.
  ghost predicate Once(w: World, t: Id) {
    w.s.queue[EntryFor(w.s, t)] + w.handed[t] <= if w.s.DepsDone(t) then 1 else 0
  }

  // A step that does not queue `t` twice: the completion that makes it ready is the first
  // of its kind, and `t` names that dependency once.
  ghost predicate Single(w: World, op: Op, t: Id) {
    op.Complete? && op.id in w.s.tasks && t in w.s.deps && op.id in w.s.deps[t] ==>
      op.id !in w.s.completed && (Readies(w.s, op.id, t) ==> Count(w.s.deps[t], op.id) <= 1)
  }

  ghost predicate Readies(s: Sched, id: Id, t: Id) {
    Completed(s, id).DepsDone(t) && Completed(s, id).Live(t)
  }

  lemma AddOnce(w: World, t: Task, w': World, u: Id)
    requires Invariant(w) && Once(w, u) && Adds(w.s, t, w'.s) && w'.handed == w.handed
    ensures Once(w', u)
  {
    var e := EntryFor(w'.s, u);
    assert e in w.s.queue ==> Sound(w.s, e);
  }

  lemma TakeOnce(w: World, got: Option<Id>, w': World, u: Id)
    requires Invariant(w) && Once(w, u) && Step(w, Take(got), w')
    ensures Once(w', u)
  {
    if got.Some? {
      var e :| PopsTo(w.s, w'.s, e) && e.id == got.value;
      assert Sound(w.s, e);
      assert w'.s.queue[EntryFor(w.s, u)] <= w.s.queue[EntryFor(w.s, u)];
    }
  }

  lemma CompleteOnce(w: World, id: Id, u: Id)
    requires Invariant(w) && Once(w, u) && id in w.s.tasks && Single(w, Complete(id), u)
    ensures Once(w.(s := Completed(w.s, id)), u)
  {
    CompletedQueue(w.s, id, EntryFor(w.s, u));
  }

  lemma OnceStep(w: World, op: Op, w': World, u: Id)
    requires Invariant(w) && Once(w, u) && Step(w, op, w') && Single(w, op, u)
    ensures Once(w', u)
  {
    if w' != w {
      match op
      case Add(t) => AddOnce(w, t, w', u);
      case AddUnchecked(t) => AddOnce(w, t, w', u);
      case Take(got) => TakeOnce(w, got, w', u);
      case Complete(id) => CompleteOnce(w, id, u);
      case Fail(id) =>
    }
  }

  lemma {:induction false} OnceRun(ws: seq<World>, ops: seq<Op>, t: Id, i: nat)
    requires IsRun(ws, ops) && i < |ws|
    requires forall k :: 0 <= k < |ops| ==> Single(ws[k], ops[k], t)
    ensures Once(ws[i], t)
    decreases i
  {
    if i > 0 {
      RunKeeps(ws, ops, i - 1);
      OnceRun(ws, ops, t, i - 1);
      OnceStep(ws[i - 1], ops[i - 1], ws[i - 1 + 1], t);
    }
  }

  // Runs in which tasks name each dependency once and are completed at most once.
  ghost predicate Disciplined(ws: seq<World>, ops: seq<Op>)
    requires IsRun(ws, ops)
  {
    forall i :: 0 <= i < |ops| ==> Orderly(ws[i], ops[i])
  }

  ghost predicate Orderly(w: World, op: Op) {
    match op
    case Add(t) => NoDup(t.dependencies)
    case AddUnchecked(t) => NoDup(t.dependencies)
    case Complete(id) => id !in w.s.completed
    case _ => true
  }

  lemma NoDupCount(s: seq<Id>, x: Id)
    requires NoDup(s)
    ensures Count(s, x) <= 1
  {
    if x in s {
      var i :| 0 <= i < |s| && s[i] == x;
      assert s == s[..i] + [x] + s[i + 1..];
      assert x !in s[..i] && x !in s[i + 1..];
    }
  }

  lemma {:induction false} DistinctRun(ws: seq<World>, ops: seq<Op>, i: nat, t: Id)
    requires IsRun(ws, ops) && Disciplined(ws, ops) && i < |ws| && t in ws[i].s.deps
    ensures NoDup(ws[i].s.deps[t])
    decreases i
  {
    if i > 0 {
      assert Step(ws[i - 1], ops[i - 1], ws[i - 1 + 1]) && Orderly(ws[i - 1], ops[i - 1]);
      if t in ws[i - 1].s.deps {
        DistinctRun(ws, ops, i - 1, t);
      }
    }
  }

  // No task is handed out twice.
  lemma HandedOnce(ws: seq<World>, ops: seq<Op>, t: Id)
    requires IsRun(ws, ops) && Disciplined(ws, ops)
    ensures ws[|ops|].handed[t] <= 1
  {
    forall k | 0 <= k < |ops|
      ensures Single(ws[k], ops[k], t)
    {
      assert Orderly(ws[k], ops[k]);
      if t in ws[k].s.deps && ops[k].Complete? {
        DistinctRun(ws, ops, k, t);
        NoDupCount(ws[k].s.deps[t], ops[k].id);
      }
    }
    OnceRun(ws, ops, t, |ops|);
  }
}
