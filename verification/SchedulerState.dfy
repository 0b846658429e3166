/** The scheduler's state as a value and what each scheduler operation does to it. */
module SchedulerState {
  import opened Wrappers
  import opened Graphs

  datatype Priority = Low | Normal | High | Critical {
    function Rank(): nat {
      match this
      case Low => 0
      case Normal => 1
      case High => 2
      case Critical => 3
    }
  }

  datatype Task = Task(id: Id, priority: Priority, dependencies: seq<Id>, retryCount: nat)

  // A ready-queue entry; entries are ordered by priority and then by task id.
  datatype Entry = Entry(priority: Priority, id: Id) {
    predicate AtMost(that: Entry) {
      priority.Rank() < that.priority.Rank() || (priority == that.priority && id <= that.id)
    }
  }

  // A task of priority p and id t may be handed out while one of priority q and id u waits:
  // no higher priority is passed over, and within one priority no greater id is.
  ghost predicate MayPrecede(p: Priority, t: Id, q: Priority, u: Id) {
    && (q == Critical ==> p == Critical)
    && (q == High ==> p == Critical || p == High)
    && (q == Normal ==> p != Low)
    && (q == p ==> u <= t)
  }

  datatype Sched = Sched(
    queue: multiset<Entry>,
    deps: Graph,
    dependents: Graph,
    tasks: map<Id, Task>,
    completed: set<Id>,
    failed: set<Id>)
  {
    predicate Live(id: Id) {
      id !in completed && id !in failed
    }

    predicate DepsDone(id: Id) {
      id in deps && AllIn(deps[id], completed)
    }

    ghost predicate IsComplete() {
      forall id :: id in tasks ==> id in completed
    }
  }

  const EMPTY := Sched(multiset{}, map[], map[], map[], {}, {})

  function Lookup(m: Graph, k: Id): seq<Id> {
    if k in m then m[k] else []
  }

  predicate AllIn(ds: seq<Id>, done: set<Id>) {
    forall d :: d in ds ==> d in done
  }

  // Records `id` under each dependency in turn, once per mention.
  function Link(m: Graph, ds: seq<Id>, id: Id): Graph {
    if ds == [] then m
    else
      var m' := Link(m, ds[..|ds| - 1], id);
      var d := ds[|ds| - 1];
      m'[d := Lookup(m', d) + [id]]
  }

  // add_task_no_check
  function Added(s: Sched, t: Task): Sched {
    s.(deps := s.deps[t.id := t.dependencies],
       dependents := Link(s.dependents, t.dependencies, t.id),
       queue := if AllIn(t.dependencies, s.completed)
                then s.queue + multiset{Entry(t.priority, t.id)} else s.queue,
       tasks := s.tasks[t.id := t])
  }

  // The tasks among `waiting`, in order and once per mention, that are now ready.
  function Unblocked(s: Sched, waiting: seq<Id>): seq<Id> {
    if waiting == [] then []
    else
      var rest := Unblocked(s, waiting[..|waiting| - 1]);
      var t := waiting[|waiting| - 1];
      if s.DepsDone(t) && s.Live(t) then rest + [t] else rest
  }

  function EntryFor(s: Sched, id: Id): Entry {
    Entry(if id in s.tasks then s.tasks[id].priority else Normal, id)
  }

  function Entries(s: Sched, ids: seq<Id>): multiset<Entry> {
    if ids == [] then multiset{}
    else Entries(s, ids[..|ids| - 1]) + multiset{EntryFor(s, ids[|ids| - 1])}
  }

  // The tasks a completion of `id` makes ready.
  function UnblockedBy(s: Sched, id: Id): seq<Id> {
    Unblocked(s.(completed := s.completed + {id}), Lookup(s.dependents, id))
  }

  // complete_task on a known task
  function Completed(s: Sched, id: Id): Sched {
    var s1 := s.(completed := s.completed + {id});
    s1.(queue := s.queue + Entries(s1, UnblockedBy(s, id)))
  }

  // fail_task on a known task
  function Failed(s: Sched, id: Id): Sched {
    s.(failed := s.failed + {id})
  }

  // next_task hands out the greatest live entry and drops it with every entry above
  // it; with no live entry the queue is emptied.
  ghost predicate Next(s: Sched, s': Sched, r: Option<Id>) {
    && s' == s.(queue := s'.queue)
    && match r
       case None => s'.queue == multiset{} && forall e :: e in s.queue ==> !s.Live(e.id)
       case Some(id) => exists e :: PopsTo(s, s', e) && e.id == id
  }

  ghost predicate PopsTo(s: Sched, s': Sched, e: Entry) {
    && e in s.queue && s.Live(e.id)
    && (forall x :: x in s.queue && s.Live(x.id) ==> x.AtMost(e))
    && (forall x :: s'.queue[x] == if x == e then s.queue[x] - 1
                                   else if x.AtMost(e) then s.queue[x] else 0)
  }

  predicate Greatest(q: multiset<Entry>, e: Entry) {
    e in q && forall x :: x in q ==> x.AtMost(e)
  }

  lemma {:induction false} GreatestExists(q: multiset<Entry>)
    requires q != multiset{}
    ensures exists e :: Greatest(q, e)
    decreases |q|
  {
    var y :| y in q;
    var q' := q - multiset{y};
    if q' == multiset{} {
      forall x | x in q ensures x == y {
        assert x !in q';
      }
      assert Greatest(q, y);
    } else {
      GreatestExists(q');
      var e :| Greatest(q', e);
      var m := if y.AtMost(e) then e else y;
      forall x | x in q
        ensures x.AtMost(m)
      {
        assert x == y || x in q';
      }
      assert Greatest(q, m);
    }
  }

  // What is left of the queue while dead entries are popped: every missing entry was
  // dead and bounds all that remain.
  ghost predicate Draining(s: Sched, q: multiset<Entry>) {
    forall x :: q[x] == s.queue[x] || (q[x] < s.queue[x] && !s.Live(x.id) && Bounds(q, x))
  }

  ghost predicate Bounds(q: multiset<Entry>, e: Entry) {
    forall x :: x in q ==> x.AtMost(e)
  }

  lemma DropDead(s: Sched, q: multiset<Entry>, e: Entry)
    requires Draining(s, q) && Greatest(q, e) && !s.Live(e.id)
    ensures Draining(s, q - multiset{e})
  {
    var q' := q - multiset{e};
    assert Bounds(q', e);
    forall x
      ensures q'[x] == s.queue[x] || (q'[x] < s.queue[x] && !s.Live(x.id) && Bounds(q', x))
    {
      assert q[x] == s.queue[x] || Bounds(q, x);
    }
  }

  lemma GreatestLive(s: Sched, q: multiset<Entry>, e: Entry)
    requires Draining(s, q) && Greatest(q, e) && s.Live(e.id)
    ensures PopsTo(s, s.(queue := q - multiset{e}), e)
  {
    var q' := q - multiset{e};
    assert q[e] == s.queue[e];
    forall x
      ensures x in s.queue && s.Live(x.id) ==> x.AtMost(e)
      ensures q'[x] == if x == e then s.queue[x] - 1 else if x.AtMost(e) then s.queue[x] else 0
    {
      assert q[x] == s.queue[x] || Bounds(q, x);
      assert x in q ==> x.AtMost(e);
    }
  }

  // An entry of this id is neither completed nor failed, and comes before all such entries;
  // or there is none.
  ghost predicate HandsOut(queue: multiset<Entry>, completed: set<Id>, failed: set<Id>, r: Option<Id>) {
    match r
    case None => forall e :: e in queue ==> e.id in completed || e.id in failed
    case Some(id) =>
      && id !in completed && id !in failed
      && exists e :: e in queue && e.id == id && Foremost(queue, completed, failed, e)
  }

  ghost predicate Foremost(queue: multiset<Entry>, completed: set<Id>, failed: set<Id>, e: Entry) {
    forall x :: x in queue && x.id !in completed && x.id !in failed ==>
      MayPrecede(e.priority, e.id, x.priority, x.id)
  }

  lemma NextHandsOut(s: Sched, s': Sched, r: Option<Id>)
    requires Next(s, s', r)
    ensures HandsOut(s.queue, s.completed, s.failed, r)
  {
    if r.Some? {
      var e :| PopsTo(s, s', e) && e.id == r.value;
      forall x | x in s.queue && s.Live(x.id)
        ensures MayPrecede(e.priority, e.id, x.priority, x.id)
      {
        assert x.AtMost(e);
      }
      assert Foremost(s.queue, s.completed, s.failed, e);
    }
  }

  // next_task always has an outcome.
  lemma {:induction false} NextExists(s: Sched, q: multiset<Entry>) returns (s': Sched, r: Option<Id>)
    requires Draining(s, q)
    ensures Next(s, s', r)
    decreases |q|
  {
    if q == multiset{} {
      s', r := s.(queue := q), None;
      assert forall e :: e in s.queue ==> q[e] != s.queue[e];
    } else {
      GreatestExists(q);
      var e :| Greatest(q, e);
      if s.Live(e.id) {
        GreatestLive(s, q, e);
        s', r := s.(queue := q - multiset{e}), Some(e.id);
      } else {
        DropDead(s, q, e);
        s', r := NextExists(s, q - multiset{e});
      }
    }
  }

  // The reverse index lists t under d exactly as often as t names d as a dependency.
  ghost predicate Mirrored(s: Sched) {
    Mirrors(s.dependents, s.deps)
  }

  ghost predicate Mirrors(dependents: Graph, deps: Graph) {
    forall d, t :: Mentions(dependents, d, t) == Mentions(deps, t, d)
  }

  // How often the list under `k` mentions `x`.
  function Mentions(m: Graph, k: Id, x: Id): nat {
    Count(Lookup(m, k), x)
  }

  function Count(s: seq<Id>, x: Id): nat {
    multiset(s)[x]
  }

  lemma CountAppend(s: seq<Id>, y: Id, x: Id)
    ensures Count(s + [y], x) == Count(s, x) + if x == y then 1 else 0
  {
    assert multiset(s + [y]) == multiset(s) + multiset{y};
  }

  lemma {:induction false} LinkCount(m: Graph, ds: seq<Id>, id: Id, d: Id, t: Id)
    ensures Mentions(Link(m, ds, id), d, t) == Mentions(m, d, t) + if t == id then Count(ds, d) else 0
  {
    if ds != [] {
      var ds', e := ds[..|ds| - 1], ds[|ds| - 1];
      LinkCount(m, ds', id, d, t);
      assert ds == ds' + [e];
      CountAppend(ds', e, d);
      CountAppend(Lookup(Link(m, ds', id), d), id, t);
    }
  }

  // Adding a task keeps the reverse index exact exactly when no earlier task under the
  // same id had dependencies: those would stay listed.
  lemma AddedMirroredExactly(s: Sched, t: Task)
    requires Mirrored(s)
    ensures Mirrored(Added(s, t)) <==> Lookup(s.deps, t.id) == []
  {
    var s' := Added(s, t);
    var earlier := Lookup(s.deps, t.id);
    forall d, u
      ensures Mentions(s'.dependents, d, u) == Mentions(s'.deps, u, d) + if u == t.id then Count(earlier, d) else 0
    {
      LinkCount(s.dependents, t.dependencies, t.id, d, u);
      assert Mentions(s.dependents, d, u) == Mentions(s.deps, u, d);
    }
    if earlier != [] {
      var d := earlier[0];
      assert d in earlier && Count(earlier, d) > 0;
      assert Mentions(s'.dependents, d, t.id) != Mentions(s'.deps, t.id, d);
    } else {
      assert forall d :: Count(earlier, d) == 0;
    }
  }

  // In particular under an unused id.
  lemma AddedMirrored(s: Sched, t: Task)
    requires Mirrored(s) && t.id !in s.deps
    ensures Mirrored(Added(s, t))
  {
    AddedMirroredExactly(s, t);
  }

  lemma UnblockedNext(s: Sched, waiting: seq<Id>, i: nat)
    requires i < |waiting|
    ensures Unblocked(s, waiting[..i + 1])
         == Unblocked(s, waiting[..i]) + if s.DepsDone(waiting[i]) && s.Live(waiting[i]) then [waiting[i]] else []
  {
    assert waiting[..i + 1][..i] == waiting[..i];
  }

  lemma EntriesNext(s: Sched, ids: seq<Id>, t: Id)
    ensures Entries(s, ids + [t]) == Entries(s, ids) + multiset{EntryFor(s, t)}
  {
    assert (ids + [t])[..|ids|] == ids;
  }

  lemma {:induction false} UnblockedMembers(s: Sched, waiting: seq<Id>, t: Id)
    ensures Count(Unblocked(s, waiting), t)
         == if s.DepsDone(t) && s.Live(t) then Count(waiting, t) else 0
  {
    if waiting != [] {
      var w, u := waiting[..|waiting| - 1], waiting[|waiting| - 1];
      UnblockedMembers(s, w, t);
      assert waiting == w + [u];
      CountAppend(w, u, t);
      CountAppend(Unblocked(s, w), u, t);
    }
  }

  lemma {:induction false} EntriesCount(s: Sched, ids: seq<Id>, e: Entry)
    ensures Entries(s, ids)[e] == if e == EntryFor(s, e.id) then Count(ids, e.id) else 0
  {
    if ids != [] {
      var r, u := ids[..|ids| - 1], ids[|ids| - 1];
      EntriesCount(s, r, e);
      assert ids == r + [u];
      CountAppend(r, u, e.id);
    }
  }

  // What a completion adds to the ready queue, entry by entry: each live task whose
  // dependencies are now all done, as often as it names the completed one.
  lemma CompletedQueue(s: Sched, id: Id, e: Entry)
    requires Mirrored(s)
    ensures Completed(s, id).queue[e] == s.queue[e]
         + (if e == EntryFor(s, e.id) && Completed(s, id).DepsDone(e.id) && Completed(s, id).Live(e.id)
            then Mentions(s.deps, e.id, id) else 0)
  {
    var s1 := s.(completed := s.completed + {id});
    UnblockedMembers(s1, Lookup(s.dependents, id), e.id);
    EntriesCount(s1, UnblockedBy(s, id), e);
    assert Mentions(s.dependents, id, e.id) == Mentions(s.deps, e.id, id);
  }
}
