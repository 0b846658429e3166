/** When the reverse index makes the topological sort right, and when it makes it underflow. */
module StaleIndex {
  import opened Sequences
  import opened Graphs
  import opened SchedulerState
  import opened Kahn

  // The index lists a task under a dependency at least as often as the task names it.
  ghost predicate Covers(index: Graph, g: Graph) {
    forall d, t :: Mentions(index, d, t) >= Mentions(g, t, d)
  }

  ghost predicate Excess(index: Graph, g: Graph, d: Id, t: Id) {
    Mentions(index, d, t) > Mentions(g, t, d)
  }

  // Some task is listed under another more often than it names it.
  ghost predicate Stale(index: Graph, g: Graph) {
    exists d, t :: d in g && t in g && Excess(index, g, d, t)
  }

  // The decrements of a task, against its mentions of the finished ones.
  lemma {:induction false} ReceivedAgainst(g: Graph, index: Graph, done: seq<Id>, t: Id)
    requires Covers(index, g) && NoDup(done) && t in g
    ensures Received(index, done, t) >= |g[t]| - Missing(g[t], done)
    ensures Received(index, done, t) > |g[t]| - Missing(g[t], done) <==> exists d :: d in done && Excess(index, g, d, t)
  {
    if done == [] {
      MissingAll(g[t]);
    } else {
      var r, x := done[..|done| - 1], done[|done| - 1];
      assert done == r + [x];
      ReceivedAgainst(g, index, r, t);
      ReceivedNext(index, r, x, t);
      MissingNext(g[t], r, x);
      assert Mentions(index, x, t) >= Mentions(g, t, x);
      assert forall d :: d in done && Excess(index, g, d, t) <==>
          (d in r && Excess(index, g, d, t)) || (d == x && Excess(index, g, x, t));
    }
  }

  // A task all of whose dependencies have fired can fire.
  lemma ReadyFires(g: Graph, index: Graph, order: seq<Id>, t: Id)
    requires Covers(index, g) && Fired(g, index, order) && t in g && t !in order
    requires forall d :: d in g[t] ==> d in order
    ensures Fired(g, index, order + [t])
  {
    ReceivedAgainst(g, index, order, t);
    MissingNone(g[t], order);
    FiredNext(g, index, order, t);
  }

  // Without cycles and unknown dependencies, every order that fires extends to all tasks.
  lemma {:induction false} FiringCompletes(g: Graph, index: Graph, order: seq<Id>) returns (all: seq<Id>)
    requires Covers(index, g) && !Cyclic(g) && Registered(g) && Fired(g, index, order)
    ensures FiredAll(g, index, all)
    decreases |g| - |order|
  {
    FullWhenLong(g, index, order);
    var left := g.Keys - Elements(order);
    if g.Keys <= Elements(order) {
      all := order;
    } else if t :| t in left && !DependsWithin(g, left, t) {
      forall d | d in g[t]
        ensures d in order
      {
        assert Edge(g, t, d) && d in g && d !in left;
      }
      ReadyFires(g, index, order, t);
      FullWhenLong(g, index, order + [t]);
      all := FiringCompletes(g, index, order + [t]);
    } else {
      var x :| x in g.Keys && x !in Elements(order);
      assert x in left;
      NoSinkIsCyclic(g, left);
      all := order;
    }
  }

  lemma ExcessCounts(g: Graph, index: Graph, done: seq<Id>, d: Id, t: Id)
    requires Covers(index, g) && FiredAll(g, index, done)
    requires d in g && t in g && Excess(index, g, d, t) && Registered(g)
    ensures Received(index, done, t) > |g[t]|
  {
    ReceivedAgainst(g, index, done, t);
    assert d in Elements(done);
    forall x | x in g[t]
      ensures x in done
    {
      assert x in Elements(done);
    }
    MissingNone(g[t], done);
  }

  lemma StaleOverfeeds(g: Graph, index: Graph, d: Id, t: Id)
    requires Covers(index, g) && !Cyclic(g) && Registered(g)
    requires d in g && t in g && Excess(index, g, d, t)
    ensures Overfed(g, index)
  {
    var all := FiringCompletes(g, index, []);
    ExcessCounts(g, index, all, d, t);
    assert Overfeeds(g, index, all, t);
  }

  // For a graph that can be sorted and an index that misses nothing, the sort underflows
  // exactly when the index lists some task too often.
  lemma OverfedExactly(g: Graph, index: Graph)
    requires Covers(index, g) && !Cyclic(g) && Registered(g)
    ensures Overfed(g, index) <==> Stale(index, g)
  {
    if d, t :| d in g && t in g && Excess(index, g, d, t) {
      StaleOverfeeds(g, index, d, t);
    } else if order: seq<Id>, t: Id :| Overfeeds(g, index, order, t) {
      ReceivedAgainst(g, index, order, t);
    }
  }

  lemma MirrorsCovers(index: Graph, g: Graph)
    requires Mirrors(index, g)
    ensures Covers(index, g) && forall d, t :: !Excess(index, g, d, t)
  {
    forall d, t
      ensures Mentions(index, d, t) == Mentions(g, t, d)
    {
    }
  }

  // With an exact index, an order fires exactly when it lists dependencies first,
  lemma {:induction false} MirroredFires(g: Graph, index: Graph, order: seq<Id>)
    requires Mirrors(index, g) && NoDup(order)
    ensures Fired(g, index, order) <==> DependsFirst(g, order)
  {
    MirrorsCovers(index, g);
    forall i | 0 <= i < |order| && order[i] in g
      ensures Received(index, order[..i], order[i]) >= |g[order[i]]| <==>
                forall d :: d in g[order[i]] ==> d in order[..i]
    {
      ReceivedAgainst(g, index, order[..i], order[i]);
      MissingNone(g[order[i]], order[..i]);
    }
  }

  // and the sort never underflows.
  lemma MirroredNotOverfed(g: Graph, index: Graph)
    requires Mirrors(index, g)
    ensures !Overfed(g, index)
  {
    MirrorsCovers(index, g);
    forall order: seq<Id>, t: Id | Fired(g, index, order) && t in g
      ensures Received(index, order, t) <= |g[t]|
    {
      ReceivedAgainst(g, index, order, t);
    }
  }

  // So on an acyclic graph some order of all tasks fires exactly when all dependencies
  // are registered.
  lemma MirroredFiresAll(g: Graph, index: Graph)
    requires Mirrors(index, g) && !Cyclic(g)
    ensures (exists order: seq<Id> :: FiredAll(g, index, order)) <==> Registered(g)
    ensures forall order: seq<Id> :: FiredAll(g, index, order) ==> LinearExtension(g, order)
  {
    forall order: seq<Id> | FiredAll(g, index, order)
      ensures LinearExtension(g, order) && Registered(g)
    {
      MirroredFires(g, index, order);
      OrderExcludesCycle(g, order);
    }
    if Registered(g) {
      MirrorsCovers(index, g);
      var all := FiringCompletes(g, index, []);
    }
  }

  // Whatever the ids, additions keep an index that misses nothing.
  lemma AddedCovers(s: Sched, t: Task)
    requires Covers(s.dependents, s.deps)
    ensures Covers(Added(s, t).dependents, Added(s, t).deps)
  {
    var s' := Added(s, t);
    forall d, u
      ensures Mentions(s'.dependents, d, u) >= Mentions(s'.deps, u, d)
    {
      LinkCount(s.dependents, t.dependencies, t.id, d, u);
      assert Mentions(s.dependents, d, u) >= Mentions(s.deps, u, d);
    }
  }

  // Adding a task to an exact index makes the sort underflow exactly when a task named by
  // an earlier one under the same id is known now.
  lemma ReuseUnderflowsExactly(s: Sched, t: Task)
    requires Mirrored(s)
    requires !Cyclic(Added(s, t).deps) && Registered(Added(s, t).deps)
    ensures Overfed(Added(s, t).deps, Added(s, t).dependents) <==>
              exists d :: d in Lookup(s.deps, t.id) && d in Added(s, t).deps
  {
    var s', earlier := Added(s, t), Lookup(s.deps, t.id);
    MirrorsCovers(s.dependents, s.deps);
    AddedCovers(s, t);
    OverfedExactly(s'.deps, s'.dependents);
    forall d, u
      ensures Excess(s'.dependents, s'.deps, d, u) <==> u == t.id && d in earlier
    {
      LinkCount(s.dependents, t.dependencies, t.id, d, u);
      assert Mentions(s.dependents, d, u) == Mentions(s.deps, u, d);
    }
  }
}
