/** Alternating next_task and complete_task runs an acyclic graph to completion. */
module Progress {
  import opened Wrappers
  import opened Sequences
  import opened Graphs
  import opened SchedulerState
  import opened Dispatch

  // One hand-out followed at once by its completion.
  ghost predicate TakesAndCompletes(w: World, id: Id, w': World) {
    exists mid :: Step(w, Take(Some(id)), mid) && Step(mid, Complete(id), w')
  }

  ghost predicate Drives(ws: seq<World>, picks: seq<Id>) {
    && |ws| == |picks| + 1
    && forall i :: 0 <= i < |picks| ==> TakesAndCompletes(ws[i], picks[i], ws[i + 1])
  }

  // A scheduler that has only been filled so far, with a graph it can finish.
  ghost predicate Loaded(w: World) {
    && Invariant(w) && w.s.completed == {} && w.s.failed == {} && w.handed == multiset{}
    && !Cyclic(w.s.deps) && Registered(w.s.deps)
  }

  // After the picks so far: exactly they are completed, in dependency order.
  ghost predicate Driven(w0: World, w: World, picks: seq<Id>) {
    && Invariant(w) && w.s.tasks == w0.s.tasks && w.s.deps == w0.s.deps && w.s.failed == {}
    && w.s.completed == Elements(picks) && (forall t :: t in w.handed ==> t in picks)
    && NoDup(picks) && DependsFirst(w0.s.deps, picks)
  }

  lemma PickEffect(w: World, id: Id, w': World)
    requires Invariant(w) && TakesAndCompletes(w, id, w')
    ensures Invariant(w') && id in w.s.deps && w.s.DepsDone(id) && w.s.Live(id)
    ensures w'.s.tasks == w.s.tasks && w'.s.deps == w.s.deps && w'.s.failed == w.s.failed
    ensures w'.s.completed == w.s.completed + {id} && w'.handed == w.handed + multiset{id}
  {
    var mid :| Step(w, Take(Some(id)), mid) && Step(mid, Complete(id), w');
    StepKeeps(w, Take(Some(id)), mid);
    StepKeeps(mid, Complete(id), w');
    var e :| PopsTo(w.s, mid.s, e) && e.id == id;
    assert Sound(w.s, e);
  }

  lemma DriveOne(w0: World, w: World, picks: seq<Id>, id: Id, w': World)
    requires Driven(w0, w, picks) && TakesAndCompletes(w, id, w')
    ensures Driven(w0, w', picks + [id])
  {
    PickEffect(w, id, w');
    assert Elements(picks + [id]) == Elements(picks) + {id};
    forall d | d in w.s.deps[id] || d == id
      ensures d in picks <==> d in w.s.completed
    {
      assert d in picks <==> d in Elements(picks);
    }
    DependsFirstAppend(w.s.deps, picks, id);
  }

  lemma {:induction false} DriveAll(ws: seq<World>, picks: seq<Id>, i: nat)
    requires Drives(ws, picks) && Loaded(ws[0]) && i <= |picks|
    ensures Driven(ws[0], ws[i], picks[..i])
    decreases i
  {
    if i > 0 {
      DriveAll(ws, picks, i - 1);
      assert TakesAndCompletes(ws[i - 1], picks[i - 1], ws[i - 1 + 1]);
      DriveOne(ws[0], ws[i - 1], picks[..i - 1], picks[i - 1], ws[i]);
      assert picks[..i] == picks[..i - 1] + [picks[i - 1]];
    }
  }

  // Picks never repeat and respect the dependency order; the scheduler is complete
  // after exactly as many picks as there are tasks, and before that it always has
  // one more to give.
  lemma RunsToCompletion(ws: seq<World>, picks: seq<Id>)
    requires Drives(ws, picks) && Loaded(ws[0])
    ensures var w0, w := ws[0], ws[|picks|];
            && NoDup(picks) && DependsFirst(w0.s.deps, picks)
            && (w.s.IsComplete() <==> |picks| == |w0.s.tasks|)
            && (w.s.IsComplete() ==> LinearExtension(w0.s.deps, picks))
            && (|picks| < |w0.s.tasks| ==> forall got, w' :: Step(w, Take(got), w') ==> got.Some?)
            && |picks| <= |w0.s.tasks|
  {
    DriveAll(ws, picks, |picks|);
    assert picks[..|picks|] == picks;
    CompleteWhenAllPicked(ws[0], ws[|picks|], picks);
    forall got, w' | |picks| < |ws[0].s.tasks| && Step(ws[|picks|], Take(got), w')
      ensures got.Some?
    {
      if got == None {
        NothingLeft(ws[|picks|]);
      }
    }
  }

  lemma CompleteWhenAllPicked(w0: World, w: World, picks: seq<Id>)
    requires Driven(w0, w, picks)
    ensures |picks| <= |w0.s.tasks| && (w.s.IsComplete() <==> |picks| == |w0.s.tasks|)
    ensures w.s.IsComplete() ==> LinearExtension(w0.s.deps, picks)
  {
    NoDupSize(picks);
    assert |w0.s.tasks.Keys| == |w0.s.tasks|;
    SubsetSize(w.s.completed, w0.s.tasks.Keys);
    assert w.s.IsComplete() ==> w.s.completed == w0.s.tasks.Keys;
  }

  // With nothing failed, a stuck scheduler is a finished one.
  lemma NothingLeft(w: World)
    requires Invariant(w) && w.s.failed == {} && !Cyclic(w.s.deps) && Registered(w.s.deps) && Stuck(w)
    ensures w.s.IsComplete()
  {
    forall t | t in w.s.tasks
      ensures t in w.s.completed
    {
      if t !in w.s.completed {
        var d := StuckBlames(w, t);
      }
    }
  }

  // Such a run always exists: it can be continued until every task is done.
  lemma {:induction false} DriveToEnd(ws: seq<World>, picks: seq<Id>) returns (ws': seq<World>, picks': seq<Id>)
    requires Drives(ws, picks) && Loaded(ws[0])
    ensures Drives(ws', picks') && ws'[0] == ws[0] && |picks'| == |ws[0].s.tasks|
    decreases |ws[0].s.tasks| - |picks|
  {
    RunsToCompletion(ws, picks);
    if |picks| == |ws[0].s.tasks| {
      ws', picks' := ws, picks;
    } else {
      var id, w' := DriveExists(ws, picks);
      DrivesOneMore(ws, picks, id, w');
      ws', picks' := DriveToEnd(ws + [w'], picks + [id]);
    }
  }

  lemma DriveExists(ws: seq<World>, picks: seq<Id>) returns (id: Id, w': World)
    requires Drives(ws, picks) && Loaded(ws[0]) && |picks| < |ws[0].s.tasks|
    ensures TakesAndCompletes(ws[|picks|], id, w')
  {
    RunsToCompletion(ws, picks);
    var w := ws[|picks|];
    DriveAll(ws, picks, |picks|);
    var s1, got := NextExists(w.s, w.s.queue);
    var mid := World(s1, w.handed + if got.Some? then multiset{got.value} else multiset{});
    assert Step(w, Take(got), mid);
    id := got.value;
    w' := if id in mid.s.tasks then mid.(s := Completed(mid.s, id)) else mid;
  }

  lemma DrivesOneMore(ws: seq<World>, picks: seq<Id>, id: Id, w': World)
    requires Drives(ws, picks) && TakesAndCompletes(ws[|picks|], id, w')
    ensures Drives(ws + [w'], picks + [id])
  {
    var longer, more := ws + [w'], picks + [id];
    forall i | 0 <= i < |more|
      ensures TakesAndCompletes(longer[i], more[i], longer[i + 1])
    {
      if i < |picks| {
        assert TakesAndCompletes(ws[i], picks[i], ws[i + 1]);
      }
    }
  }

  // add_task never closes a cycle: with fresh ids and its own check that every
  // dependency is known, only add_task_no_check can.
  lemma CheckedAddStaysAcyclic(s: Sched, t: Task)
    requires s.deps.Keys == s.tasks.Keys && t.id !in s.tasks && AllIn(t.dependencies, s.tasks.Keys)
    requires !Cyclic(s.deps) && Registered(s.deps)
    ensures !Cyclic(Added(s, t).deps) && Registered(Added(s, t).deps)
  {
    var g, g' := s.deps, s.deps[t.id := t.dependencies];
    forall p | IsCycle(g', p)
      ensures false
    {
      assert forall i :: 0 <= i < |p| - 1 ==> Edge(g', p[i], p[i + 1]);
      forall i | 0 <= i < |p|
        ensures p[i] != t.id
      {
        if i > 0 {
          assert Edge(g', p[i - 1], p[i - 1 + 1]);
        } else {
          assert Edge(g', p[|p| - 2], p[|p| - 2 + 1]);
        }
      }
      forall i | 0 <= i < |p| - 1
        ensures Edge(g, p[i], p[i + 1])
      {
        assert Edge(g', p[i], p[i + 1]);
      }
      assert IsCycle(g, p);
    }
  }
}
