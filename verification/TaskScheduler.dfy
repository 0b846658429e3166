/** The DAG task scheduler. */
module TaskScheduler {
  import opened Wrappers
  import opened Sequences
  import opened Graphs
  import opened SchedulerState
  import opened CycleSearch
  import opened Kahn
  import opened StaleIndex

  datatype Error =
    | TaskDependencyNotFound(id: Id)
    | TaskNotFound(id: Id)
    | CircularDependency
    // An in-degree decremented below zero: a panic in a debug build, a wrapped value in a
    // release build.
    | Underflow

  class TaskScheduler {
    // A max-heap of ready entries, seen as the multiset it holds.
    var readyQueue: multiset<Entry>
    // Task to the tasks it depends on.
    var dependencyGraph: map<Id, seq<Id>>
    // Task to the tasks that depend on it.
    var reverseDeps: map<Id, seq<Id>>
    var tasks: map<Id, Task>
    var completed: set<Id>
    var failed: set<Id>

    ghost function Model(): Sched
      reads this
    {
      Sched(readyQueue, dependencyGraph, reverseDeps, tasks, completed, failed)
    }

    // Holds in every run, re-used ids included.
    ghost predicate Valid()
      reads this
    {
      && dependencyGraph.Keys == tasks.Keys
      && completed <= tasks.Keys
      && failed <= tasks.Keys
    }

    constructor ()
      ensures Valid() && Model() == EMPTY
    {
      readyQueue, dependencyGraph, reverseDeps := multiset{}, map[], map[];
      tasks, completed, failed := map[], {}, {};
    }

    // On failure the error names the first dependency that is unknown and nothing changes.
    method AddTask(task: Task) returns (r: Result<(), Error>)
      requires Valid()
      modifies this
      ensures Valid()
      ensures r.Ok? <==> forall d :: d in task.dependencies ==> d in old(tasks)
      ensures r.Ok? ==> Model() == Added(old(Model()), task)
      ensures r.Err? ==> Model() == old(Model())
      ensures r.Err? ==> exists i :: FirstUnknown(tasks, task.dependencies, i)
                                  && r.error == TaskDependencyNotFound(task.dependencies[i])
    {
      for i := 0 to |task.dependencies|
        invariant forall j :: 0 <= j < i ==> task.dependencies[j] in tasks
      {
        var depId := task.dependencies[i];
        if depId !in tasks && depId !in completed {
          return Err(TaskDependencyNotFound(depId));
        }
      }
      AddTaskNoCheck(task);
      r := Ok(());
    }

    method AddTaskNoCheck(task: Task)
      requires Valid()
      modifies this
      ensures Valid()
      ensures Model() == Added(old(Model()), task)
      ensures tasks == old(tasks)[task.id := task]
      ensures dependencyGraph == old(dependencyGraph)[task.id := task.dependencies]
      ensures readyQueue == if forall d :: d in task.dependencies ==> d in completed
                            then old(readyQueue) + multiset{Entry(task.priority, task.id)} else old(readyQueue)
    {
      dependencyGraph := dependencyGraph[task.id := task.dependencies];
      var ds := task.dependencies;
      for i := 0 to |ds|
        invariant reverseDeps == Link(old(reverseDeps), ds[..i], task.id)
        invariant readyQueue == old(readyQueue) && tasks == old(tasks)
        invariant completed == old(completed) && failed == old(failed)
        invariant dependencyGraph == old(dependencyGraph)[task.id := ds]
      {
        assert ds[..i + 1][..i] == ds[..i];
        reverseDeps := reverseDeps[ds[i] := Lookup(reverseDeps, ds[i]) + [task.id]];
      }
      assert ds[..|ds|] == ds;
      if AllIn(ds, completed) {
        readyQueue := readyQueue + multiset{Entry(task.priority, task.id)};
      }
      tasks := tasks[task.id := task];
    }

    method PopMax() returns (e: Entry)
      requires readyQueue != multiset{}
      modifies this`readyQueue
      ensures Greatest(old(readyQueue), e)
      ensures readyQueue == old(readyQueue) - multiset{e}
    {
      GreatestExists(readyQueue);
      e :| Greatest(readyQueue, e);
      readyQueue := readyQueue - multiset{e};
    }

    method NextTask() returns (r: Option<Id>)
      requires Valid()
      modifies this`readyQueue
      ensures Valid()
      ensures Next(old(Model()), Model(), r)
      ensures HandsOut(old(readyQueue), completed, failed, r)
    {
      ghost var s := Model();
      while readyQueue != multiset{}
        invariant Draining(s, readyQueue)
        decreases |readyQueue|
      {
        ghost var q := readyQueue;
        var e := PopMax();
        if e.id !in completed && e.id !in failed {
          GreatestLive(s, q, e);
          NextHandsOut(s, Model(), Some(e.id));
          return Some(e.id);
        }
        DropDead(s, q, e);
      }
      r := None;
      assert forall e :: e in s.queue ==> readyQueue[e] != s.queue[e];
      NextHandsOut(s, Model(), None);
    }

    method CompleteTask(id: Id) returns (r: Result<seq<Id>, Error>)
      requires Valid()
      modifies this`completed, this`readyQueue
      ensures Valid()
      ensures r == if id in tasks then Ok(UnblockedBy(old(Model()), id)) else Err(TaskNotFound(id))
      ensures Model() == if id in tasks then Completed(old(Model()), id) else old(Model())
      ensures completed == if id in tasks then old(completed) + {id} else old(completed)
    {
      if id !in tasks {
        return Err(TaskNotFound(id));
      }
      completed := completed + {id};
      var unblocked := PushUnblocked(Lookup(reverseDeps, id));
      r := Ok(unblocked);
    }

    // Queues, once per mention, the tasks in `waiting` that are ready.
    method PushUnblocked(waiting: seq<Id>) returns (unblocked: seq<Id>)
      modifies this`readyQueue
      ensures unblocked == Unblocked(old(Model()), waiting)
      ensures readyQueue == old(readyQueue) + Entries(old(Model()), unblocked)
    {
      unblocked := [];
      ghost var s := Model();
      for i := 0 to |waiting|
        invariant unblocked == Unblocked(s, waiting[..i])
        invariant readyQueue == s.queue + Entries(s, unblocked)
      {
        UnblockedNext(s, waiting, i);
        EntriesNext(s, unblocked, waiting[i]);
        var ready := PushIfReady(waiting[i], s);
        if ready {
          unblocked := unblocked + [waiting[i]];
        }
      }
      assert waiting[..|waiting|] == waiting;
    }

    // Queues `t` if its dependencies are done and it is itself still live.
    method PushIfReady(t: Id, ghost s: Sched) returns (ready: bool)
      requires s == Model().(queue := s.queue)
      modifies this`readyQueue
      ensures ready <==> s.DepsDone(t) && s.Live(t)
      ensures readyQueue == old(readyQueue) + if ready then multiset{EntryFor(s, t)} else multiset{}
    {
      ready := false;
      if t in dependencyGraph {
        var allDone := AllIn(dependencyGraph[t], completed);
        if allDone && t !in completed && t !in failed {
          var priority := if t in tasks then tasks[t].priority else Normal;
          readyQueue := readyQueue + multiset{Entry(priority, t)};
          ready := true;
        }
      }
    }

    method FailTask(id: Id) returns (r: Result<(), Error>)
      requires Valid()
      modifies this`failed
      ensures Valid()
      ensures r == if id in tasks then Ok(()) else Err(TaskNotFound(id))
      ensures Model() == if id in tasks then Failed(old(Model()), id) else old(Model())
      ensures failed == if id in tasks then old(failed) + {id} else old(failed)
    {
      if id !in tasks {
        return Err(TaskNotFound(id));
      }
      failed := failed + {id};
      r := Ok(());
    }

    // Complete when as many tasks are completed as there are, which means all of them.
    method IsComplete() returns (b: bool)
      requires Valid()
      ensures b <==> |completed| == |tasks|
      ensures b <==> Model().IsComplete()
    {
      SubsetSize(completed, tasks.Keys);
      assert |tasks| == |tasks.Keys|;
      var ids := tasks.Keys;
      while ids != {}
        invariant ids <= tasks.Keys
        invariant tasks.Keys - ids <= completed
      {
        var id :| id in ids;
        if id !in completed {
          return false;
        }
        ids := ids - {id};
      }
      assert tasks.Keys - {} == tasks.Keys;
      return true;
    }

    // Three-colour depth-first search; tasks are taken in arbitrary order.
    method HasCycle() returns (b: bool)
      requires Valid()
      ensures b <==> Cyclic(dependencyGraph)
    {
      var color := map id | id in tasks :: White;
      ghost var order: seq<Id> := [];
      var ids := tasks.Keys;
      while ids != {}
        invariant ids <= tasks.Keys
        invariant Searching(dependencyGraph, color, order, [])
        invariant forall n :: n in tasks && n !in ids ==> color[n] == Black
      {
        var id :| id in ids;
        ids := ids - {id};
        if color[id] == White {
          ghost var order0 := order;
          b, color, order := DfsCycle(id, color, order, []);
          if b {
            return true;
          }
          forall n | n in tasks && n !in ids
            ensures color[n] == Black
          {
            if n != id {
              assert n in order0;
            }
          }
        }
      }
      AllBlack(dependencyGraph, color, order);
      b := false;
    }

    // `order` and `stack` record the finished nodes and the path being searched.
    method DfsCycle(node: Id, color0: map<Id, Color>, ghost order0: seq<Id>, ghost stack: seq<Id>)
      returns (found: bool, color: map<Id, Color>, ghost order: seq<Id>)
      requires Valid()
      requires Searching(dependencyGraph, color0, order0, stack)
      requires node in tasks && color0[node] == White
      requires stack != [] ==> Edge(dependencyGraph, stack[|stack| - 1], node)
      ensures found ==> Cyclic(dependencyGraph)
      ensures !found ==> Searching(dependencyGraph, color, order, stack)
      ensures !found ==> order0 <= order && color[node] == Black
      decreases Whites(color0), 0
    {
      Enter(dependencyGraph, color0, order0, stack, node);
      assert node in Whites(color0);
      found, color, order := DfsDependencies(node, color0[node := Gray], order0, stack);
      if !found {
        Leave(dependencyGraph, color, order, stack, node);
        color, order := color[node := Black], order + [node];
      }
    }

    // The dependencies of the node just put on the stack.
    method DfsDependencies(node: Id, color0: map<Id, Color>, ghost order0: seq<Id>, ghost stack: seq<Id>)
      returns (found: bool, color: map<Id, Color>, ghost order: seq<Id>)
      requires Valid()
      requires node in tasks && Searching(dependencyGraph, color0, order0, stack + [node])
      ensures found ==> Cyclic(dependencyGraph)
      ensures !found ==> Searching(dependencyGraph, color, order, stack + [node]) && order0 <= order
      ensures !found ==> AllBlackUpTo(dependencyGraph, color, dependencyGraph[node], |dependencyGraph[node]|)
      decreases Whites(color0), 2
    {
      found, color, order := false, color0, order0;
      var ds := dependencyGraph[node];
      for i := 0 to |ds|
        invariant !found && Searching(dependencyGraph, color, order, stack + [node])
        invariant order0 <= order && Whites(color) <= Whites(color0)
        invariant AllBlackUpTo(dependencyGraph, color, ds, i)
      {
        found, color, order := DfsVisit(ds[i], color, order, stack + [node]);
        if found {
          return;
        }
      }
    }

    // One dependency of the node on top of the stack: gray is a cycle, white is
    // searched, black and unregistered ones are skipped.
    method DfsVisit(dep: Id, color0: map<Id, Color>, ghost order0: seq<Id>, ghost path: seq<Id>)
      returns (found: bool, color: map<Id, Color>, ghost order: seq<Id>)
      requires Valid()
      requires Searching(dependencyGraph, color0, order0, path)
      requires path != [] && Edge(dependencyGraph, path[|path| - 1], dep)
      ensures found ==> Cyclic(dependencyGraph)
      ensures !found ==> Searching(dependencyGraph, color, order, path) && order0 <= order
      ensures !found ==> Whites(color) <= Whites(color0)
      ensures !found ==> forall n :: n in color0 && color0[n] == Black ==> color[n] == Black
      ensures !found ==> dep in color ==> color[dep] == Black
      decreases Whites(color0), 1
    {
      found, color, order := false, color0, order0;
      if dep in color {
        match color[dep] {
          case Gray =>
            GrayClosesCycle(dependencyGraph, color, order, path, dep);
            found := true;
          case White =>
            found, color, order := DfsCycle(dep, color, order, path);
            if !found {
              BlackStays(dependencyGraph, color0, order0, color, order, path);
            }
          case Black =>
        }
      }
    }

    // In-degrees count dependency mentions; the sources are queued.
    method StartDegrees() returns (inDegree: map<Id, nat>, queue: seq<Id>)
      requires Valid()
      ensures Sorting(dependencyGraph, reverseDeps, inDegree, queue, [])
    {
      inDegree := map id | id in tasks :: if id in dependencyGraph then |dependencyGraph[id]| else 0;
      queue := SourcesOf(inDegree);
    }

    // The tasks of in-degree zero, in arbitrary order.
    static method SourcesOf(inDegree: map<Id, nat>) returns (queue: seq<Id>)
      ensures Listing(inDegree, queue)
    {
      queue := [];
      var ids := inDegree.Keys;
      while ids != {}
        invariant ids <= inDegree.Keys
        invariant NoDup(queue) && Elements(queue) !! ids
        invariant forall t :: t in queue <==> t in inDegree && t !in ids && inDegree[t] == 0
      {
        var id :| id in ids;
        ids := ids - {id};
        if inDegree[id] == 0 {
          assert forall x :: x in queue ==> x in Elements(queue);
          queue := queue + [id];
        }
      }
    }

    // Lowers an in-degree; the task is returned if it reaches zero.
    static method Decrement(inDegree0: map<Id, nat>, t: Id) returns (inDegree: map<Id, nat>, zero: seq<Id>)
      requires t in inDegree0 ==> inDegree0[t] > 0
      ensures inDegree == if t in inDegree0 then inDegree0[t := inDegree0[t] - 1] else inDegree0
      ensures zero == if t in inDegree0 && inDegree0[t] == 1 then [t] else []
    {
      inDegree, zero := inDegree0, [];
      if t in inDegree {
        inDegree := inDegree[t := inDegree[t] - 1];
        if inDegree[t] == 0 {
          zero := [t];
        }
      }
    }

    // One queue step: each mention of `id` lowers an in-degree, and a task that reaches
    // zero joins the queue.
    method LowerDependents(id: Id, inDegree0: map<Id, nat>, queue0: seq<Id>, ghost listed0: seq<Id>,
                           ghost before: seq<Id>)
      returns (ok: bool, inDegree: map<Id, nat>, queue: seq<Id>, ghost listed: seq<Id>)
      requires listed0 == before + [id] + queue0
      requires Fired(dependencyGraph, reverseDeps, before + [id])
      requires Lowering(dependencyGraph, reverseDeps, inDegree0, listed0, before, [])
      ensures !ok ==> Overfed(dependencyGraph, reverseDeps)
      ensures ok ==> listed == before + [id] + queue
      ensures ok ==>
                Lowering(dependencyGraph, reverseDeps, inDegree, listed, before, Lookup(reverseDeps, id))
    {
      inDegree, queue, listed := inDegree0, queue0, listed0;
      var waiting := Lookup(reverseDeps, id);
      for j := 0 to |waiting|
        invariant Lowering(dependencyGraph, reverseDeps, inDegree, listed, before, waiting[..j])
        invariant listed == before + [id] + queue
      {
        var t := waiting[j];
        assert waiting[..j + 1] == waiting[..j] + [t];
        if t in inDegree && inDegree[t] == 0 {
          UnderflowOverfeeds(dependencyGraph, reverseDeps, inDegree, listed, before, id, j);
          ok := false;
          return;
        }
        LowerOne(dependencyGraph, reverseDeps, inDegree, listed, before, waiting[..j], t);
        var zero;
        inDegree, zero := Decrement(inDegree, t);
        AppendTwice(before + [id], queue, zero);
        queue, listed := queue + zero, listed + zero;
      }
      assert waiting[..|waiting|] == waiting;
      ok := true;
    }

    // Moves the front of the queue to the result and lowers its dependents.
    method QueueStep(inDegree0: map<Id, nat>, queue0: seq<Id>, result0: seq<Id>, ghost listed0: seq<Id>)
      returns (ok: bool, inDegree: map<Id, nat>, queue: seq<Id>, result: seq<Id>, ghost listed: seq<Id>)
      requires queue0 != []
      requires Sorting(dependencyGraph, reverseDeps, inDegree0, listed0, result0) && listed0 == result0 + queue0
      ensures !ok ==> Overfed(dependencyGraph, reverseDeps)
      ensures ok ==> Sorting(dependencyGraph, reverseDeps, inDegree, listed, result) && listed == result + queue
      ensures result == result0 + [queue0[0]]
    {
      StartStep(dependencyGraph, reverseDeps, inDegree0, listed0, result0, queue0);
      var id := queue0[0];
      result := result0 + [id];
      ok, inDegree, queue, listed := LowerDependents(id, inDegree0, queue0[1..], listed0, result0);
      if ok {
        EndStep(dependencyGraph, reverseDeps, inDegree, listed, result0, id, queue);
      }
    }

    // Kahn's algorithm over the reverse index, on whatever index there is.
    method SortByDegrees() returns (r: Result<seq<Id>, Error>)
      requires Valid()
      ensures r == Err(Underflow) <==> Overfed(dependencyGraph, reverseDeps)
      ensures r == Err(CircularDependency) ==>
                !exists order: seq<Id> :: FiredAll(dependencyGraph, reverseDeps, order)
      ensures r.Ok? ==> FiredAll(dependencyGraph, reverseDeps, r.value)
      ensures r.Err? ==> r.error == Underflow || r.error == CircularDependency
    {
      var inDegree, queue := StartDegrees();
      var result: seq<Id> := [];
      ghost var listed := queue;
      while queue != []
        invariant Sorting(dependencyGraph, reverseDeps, inDegree, listed, result)
        invariant listed == result + queue
        decreases |tasks| - |result|
      {
        var ok;
        ok, inDegree, queue, result, listed := QueueStep(inDegree, queue, result, listed);
        if !ok {
          return Err(Underflow);
        }
        Bounded(listed, result, tasks.Keys);
      }
      assert listed == result;
      DryFeeds(dependencyGraph, reverseDeps, inDegree, result);
      QueueDry(dependencyGraph, reverseDeps, inDegree, result);
      if |result| != |tasks| {
        return Err(CircularDependency);
      }
      r := Ok(result);
    }

    // Depth-first check, then Kahn's algorithm. Without a cycle it underflows exactly when
    // the index gives some task more decrements than it has dependencies; with an index
    // that mirrors the graph it gives a linear extension, and fails exactly on a cycle or
    // an unregistered dependency.
    method TopologicalOrder() returns (r: Result<seq<Id>, Error>)
      requires Valid()
      ensures Cyclic(dependencyGraph) ==> r == Err(CircularDependency)
      ensures !Cyclic(dependencyGraph) ==> (r == Err(Underflow) <==> Overfed(dependencyGraph, reverseDeps))
      ensures r.Ok? ==> FiredAll(dependencyGraph, reverseDeps, r.value)
      ensures r == Err(CircularDependency) && !Cyclic(dependencyGraph) ==>
                !exists order: seq<Id> :: FiredAll(dependencyGraph, reverseDeps, order)
      ensures Mirrored(Model()) ==>
                && (r.Ok? <==> !Cyclic(dependencyGraph) && Registered(dependencyGraph))
                && (r.Ok? ==> LinearExtension(dependencyGraph, r.value))
                && (r.Err? ==> r.error == CircularDependency)
      ensures r.Err? ==> r.error == Underflow || r.error == CircularDependency
    {
      var cyclic := HasCycle();
      if cyclic {
        return Err(CircularDependency);
      }
      r := SortByDegrees();
      if Mirrored(Model()) {
        MirroredNotOverfed(dependencyGraph, reverseDeps);
        MirroredFiresAll(dependencyGraph, reverseDeps);
      }
    }
  }

  ghost predicate FirstUnknown(tasks: map<Id, Task>, ds: seq<Id>, i: int) {
    0 <= i < |ds| && ds[i] !in tasks && forall j :: 0 <= j < i ==> ds[j] in tasks
  }

  ghost predicate AllBlackUpTo(g: Graph, color: map<Id, Color>, ds: seq<Id>, n: nat)
    requires n <= |ds| && color.Keys == g.Keys
  {
    forall j :: 0 <= j < n && ds[j] in g ==> color[ds[j]] == Black
  }

  lemma BlackStays(g: Graph, color: map<Id, Color>, order: seq<Id>, color': map<Id, Color>,
                   order': seq<Id>, stack: seq<Id>)
    requires Searching(g, color, order, stack) && Searching(g, color', order', stack)
    requires order <= order'
    ensures Whites(color') <= Whites(color)
    ensures forall n :: n in g && color[n] == Black ==> color'[n] == Black
  {
    forall n | n in g && color[n] == Black
      ensures color'[n] == Black
    {
      var i :| 0 <= i < |order| && order[i] == n;
      assert order'[i] == n;
    }
  }

  lemma Bounded(all: seq<Id>, result: seq<Id>, keys: set<Id>)
    requires NoDup(all) && (forall x :: x in all ==> x in keys) && result <= all
    ensures |result| <= |keys|
  {
    NoDupSize(all);
    assert Elements(all) <= keys;
    SubsetSize(Elements(all), keys);
  }
}
