/** The workflow engine: registering workflows and executing them in dependency order. */
module Workflows {
  import opened Wrappers
  import opened Sequences
  import opened Graphs
  import opened SchedulerState
  import TS = TaskScheduler

  // Retry delays and result texts are not modelled.
  datatype ErrorHandling = FailFast | ContinueOnError | Retry(maxRetries: nat) | Fallback(taskId: Id)

  datatype Workflow = Workflow(id: string, tasks: seq<Task>, errorHandling: ErrorHandling)

  datatype WorkflowState = Pending | Running | Completed | Failed

  // `results` keeps, for each task that has one, whether its result is a success.
  datatype Execution = Execution(
    id: string,
    workflowId: string,
    state: WorkflowState,
    results: map<Id, bool>,
    completedTasks: seq<Id>,
    failedTasks: seq<Id>,
    currentTask: Option<Id>)

  datatype Error =
    | InvalidTaskDefinition
    | TaskDependencyNotFound(dependency: Id)
    | WorkflowNotFound(workflowId: string)
    | CircularDependency

  ghost predicate UniqueIds(tasks: seq<Task>) {
    forall i, j :: 0 <= i < j < |tasks| ==> tasks[i].id != tasks[j].id
  }

  function Ids(tasks: seq<Task>): set<Id> {
    set t | t in tasks :: t.id
  }

  ghost predicate DependenciesKnown(tasks: seq<Task>) {
    forall t, d :: t in tasks && d in t.dependencies ==> d in Ids(tasks)
  }

  function GraphOf(tasks: seq<Task>): Graph {
    if tasks == [] then map[]
    else
      var t := tasks[|tasks| - 1];
      GraphOf(tasks[..|tasks| - 1])[t.id := t.dependencies]
  }

  lemma {:induction false} GraphOfMembers(tasks: seq<Task>)
    requires UniqueIds(tasks)
    ensures GraphOf(tasks).Keys == Ids(tasks)
    ensures forall t :: t in tasks ==> GraphOf(tasks)[t.id] == t.dependencies
  {
    if tasks != [] {
      var r, t := tasks[..|tasks| - 1], tasks[|tasks| - 1];
      GraphOfMembers(r);
      assert tasks == r + [t];
      forall u | u in tasks
        ensures u.id in GraphOf(tasks) && GraphOf(tasks)[u.id] == u.dependencies
      {
        if u != t {
          assert u in r;
        }
      }
      assert Ids(tasks) == Ids(r) + {t.id};
    }
  }

  lemma GraphOfRegistered(tasks: seq<Task>)
    requires UniqueIds(tasks) && DependenciesKnown(tasks)
    ensures Registered(GraphOf(tasks))
  {
    var g := GraphOf(tasks);
    GraphOfMembers(tasks);
    forall x, d | x in g && d in g[x]
      ensures d in g
    {
      var t :| t in tasks && t.id == x;
      assert g[t.id] == t.dependencies;
    }
  }

  function FindTask(tasks: seq<Task>, id: Id): Option<Task> {
    if tasks == [] then None
    else if tasks[0].id == id then Some(tasks[0])
    else FindTask(tasks[1..], id)
  }

  lemma {:induction false} FindTaskFinds(tasks: seq<Task>, id: Id)
    requires id in Ids(tasks)
    ensures FindTask(tasks, id).Some? && FindTask(tasks, id).value in tasks && FindTask(tasks, id).value.id == id
  {
    var t :| t in tasks && t.id == id;
    if tasks[0].id != id {
      assert tasks == [tasks[0]] + tasks[1..];
      assert t in tasks[1..];
      FindTaskFinds(tasks[1..], id);
    }
  }

  predicate DependenciesSucceeded(e: Execution, t: Task) {
    forall d :: d in t.dependencies ==> d in e.results && e.results[d]
  }

  function Min(a: nat, b: nat): nat {
    if a < b then a else b
  }

  function Succeed(e: Execution, id: Id): Execution {
    e.(completedTasks := e.completedTasks + [id], results := e.results[id := true])
  }

  function FailWithResult(e: Execution, id: Id): Execution {
    e.(failedTasks := e.failedTasks + [id], results := e.results[id := false])
  }

  // One task of the execution loop. State Failed ends the loop.
  function RunTask(e: Execution, t: Task, handling: ErrorHandling): Execution {
    if DependenciesSucceeded(e, t) then
      Succeed(e, t.id).(currentTask := Some(t.id))
    else
      match handling
      case FailFast =>
        e.(state := Failed, failedTasks := e.failedTasks + [t.id])
      case ContinueOnError =>
        FailWithResult(e, t.id)
      case Retry(maxRetries) =>
        if Min(t.retryCount, maxRetries) >= maxRetries then FailWithResult(e, t.id) else Succeed(e, t.id)
      case Fallback(_) =>
        Succeed(e, t.id)
  }

  // A task counts as completed when its dependencies succeeded, when a retry is left or
  // when there is a fallback.
  predicate CountsAsCompleted(e: Execution, t: Task, handling: ErrorHandling) {
    || (forall d :: d in t.dependencies ==> d in e.results && e.results[d])
    || handling.Fallback?
    || (handling.Retry? && t.retryCount < handling.maxRetries)
  }

  // In any state, each task is recorded exactly once, on the list that matches its result,
  // and only failing fast stops the run, without a result.
  lemma RunTaskAccounts(e: Execution, t: Task, handling: ErrorHandling)
    requires e.state == Running
    ensures var e' := RunTask(e, t, handling);
      var well := CountsAsCompleted(e, t, handling);
      && e'.completedTasks == e.completedTasks + (if well then [t.id] else [])
      && e'.failedTasks == e.failedTasks + (if well then [] else [t.id])
      && (e'.state == Failed <==> !well && handling.FailFast?)
      && e'.results == (if e'.state == Failed then e.results else e.results[t.id := well])
      && e'.id == e.id && e'.workflowId == e.workflowId && (e'.state == Failed || e'.state == Running)
  {
    assert Min(t.retryCount, if handling.Retry? then handling.maxRetries else 0) <= t.retryCount;
  }

  // Tasks run one after the other, until the run stops.
  function RunAll(e: Execution, ts: seq<Task>, handling: ErrorHandling): Execution {
    if ts == [] then e
    else
      var before := RunAll(e, ts[..|ts| - 1], handling);
      if before.state == Running then RunTask(before, ts[|ts| - 1], handling) else before
  }

  // Each task met is on exactly one list. Completed ones have a good result, failed ones a
  // bad one, or none when failing fast stopped the run there.
  ghost predicate Accounted(e: Execution, met: seq<Id>) {
    && NoDup(e.completedTasks) && NoDup(e.failedTasks)
    && (forall id :: id in met <==> id in e.completedTasks || id in e.failedTasks)
    && (forall id :: id in e.completedTasks ==> id !in e.failedTasks && id in e.results && e.results[id])
    && (forall id :: id in e.results ==> id in met)
    && (forall id :: id in e.failedTasks && id in e.results ==> !e.results[id])
    && (forall id :: id in e.failedTasks && id !in e.results ==> e.state == Failed)
  }

  function IdList(ts: seq<Task>): seq<Id> {
    seq(|ts|, i requires 0 <= i < |ts| => ts[i].id)
  }

  // From an empty start, whatever tasks are run in whatever order: a run that is not
  // stopped accounts for all of them, and only failing fast stops one, after some of them.
  lemma {:induction false} RunAccounts(e: Execution, ts: seq<Task>, handling: ErrorHandling) returns (k: nat)
    requires e.state == Running && e.completedTasks == e.failedTasks == [] && e.results == map[] && UniqueIds(ts)
    ensures k <= |ts| && Accounted(RunAll(e, ts, handling), IdList(ts[..k]))
    ensures RunAll(e, ts, handling).state == Running ==> k == |ts|
    ensures RunAll(e, ts, handling).state != Running ==> handling.FailFast? && RunAll(e, ts, handling).state == Failed
  {
    if ts == [] {
      k := 0;
    } else {
      var init, last := ts[..|ts| - 1], ts[|ts| - 1];
      assert ts == init + [last];
      k := RunAccounts(e, init, handling);
      if RunAll(e, init, handling).state == Running {
        assert init[..k] == init && ts[..|ts|] == ts;
        AccountedNext(RunAll(e, init, handling), init, last, handling);
        k := |ts|;
      } else {
        assert init[..k] == ts[..k];
      }
    }
  }

  lemma AccountedNext(e: Execution, init: seq<Task>, t: Task, handling: ErrorHandling)
    requires e.state == Running && Accounted(e, IdList(init)) && UniqueIds(init + [t])
    ensures Accounted(RunTask(e, t, handling), IdList(init + [t]))
  {
    forall i | 0 <= i < |init|
      ensures init[i].id != t.id
    {
      assert (init + [t])[i] == init[i] && (init + [t])[|init|] == t;
    }
    RunTaskAccounts(e, t, handling);
    assert IdList(init + [t]) == IdList(init) + [t.id];
    assert t.id !in IdList(init);
  }

  // Everything in `order` so far completed and succeeded, and nothing failed.
  ghost predicate AllWell(e: Execution, order: seq<Id>) {
    && e.state == Running && e.completedTasks == order && e.failedTasks == []
    && e.results.Keys == Elements(order) && forall id :: id in e.results ==> e.results[id]
  }

  lemma RunTaskWell(e: Execution, t: Task, handling: ErrorHandling, order: seq<Id>)
    requires AllWell(e, order) && forall d :: d in t.dependencies ==> d in order
    ensures AllWell(RunTask(e, t, handling), order + [t.id])
  {
    assert forall d :: d in order ==> d in Elements(order);
    assert Elements(order + [t.id]) == Elements(order) + {t.id};
  }

  function Digits(n: nat): string {
    if n < 10 then ["0123456789"[n]] else Digits(n / 10) + ["0123456789"[n % 10]]
  }

  function DigitsValue(s: string): int {
    if s == [] then 0 else 10 * DigitsValue(s[..|s| - 1]) + (s[|s| - 1] as int - '0' as int)
  }

  lemma {:induction false} DigitsRoundTrip(n: nat)
    ensures DigitsValue(Digits(n)) == n
  {
    if n < 10 {
      assert Digits(n)[..0] == [];
    } else {
      DigitsRoundTrip(n / 10);
      assert Digits(n)[..|Digits(n)| - 1] == Digits(n / 10);
    }
  }

  function ExecutionId(n: nat): string {
    "exec-" + Digits(n)
  }

  // An execution id is "exec-" and the number in decimal digits, without leading zeros.
  lemma {:induction false} DigitsLead(n: nat)
    ensures Digits(n) != [] && (n > 0 ==> Digits(n)[0] != '0')
  {
    if n >= 10 {
      DigitsLead(n / 10);
    }
  }

  lemma ExecutionIdReads(n: nat)
    ensures ExecutionId(n)[..5] == "exec-" && DigitsValue(ExecutionId(n)[5..]) == n
    ensures |ExecutionId(n)| > 5 && (n > 0 ==> ExecutionId(n)[5] != '0')
  {
    assert ExecutionId(n)[5..] == Digits(n);
    DigitsRoundTrip(n);
    DigitsLead(n);
  }

  lemma ExecutionIdInjective(m: nat, n: nat)
    requires ExecutionId(m) == ExecutionId(n)
    ensures m == n
  {
    ExecutionIdReads(m);
    ExecutionIdReads(n);
  }

  // `k` is one of the execution ids handed out before the counter reached `next`.
  ghost predicate Issued(k: string, next: nat) {
    exists n :: 1 <= n < next && k == ExecutionId(n)
  }

  class WorkflowEngine {
    var workflows: map<string, Workflow>
    var activeExecutions: map<string, Execution>
    var nextExecutionId: nat

    ghost predicate Valid()
      reads this
    {
      && (forall k :: k in workflows ==>
            workflows[k].id == k && UniqueIds(workflows[k].tasks) && DependenciesKnown(workflows[k].tasks))
      && nextExecutionId >= 1
      && forall k :: k in activeExecutions ==> Issued(k, nextExecutionId)
    }

    constructor ()
      ensures Valid() && workflows == map[] && activeExecutions == map[] && nextExecutionId == 1
    {
      workflows, activeExecutions, nextExecutionId := map[], map[], 1;
    }

    // Accepts exactly the new workflows with distinct task ids and known dependencies.
    method RegisterWorkflow(workflow: Workflow) returns (r: Result<(), Error>)
      requires Valid()
      modifies this`workflows
      ensures Valid()
      ensures r.Ok? <==>
                workflow.id !in old(workflows) && UniqueIds(workflow.tasks) && DependenciesKnown(workflow.tasks)
      ensures r == Err(InvalidTaskDefinition) <==> workflow.id in old(workflows) || !UniqueIds(workflow.tasks)
      ensures r.Err? && r.error != InvalidTaskDefinition ==>
                && r.error.TaskDependencyNotFound? && r.error.dependency !in Ids(workflow.tasks)
                && exists t :: t in workflow.tasks && r.error.dependency in t.dependencies
      ensures workflows == if r.Ok? then old(workflows)[workflow.id := workflow] else old(workflows)
    {
      if workflow.id in workflows {
        return Err(InvalidTaskDefinition);
      }
      var ts := workflow.tasks;
      var taskIds: set<Id> := {};
      for i := 0 to |ts|
        invariant taskIds == Ids(ts[..i]) && UniqueIds(ts[..i])
      {
        assert ts[..i + 1] == ts[..i] + [ts[i]];
        if ts[i].id in taskIds {
          assert !UniqueIds(ts) by {
            var t :| t in ts[..i] && t.id == ts[i].id;
            var j :| 0 <= j < i && ts[j] == t;
          }
          return Err(InvalidTaskDefinition);
        }
        assert forall j :: 0 <= j < i ==> ts[j] in ts[..i];
        taskIds := taskIds + {ts[i].id};
      }
      assert ts[..|ts|] == ts;
      var known := Ids(ts);
      for i := 0 to |ts|
        invariant forall j, d :: 0 <= j < i && d in ts[j].dependencies ==> d in known
      {
        var ds := ts[i].dependencies;
        for j := 0 to |ds|
          invariant forall k :: 0 <= k < j ==> ds[k] in known
        {
          if ds[j] !in known {
            assert ts[i] in ts && ds[j] in ds;
            return Err(TaskDependencyNotFound(ds[j]));
          }
        }
      }
      workflows := workflows[workflow.id := workflow];
      r := Ok(());
    }

    // Fails on an unknown workflow or, exactly, on a cycle. Otherwise, whatever the
    // error handling, the run completes every task successfully in dependency order.
    method Execute(workflowId: string) returns (r: Result<string, Error>)
      requires Valid()
      modifies this`activeExecutions, this`nextExecutionId
      ensures Valid()
      ensures workflowId !in workflows ==>
                r == Err(WorkflowNotFound(workflowId)) && nextExecutionId == old(nextExecutionId)
      ensures workflowId in workflows ==>
                && nextExecutionId == old(nextExecutionId) + 1
                && (r == Err(CircularDependency) <==> Cyclic(GraphOf(workflows[workflowId].tasks)))
                && (r != Err(CircularDependency) ==>
                      r == Ok(ExecutionId(old(nextExecutionId))) && r.value !in old(activeExecutions))
      ensures r.Err? ==> activeExecutions == old(activeExecutions)
      ensures r.Ok? ==>
                && r.value in activeExecutions
                && activeExecutions == old(activeExecutions)[r.value := activeExecutions[r.value]]
                && Finished(activeExecutions[r.value], workflows[workflowId])
    {
      if workflowId !in workflows {
        return Err(WorkflowNotFound(workflowId));
      }
      var workflow := workflows[workflowId];
      var executionId := ExecutionId(nextExecutionId);
      NewExecutionId();
      nextExecutionId := nextExecutionId + 1;
      var order := OrderTasks(workflow.tasks);
      if order.None? {
        return Err(CircularDependency);
      }
      var execution := RunInOrder(executionId, workflow, order.value);
      activeExecutions := activeExecutions[executionId := execution];
      assert Issued(executionId, nextExecutionId);
      r := Ok(executionId);
    }

    lemma NewExecutionId()
      requires Valid()
      ensures ExecutionId(nextExecutionId) !in activeExecutions
    {
      if ExecutionId(nextExecutionId) in activeExecutions {
        var n :| 1 <= n < nextExecutionId && ExecutionId(nextExecutionId) == ExecutionId(n);
        ExecutionIdInjective(nextExecutionId, n);
      }
    }
  }

  // A run that completed every task of the workflow, each after its dependencies.
  ghost predicate Finished(e: Execution, workflow: Workflow) {
    && e.workflowId == workflow.id && e.state == Completed && e.currentTask == None
    && LinearExtension(GraphOf(workflow.tasks), e.completedTasks) && e.failedTasks == []
    && e.results.Keys == Ids(workflow.tasks) && forall id :: id in e.results ==> e.results[id]
  }

  // Fills a scheduler with the tasks and sorts them; None means a cycle.
  method OrderTasks(tasks: seq<Task>) returns (order: Option<seq<Id>>)
    requires UniqueIds(tasks) && DependenciesKnown(tasks)
    ensures order.None? <==> Cyclic(GraphOf(tasks))
    ensures order.Some? ==> LinearExtension(GraphOf(tasks), order.value)
  {
    var scheduler := new TS.TaskScheduler();
    for i := 0 to |tasks|
      invariant fresh(scheduler) && scheduler.Valid()
      invariant Mirrored(scheduler.Model())
      invariant scheduler.dependencyGraph == GraphOf(tasks[..i])
    {
      assert tasks[..i + 1][..i] == tasks[..i];
      GraphOfMembers(tasks[..i]);
      AddedMirrored(scheduler.Model(), tasks[i]);
      scheduler.AddTaskNoCheck(tasks[i]);
    }
    assert tasks[..|tasks|] == tasks;
    GraphOfRegistered(tasks);
    var cyclic := scheduler.HasCycle();
    if cyclic {
      return None;
    }
    var sorted := scheduler.TopologicalOrder();
    order := Some(sorted.value);
  }

  // The execution loop over the sorted tasks.
  method RunInOrder(executionId: string, workflow: Workflow, order: seq<Id>) returns (e: Execution)
    requires UniqueIds(workflow.tasks) && LinearExtension(GraphOf(workflow.tasks), order)
    ensures e.id == executionId && Finished(e, workflow)
  {
    e := Execution(executionId, workflow.id, Running, map[], [], [], None);
    GraphOfMembers(workflow.tasks);
    var i := 0;
    while i < |order| && e.state == Running
      invariant 0 <= i <= |order|
      invariant e.id == executionId && e.workflowId == workflow.id
      invariant AllWell(e, order[..i])
    {
      assert order[i] in Elements(order);
      FindTaskFinds(workflow.tasks, order[i]);
      var task := FindTask(workflow.tasks, order[i]).value;
      RunTaskWell(e, task, workflow.errorHandling, order[..i]);
      e := RunTask(e, task, workflow.errorHandling);
      assert order[..i + 1] == order[..i] + [order[i]];
      i := i + 1;
    }
    assert order[..|order|] == order;
    if e.state == Running {
      e := e.(state := Completed, currentTask := None);
    }
  }
}
