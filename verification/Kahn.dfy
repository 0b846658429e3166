/** The in-degree invariant of the queue-driven topological sort, for any reverse index. */
module Kahn {
  import opened Sequences
  import opened Graphs
  import opened SchedulerState

  // How many mentions in `ds` are not yet in `done`.
  ghost function Missing(ds: seq<Id>, done: seq<Id>): nat {
    if ds == [] then 0
    else Missing(ds[..|ds| - 1], done) + if ds[|ds| - 1] in done then 0 else 1
  }

  lemma {:induction false} MissingNone(ds: seq<Id>, done: seq<Id>)
    ensures Missing(ds, done) == 0 <==> forall d :: d in ds ==> d in done
  {
    if ds != [] {
      MissingNone(ds[..|ds| - 1], done);
      assert ds == ds[..|ds| - 1] + [ds[|ds| - 1]];
    }
  }

  lemma {:induction false} MissingAll(ds: seq<Id>)
    ensures Missing(ds, []) == |ds|
  {
    if ds != [] {
      MissingAll(ds[..|ds| - 1]);
    }
  }

  // Finishing `x` lowers the count by exactly the number of times `ds` names it.
  lemma {:induction false} MissingNext(ds: seq<Id>, done: seq<Id>, x: Id)
    requires x !in done
    ensures Missing(ds, done) == Missing(ds, done + [x]) + Count(ds, x)
  {
    if ds != [] {
      var r, d := ds[..|ds| - 1], ds[|ds| - 1];
      MissingNext(r, done, x);
      assert ds == r + [d];
      CountAppend(r, d, x);
      assert d in done + [x] <==> d in done || d == x;
    }
  }

  // How often the index lists t under the finished tasks: the decrements t has had.
  ghost function Received(index: Graph, done: seq<Id>, t: Id): nat {
    if done == [] then 0
    else Received(index, done[..|done| - 1], t) + Mentions(index, done[|done| - 1], t)
  }

  lemma ReceivedNext(index: Graph, done: seq<Id>, x: Id, t: Id)
    ensures Received(index, done + [x], t) == Received(index, done, t) + Mentions(index, x, t)
  {
    assert (done + [x])[..|done|] == done;
  }

  // An order in which each task comes when its decrements have used its in-degree up.
  ghost predicate Fired(g: Graph, index: Graph, order: seq<Id>) {
    && NoDup(order)
    && forall i :: 0 <= i < |order| ==>
         order[i] in g && Received(index, order[..i], order[i]) >= |g[order[i]]|
  }

  // Some task gets more decrements than its in-degree.
  ghost predicate Overfed(g: Graph, index: Graph) {
    exists order, t :: Overfeeds(g, index, order, t)
  }

  ghost predicate Overfeeds(g: Graph, index: Graph, order: seq<Id>, t: Id) {
    Fired(g, index, order) && t in g && Received(index, order, t) > |g[t]|
  }

  ghost predicate FiredAll(g: Graph, index: Graph, order: seq<Id>) {
    Fired(g, index, order) && Elements(order) == g.Keys
  }

  // Between queue steps: in-degrees are what the decrements so far have left, and the
  // tasks at zero are those listed so far, in `result` or in the queue behind it.
  ghost predicate Sorting(g: Graph, index: Graph, degree: map<Id, nat>, listed: seq<Id>, result: seq<Id>) {
    && degree.Keys == g.Keys
    && (forall t :: t in g ==> degree[t] == |g[t]| - Received(index, result, t))
    && Listing(degree, listed)
    && result <= listed && Fired(g, index, result)
  }

  ghost predicate Listing(degree: map<Id, nat>, listed: seq<Id>) {
    NoDup(listed) && forall t :: t in listed <==> t in degree && degree[t] == 0
  }

  // Within the step for `id`: the dependents in `visited` have been lowered.
  ghost predicate Lowering(g: Graph, index: Graph, degree: map<Id, nat>, listed: seq<Id>, result: seq<Id>,
                           visited: seq<Id>) {
    && degree.Keys == g.Keys
    && (forall t :: t in g ==> degree[t] == |g[t]| - Received(index, result, t) - Count(visited, t))
    && Listing(degree, listed)
  }

  lemma FiredNext(g: Graph, index: Graph, order: seq<Id>, id: Id)
    requires Fired(g, index, order) && id !in order && id in g && Received(index, order, id) >= |g[id]|
    ensures Fired(g, index, order + [id])
  {
    var next := order + [id];
    forall i | 0 <= i < |next|
      ensures next[i] in g && Received(index, next[..i], next[i]) >= |g[next[i]]|
    {
      if i < |order| {
        assert next[..i] == order[..i] && next[i] == order[i];
      } else {
        assert next[..i] == order;
      }
    }
  }

  // Taking the front of the queue.
  lemma StartStep(g: Graph, index: Graph, degree: map<Id, nat>, listed: seq<Id>, result: seq<Id>, queue: seq<Id>)
    requires Sorting(g, index, degree, listed, result) && queue != [] && listed == result + queue
    ensures listed == result + [queue[0]] + queue[1..]
    ensures Lowering(g, index, degree, listed, result, [])
    ensures Fired(g, index, result + [queue[0]])
  {
    var id := queue[0];
    assert listed[|result|] == id && id in listed;
    FiredNext(g, index, result, id);
  }

  lemma ListOne(degree: map<Id, nat>, listed: seq<Id>, t: Id)
    requires Listing(degree, listed) && t in degree && degree[t] > 0
    ensures var degree' := degree[t := degree[t] - 1];
            Listing(degree', listed + if degree[t] == 1 then [t] else [])
  {
  }

  lemma LowerOne(g: Graph, index: Graph, degree: map<Id, nat>, listed: seq<Id>, result: seq<Id>,
                 visited: seq<Id>, t: Id)
    requires Lowering(g, index, degree, listed, result, visited)
    requires t in degree ==> degree[t] > 0
    ensures var degree' := if t in degree then degree[t := degree[t] - 1] else degree;
            Lowering(g, index, degree', listed + if t in degree && degree[t] == 1 then [t] else [],
                     result, visited + [t])
  {
    if t in degree {
      ListOne(degree, listed, t);
    }
    var degree' := if t in degree then degree[t := degree[t] - 1] else degree;
    forall u | u in g
      ensures degree'[u] == |g[u]| - Received(index, result, u) - Count(visited + [t], u)
    {
      CountAppend(visited, t, u);
    }
  }

  // A decrement at zero means that some task is overfed.
  lemma UnderflowOverfeeds(g: Graph, index: Graph, degree: map<Id, nat>, listed: seq<Id>, result: seq<Id>,
                           id: Id, j: nat)
    requires Fired(g, index, result + [id]) && j < |Lookup(index, id)|
    requires Lowering(g, index, degree, listed, result, Lookup(index, id)[..j])
    requires Lookup(index, id)[j] in degree && degree[Lookup(index, id)[j]] == 0
    ensures Overfed(g, index)
  {
    var waiting := Lookup(index, id);
    var t := waiting[j];
    ReceivedNext(index, result, id, t);
    assert waiting == waiting[..j] + [t] + waiting[j + 1..];
    assert multiset(waiting) == multiset(waiting[..j]) + multiset{t} + multiset(waiting[j + 1..]);
    assert Overfeeds(g, index, result + [id], t);
  }

  lemma EndStep(g: Graph, index: Graph, degree: map<Id, nat>, listed: seq<Id>, result: seq<Id>, id: Id, queue: seq<Id>)
    requires Lowering(g, index, degree, listed, result, Lookup(index, id))
    requires listed == result + [id] + queue && Fired(g, index, result + [id])
    ensures Sorting(g, index, degree, listed, result + [id])
  {
    forall t | t in g
      ensures degree[t] == |g[t]| - Received(index, result + [id], t)
    {
      ReceivedNext(index, result, id, t);
    }
  }

  lemma {:induction false} ReceivedAround(index: Graph, a: seq<Id>, x: Id, b: seq<Id>, t: Id)
    ensures Received(index, a + [x] + b, t) == Received(index, a + b, t) + Mentions(index, x, t)
    decreases |b|
  {
    if b == [] {
      assert a + [x] + b == a + [x] && a + b == a;
      ReceivedNext(index, a, x, t);
    } else {
      var r, y := b[..|b| - 1], b[|b| - 1];
      ReceivedAround(index, a, x, r, t);
      assert a + [x] + b == a + [x] + r + [y] && a + b == a + r + [y];
      ReceivedNext(index, a + [x] + r, y, t);
      ReceivedNext(index, a + r, y, t);
    }
  }

  lemma {:induction false} ReceivedSubset(index: Graph, some: seq<Id>, all: seq<Id>, t: Id)
    requires NoDup(some) && forall x :: x in some ==> x in all
    ensures Received(index, some, t) <= Received(index, all, t)
    decreases |some|
  {
    if some != [] {
      var r, x := some[..|some| - 1], some[|some| - 1];
      assert x in some;
      var k :| 0 <= k < |all| && all[k] == x;
      var rest := all[..k] + all[k + 1..];
      forall y | y in r
        ensures y in rest
      {
        assert y in some && y != x;
        var i :| 0 <= i < |all| && all[i] == y;
        assert rest[if i < k then i else i - 1] == y;
      }
      ReceivedSubset(index, r, rest, t);
      assert all == all[..k] + [x] + all[k + 1..];
      ReceivedAround(index, all[..k], x, all[k + 1..], t);
    }
  }

  lemma FiredInit(g: Graph, index: Graph, order: seq<Id>)
    requires Fired(g, index, order) && order != []
    ensures var r, x := order[..|order| - 1], order[|order| - 1];
      Fired(g, index, r) && x in g && Received(index, r, x) >= |g[x]|
  {
    assert forall i :: 0 <= i < |order| - 1 ==> order[..|order| - 1][..i] == order[..i];
  }

  // When the queue runs dry, every order that fires lies within the result.
  lemma {:induction false} DryContains(g: Graph, index: Graph, degree: map<Id, nat>, result: seq<Id>, order: seq<Id>)
    requires Sorting(g, index, degree, result, result) && Fired(g, index, order)
    ensures forall x :: x in order ==> x in result
  {
    if order != [] {
      var r, x := order[..|order| - 1], order[|order| - 1];
      FiredInit(g, index, order);
      DryContains(g, index, degree, result, r);
      ReceivedSubset(index, r, result, x);
      assert degree[x] == 0;
    }
  }

  // So nothing is overfed,
  lemma DryFeeds(g: Graph, index: Graph, degree: map<Id, nat>, result: seq<Id>)
    requires Sorting(g, index, degree, result, result)
    ensures !Overfed(g, index)
  {
    forall order: seq<Id>, t: Id | Fired(g, index, order) && t in g
      ensures Received(index, order, t) <= |g[t]|
    {
      DryContains(g, index, degree, result, order);
      ReceivedSubset(index, order, result, t);
    }
  }

  lemma FullWhenLong(g: Graph, index: Graph, result: seq<Id>)
    requires Fired(g, index, result)
    ensures |result| <= |g| && (|result| == |g| <==> FiredAll(g, index, result))
  {
    NoDupSize(result);
    SubsetSize(Elements(result), g.Keys);
  }

  // and the length check passes exactly when some order of all tasks fires.
  lemma QueueDry(g: Graph, index: Graph, degree: map<Id, nat>, result: seq<Id>)
    requires Sorting(g, index, degree, result, result)
    ensures |result| == |g| <==> exists order: seq<Id> :: FiredAll(g, index, order)
    ensures |result| == |g| ==> FiredAll(g, index, result)
  {
    FullWhenLong(g, index, result);
    if order: seq<Id> :| FiredAll(g, index, order) {
      FullWhenLong(g, index, order);
      DryContains(g, index, degree, result, order);
      Longer(order, result);
    }
  }

  lemma Longer(a: seq<Id>, b: seq<Id>)
    requires NoDup(a) && NoDup(b) && forall x :: x in a ==> x in b
    ensures |a| <= |b|
  {
    NoDupSize(a);
    NoDupSize(b);
    SubsetSize(Elements(a), Elements(b));
  }
}
