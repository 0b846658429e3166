/**
 * Dependency graphs: a node maps to the list of nodes it depends on. A node may
 * name the same dependency more than once, and may name one that is not a node.
 */
module Graphs {
  import opened Sequences

  type Id = nat
  type Graph = map<Id, seq<Id>>

  ghost predicate Edge(g: Graph, a: Id, b: Id) {
    a in g && b in g[a]
  }

  ghost predicate IsPath(g: Graph, p: seq<Id>) {
    |p| > 0 && forall i :: 0 <= i < |p| - 1 ==> Edge(g, p[i], p[i + 1])
  }

  ghost predicate IsCycle(g: Graph, p: seq<Id>) {
    |p| >= 2 && IsPath(g, p) && p[0] == p[|p| - 1]
  }

  ghost predicate Cyclic(g: Graph) {
    exists p :: IsCycle(g, p)
  }

  ghost predicate Reaches(g: Graph, a: Id, b: Id) {
    exists p :: IsPath(g, p) && p[0] == a && p[|p| - 1] == b
  }

  // Every dependency named in the graph is itself a node.
  ghost predicate Registered(g: Graph) {
    forall t, d :: t in g && d in g[t] ==> d in g
  }

  // Every element's dependencies that are nodes come before it.
  ghost predicate NodesFirst(g: Graph, order: seq<Id>) {
    forall i, d :: 0 <= i < |order| && order[i] in g && d in g[order[i]] && d in g ==> d in order[..i]
  }

  // Every element is a node and all its dependencies come before it.
  ghost predicate DependsFirst(g: Graph, order: seq<Id>) {
    && (forall i :: 0 <= i < |order| ==> order[i] in g)
    && (forall i, d :: 0 <= i < |order| && order[i] in g && d in g[order[i]] ==> d in order[..i])
  }

  // A linear extension of the dependency order: each node once, dependencies first.
  ghost predicate LinearExtension(g: Graph, order: seq<Id>) {
    NoDup(order) && Elements(order) == g.Keys && DependsFirst(g, order)
  }

  lemma DependsFirstAppend(g: Graph, order: seq<Id>, id: Id)
    requires DependsFirst(g, order) && id in g && forall d :: d in g[id] ==> d in order
    ensures DependsFirst(g, order + [id])
  {
    var after := order + [id];
    forall i, d | 0 <= i < |after| && after[i] in g && d in g[after[i]]
      ensures d in after[..i]
    {
      if i < |order| {
        assert after[i] == order[i] && after[..i] == order[..i];
      } else {
        assert after[..i] == order;
      }
    }
  }

  // Along a path, every node after the first lies before it in a dependencies-first order.
  lemma {:induction false} PathDescends(g: Graph, order: seq<Id>, p: seq<Id>, k: nat)
    requires NodesFirst(g, order) && IsPath(g, p)
    requires forall i :: 0 <= i < |p| ==> p[i] in g
    requires k < |order| && order[k] == p[0]
    ensures forall i :: 1 <= i < |p| ==> p[i] in order[..k]
    decreases |p|
  {
    if |p| > 1 {
      assert Edge(g, p[0], p[0 + 1]);
      var k' :| 0 <= k' < k && order[k'] == p[1];
      var q := p[1..];
      SubPath(g, p, 1, |p|);
      PathDescends(g, order, q, k');
      forall i | 1 <= i < |p|
        ensures p[i] in order[..k]
      {
        if i > 1 {
          assert p[i] == q[i - 1] && q[i - 1] in order[..k'];
        }
      }
    }
  }

  // A dependencies-first order of all nodes rules out cycles.
  lemma OrderedHasNoCycle(g: Graph, order: seq<Id>)
    requires NoDup(order) && Elements(order) == g.Keys && NodesFirst(g, order)
    ensures !Cyclic(g)
  {
    forall p | IsCycle(g, p)
      ensures false
    {
      forall i | 0 <= i < |p|
        ensures p[i] in g
      {
        if i < |p| - 1 {
          assert Edge(g, p[i], p[i + 1]);
        } else {
          assert Edge(g, p[0], p[0 + 1]);
        }
      }
      assert p[0] in Elements(order);
      var k :| 0 <= k < |order| && order[k] == p[0];
      PathDescends(g, order, p, k);
    }
  }

  // Some member of `s` is a dependency of `y`.
  ghost predicate DependsWithin(g: Graph, s: set<Id>, y: Id) {
    exists z :: z in s && Edge(g, y, z)
  }

  lemma {:induction false} Walk(g: Graph, s: set<Id>, x: Id, n: nat) returns (p: seq<Id>)
    requires x in s
    requires forall y {:trigger DependsWithin(g, s, y)} :: y in s ==> DependsWithin(g, s, y)
    ensures |p| == n + 1 && IsPath(g, p) && p[0] == x
    ensures forall i :: 0 <= i < |p| ==> p[i] in s
    decreases n
  {
    if n == 0 {
      p := [x];
    } else {
      assert DependsWithin(g, s, x);
      var z :| z in s && Edge(g, x, z);
      var q := Walk(g, s, z, n - 1);
      p := [x] + q;
      forall i | 0 <= i < |p| - 1
        ensures Edge(g, p[i], p[i + 1])
      {
        if i > 0 {
          assert Edge(g, q[i - 1], q[i - 1 + 1]);
        }
      }
    }
  }

  // A nonempty set of nodes, each depending on another member, contains a cycle.
  lemma NoSinkCycle(g: Graph, s: set<Id>) returns (p: seq<Id>)
    requires s != {}
    requires forall y {:trigger DependsWithin(g, s, y)} :: y in s ==> DependsWithin(g, s, y)
    ensures IsCycle(g, p) && p[0] in s
  {
    var x :| x in s;
    var walk := Walk(g, s, x, |s|);
    var i, j := Pigeonhole(walk, s);
    SubPath(g, walk, i, j + 1);
    p := walk[i..j + 1];
  }

  lemma NoSinkIsCyclic(g: Graph, s: set<Id>)
    requires s != {}
    requires forall y {:trigger DependsWithin(g, s, y)} :: y in s ==> DependsWithin(g, s, y)
    ensures Cyclic(g)
  {
    var p := NoSinkCycle(g, s);
  }

  lemma SubPath(g: Graph, p: seq<Id>, i: nat, j: nat)
    requires IsPath(g, p) && i < j <= |p|
    ensures IsPath(g, p[i..j])
  {
    var q := p[i..j];
    forall k | 0 <= k < |q| - 1
      ensures Edge(g, q[k], q[k + 1])
    {
      assert Edge(g, p[i + k], p[i + k + 1]);
    }
  }

  // A cycle and a topological order exclude one another; with every dependency
  // registered, one of the two always exists.
  lemma OrderExcludesCycle(g: Graph, order: seq<Id>)
    requires LinearExtension(g, order)
    ensures !Cyclic(g) && Registered(g)
  {
    OrderedHasNoCycle(g, order);
    forall t, d | t in g && d in g[t]
      ensures d in g
    {
      assert t in Elements(order);
      var i :| 0 <= i < |order| && order[i] == t;
      assert d in order[..i];
      assert d in Elements(order);
    }
  }
}
