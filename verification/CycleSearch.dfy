/** The three-colour invariant of the depth-first cycle search. */
module CycleSearch {
  import opened Sequences
  import opened Graphs

  datatype Color = White | Gray | Black

  // Black nodes are those in `order`, listed dependencies first; gray nodes are those
  // on `stack`, a path of dependencies that ends where the search stands.
  ghost predicate Searching(g: Graph, color: map<Id, Color>, order: seq<Id>, stack: seq<Id>) {
    && color.Keys == g.Keys
    && (forall n :: n in g ==> (color[n] == Black <==> n in order))
    && (forall n :: n in g ==> (color[n] == Gray <==> n in stack))
    && NoDup(order) && Elements(order) <= g.Keys && Elements(stack) <= g.Keys
    && NodesFirst(g, order)
    && (stack != [] ==> IsPath(g, stack))
  }

  ghost function Whites(color: map<Id, Color>): set<Id> {
    set n | n in color && color[n] == White
  }

  lemma Enter(g: Graph, color: map<Id, Color>, order: seq<Id>, stack: seq<Id>, node: Id)
    requires Searching(g, color, order, stack) && node in g && color[node] == White
    requires stack != [] ==> Edge(g, stack[|stack| - 1], node)
    ensures Searching(g, color[node := Gray], order, stack + [node])
    ensures Whites(color[node := Gray]) == Whites(color) - {node}
  {
    var s' := stack + [node];
    forall n | n in g
      ensures color[node := Gray][n] == Gray <==> n in s'
    {
      assert n in s' <==> n in stack || n == node;
    }
    forall n | n in Elements(s')
      ensures n in g
    {
      assert n in stack ==> n in Elements(stack);
    }
    forall i | 0 <= i < |s'| - 1
      ensures Edge(g, s'[i], s'[i + 1])
    {
      if i < |stack| - 1 {
        assert Edge(g, stack[i], stack[i + 1]);
      }
    }
  }

  // Leaving a node all of whose dependencies are black.
  lemma Leave(g: Graph, color: map<Id, Color>, order: seq<Id>, stack: seq<Id>, node: Id)
    requires node in g && node !in stack
    requires Searching(g, color, order, stack + [node])
    requires forall d :: d in g[node] && d in g ==> color[d] == Black
    ensures Searching(g, color[node := Black], order + [node], stack)
  {
    var s', o', c' := stack + [node], order + [node], color[node := Black];
    assert node in s';
    forall n | n in g
      ensures (c'[n] == Black <==> n in o') && (c'[n] == Gray <==> n in stack)
    {
      assert n in s' <==> n in stack || n == node;
      assert n in o' <==> n in order || n == node;
    }
    forall i, d | 0 <= i < |o'| && o'[i] in g && d in g[o'[i]] && d in g
      ensures d in o'[..i]
    {
      if i < |order| {
        assert order[i] == o'[i];
        assert o'[..i] == order[..i];
      } else {
        assert o'[..i] == order;
      }
    }
    if stack != [] {
      SubPath(g, s', 0, |stack|);
      assert s'[0..|stack|] == stack;
    }
    forall n | n in Elements(stack) ensures n in g {
      assert n in s' && n in Elements(s');
    }
    forall n | n in Elements(o') ensures n in g {
      assert n in order ==> n in Elements(order);
    }
  }

  // Meeting a gray node closes a cycle along the stack.
  lemma GrayClosesCycle(g: Graph, color: map<Id, Color>, order: seq<Id>, stack: seq<Id>, dep: Id)
    requires Searching(g, color, order, stack) && stack != []
    requires Edge(g, stack[|stack| - 1], dep) && dep in g && color[dep] == Gray
    ensures Cyclic(g)
  {
    var i :| 0 <= i < |stack| && stack[i] == dep;
    var p := stack[i..] + [dep];
    forall k | 0 <= k < |p| - 1
      ensures Edge(g, p[k], p[k + 1])
    {
      if k < |p| - 2 {
        assert Edge(g, stack[i + k], stack[i + k + 1]);
      }
    }
    assert IsCycle(g, p);
  }

  // Once nothing is white or gray, the finishing order rules out cycles.
  lemma AllBlack(g: Graph, color: map<Id, Color>, order: seq<Id>)
    requires Searching(g, color, order, []) && Whites(color) == {}
    ensures !Cyclic(g)
  {
    forall n | n in g
      ensures n in order
    {
      assert n !in Whites(color);
    }
    assert Elements(order) == g.Keys;
    OrderedHasNoCycle(g, order);
  }
}
