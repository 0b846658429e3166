/** What the clocks of two increments say about which of them can have influenced the other. */
module Causality {
  import opened Crdt
  import opened Replication

  // Everything in the second past is in the first.
  ghost predicate Includes<T, V>(p: Past<T, V>, q: Past<T, V>) {
    && q.ticks <= p.ticks && q.increments <= p.increments
    && q.added <= p.added && q.removed <= p.removed && q.writes <= p.writes
  }

  ghost function At<T, V>(w: World<T, V>, n: Node): Copy<T, V> {
    if n in w.replicas then w.replicas[n] else Fresh(n)
  }

  // The clock increment a node would make next.
  ghost function NextTick<T, V>(w: World<T, V>, n: Node): Event {
    Event(n, Get(At(w, n).state.clock, n))
  }

  // The i-th operation of a run is a clock increment at `n`.
  ghost predicate TickAt<T, V>(
      nodes: set<Node>, ws: seq<World<T, V>>, ops: seq<Op<T, V>>, i: nat, n: Node)
  {
    IsRun(nodes, ws, ops) && i < |ops| && ops[i] == Tick(n)
  }

  lemma {:induction false} PastGrows<T, V>(
      nodes: set<Node>, ws: seq<World<T, V>>, ops: seq<Op<T, V>>, i: nat, k: nat, n: Node)
    requires IsRun(nodes, ws, ops) && i <= k < |ws|
    ensures Includes(At(ws[k], n).past, At(ws[i], n).past)
    ensures |ws[i].snapshots| <= |ws[k].snapshots|
    decreases k
  {
    if i < k {
      PastGrows(nodes, ws, ops, i, k - 1, n);
      assert Step(ws[k - 1], ops[k - 1], ws[k - 1 + 1]);
    }
  }

  // An increment enters the past of its own node and of nobody else.
  lemma TickMade<T, V>(nodes: set<Node>, ws: seq<World<T, V>>, ops: seq<Op<T, V>>, i: nat, n: Node)
    requires TickAt(nodes, ws, ops, i, n)
    ensures forall c :: IsCopy(ws[i], c) ==> NextTick(ws[i], n) !in c.past.ticks
    ensures n in ws[i].replicas && ws[i + 1] == ws[i].(replicas := ws[i + 1].replicas)
    ensures ws[i + 1].replicas == ws[i].replicas[n := Updated(ws[i].replicas[n], Tick(n))]
    ensures NextTick(ws[i], n) in At(ws[i + 1], n).past.ticks
  {
    assert Step(ws[i], ops[i], ws[i + 1]);
    forall c | IsCopy(ws[i], c)
      ensures NextTick(ws[i], n) !in c.past.ticks
    {
      IncrementsAreNew(nodes, ws, ops, i, c);
    }
  }

  // No two increments are the same event.
  lemma TicksDiffer<T, V>(
      nodes: set<Node>, ws: seq<World<T, V>>, ops: seq<Op<T, V>>, i: nat, n: Node, k: nat, m: Node)
    requires TickAt(nodes, ws, ops, i, n) && TickAt(nodes, ws, ops, k, m) && i < k
    ensures NextTick(ws[i], n) != NextTick(ws[k], m)
  {
    TickMade(nodes, ws, ops, i, n);
    TickMade(nodes, ws, ops, k, m);
    PastGrows(nodes, ws, ops, i + 1, k, n);
    assert IsCopy(ws[k], At(ws[k], m));
  }

  // Whoever has seen the event has seen all of the past.
  ghost predicate ComesWith<T, V>(w: World<T, V>, e: Event, q: Past<T, V>) {
    && (forall n :: n in w.replicas ==> Brings(w.replicas[n], e, q))
    && (forall i :: 0 <= i < |w.snapshots| ==> Brings(w.snapshots[i], e, q))
  }

  ghost predicate Brings<T, V>(c: Copy<T, V>, e: Event, q: Past<T, V>) {
    e in c.past.ticks ==> Includes(c.past, q)
  }

  lemma StepComesWith<T, V>(w: World<T, V>, op: Op<T, V>, w': World<T, V>, e: Event, q: Past<T, V>)
    requires Step(w, op, w') && ComesWith(w, e, q) && (op.Tick? ==> e != NextTick(w, op.at))
    ensures ComesWith(w', e, q)
  {
    var c := w.replicas[op.at];
    assert Brings(c, e, q);
    assert op.Deliver? ==> Brings(w.snapshots[op.index], e, q);
    forall n | n in w'.replicas
      ensures Brings(w'.replicas[n], e, q)
    {
      assert n != op.at ==> Brings(w.replicas[n], e, q);
    }
  }

  lemma TickComesWith<T, V>(nodes: set<Node>, ws: seq<World<T, V>>, ops: seq<Op<T, V>>, i: nat, n: Node)
    requires TickAt(nodes, ws, ops, i, n)
    ensures ComesWith(ws[i + 1], NextTick(ws[i], n), At(ws[i + 1], n).past)
  {
    var w, w', e := ws[i], ws[i + 1], NextTick(ws[i], n);
    TickMade(nodes, ws, ops, i, n);
    forall m | m in w'.replicas && m != n
      ensures e !in w'.replicas[m].past.ticks
    {
      assert IsCopy(w, w'.replicas[m]);
    }
    forall k | 0 <= k < |w'.snapshots|
      ensures e !in w'.snapshots[k].past.ticks
    {
      assert IsCopy(w, w'.snapshots[k]);
    }
  }

  // If an increment is in a copy's past, so is everything its node had seen when it made it.
  lemma {:induction false} SeenWithAll<T, V>(
      nodes: set<Node>, ws: seq<World<T, V>>, ops: seq<Op<T, V>>, i: nat, n: Node, k: nat)
    requires TickAt(nodes, ws, ops, i, n) && i < k < |ws|
    ensures ComesWith(ws[k], NextTick(ws[i], n), At(ws[i + 1], n).past)
    decreases k
  {
    if k == i + 1 {
      TickComesWith(nodes, ws, ops, i, n);
    } else {
      var j := k - 1;
      SeenWithAll(nodes, ws, ops, i, n, j);
      if ops[j].Tick? {
        TicksDiffer(nodes, ws, ops, i, n, j, ops[j].at);
      }
      StepComesWith(ws[j], ops[j], ws[j + 1], NextTick(ws[i], n), At(ws[i + 1], n).past);
    }
  }

  // One operation leads to a later one directly: both at one node, or the later one
  // delivers the snapshot the earlier one sent.
  ghost predicate Leads<T, V>(ws: seq<World<T, V>>, ops: seq<Op<T, V>>, a: nat, b: nat) {
    && a < b < |ops| && |ops| < |ws|
    && (ops[a].at == ops[b].at || (ops[a].Send? && ops[b].Deliver? && ops[b].index == |ws[a].snapshots|))
  }

  // Through a chain of such steps, possibly none.
  ghost predicate HappensBefore<T, V>(ws: seq<World<T, V>>, ops: seq<Op<T, V>>, a: nat, b: nat)
    decreases b
  {
    a == b || exists x: nat :: x < b && Leads(ws, ops, x, b) && HappensBefore(ws, ops, a, x)
  }

  // One of the first k operations, at node n, comes after the given one.
  ghost predicate Reached<T, V>(ws: seq<World<T, V>>, ops: seq<Op<T, V>>, i: nat, k: nat, n: Node) {
    exists x: nat :: x < k && x < |ops| && ops[x].at == n && HappensBefore(ws, ops, i, x)
  }

  // The send of this snapshot does.
  ghost predicate Sent<T, V>(ws: seq<World<T, V>>, ops: seq<Op<T, V>>, i: nat, k: nat, s: nat) {
    exists x: nat ::
      x < k && x < |ops| < |ws| && ops[x].Send? && |ws[x].snapshots| == s && HappensBefore(ws, ops, i, x)
  }

  lemma {:induction false} NotBackwards<T, V>(ws: seq<World<T, V>>, ops: seq<Op<T, V>>, a: nat, b: nat)
    requires HappensBefore(ws, ops, a, b)
    ensures a <= b
    decreases b
  {
    if a != b {
      var x: nat :| x < b && Leads(ws, ops, x, b) && HappensBefore(ws, ops, a, x);
      NotBackwards(ws, ops, a, x);
    }
  }

  // What precedes the k-th operation reached its node before it or came with the snapshot.
  lemma PrecedesNext<T, V>(ws: seq<World<T, V>>, ops: seq<Op<T, V>>, i: nat, k: nat)
    requires i < k < |ops| < |ws|
    ensures HappensBefore(ws, ops, i, k) <==>
              Reached(ws, ops, i, k, ops[k].at) || (ops[k].Deliver? && Sent(ws, ops, i, k, ops[k].index))
  {
  }

  // A copy at a node, or a snapshot, has seen an increment exactly when a chain of
  // operations leads from the increment to it.
  ghost predicate SeenExactly<T, V>(
      ws: seq<World<T, V>>, ops: seq<Op<T, V>>, i: nat, e: Event, k: nat)
    requires k < |ws|
  {
    && (forall n :: n in ws[k].replicas ==> (e in ws[k].replicas[n].past.ticks <==> Reached(ws, ops, i, k, n)))
    && (forall s :: 0 <= s < |ws[k].snapshots| ==>
          (e in ws[k].snapshots[s].past.ticks <==> Sent(ws, ops, i, k, s)))
  }

  lemma SeenFirst<T, V>(nodes: set<Node>, ws: seq<World<T, V>>, ops: seq<Op<T, V>>, i: nat, n: Node)
    requires TickAt(nodes, ws, ops, i, n)
    ensures SeenExactly(ws, ops, i, NextTick(ws[i], n), i + 1)
  {
    var w, e := ws[i + 1], NextTick(ws[i], n);
    TickMade(nodes, ws, ops, i, n);
    forall x: nat | x < i + 1 && HappensBefore(ws, ops, i, x)
      ensures x == i
    {
      NotBackwards(ws, ops, i, x);
    }
    forall m | m in w.replicas
      ensures e in w.replicas[m].past.ticks <==> Reached(ws, ops, i, i + 1, m)
    {
      assert m == n ==> ops[i].at == m && HappensBefore(ws, ops, i, i);
      assert m != n ==> IsCopy(ws[i], w.replicas[m]);
    }
    forall s | 0 <= s < |w.snapshots|
      ensures e !in w.snapshots[s].past.ticks
    {
      assert IsCopy(ws[i], w.snapshots[s]);
    }
  }

  lemma SnapshotFresh<T, V>(
      nodes: set<Node>, ws: seq<World<T, V>>, ops: seq<Op<T, V>>, i: nat, k: nat)
    requires IsRun(nodes, ws, ops) && k < |ops|
    ensures !Sent(ws, ops, i, k, |ws[k].snapshots|)
  {
    forall x: nat | x < k && ops[x].Send?
      ensures |ws[x].snapshots| < |ws[k].snapshots|
    {
      assert Step(ws[x], ops[x], ws[x + 1]);
      PastGrows(nodes, ws, ops, x + 1, k, 0);
    }
  }

  lemma SeenNext<T, V>(
      nodes: set<Node>, ws: seq<World<T, V>>, ops: seq<Op<T, V>>, i: nat, e: Event, k: nat)
    requires IsRun(nodes, ws, ops) && i < k < |ops| && SeenExactly(ws, ops, i, e, k)
    requires ops[k].Tick? ==> e != NextTick(ws[k], ops[k].at)
    ensures SeenExactly(ws, ops, i, e, k + 1)
  {
    var w, op, w' := ws[k], ops[k], ws[k + 1];
    assert Step(w, op, w');
    PrecedesNext(ws, ops, i, k);
    SnapshotFresh(nodes, ws, ops, i, k);
    forall n | n in w'.replicas
      ensures e in w'.replicas[n].past.ticks <==> Reached(ws, ops, i, k + 1, n)
    {
      ReachedNext(ws, ops, i, k, n);
      assert n != op.at ==> n in w.replicas && w'.replicas[n] == w.replicas[n];
    }
    forall s | 0 <= s < |w'.snapshots|
      ensures e in w'.snapshots[s].past.ticks <==> Sent(ws, ops, i, k + 1, s)
    {
      SentNext(ws, ops, i, k, s);
    }
  }

  lemma ReachedNext<T, V>(ws: seq<World<T, V>>, ops: seq<Op<T, V>>, i: nat, k: nat, n: Node)
    requires k < |ops|
    ensures Reached(ws, ops, i, k + 1, n) <==>
              Reached(ws, ops, i, k, n) || (ops[k].at == n && HappensBefore(ws, ops, i, k))
  {
  }

  lemma SentNext<T, V>(ws: seq<World<T, V>>, ops: seq<Op<T, V>>, i: nat, k: nat, s: nat)
    requires k < |ops| < |ws|
    ensures Sent(ws, ops, i, k + 1, s) <==>
              Sent(ws, ops, i, k, s) ||
              (ops[k].Send? && |ws[k].snapshots| == s && HappensBefore(ws, ops, i, k))
  {
  }

  lemma {:induction false} SeenAlways<T, V>(
      nodes: set<Node>, ws: seq<World<T, V>>, ops: seq<Op<T, V>>, i: nat, n: Node, k: nat)
    requires TickAt(nodes, ws, ops, i, n) && i <= k < |ops|
    ensures SeenExactly(ws, ops, i, NextTick(ws[i], n), k + 1)
    decreases k
  {
    if k == i {
      SeenFirst(nodes, ws, ops, i, n);
    } else {
      SeenAlways(nodes, ws, ops, i, n, k - 1);
      if ops[k].Tick? {
        TicksDiffer(nodes, ws, ops, i, n, k, ops[k].at);
      }
      SeenNext(nodes, ws, ops, i, NextTick(ws[i], n), k);
    }
  }

  // An increment is in the past of another's node, right after the other, exactly when it
  // happens before it.
  lemma PastIsHistory<T, V>(
      nodes: set<Node>, ws: seq<World<T, V>>, ops: seq<Op<T, V>>, i: nat, n: Node, k: nat, m: Node)
    requires TickAt(nodes, ws, ops, i, n) && TickAt(nodes, ws, ops, k, m)
    ensures NextTick(ws[i], n) in At(ws[k + 1], m).past.ticks <==> HappensBefore(ws, ops, i, k)
  {
    TickMade(nodes, ws, ops, k, m);
    if i <= k {
      SeenAlways(nodes, ws, ops, i, n, k);
      ReachedNext(ws, ops, i, k, m);
      if i < k {
        PrecedesNext(ws, ops, i, k);
      }
    } else {
      if HappensBefore(ws, ops, i, k) {
        NotBackwards(ws, ops, i, k);
      }
      NotSeenYet(nodes, ws, ops, i, n, k + 1, At(ws[k + 1], m));
    }
  }

  // Nobody has seen an increment before it is made.
  lemma NotSeenYet<T, V>(
      nodes: set<Node>, ws: seq<World<T, V>>, ops: seq<Op<T, V>>, i: nat, n: Node, k: nat, c: Copy<T, V>)
    requires TickAt(nodes, ws, ops, i, n) && k <= i && IsCopy(ws[k], c)
    ensures NextTick(ws[i], n) !in c.past.ticks
  {
    RunKeeps(nodes, ws, ops, k);
    assert Good(ws[k], c);
    TickMade(nodes, ws, ops, i, n);
    PastGrows(nodes, ws, ops, k, i, n);
    assert IsCopy(ws[i], At(ws[i], n));
  }

  // The clock of a node right after its increment.
  ghost function Stamp<T, V>(ws: seq<World<T, V>>, i: nat, n: Node): Tally
    requires i + 1 < |ws|
  {
    At(ws[i + 1], n).state.clock
  }

  // Of two increments, one happens before the other, through some chain of operations and
  // deliveries, exactly when its clock lies below the other's, and comparing the entry of
  // its own node is enough to tell.
  lemma ClocksTellPrecedence<T, V>(
      nodes: set<Node>, ws: seq<World<T, V>>, ops: seq<Op<T, V>>, i: nat, n: Node, k: nat, m: Node)
    requires TickAt(nodes, ws, ops, i, n) && TickAt(nodes, ws, ops, k, m)
    ensures HappensBefore(ws, ops, i, k) <==> Below(Stamp(ws, i, n), Stamp(ws, k, m))
    ensures HappensBefore(ws, ops, i, k) <==> Get(Stamp(ws, i, n), n) <= Get(Stamp(ws, k, m), n)
  {
    var a, b, e := At(ws[i + 1], n), At(ws[k + 1], m), NextTick(ws[i], n);
    TickMade(nodes, ws, ops, i, n);
    TickMade(nodes, ws, ops, k, m);
    RunKeeps(nodes, ws, ops, i + 1);
    RunKeeps(nodes, ws, ops, k + 1);
    assert IsCopy(ws[k + 1], b);
    assert Good(ws[i + 1], a) && Good(ws[k + 1], b);
    PastIsHistory(nodes, ws, ops, i, n, k, m);
    EventsMembers(b.state.clock, e);
    BelowIsInclusion(a.state.clock, b.state.clock);
    if HappensBefore(ws, ops, i, k) {
      NotBackwards(ws, ops, i, k);
      SeenWithAll(nodes, ws, ops, i, n, k + 1);
    }
  }

  // What an outcome of comparing the clocks of two increments claims about them.
  ghost predicate Claims<T, V>(ws: seq<World<T, V>>, ops: seq<Op<T, V>>, i: nat, k: nat, order: CausalOrder) {
    match order
    case Equal => i == k
    case Before => i != k && HappensBefore(ws, ops, i, k)
    case After => i != k && HappensBefore(ws, ops, k, i)
    case Concurrent => !HappensBefore(ws, ops, i, k) && !HappensBefore(ws, ops, k, i)
  }

  // The outcome is right for the clocks exactly when what it claims is so.
  lemma ComparedExactly<T, V>(
      nodes: set<Node>, ws: seq<World<T, V>>, ops: seq<Op<T, V>>, i: nat, n: Node, k: nat, m: Node, order: CausalOrder)
    requires TickAt(nodes, ws, ops, i, n) && TickAt(nodes, ws, ops, k, m)
    ensures OrderedAs(Events(Stamp(ws, i, n)), Events(Stamp(ws, k, m)), order) <==> Claims(ws, ops, i, k, order)
  {
    ClocksTellPrecedence(nodes, ws, ops, i, n, k, m);
    ClocksTellPrecedence(nodes, ws, ops, k, m, i, n);
    BelowIsInclusion(Stamp(ws, i, n), Stamp(ws, k, m));
    BelowIsInclusion(Stamp(ws, k, m), Stamp(ws, i, n));
    if HappensBefore(ws, ops, i, k) && HappensBefore(ws, ops, k, i) {
      NotBackwards(ws, ops, i, k);
      NotBackwards(ws, ops, k, i);
    }
  }
}
