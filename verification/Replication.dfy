/** Replicas that update themselves and merge snapshots of one another. */
module Replication {
  import opened Wrappers
  import opened Crdt

  // A snapshot can be delivered to any replica, any number of times and in any order, or
  // never.

  datatype Replica<T(==), V> = Replica(clock: Tally, counter: Tally, elements: SetState<T>, register: Write<V>) {
    function Merge(that: Replica<T, V>): Replica<T, V> {
      Replica(Merged(clock, that.clock), Merged(counter, that.counter),
              elements.Join(that.elements), register.Latest(that.register))
    }
  }

  // The updates in a state's causal past. A register's empty start counts as a write.
  datatype Past<T(==), V(==)> = Past(
    ticks: set<Event>, increments: set<Event>, added: set<T>, removed: set<T>, writes: set<Write<V>>)
  {
    function Union(that: Past<T, V>): Past<T, V> {
      Past(ticks + that.ticks, increments + that.increments, added + that.added,
           removed + that.removed, writes + that.writes)
    }
  }

  // A replica or a snapshot together with its causal past.
  datatype Copy<T(==), V(==)> = Copy(state: Replica<T, V>, past: Past<T, V>)

  // `made` holds every write ever made, empty starts included.
  datatype World<T(==), V(==)> = World(
    replicas: map<Node, Copy<T, V>>, snapshots: seq<Copy<T, V>>, made: set<Write<V>>)

  datatype Op<T, V> =
    | Tick(at: Node)
    | Increment(at: Node)
    | Add(at: Node, x: T)
    | Remove(at: Node, x: T)
    | Set(at: Node, v: V, timestamp: nat, writer: Node)
    | Send(at: Node)
    | Deliver(at: Node, index: nat)

  function Fresh<T, V(==)>(n: Node): Copy<T, V> {
    var start := Write(None, 0, n);
    Copy(Replica(map[], map[], SetState({}, {}), start), Past({}, {}, {}, {}, {start}))
  }

  function Start<T, V>(nodes: set<Node>): World<T, V> {
    World(map n | n in nodes :: Fresh(n), [], set n | n in nodes :: Write(None, 0, n))
  }

  // What an update does to the copy at its node. Each node increments only its own
  // clock and counter entries.
  function Updated<T(==), V(==)>(c: Copy<T, V>, op: Op<T, V>): Copy<T, V> {
    var s, p := c.state, c.past;
    match op
    case Tick(n) =>
      Copy(s.(clock := Incremented(s.clock, n)), p.(ticks := p.ticks + {Event(n, Get(s.clock, n))}))
    case Increment(n) =>
      Copy(s.(counter := Incremented(s.counter, n)),
           p.(increments := p.increments + {Event(n, Get(s.counter, n))}))
    case Add(_, x) => Copy(s.(elements := s.elements.Plus(x)), p.(added := p.added + {x}))
    case Remove(_, x) => Copy(s.(elements := s.elements.Minus(x)), p.(removed := p.removed + {x}))
    case Set(_, v, t, writer) =>
      var w := Write(Some(v), t, writer);
      Copy(s.(register := s.register.Latest(w)), p.(writes := p.writes + {w}))
    case _ => c
  }

  function Merge<T, V(==)>(a: Copy<T, V>, b: Copy<T, V>): Copy<T, V> {
    Copy(a.state.Merge(b.state), a.past.Union(b.past))
  }

  ghost predicate Step<T, V>(w: World<T, V>, op: Op<T, V>, w': World<T, V>) {
    && op.at in w.replicas
    && var c := w.replicas[op.at];
       match op
       case Send(n) =>
         w' == w.(snapshots := w.snapshots + [c])
       case Deliver(n, i) =>
         && i < |w.snapshots|
         && w' == w.(replicas := w.replicas[n := Merge(c, w.snapshots[i])])
       case Set(n, v, t, writer) =>
         // Stamps are never re-used, not even those of the empty starts.
         && (forall x :: x in w.made ==> !x.SameStamp(Write(Some(v), t, writer)))
         && w' == w.(replicas := w.replicas[n := Updated(c, op)], made := w.made + {Write(Some(v), t, writer)})
       case _ =>
         w' == w.(replicas := w.replicas[op.at := Updated(c, op)])
  }

  ghost predicate IsRun<T, V>(nodes: set<Node>, ws: seq<World<T, V>>, ops: seq<Op<T, V>>) {
    && |ws| == |ops| + 1 && ws[0] == Start(nodes)
    && forall i :: 0 <= i < |ops| ==> Step(ws[i], ops[i], ws[i + 1])
  }

  // The tally holds exactly these increments, and no zero entry.
  ghost predicate Counts(m: Tally, events: set<Event>) {
    Events(m) == events && forall n :: n in m ==> m[n] > 0
  }

  // The state is the one its past determines.
  ghost predicate Faithful<T, V>(c: Copy<T, V>) {
    && Counts(c.state.clock, c.past.ticks)
    && Counts(c.state.counter, c.past.increments)
    && c.state.elements.Reflects(c.past.added, c.past.removed)
    && Greatest(c.state.register, c.past.writes)
  }

  lemma CountsUnique(a: Tally, b: Tally, events: set<Event>)
    requires Counts(a, events) && Counts(b, events)
    ensures a == b
  {
    BelowIsInclusion(a, b);
    BelowIsInclusion(b, a);
    forall n
      ensures (n in a <==> n in b) && Get(a, n) == Get(b, n)
    {
      assert n in a ==> a[n] <= Get(b, n);
      assert n in b ==> b[n] <= Get(a, n);
    }
  }

  lemma CountsIncrement(m: Tally, events: set<Event>, n: Node)
    requires Counts(m, events)
    ensures Counts(Incremented(m, n), events + {Event(n, Get(m, n))})
  {
    IncrementedEvents(m, n);
  }

  lemma CountsMerge(a: Tally, b: Tally, ea: set<Event>, eb: set<Event>)
    requires Counts(a, ea) && Counts(b, eb)
    ensures Counts(Merged(a, b), ea + eb)
  {
    MergedEvents(a, b);
  }

  // The past determines the state.
  lemma FaithfulUnique<T, V>(a: Copy<T, V>, b: Copy<T, V>)
    requires Faithful(a) && Faithful(b) && a.past == b.past && UniqueStamps(a.past.writes)
    ensures a.state == b.state
  {
    CountsUnique(a.state.clock, b.state.clock, a.past.ticks);
    CountsUnique(a.state.counter, b.state.counter, a.past.increments);
    GreatestUnique(a.state.register, b.state.register, a.past.writes);
  }

  lemma UpdateFaithful<T, V>(c: Copy<T, V>, op: Op<T, V>)
    requires Faithful(c)
    ensures Faithful(Updated(c, op))
  {
    match op
    case Tick(n) => CountsIncrement(c.state.clock, c.past.ticks, n);
    case Increment(n) => CountsIncrement(c.state.counter, c.past.increments, n);
    case Add(_, x) => SetStepsReflect(c.state.elements, c.past.added, c.past.removed, x);
    case Remove(_, x) => SetStepsReflect(c.state.elements, c.past.added, c.past.removed, x);
    case Set(_, v, t, writer) =>
      var w := Write(Some(v), t, writer);
      LatestGreatest(c.state.register, w, c.past.writes, {w});
    case _ =>
  }

  lemma MergeFaithful<T, V>(a: Copy<T, V>, b: Copy<T, V>)
    requires Faithful(a) && Faithful(b)
    ensures Faithful(Merge(a, b))
  {
    CountsMerge(a.state.clock, b.state.clock, a.past.ticks, b.past.ticks);
    CountsMerge(a.state.counter, b.state.counter, a.past.increments, b.past.increments);
    SetJoinReflects(a.state.elements, b.state.elements, a.past.added, a.past.removed, b.past.added, b.past.removed);
    LatestGreatest(a.state.register, b.state.register, a.past.writes, b.past.writes);
  }

  ghost predicate IsCopy<T, V>(w: World<T, V>, c: Copy<T, V>) {
    c in w.snapshots || exists n :: n in w.replicas && c == w.replicas[n]
  }

  // A node has itself seen all of its own increments that anyone has seen.
  ghost predicate Owns<T, V>(w: World<T, V>, p: Past<T, V>) {
    forall e :: e in p.ticks || e in p.increments ==>
      && e.node in w.replicas
      && (e in p.ticks ==> e in w.replicas[e.node].past.ticks)
      && (e in p.increments ==> e in w.replicas[e.node].past.increments)
  }

  ghost predicate Good<T, V>(w: World<T, V>, c: Copy<T, V>) {
    Faithful(c) && c.past.writes <= w.made && Owns(w, c.past)
  }

  ghost predicate Invariant<T, V>(w: World<T, V>) {
    && UniqueStamps(w.made) && (forall x :: x in w.made && x.value.None? ==> x.timestamp == 0)
    && (forall n :: n in w.replicas ==> Good(w, w.replicas[n]))
    && (forall i :: 0 <= i < |w.snapshots| ==> Good(w, w.snapshots[i]))
  }

  // Replacing one node's copy by one with a larger past keeps everyone else good.
  lemma StaysGood<T, V>(w: World<T, V>, w': World<T, V>, n: Node, c: Copy<T, V>)
    requires n in w.replicas && n in w'.replicas && w'.replicas == w.replicas[n := w'.replicas[n]]
    requires w.made <= w'.made
    requires w.replicas[n].past.ticks <= w'.replicas[n].past.ticks
    requires w.replicas[n].past.increments <= w'.replicas[n].past.increments
    requires Good(w, c)
    ensures Good(w', c)
  {
  }

  lemma ReplaceKeeps<T, V>(w: World<T, V>, w': World<T, V>, n: Node)
    requires Invariant(w) && n in w.replicas && n in w'.replicas
    requires w'.replicas == w.replicas[n := w'.replicas[n]] && w'.snapshots == w.snapshots
    requires w.made <= w'.made && UniqueStamps(w'.made)
    requires forall x :: x in w'.made && x.value.None? ==> x.timestamp == 0
    requires w.replicas[n].past.ticks <= w'.replicas[n].past.ticks
    requires w.replicas[n].past.increments <= w'.replicas[n].past.increments
    requires Good(w', w'.replicas[n])
    ensures Invariant(w')
  {
    forall m | m in w'.replicas
      ensures Good(w', w'.replicas[m])
    {
      if m != n {
        StaysGood(w, w', n, w.replicas[m]);
      }
    }
    forall i | 0 <= i < |w'.snapshots|
      ensures Good(w', w'.snapshots[i])
    {
      StaysGood(w, w', n, w.snapshots[i]);
    }
  }

  lemma SendKeeps<T, V>(w: World<T, V>, n: Node)
    requires Invariant(w) && n in w.replicas
    ensures Invariant(w.(snapshots := w.snapshots + [w.replicas[n]]))
  {
    var w' := w.(snapshots := w.snapshots + [w.replicas[n]]);
    forall i | 0 <= i < |w'.snapshots|
      ensures Good(w', w'.snapshots[i])
    {
      assert Good(w, if i < |w.snapshots| then w.snapshots[i] else w.replicas[n]);
    }
    forall m | m in w'.replicas
      ensures Good(w', w'.replicas[m])
    {
      assert Good(w, w.replicas[m]);
    }
  }

  lemma DeliverKeeps<T, V>(w: World<T, V>, n: Node, m: Copy<T, V>)
    requires Invariant(w) && n in w.replicas && m in w.snapshots
    ensures Invariant(w.(replicas := w.replicas[n := Merge(w.replicas[n], m)]))
  {
    var c := w.replicas[n];
    var w' := w.(replicas := w.replicas[n := Merge(c, m)]);
    assert Good(w, c) && Good(w, m);
    MergeFaithful(c, m);
    assert Owns(w', Merge(c, m).past);
    ReplaceKeeps(w, w', n);
  }

  lemma UpdateKeeps<T, V>(w: World<T, V>, op: Op<T, V>, w': World<T, V>)
    requires Invariant(w) && Step(w, op, w') && !op.Send? && !op.Deliver?
    ensures Invariant(w')
  {
    var c := w.replicas[op.at];
    UpdateFaithful(c, op);
    assert Good(w, c);
    ReplaceKeeps(w, w', op.at);
  }

  lemma StepKeeps<T, V>(w: World<T, V>, op: Op<T, V>, w': World<T, V>)
    requires Invariant(w) && Step(w, op, w')
    ensures Invariant(w')
  {
    match op
    case Send(n) => SendKeeps(w, n);
    case Deliver(n, i) => DeliverKeeps(w, n, w.snapshots[i]);
    case _ => UpdateKeeps(w, op, w');
  }

  lemma StartInvariant<T, V>(nodes: set<Node>)
    ensures Invariant<T, V>(Start(nodes))
  {
    var w: World<T, V> := Start(nodes);
    forall n | n in w.replicas
      ensures Good(w, w.replicas[n])
    {
      assert Events(map[]) == {};
      assert Write(None, 0, n) in w.made;
    }
  }

  lemma {:induction false} RunKeeps<T, V>(nodes: set<Node>, ws: seq<World<T, V>>, ops: seq<Op<T, V>>, i: nat)
    requires IsRun(nodes, ws, ops) && i < |ws|
    ensures Invariant(ws[i])
    decreases i
  {
    if i == 0 {
      StartInvariant<T, V>(nodes);
    } else {
      RunKeeps(nodes, ws, ops, i - 1);
      StepKeeps(ws[i - 1], ops[i - 1], ws[i - 1 + 1]);
    }
  }

  // Convergence: any two copies of a run that saw the same updates are equal,
  // whatever was lost, repeated or reordered on the way.
  lemma Convergence<T, V>(nodes: set<Node>, ws: seq<World<T, V>>, ops: seq<Op<T, V>>, i: nat,
                          a: Copy<T, V>, b: Copy<T, V>)
    requires IsRun(nodes, ws, ops) && i < |ws| && IsCopy(ws[i], a) && IsCopy(ws[i], b)
    requires a.past == b.past
    ensures a.state == b.state
  {
    RunKeeps(nodes, ws, ops, i);
    assert Good(ws[i], a) && Good(ws[i], b);
    FaithfulUnique(a, b);
  }

  // The parts of the state, read off the past.
  lemma StateFromPast<T, V>(nodes: set<Node>, ws: seq<World<T, V>>, ops: seq<Op<T, V>>, i: nat, c: Copy<T, V>)
    requires IsRun(nodes, ws, ops) && i < |ws| && IsCopy(ws[i], c)
    ensures Events(c.state.counter) == c.past.increments
    ensures c.state.elements.items == c.past.added - c.past.removed
    ensures c.state.elements.tombstones == c.past.removed
    ensures c.state.register in c.past.writes && NoneLater(c.state.register, c.past.writes)
  {
    RunKeeps(nodes, ws, ops, i);
    assert Good(ws[i], c);
    GreatestIsLatest(c.state.register, c.past.writes);
  }

  // What each operation leaves in the past of its node: the update, or all that came with
  // the delivered snapshot, beside what was there before; all other nodes keep theirs.
  ghost predicate Remembers<T, V>(p: Past<T, V>, op: Op<T, V>, s: Replica<T, V>, q: Past<T, V>) {
    match op
    case Tick(n) => q == p.(ticks := p.ticks + {Event(n, Get(s.clock, n))})
    case Increment(n) => q == p.(increments := p.increments + {Event(n, Get(s.counter, n))})
    case Add(_, x) => q == p.(added := p.added + {x})
    case Remove(_, x) => q == p.(removed := p.removed + {x})
    case Set(_, v, t, writer) => q == p.(writes := p.writes + {Write(Some(v), t, writer)})
    case _ => q == p
  }

  ghost predicate Joins<T, V>(p: Past<T, V>, m: Past<T, V>, q: Past<T, V>) {
    && q.ticks == p.ticks + m.ticks && q.increments == p.increments + m.increments
    && q.added == p.added + m.added && q.removed == p.removed + m.removed && q.writes == p.writes + m.writes
  }

  lemma PastsGrow<T, V>(w: World<T, V>, op: Op<T, V>, w': World<T, V>)
    requires Step(w, op, w')
    ensures w'.replicas.Keys == w.replicas.Keys && op.at in w.replicas
    ensures forall n :: n in w.replicas && n != op.at ==> w'.replicas[n] == w.replicas[n]
    ensures w'.snapshots == if op.Send? then w.snapshots + [w.replicas[op.at]] else w.snapshots
    ensures var p, q := w.replicas[op.at].past, w'.replicas[op.at].past;
      if op.Deliver? then op.index < |w.snapshots| && Joins(p, w.snapshots[op.index].past, q)
      else Remembers(p, op, w.replicas[op.at].state, q)
  {
  }

  // Vector clocks characterise causality: an outcome is right for the clocks exactly
  // when it is right for the increments in the two pasts, and only one is.
  lemma ClocksTellCausality<T, V>(nodes: set<Node>, ws: seq<World<T, V>>, ops: seq<Op<T, V>>, i: nat,
                                  a: Copy<T, V>, b: Copy<T, V>, order: CausalOrder)
    requires IsRun(nodes, ws, ops) && i < |ws| && IsCopy(ws[i], a) && IsCopy(ws[i], b)
    ensures OrderedAs(Events(a.state.clock), Events(b.state.clock), order)
       <==> OrderedAs(a.past.ticks, b.past.ticks, order)
    ensures OrderedAs(Events(a.state.clock), Events(b.state.clock), order) ==>
      forall o :: OrderedAs(a.past.ticks, b.past.ticks, o) ==> o == order
  {
    RunKeeps(nodes, ws, ops, i);
    assert Good(ws[i], a) && Good(ws[i], b);
    forall o | OrderedAs(a.past.ticks, b.past.ticks, order) && OrderedAs(a.past.ticks, b.past.ticks, o)
      ensures o == order
    {
      OneOrder(a.past.ticks, b.past.ticks, o, order);
    }
  }

  // Every increment is a new one: no copy anywhere has seen it before.
  lemma IncrementsAreNew<T, V>(nodes: set<Node>, ws: seq<World<T, V>>, ops: seq<Op<T, V>>, i: nat, c: Copy<T, V>)
    requires IsRun(nodes, ws, ops) && i < |ops| && IsCopy(ws[i], c)
    requires ops[i].Tick? || ops[i].Increment?
    ensures var n := ops[i].at;
            && n in ws[i].replicas
            && var s := ws[i].replicas[n].state;
               if ops[i].Tick? then Event(n, Get(s.clock, n)) !in c.past.ticks
               else Event(n, Get(s.counter, n)) !in c.past.increments
  {
    RunKeeps(nodes, ws, ops, i);
    assert Step(ws[i], ops[i], ws[i + 1]);
    var n := ops[i].at;
    var r := ws[i].replicas[n];
    assert Good(ws[i], c) && Good(ws[i], r);
    EventsMembers(r.state.clock, Event(n, Get(r.state.clock, n)));
    EventsMembers(r.state.counter, Event(n, Get(r.state.counter, n)));
  }

  // On the copies of a run, merging is commutative, associative and idempotent.
  lemma MergeLaws<T, V>(nodes: set<Node>, ws: seq<World<T, V>>, ops: seq<Op<T, V>>, i: nat,
                        a: Copy<T, V>, b: Copy<T, V>, c: Copy<T, V>)
    requires IsRun(nodes, ws, ops) && i < |ws| && IsCopy(ws[i], a) && IsCopy(ws[i], b) && IsCopy(ws[i], c)
    ensures a.state.Merge(b.state) == b.state.Merge(a.state)
    ensures a.state.Merge(b.state).Merge(c.state) == a.state.Merge(b.state.Merge(c.state))
    ensures a.state.Merge(a.state) == a.state
  {
    RunKeeps(nodes, ws, ops, i);
    assert Good(ws[i], a) && Good(ws[i], b) && Good(ws[i], c);
    var made := ws[i].made;
    MergeCommutes(a, b, made);
    MergeAssociates(a, b, c, made);
    MergeIdempotent(a, made);
  }

  lemma MergeCommutes<T, V>(a: Copy<T, V>, b: Copy<T, V>, made: set<Write<V>>)
    requires Faithful(a) && Faithful(b) && UniqueStamps(made) && a.past.writes <= made && b.past.writes <= made
    ensures a.state.Merge(b.state) == b.state.Merge(a.state)
  {
    MergeFaithful(a, b);
    MergeFaithful(b, a);
    assert Merge(a, b).past == Merge(b, a).past;
    FaithfulUnique(Merge(a, b), Merge(b, a));
  }

  lemma UnionAssociates<T, V>(p: Past<T, V>, q: Past<T, V>, r: Past<T, V>)
    ensures p.Union(q).Union(r) == p.Union(q.Union(r))
  {
    var left, right := p.Union(q).Union(r), p.Union(q.Union(r));
    assert left.ticks == right.ticks && left.increments == right.increments;
    assert left.added == right.added && left.removed == right.removed && left.writes == right.writes;
  }

  lemma MergeAssociates<T, V>(a: Copy<T, V>, b: Copy<T, V>, c: Copy<T, V>, made: set<Write<V>>)
    requires Faithful(a) && Faithful(b) && Faithful(c) && UniqueStamps(made)
    requires a.past.writes <= made && b.past.writes <= made && c.past.writes <= made
    ensures a.state.Merge(b.state).Merge(c.state) == a.state.Merge(b.state.Merge(c.state))
  {
    MergeFaithful(a, b);
    MergeFaithful(b, c);
    MergeFaithful(Merge(a, b), c);
    MergeFaithful(a, Merge(b, c));
    UnionAssociates(a.past, b.past, c.past);
    FaithfulUnique(Merge(Merge(a, b), c), Merge(a, Merge(b, c)));
  }

  lemma MergeIdempotent<T, V>(a: Copy<T, V>, made: set<Write<V>>)
    requires Faithful(a) && UniqueStamps(made) && a.past.writes <= made
    ensures a.state.Merge(a.state) == a.state
  {
    MergeFaithful(a, a);
    assert Merge(a, a).past == a.past;
    FaithfulUnique(Merge(a, a), a);
  }

  ghost function RealWrites<V>(ws: set<Write<V>>): set<Write<V>> {
    set w | w in ws && w.value.Some?
  }

  // The write's stamp exceeds every empty start among these.
  ghost predicate AboveStarts<V>(w: Write<V>, ws: set<Write<V>>) {
    forall e :: e in ws && e.value.None? ==>
      e.timestamp < w.timestamp || (e.timestamp == w.timestamp && e.node < w.node)
  }

  // The greatest write a copy has seen is the one it holds exactly when its stamp exceeds
  // every empty start that was merged in.
  lemma WriteHeldExactly<T, V>(nodes: set<Node>, ws: seq<World<T, V>>, ops: seq<Op<T, V>>, i: nat,
                               c: Copy<T, V>, w: Write<V>)
    requires IsRun(nodes, ws, ops) && i < |ws| && IsCopy(ws[i], c)
    requires w in RealWrites(c.past.writes) && NoneLater(w, RealWrites(c.past.writes))
    ensures c.state.register == w <==> AboveStarts(w, c.past.writes)
    ensures w.timestamp > 0 ==> AboveStarts(w, c.past.writes)
  {
    RunKeeps(nodes, ws, ops, i);
    assert Good(ws[i], c);
    if AboveStarts(w, c.past.writes) {
      forall x | x in c.past.writes
        ensures !w.Precedes(x)
      {
        assert x.value.Some? ==> x in RealWrites(c.past.writes);
      }
      GreatestUnique(w, c.state.register, c.past.writes);
    } else {
      var e :| e in c.past.writes && e.value.None? && !e.Precedes(w);
      assert !e.SameStamp(w);
    }
  }

  // Registers that saw the same writes agree if some write exceeds every empty start they
  // met, as every write at a positive time does.
  lemma RegisterConvergence<T, V>(nodes: set<Node>, ws: seq<World<T, V>>, ops: seq<Op<T, V>>, i: nat,
                                  a: Copy<T, V>, b: Copy<T, V>, w: Write<V>)
    requires IsRun(nodes, ws, ops) && i < |ws| && IsCopy(ws[i], a) && IsCopy(ws[i], b)
    requires RealWrites(a.past.writes) == RealWrites(b.past.writes) && w in RealWrites(a.past.writes)
    requires w.timestamp > 0 || AboveStarts(w, a.past.writes + b.past.writes)
    ensures a.state.register == b.state.register
  {
    var g := GreatestWrite(RealWrites(a.past.writes));
    GreatestIsLatest(g, RealWrites(a.past.writes));
    assert !g.Precedes(w);
    WriteHeldExactly(nodes, ws, ops, i, a, g);
    WriteHeldExactly(nodes, ws, ops, i, b, g);
  }
}
