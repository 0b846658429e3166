/** Vector clocks and the replicated data types, as values with a merge and as classes. */
module Crdt {
  import opened Wrappers

  // A node id stands for its sixteen bytes read as a big-endian number, which orders ids as
  // the bytes do.

  type Node = nat

  // Per-node counters; a missing entry reads as zero.
  type Tally = map<Node, nat>

  function Get(m: Tally, n: Node): nat {
    if n in m then m[n] else 0
  }

  function Max(a: nat, b: nat): nat {
    if a >= b then a else b
  }

  function Incremented(m: Tally, n: Node): Tally {
    m[n := Get(m, n) + 1]
  }

  function Merged(a: Tally, b: Tally): Tally {
    map n | n in a.Keys + b.Keys :: Max(Get(a, n), Get(b, n))
  }

  // Pointwise order, missing entries read as zero.
  ghost predicate Below(a: Tally, b: Tally) {
    forall n :: n in a ==> a[n] <= Get(b, n)
  }

  // The increments a tally accounts for: the k-th one at node n, for each k below n's entry.
  datatype Event = Event(node: Node, k: nat)

  ghost function Events(m: Tally): set<Event> {
    set n, k | n in m && 0 <= k < m[n] :: Event(n, k)
  }

  lemma EventsMembers(m: Tally, e: Event)
    ensures e in Events(m) <==> e.k < Get(m, e.node)
  {
  }

  // One tally lies below another exactly when its increments are among the other's.
  lemma BelowIsInclusion(a: Tally, b: Tally)
    ensures Below(a, b) <==> Events(a) <= Events(b)
  {
    if Events(a) <= Events(b) {
      forall n | n in a
        ensures a[n] <= Get(b, n)
      {
        if a[n] > 0 {
          assert Event(n, a[n] - 1) in Events(a);
          EventsMembers(b, Event(n, a[n] - 1));
        }
      }
    } else {
      var e :| e in Events(a) && e !in Events(b);
      EventsMembers(b, e);
    }
  }

  lemma MergedEvents(a: Tally, b: Tally)
    ensures Events(Merged(a, b)) == Events(a) + Events(b)
  {
    forall e
      ensures e in Events(Merged(a, b)) <==> e in Events(a) || e in Events(b)
    {
      EventsMembers(Merged(a, b), e);
      EventsMembers(a, e);
      EventsMembers(b, e);
    }
  }

  // Merging gives the least tally above both.
  lemma MergedIsJoin(a: Tally, b: Tally, c: Tally)
    ensures Below(a, Merged(a, b)) && Below(b, Merged(a, b))
    ensures Below(a, c) && Below(b, c) ==> Below(Merged(a, b), c)
  {
    MergedEvents(a, b);
    BelowIsInclusion(a, Merged(a, b));
    BelowIsInclusion(b, Merged(a, b));
    BelowIsInclusion(a, c);
    BelowIsInclusion(b, c);
    BelowIsInclusion(Merged(a, b), c);
  }

  datatype CausalOrder = Before | After | Concurrent | Equal

  // What comparing two clocks means, in terms of the increments behind them.
  ghost predicate OrderedAs(a: set<Event>, b: set<Event>, order: CausalOrder) {
    match order
    case Equal => a == b
    case Before => a < b
    case After => b < a
    case Concurrent => !(a <= b) && !(b <= a)
  }

  // The four outcomes exclude one another.
  lemma OneOrder(a: set<Event>, b: set<Event>, o1: CausalOrder, o2: CausalOrder)
    requires OrderedAs(a, b, o1) && OrderedAs(a, b, o2)
    ensures o1 == o2
  {
  }

  method MergeInto(mine: Tally, theirs: Tally) returns (m: Tally)
    ensures m == Merged(mine, theirs)
  {
    m := mine;
    var nodes := theirs.Keys;
    while nodes != {}
      invariant nodes <= theirs.Keys
      invariant m.Keys == mine.Keys + (theirs.Keys - nodes)
      invariant forall n :: n in m ==> m[n] == if n in nodes then Get(mine, n) else Max(Get(mine, n), Get(theirs, n))
    {
      var node :| node in nodes;
      nodes := nodes - {node};
      var current := Get(m, node);
      m := m[node := Max(current, theirs[node])];
    }
  }

  class VectorClock {
    var entries: Tally

    constructor ()
      ensures entries == map[]
    {
      entries := map[];
    }

    method Increment(node: Node)
      modifies this
      ensures entries == Incremented(old(entries), node)
      ensures Events(entries) == Events(old(entries)) + {Event(node, Get(old(entries), node))}
    {
      IncrementedEvents(entries, node);
      var current := Get(entries, node);
      entries := entries[node := current + 1];
    }

    method Merge(other: VectorClock)
      modifies this
      ensures entries == Merged(old(entries), old(other.entries))
      ensures Events(entries) == Events(old(entries)) + Events(old(other.entries))
    {
      MergedEvents(entries, other.entries);
      entries := MergeInto(entries, other.entries);
    }

    method Compare(other: VectorClock) returns (order: CausalOrder)
      ensures OrderedAs(Events(entries), Events(other.entries), order)
    {
      var nodes := entries.Keys + other.entries.Keys;
      var hasLess, hasGreater := false, false;
      while nodes != {}
        invariant nodes <= entries.Keys + other.entries.Keys
        invariant hasLess <==> exists n :: n in entries.Keys + other.entries.Keys - nodes
                                        && Get(entries, n) < Get(other.entries, n)
        invariant hasGreater <==> exists n :: n in entries.Keys + other.entries.Keys - nodes
                                           && Get(entries, n) > Get(other.entries, n)
      {
        var node :| node in nodes;
        nodes := nodes - {node};
        var selfVal, otherVal := Get(entries, node), Get(other.entries, node);
        if selfVal < otherVal {
          hasLess := true;
        } else if selfVal > otherVal {
          hasGreater := true;
        }
      }
      BelowIsInclusion(entries, other.entries);
      BelowIsInclusion(other.entries, entries);
      assert !hasGreater <==> Below(entries, other.entries);
      assert !hasLess <==> Below(other.entries, entries);
      if !hasLess && !hasGreater {
        order := Equal;
      } else if hasLess && !hasGreater {
        order := Before;
      } else if hasGreater && !hasLess {
        order := After;
      } else {
        order := Concurrent;
      }
    }
  }

  lemma IncrementedEvents(m: Tally, n: Node)
    ensures Events(Incremented(m, n)) == Events(m) + {Event(n, Get(m, n))}
  {
    forall e
      ensures e in Events(Incremented(m, n)) <==> e in Events(m) || e == Event(n, Get(m, n))
    {
      EventsMembers(Incremented(m, n), e);
      EventsMembers(m, e);
    }
  }

  lemma {:induction false} EventsAt(n: Node, c: nat)
    ensures |set k | 0 <= k < c :: Event(n, k)| == c
  {
    if c > 0 {
      EventsAt(n, c - 1);
      assert (set k | 0 <= k < c :: Event(n, k)) == (set k | 0 <= k < c - 1 :: Event(n, k)) + {Event(n, c - 1)};
    }
  }

  lemma EventsOfOneMore(m: Tally, n: Node, c: nat)
    requires n !in m
    ensures |Events(m[n := c])| == |Events(m)| + c
  {
    var here := set k | 0 <= k < c :: Event(n, k);
    EventsAt(n, c);
    forall e
      ensures e in Events(m[n := c]) <==> e in Events(m) + here
    {
      EventsMembers(m[n := c], e);
      EventsMembers(m, e);
      assert e in here <==> e.node == n && e.k < c;
    }
    assert Events(m[n := c]) == Events(m) + here && Events(m) !! here;
  }

  class CrdtCounter {
    var counts: Tally

    constructor ()
      ensures counts == map[]
    {
      counts := map[];
    }

    method Increment(node: Node)
      modifies this
      ensures counts == Incremented(old(counts), node)
      ensures Events(counts) == Events(old(counts)) + {Event(node, Get(old(counts), node))}
    {
      IncrementedEvents(counts, node);
      var current := Get(counts, node);
      counts := counts[node := current + 1];
    }

    method Merge(other: CrdtCounter)
      modifies this
      ensures counts == Merged(old(counts), old(other.counts))
      ensures Events(counts) == Events(old(counts)) + Events(old(other.counts))
    {
      MergedEvents(counts, other.counts);
      counts := MergeInto(counts, other.counts);
    }

    // The total is the number of distinct increments the counter has seen.
    method Value() returns (total: nat)
      ensures total == |Events(counts)|
    {
      total := 0;
      var nodes := counts.Keys;
      ghost var seen: Tally := map[];
      while nodes != {}
        invariant nodes <= counts.Keys
        invariant seen == map n | n in counts && n !in nodes :: counts[n]
        invariant total == |Events(seen)|
      {
        var node :| node in nodes;
        nodes := nodes - {node};
        EventsOfOneMore(seen, node, counts[node]);
        total := total + counts[node];
        seen := seen[node := counts[node]];
      }
      assert seen == counts;
    }
  }

  datatype SetState<T(==)> = SetState(items: set<T>, tombstones: set<T>) {
    // The state after exactly these additions and removals: removal wins for good.
    ghost predicate Reflects(added: set<T>, removed: set<T>) {
      items == added - removed && tombstones == removed
    }

    function Plus(x: T): SetState<T> {
      if x in tombstones then this else this.(items := items + {x})
    }

    function Minus(x: T): SetState<T> {
      SetState(items - {x}, tombstones + {x})
    }

    function Join(that: SetState<T>): SetState<T> {
      var gone := tombstones + that.tombstones;
      SetState(items + that.items - gone, gone)
    }
  }

  lemma SetStepsReflect<T>(s: SetState<T>, added: set<T>, removed: set<T>, x: T)
    requires s.Reflects(added, removed)
    ensures s.Plus(x).Reflects(added + {x}, removed)
    ensures s.Minus(x).Reflects(added, removed + {x})
  {
  }

  lemma SetJoinReflects<T>(a: SetState<T>, b: SetState<T>, addA: set<T>, remA: set<T>, addB: set<T>, remB: set<T>)
    requires a.Reflects(addA, remA) && b.Reflects(addB, remB)
    ensures a.Join(b).Reflects(addA + addB, remA + remB)
  {
  }

  class CrdtSet<T(==)> {
    var items: set<T>
    var tombstones: set<T>

    ghost function Model(): SetState<T>
      reads this
    {
      SetState(items, tombstones)
    }

    constructor ()
      ensures Model().Reflects({}, {})
    {
      items, tombstones := {}, {};
    }

    method Add(item: T)
      modifies this
      ensures Model() == old(Model()).Plus(item)
    {
      if item !in tombstones {
        items := items + {item};
      }
    }

    method Remove(item: T)
      modifies this
      ensures Model() == old(Model()).Minus(item)
    {
      items := items - {item};
      tombstones := tombstones + {item};
    }

    method Merge(other: CrdtSet<T>)
      modifies this
      ensures Model() == old(Model()).Join(old(other.Model()))
    {
      var theirs, theirTombs := other.items, other.tombstones;
      var todo := theirTombs;
      while todo != {}
        invariant todo <= theirTombs && items == old(items)
        invariant tombstones == old(tombstones) + (theirTombs - todo)
      {
        var x :| x in todo;
        todo := todo - {x};
        tombstones := tombstones + {x};
      }
      todo := theirs;
      while todo != {}
        invariant todo <= theirs && tombstones == old(tombstones) + theirTombs
        invariant items == old(items) + (theirs - todo - tombstones)
      {
        var x :| x in todo;
        todo := todo - {x};
        if x !in tombstones {
          items := items + {x};
        }
      }
      items := items - tombstones;
    }
  }

  // A write to a register, or the empty state a replica starts from.
  datatype Write<V> = Write(value: Option<V>, timestamp: nat, node: Node) {
    // Ordered by timestamp, ties broken by node.
    predicate Precedes(that: Write<V>) {
      timestamp < that.timestamp || (timestamp == that.timestamp && node < that.node)
    }

    function Latest(that: Write<V>): Write<V> {
      if Precedes(that) then that else this
    }

    predicate SameStamp(that: Write<V>) {
      timestamp == that.timestamp && node == that.node
    }
  }

  // `w` is the write with the greatest stamp.
  ghost predicate Greatest<V>(w: Write<V>, ws: set<Write<V>>) {
    w in ws && forall x :: x in ws ==> !w.Precedes(x)
  }

  ghost predicate UniqueStamps<V>(ws: set<Write<V>>) {
    forall x, y :: x in ws && y in ws && x.SameStamp(y) ==> x == y
  }

  // No write has a later time, and none of the same time a higher node.
  ghost predicate NoneLater<V>(w: Write<V>, ws: set<Write<V>>) {
    forall x :: x in ws ==> x.timestamp < w.timestamp || (x.timestamp == w.timestamp && x.node <= w.node)
  }

  lemma GreatestIsLatest<V>(w: Write<V>, ws: set<Write<V>>)
    ensures Greatest(w, ws) <==> w in ws && NoneLater(w, ws)
  {
  }

  lemma GreatestUnique<V>(v: Write<V>, w: Write<V>, ws: set<Write<V>>)
    requires UniqueStamps(ws) && Greatest(v, ws) && Greatest(w, ws)
    ensures v == w
  {
    assert !v.Precedes(w) && !w.Precedes(v);
    assert v.SameStamp(w);
  }

  lemma LatestGreatest<V>(v: Write<V>, w: Write<V>, vs: set<Write<V>>, ws: set<Write<V>>)
    requires Greatest(v, vs) && Greatest(w, ws)
    ensures Greatest(v.Latest(w), vs + ws)
  {
  }

  class CrdtRegister<V> {
    var value: Option<V>
    var timestamp: nat
    var node: Node

    ghost function Model(): Write<V>
      reads this
    {
      Write(value, timestamp, node)
    }

    constructor (n: Node)
      ensures Model() == Write(None, 0, n)
    {
      value, timestamp, node := None, 0, n;
    }

    method Set(v: V, t: nat, n: Node)
      modifies this
      ensures Model() == old(Model()).Latest(Write(Some(v), t, n))
      ensures (value, timestamp, node)
           == if old(timestamp) < t || (old(timestamp) == t && old(node) < n) then (Some(v), t, n)
              else (old(value), old(timestamp), old(node))
    {
      if t > timestamp || (t == timestamp && n > node) {
        value, timestamp, node := Some(v), t, n;
      }
    }

    method Merge(other: CrdtRegister<V>)
      modifies this
      ensures Model() == old(Model()).Latest(old(other.Model()))
      ensures (value, timestamp, node)
           == if old(timestamp) < old(other.timestamp)
                 || (old(timestamp) == old(other.timestamp) && old(node) < old(other.node))
              then (old(other.value), old(other.timestamp), old(other.node))
              else (old(value), old(timestamp), old(node))
    {
      if other.timestamp > timestamp || (other.timestamp == timestamp && other.node > node) {
        value, timestamp, node := other.value, other.timestamp, other.node;
      }
    }
  }

  // Merging two registers gives the same either way exactly when they are equal or their
  // stamps differ.
  lemma LatestCommutesExactly<V>(a: Write<V>, b: Write<V>)
    ensures a.Latest(b) == b.Latest(a) <==> a == b || a.timestamp != b.timestamp || a.node != b.node
  {
  }

  // A write survives an empty start, whichever of the two meets the other, exactly when its
  // stamp exceeds the start's: its time is positive or its writer is above the start's node.
  lemma SurvivesStartExactly<V>(w: Write<V>, n: Node)
    requires w.value.Some?
    ensures var start := Write(None, 0, n);
      start.Latest(w) == w == w.Latest(start) <==> w.timestamp > 0 || w.node > n
  {
  }

  // Some write has the greatest stamp.
  lemma {:induction false} GreatestWrite<V>(ws: set<Write<V>>) returns (w: Write<V>)
    requires ws != {}
    ensures Greatest(w, ws)
    decreases ws
  {
    var x :| x in ws;
    var rest := ws - {x};
    assert ws == rest + {x};
    if rest == {} {
      w := x;
    } else {
      var v := GreatestWrite(rest);
      LatestGreatest(v, x, rest, {x});
      w := v.Latest(x);
    }
  }
}
