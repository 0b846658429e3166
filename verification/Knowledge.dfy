/** The knowledge graph: triples, and an index from entities to the triples' positions. */
module Knowledge {
  // Queries through the index are compared with scans over all triples.

  datatype Triple = Triple(subject: string, relation: string, obj: string, confidence: real)

  type EntityIndex = map<string, seq<nat>>

  // How often a triple mentions an entity: once per role.
  function Roles<T>(t: Triple, e: string, x: T): seq<T> {
    (if t.subject == e then [x] else []) + (if t.obj == e then [x] else [])
  }

  // The positions of the triples that mention an entity, by a scan.
  function Positions(triples: seq<Triple>, e: string): seq<nat> {
    if triples == [] then []
    else
      var last := |triples| - 1;
      Positions(triples[..last], e) + Roles(triples[last], e, last)
  }

  // The triples themselves, by a scan.
  function Mentions(triples: seq<Triple>, e: string): seq<Triple> {
    if triples == [] then []
    else
      var last := |triples| - 1;
      Mentions(triples[..last], e) + Roles(triples[last], e, triples[last])
  }

  predicate Involves(t: Triple, e: string) {
    t.subject == e || t.obj == e
  }

  ghost predicate Indexed(index: EntityIndex, triples: seq<Triple>) {
    && (forall e: string :: Lookup(index, e) == Positions(triples, e))
    && (forall e :: e in index ==> index[e] != [])
  }

  function Lookup(index: EntityIndex, e: string): seq<nat> {
    if e in index then index[e] else []
  }

  function Push(index: EntityIndex, e: string, i: nat): EntityIndex {
    index[e := Lookup(index, e) + [i]]
  }

  lemma PushLookup(index: EntityIndex, e: string, i: nat, f: string)
    ensures Lookup(Push(index, e, i), f) == Lookup(index, f) + if f == e then [i] else []
  {
  }

  lemma PushBoth(index: EntityIndex, t: Triple, i: nat, e: string)
    ensures Lookup(Push(Push(index, t.subject, i), t.obj, i), e) == Lookup(index, e) + Roles(t, e, i)
  {
    PushLookup(index, t.subject, i, e);
    PushLookup(Push(index, t.subject, i), t.obj, i, e);
  }

  lemma PositionsAdded(triples: seq<Triple>, t: Triple, e: string)
    ensures Positions(triples + [t], e) == Positions(triples, e) + Roles(t, e, |triples|)
  {
    assert (triples + [t])[..|triples|] == triples;
  }

  // Pushing a new position under the subject and then the object keeps the index exact.
  lemma AddedIndexed(index: EntityIndex, triples: seq<Triple>, t: Triple)
    requires Indexed(index, triples)
    ensures Indexed(Push(Push(index, t.subject, |triples|), t.obj, |triples|), triples + [t])
  {
    var i := |triples|;
    var after := Push(Push(index, t.subject, i), t.obj, i);
    forall e: string
      ensures Lookup(after, e) == Positions(triples + [t], e)
    {
      assert Lookup(index, e) == Positions(triples, e);
      PushBoth(index, t, i, e);
      PositionsAdded(triples, t, e);
    }
    forall e | e in after
      ensures after[e] != []
    {
      PushBoth(index, t, i, e);
    }
  }

  // A position is listed for an entity exactly when the triple there involves it,
  lemma {:induction false} PositionsExactly(triples: seq<Triple>, e: string, i: nat)
    ensures i in Positions(triples, e) <==> i < |triples| && Involves(triples[i], e)
  {
    if triples != [] {
      var last := |triples| - 1;
      PositionsExactly(triples[..last], e, i);
      RolesExactly(triples[last], e, last, i);
    }
  }

  lemma RolesExactly(t: Triple, e: string, x: nat, i: nat)
    ensures i in Roles(t, e, x) <==> i == x && Involves(t, e)
  {
  }

  // and then once per role: twice for a triple from an entity to itself.
  lemma {:induction false} PositionsCounted(triples: seq<Triple>, e: string, i: nat)
    requires i < |triples|
    ensures multiset(Positions(triples, e))[i] == |Roles(triples[i], e, i)|
  {
    var last := |triples| - 1;
    var front, roles := Positions(triples[..last], e), Roles(triples[last], e, last);
    assert multiset(front + roles) == multiset(front) + multiset(roles);
    RolesCounted(triples[last], e, last, i);
    if i < last {
      PositionsCounted(triples[..last], e, i);
    } else {
      PositionsExactly(triples[..last], e, i);
      assert i !in front && i !in multiset(front);
    }
  }

  lemma RolesCounted(t: Triple, e: string, x: nat, i: nat)
    ensures multiset(Roles(t, e, x))[i] == if i == x then |Roles(t, e, x)| else 0
  {
    assert multiset([x, x])[x] == 2 && multiset([x])[x] == 1;
  }

  // Positions come in the order of the triples.
  lemma {:induction false} PositionsOrdered(triples: seq<Triple>, e: string)
    ensures var p := Positions(triples, e);
      forall a, b :: 0 <= a < b < |p| ==> p[a] <= p[b] < |triples|
    ensures |Positions(triples, e)| > 0 ==> Positions(triples, e)[0] < |triples|
  {
    if triples != [] {
      PositionsOrdered(triples[..|triples| - 1], e);
    }
  }

  // The entities in the index are those that some triple involves.
  lemma EntitiesExactly(index: EntityIndex, triples: seq<Triple>, e: string)
    requires Indexed(index, triples)
    ensures e in index <==> exists t :: t in triples && Involves(t, e)
  {
    var p := Positions(triples, e);
    assert Lookup(index, e) == p;
    if e in index {
      PositionsExactly(triples, e, p[0]);
      assert triples[p[0]] in triples;
    }
    if t :| t in triples && Involves(t, e) {
      var i :| 0 <= i < |triples| && triples[i] == t;
      PositionsExactly(triples, e, i);
    }
  }

  // The triples at a list of positions.
  function At(triples: seq<Triple>, positions: seq<nat>): seq<Triple> {
    if positions == [] then []
    else
      var last := |positions| - 1;
      At(triples, positions[..last]) + if positions[last] < |triples| then [triples[positions[last]]] else []
  }

  lemma {:induction false} AtAppend(triples: seq<Triple>, a: seq<nat>, b: seq<nat>)
    ensures At(triples, a + b) == At(triples, a) + At(triples, b)
    decreases |b|
  {
    if b == [] {
      assert a + b == a;
    } else {
      var last := |b| - 1;
      assert (a + b)[..|a| + last] == a + b[..last];
      AtAppend(triples, a, b[..last]);
    }
  }

  lemma {:induction false} AtGrown(triples: seq<Triple>, t: Triple, positions: seq<nat>)
    requires forall k :: 0 <= k < |positions| ==> positions[k] < |triples|
    ensures At(triples + [t], positions) == At(triples, positions)
    decreases |positions|
  {
    if positions != [] {
      AtGrown(triples, t, positions[..|positions| - 1]);
    }
  }

  // Reading the indexed positions is scanning for mentions.
  lemma {:induction false} IndexIsScan(triples: seq<Triple>, e: string)
    ensures At(triples, Positions(triples, e)) == Mentions(triples, e)
  {
    if triples != [] {
      var last := |triples| - 1;
      var front, t := triples[..last], triples[last];
      assert triples == front + [t];
      IndexIsScan(front, e);
      PositionsOrdered(front, e);
      AtGrown(front, t, Positions(front, e));
      AtAppend(triples, Positions(front, e), Roles(t, e, last));
      RolesAt(triples, t, e, last);
    }
  }

  lemma RolesAt(triples: seq<Triple>, t: Triple, e: string, i: nat)
    requires i < |triples| && triples[i] == t
    ensures At(triples, Roles(t, e, i)) == Roles(t, e, t)
  {
    assert At(triples, []) == [];
    assert [i, i][..1] == [i] && [i][..0] == [];
    assert At(triples, [i]) == [t];
    assert At(triples, [i, i]) == [t, t];
  }

  // Two different entities share a triple.
  ghost predicate Touches(triples: seq<Triple>, a: string, b: string) {
    a != b && exists t :: t in triples && Involves(t, a) && Involves(t, b)
  }

  // What makes two triples the same for merging.
  function Key(t: Triple): (string, string, string) {
    (t.subject, t.relation, t.obj)
  }

  ghost function Keys(triples: seq<Triple>): set<(string, string, string)> {
    set t | t in triples :: Key(t)
  }

  predicate Known(triples: seq<Triple>, t: Triple) {
    exists u :: u in triples && Key(u) == Key(t)
  }

  // The triples after taking in others one by one, skipping known keys.
  function Merged(triples: seq<Triple>, others: seq<Triple>): seq<Triple>
    decreases |others|
  {
    if others == [] then triples
    else
      var last := |others| - 1;
      var before := Merged(triples, others[..last]);
      if Known(before, others[last]) then before else before + [others[last]]
  }

  // Merging keeps what was there and ends up with the union of the keys.
  lemma {:induction false} MergedKeys(triples: seq<Triple>, others: seq<Triple>)
    ensures triples <= Merged(triples, others)
    ensures Keys(Merged(triples, others)) == Keys(triples) + Keys(others)
    decreases |others|
  {
    if others != [] {
      var last := |others| - 1;
      MergedKeys(triples, others[..last]);
      var before := Merged(triples, others[..last]);
      assert others == others[..last] + [others[last]];
      KeysAppend(others[..last], others[last]);
      KeysAppend(before, others[last]);
    }
  }

  lemma KeysAppend(triples: seq<Triple>, t: Triple)
    ensures Keys(triples + [t]) == Keys(triples) + {Key(t)}
    ensures Known(triples, t) <==> Key(t) in Keys(triples)
  {
    forall k | k in Keys(triples) + {Key(t)}
      ensures k in Keys(triples + [t])
    {
      if k == Key(t) {
        assert t in triples + [t];
      } else {
        var u :| u in triples && Key(u) == k;
        assert u in triples + [t];
      }
    }
  }

  // A triple is taken in exactly when none met so far, on either side, has the same
  // subject, relation and object.
  lemma MergedNext(triples: seq<Triple>, others: seq<Triple>, k: nat)
    requires k < |others|
    ensures var t := others[k];
      Merged(triples, others[..k + 1])
        == Merged(triples, others[..k])
         + if exists u :: u in triples + others[..k]
                          && u.subject == t.subject && u.relation == t.relation && u.obj == t.obj
           then [] else [t]
  {
    var t, before := others[k], Merged(triples, others[..k]);
    assert others[..k + 1][..k] == others[..k];
    MergedKeys(triples, others[..k]);
    KeysAppend(before, t);
    KeysAppend(triples, t);
    KeysAppend(others[..k], t);
    assert Known(before, t) <==> Known(triples, t) || Known(others[..k], t);
    assert forall u :: u in triples + others[..k] <==> u in triples || u in others[..k];
  }

  // A scan finds the triples whose subject or object is the entity, and no others.
  lemma {:induction false} MentionsExactly(triples: seq<Triple>, e: string, t: Triple)
    ensures t in Mentions(triples, e) <==> t in triples && (t.subject == e || t.obj == e)
  {
    if triples != [] {
      var last := |triples| - 1;
      MentionsExactly(triples[..last], e, t);
      assert triples == triples[..last] + [triples[last]];
    }
  }

  // Merging what is already known adds nothing.
  lemma {:induction false} MergedKnown(triples: seq<Triple>, others: seq<Triple>)
    requires Keys(others) <= Keys(triples)
    ensures Merged(triples, others) == triples
    decreases |others|
  {
    if others != [] {
      var last := |others| - 1;
      assert others == others[..last] + [others[last]];
      KeysAppend(others[..last], others[last]);
      MergedKnown(triples, others[..last]);
      KeysAppend(triples, others[last]);
    }
  }

  // So repeating a merge adds nothing.
  lemma MergeTwice(triples: seq<Triple>, others: seq<Triple>)
    ensures Merged(Merged(triples, others), others) == Merged(triples, others)
  {
    MergedKeys(triples, others);
    MergedKnown(Merged(triples, others), others);
  }

  ghost predicate KeysDistinct(triples: seq<Triple>) {
    forall i, j :: 0 <= i < j < |triples| ==> Key(triples[i]) != Key(triples[j])
  }

  // Merging brings in no duplicate, whatever the other graph holds.
  lemma {:induction false} MergedDistinct(triples: seq<Triple>, others: seq<Triple>)
    requires KeysDistinct(triples)
    ensures KeysDistinct(Merged(triples, others))
    decreases |others|
  {
    if others != [] {
      var last := |others| - 1;
      MergedDistinct(triples, others[..last]);
      var before := Merged(triples, others[..last]);
      if !Known(before, others[last]) {
        forall i | 0 <= i < |before|
          ensures Key(before[i]) != Key(others[last])
        {
          assert before[i] in before;
        }
      }
    }
  }

  class KnowledgeGraph {
    var triples: seq<Triple>
    var entityIndex: EntityIndex

    ghost predicate Valid()
      reads this
    {
      Indexed(entityIndex, triples)
    }

    constructor ()
      ensures Valid() && triples == []
    {
      triples, entityIndex := [], map[];
    }

    method AddTriple(t: Triple)
      requires Valid()
      modifies this
      ensures Valid() && triples == old(triples) + [t]
    {
      AddedIndexed(entityIndex, triples, t);
      var idx := |triples|;
      entityIndex := Push(entityIndex, t.subject, idx);
      entityIndex := Push(entityIndex, t.obj, idx);
      triples := triples + [t];
    }

    // Despite its name, finds an entity in either role.
    method QuerySubject(e: string) returns (found: seq<Triple>)
      requires Valid()
      ensures found == Mentions(triples, e)
    {
      found := [];
      var positions := Lookup(entityIndex, e);
      assert positions == Positions(triples, e);
      for k := 0 to |positions|
        invariant found == At(triples, positions[..k])
      {
        assert positions[..k + 1][..k] == positions[..k];
        if positions[k] < |triples| {
          found := found + [triples[positions[k]]];
        }
      }
      assert positions[..|positions|] == positions;
      IndexIsScan(triples, e);
    }

    method RelatedEntities(e: string) returns (related: set<string>)
      requires Valid()
      ensures forall x :: x in related <==> Touches(triples, e, x)
    {
      related := {};
      var positions := Lookup(entityIndex, e);
      assert positions == Positions(triples, e);
      for k := 0 to |positions|
        invariant forall x :: x in related <==> OtherEnd(triples, positions[..k], e, x)
      {
        OtherEndStep(triples, positions, e, k);
        if positions[k] < |triples| {
          var t := triples[positions[k]];
          if t.subject != e {
            related := related + {t.subject};
          }
          if t.obj != e {
            related := related + {t.obj};
          }
        }
      }
      assert positions[..|positions|] == positions;
      OtherEndsRelated(triples, e);
    }

    method Merge(other: KnowledgeGraph)
      requires Valid() && other.Valid() && other != this
      modifies this
      ensures Valid() && triples == Merged(old(triples), other.triples)
    {
      for k := 0 to |other.triples|
        invariant Valid() && triples == Merged(old(triples), other.triples[..k])
      {
        var t := other.triples[k];
        assert other.triples[..k + 1][..k] == other.triples[..k];
        if !Known(triples, t) {
          AddTriple(t);
        }
      }
      assert other.triples[..|other.triples|] == other.triples;
    }
  }

  // An entity at the other end of a triple at one of the positions.
  ghost predicate OtherEnd(triples: seq<Triple>, positions: seq<nat>, e: string, x: string) {
    exists i :: i in positions && i < |triples| && x != e && Involves(triples[i], x)
  }

  lemma OtherEndStep(triples: seq<Triple>, positions: seq<nat>, e: string, k: nat)
    requires k < |positions|
    ensures forall x :: OtherEnd(triples, positions[..k + 1], e, x) <==>
      OtherEnd(triples, positions[..k], e, x) || OtherEnd(triples, [positions[k]], e, x)
  {
    assert positions[..k + 1] == positions[..k] + [positions[k]];
  }

  lemma OtherEndsRelated(triples: seq<Triple>, e: string)
    ensures forall x :: OtherEnd(triples, Positions(triples, e), e, x) <==> Touches(triples, e, x)
  {
    forall x
      ensures OtherEnd(triples, Positions(triples, e), e, x) <==> Touches(triples, e, x)
    {
      if OtherEnd(triples, Positions(triples, e), e, x) {
        var i :| i in Positions(triples, e) && i < |triples| && x != e && Involves(triples[i], x);
        PositionsExactly(triples, e, i);
        assert triples[i] in triples;
      }
      if Touches(triples, e, x) {
        var t :| t in triples && Involves(t, e) && Involves(t, x);
        var i :| 0 <= i < |triples| && triples[i] == t;
        PositionsExactly(triples, e, i);
      }
    }
  }
}
