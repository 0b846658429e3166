/**
 * The memory store: entries by id, and the id lists of its two tiers.
 *
 * Only short-term and long-term memories are listed; working, episodic and semantic ones
 * are found by their id alone. The lists are kept beside the entries, so that each
 * operation has to change both: storing appends to a list, deleting and cleaning up take
 * ids out of both, and consolidating moves ids from one to the other together with the
 * type of their entries.
 */
module Memories {
  import opened Wrappers
  import opened Sequences

  datatype Kind = ShortTerm | LongTerm | Working | Episodic | Semantic

  datatype Entry = Entry(id: nat, kind: Kind, importance: real, expiresAt: Option<nat>)

  type Entries = map<nat, Entry>

  // The list holds exactly the ids of the entries of a kind, each once.
  ghost predicate Tier(entries: Entries, list: seq<nat>, kind: Kind) {
    && NoDup(list)
    && forall id: nat :: id in list <==> id in entries && entries[id].kind == kind
  }

  ghost function IdsOf(entries: Entries, kind: Kind): set<nat> {
    set id | id in entries && entries[id].kind == kind
  }

  // So its length is the number of such entries.
  lemma TierCounts(entries: Entries, list: seq<nat>, kind: Kind)
    requires Tier(entries, list, kind)
    ensures |list| == |IdsOf(entries, kind)|
  {
    NoDupSize(list);
    assert Elements(list) == IdsOf(entries, kind);
  }

  // The members of a list, in order, that are in a set or are not.
  function Chosen(list: seq<nat>, ids: set<nat>): seq<nat> {
    if list == [] then []
    else Chosen(list[..|list| - 1], ids) + if list[|list| - 1] in ids then [list[|list| - 1]] else []
  }

  function Without(list: seq<nat>, ids: set<nat>): seq<nat> {
    if list == [] then []
    else Without(list[..|list| - 1], ids) + if list[|list| - 1] in ids then [] else [list[|list| - 1]]
  }

  lemma {:induction false} ChosenExactly(list: seq<nat>, ids: set<nat>)
    requires NoDup(list)
    ensures NoDup(Chosen(list, ids)) && NoDup(Without(list, ids))
    ensures forall id: nat :: id in Chosen(list, ids) <==> id in list && id in ids
    ensures forall id: nat :: id in Without(list, ids) <==> id in list && id !in ids
    ensures |Chosen(list, ids)| + |Without(list, ids)| == |list|
  {
    if list != [] {
      var front, last := list[..|list| - 1], list[|list| - 1];
      assert list == front + [last];
      ChosenExactly(front, ids);
      assert last !in front;
    }
  }

  lemma {:induction false} WithoutAll(list: seq<nat>, a: set<nat>, b: set<nat>)
    ensures Without(Without(list, a), b) == Without(list, a + b)
  {
    if list != [] {
      var front, last := list[..|list| - 1], list[|list| - 1];
      WithoutAll(front, a, b);
      if last in a {
        assert Without(list, a) == Without(front, a);
        assert Without(list, a + b) == Without(front, a + b);
      } else {
        assert Without(list, a)[..|Without(front, a)|] == Without(front, a);
      }
    }
  }

  // Ids of short-term memories important enough to keep.
  function Promoted(entries: Entries, threshold: real): set<nat> {
    set id | id in entries && entries[id].kind == ShortTerm && entries[id].importance >= threshold
  }

  function Promote(entries: Entries, ids: set<nat>): Entries {
    map id | id in entries :: if id in ids then entries[id].(kind := LongTerm) else entries[id]
  }

  function Expired(entries: Entries, now: nat): set<nat> {
    set id | id in entries && entries[id].expiresAt.Some? && now >= entries[id].expiresAt.value
  }

  lemma StoredTiers(entries: Entries, short: seq<nat>, long: seq<nat>, id: nat, entry: Entry)
    requires Tier(entries, short, ShortTerm) && Tier(entries, long, LongTerm) && id !in entries
    ensures Tier(entries[id := entry], if entry.kind == ShortTerm then short + [id] else short, ShortTerm)
    ensures Tier(entries[id := entry], if entry.kind == LongTerm then long + [id] else long, LongTerm)
  {
  }

  lemma RemovedTier(entries: Entries, list: seq<nat>, kind: Kind, ids: set<nat>)
    requires Tier(entries, list, kind)
    ensures Tier(entries - ids, Without(list, ids), kind)
  {
    ChosenExactly(list, ids);
  }

  lemma NoDupAppend(a: seq<nat>, b: seq<nat>)
    requires NoDup(a) && NoDup(b) && forall x :: x in a ==> x !in b
    ensures NoDup(a + b)
  {
    forall i, j | 0 <= i < j < |a + b|
      ensures (a + b)[i] != (a + b)[j]
    {
      if i < |a| <= j {
        assert a[i] in a && b[j - |a|] in b;
      }
    }
  }

  // Moving memories between the tiers keeps both lists exact.
  lemma PromotedShort(entries: Entries, short: seq<nat>, threshold: real)
    requires Tier(entries, short, ShortTerm)
    ensures var ids := Promoted(entries, threshold);
      && Tier(Promote(entries, ids), Without(short, ids), ShortTerm)
      && |Chosen(short, ids)| == |ids|
  {
    var ids := Promoted(entries, threshold);
    ChosenExactly(short, ids);
    NoDupSize(Chosen(short, ids));
    assert Elements(Chosen(short, ids)) == ids;
  }

  lemma PromotedLong(entries: Entries, short: seq<nat>, long: seq<nat>, threshold: real)
    requires Tier(entries, short, ShortTerm) && Tier(entries, long, LongTerm)
    ensures var ids := Promoted(entries, threshold);
      Tier(Promote(entries, ids), long + Chosen(short, ids), LongTerm)
  {
    var ids := Promoted(entries, threshold);
    ChosenExactly(short, ids);
    NoDupAppend(long, Chosen(short, ids));
    var after := Promote(entries, ids);
    forall id: nat
      ensures id in long + Chosen(short, ids) <==> id in after && after[id].kind == LongTerm
    {
    }
  }

  lemma PromotedOutcome(entries: Entries, short: seq<nat>, long: seq<nat>, threshold: real)
    requires Tier(entries, short, ShortTerm) && Tier(entries, long, LongTerm)
    ensures var ids := Promoted(entries, threshold);
      && Tier(Promote(entries, ids), Without(short, ids), ShortTerm)
      && Tier(Promote(entries, ids), long + Chosen(short, ids), LongTerm)
      && |Chosen(short, ids)| == |ids|
      && ids == set id | id in Chosen(short, ids)
  {
    PromotedShort(entries, short, threshold);
    PromotedLong(entries, short, long, threshold);
    ChosenExactly(short, Promoted(entries, threshold));
  }

  lemma PromoteOne(entries: Entries, ids: set<nat>, id: nat)
    requires id in entries
    ensures Promote(entries, ids)[id := Promote(entries, ids)[id].(kind := LongTerm)] == Promote(entries, ids + {id})
  {
  }

  // What is left of a store when some ids are gone.
  ghost predicate Reduced(
      entries: Entries, short: seq<nat>, long: seq<nat>, ids: set<nat>,
      entries': Entries, short': seq<nat>, long': seq<nat>)
  {
    && entries' == entries - ids
    && short' == Without(short, ids)
    && long' == Without(long, ids)
  }

  lemma ReducedTwice(
      entries: Entries, short: seq<nat>, long: seq<nat>, ids: set<nat>,
      entries': Entries, short': seq<nat>, long': seq<nat>, id: nat,
      entries'': Entries, short'': seq<nat>, long'': seq<nat>)
    requires Reduced(entries, short, long, ids, entries', short', long')
    requires Reduced(entries', short', long', {id}, entries'', short'', long'')
    ensures Reduced(entries, short, long, ids + {id}, entries'', short'', long'')
  {
    WithoutAll(short, ids, {id});
    WithoutAll(long, ids, {id});
  }

  class MemoryStore {
    var entries: Entries
    var shortTerm: seq<nat>
    var longTerm: seq<nat>
    var nextId: nat

    ghost predicate Valid()
      reads this
    {
      && nextId >= 1
      && (forall id :: id in entries ==> 1 <= id < nextId && entries[id].id == id)
      && Tier(entries, shortTerm, ShortTerm)
      && Tier(entries, longTerm, LongTerm)
    }

    constructor ()
      ensures Valid() && entries == map[] && nextId == 1
    {
      entries, shortTerm, longTerm, nextId := map[], [], [], 1;
    }

    method Store(entry: Entry) returns (id: nat)
      requires Valid()
      modifies this
      ensures Valid()
      ensures id == old(nextId) && id !in old(entries) && nextId == id + 1
      ensures entries == old(entries)[id := entry.(id := id)]
      ensures shortTerm == old(shortTerm) + if entry.kind == ShortTerm then [id] else []
      ensures longTerm == old(longTerm) + if entry.kind == LongTerm then [id] else []
    {
      id := nextId;
      StoredTiers(entries, shortTerm, longTerm, id, entry.(id := id));
      nextId := nextId + 1;
      match entry.kind {
        case ShortTerm => shortTerm := shortTerm + [id];
        case LongTerm => longTerm := longTerm + [id];
        case _ =>
      }
      entries := entries[id := entry.(id := id)];
    }

    method Delete(id: nat) returns (found: bool)
      requires Valid()
      modifies this
      ensures Valid() && nextId == old(nextId)
      ensures found <==> id in old(entries)
      ensures Reduced(old(entries), old(shortTerm), old(longTerm), {id}, entries, shortTerm, longTerm)
    {
      RemovedTier(entries, shortTerm, ShortTerm, {id});
      RemovedTier(entries, longTerm, LongTerm, {id});
      found := id in entries;
      if found {
        entries := entries - {id};
        shortTerm := Without(shortTerm, {id});
        longTerm := Without(longTerm, {id});
      } else {
        assert entries - {id} == entries;
        NothingWithout(shortTerm, id);
        NothingWithout(longTerm, id);
      }
    }

    // Moves the important short-term memories to the long term.
    method Consolidate(threshold: real) returns (count: nat)
      requires Valid()
      modifies this
      ensures Valid() && nextId == old(nextId)
      ensures entries.Keys == old(entries).Keys
      ensures forall id :: id in entries ==>
        var e := old(entries)[id];
        entries[id] == if e.kind == ShortTerm && e.importance >= threshold then e.(kind := LongTerm) else e
      ensures count == |Promoted(old(entries), threshold)|
      ensures entries == Promote(old(entries), Promoted(old(entries), threshold))
      ensures shortTerm == Without(old(shortTerm), Promoted(old(entries), threshold))
      ensures longTerm == old(longTerm) + Chosen(old(shortTerm), Promoted(old(entries), threshold))
    {
      PromotedOutcome(entries, shortTerm, longTerm, threshold);
      var moving := Important(threshold);
      var ids := set id | id in moving;
      assert forall id :: id in moving ==> id in ids;
      MoveToLong(moving, ids);
      shortTerm := Without(shortTerm, ids);
      count := |moving|;
    }

    method MoveToLong(moving: seq<nat>, ghost ids: set<nat>)
      requires ids == set id | id in moving
      requires forall id :: id in moving ==> id in entries
      modifies this`entries, this`longTerm
      ensures entries == Promote(old(entries), ids) && longTerm == old(longTerm) + moving
    {
      ghost var done: set<nat> := {};
      assert entries == Promote(entries, {});
      for k := 0 to |moving|
        invariant done == set id | id in moving[..k]
        invariant entries == Promote(old(entries), done) && longTerm == old(longTerm) + moving[..k]
      {
        var id := moving[k];
        PromoteOne(old(entries), done, id);
        assert moving[..k + 1] == moving[..k] + [id];
        if id in entries {
          entries := entries[id := entries[id].(kind := LongTerm)];
        }
        longTerm := longTerm + [id];
        done := done + {id};
      }
      assert moving[..|moving|] == moving;
    }

    // The short-term ids with enough importance, in order.
    method Important(threshold: real) returns (moving: seq<nat>)
      requires Valid()
      ensures moving == Chosen(shortTerm, Promoted(entries, threshold))
    {
      moving := [];
      for k := 0 to |shortTerm|
        invariant moving == Chosen(shortTerm[..k], Promoted(entries, threshold))
      {
        var id := shortTerm[k];
        assert shortTerm[..k + 1][..k] == shortTerm[..k] && id in shortTerm;
        if id in entries && entries[id].importance >= threshold {
          moving := moving + [id];
        }
      }
      assert shortTerm[..|shortTerm|] == shortTerm;
    }

    method CleanupExpired(now: nat) returns (count: nat)
      requires Valid()
      modifies this
      ensures Valid() && nextId == old(nextId)
      ensures forall id :: id in entries <==>
        id in old(entries) && (old(entries)[id].expiresAt == None || now < old(entries)[id].expiresAt.value)
      ensures forall id :: id in entries ==> entries[id] == old(entries)[id]
      ensures count == |old(entries)| - |entries|
      ensures count == |Expired(old(entries), now)|
      ensures Reduced(old(entries), old(shortTerm), old(longTerm), Expired(old(entries), now),
                      entries, shortTerm, longTerm)
    {
      var expired := Expired(entries, now);
      count := |expired|;
      DeleteAll(expired);
      Remaining(old(entries), expired, entries);
    }

    method DeleteAll(ids: set<nat>)
      requires Valid()
      modifies this
      ensures Valid() && nextId == old(nextId)
      ensures Reduced(old(entries), old(shortTerm), old(longTerm), ids, entries, shortTerm, longTerm)
    {
      var rest := ids;
      ghost var gone: set<nat> := {};
      WithoutNone(shortTerm);
      WithoutNone(longTerm);
      assert entries - {} == entries;
      while rest != {}
        invariant gone + rest == ids && Valid() && nextId == old(nextId)
        invariant Reduced(old(entries), old(shortTerm), old(longTerm), gone, entries, shortTerm, longTerm)
      {
        var id :| id in rest;
        ghost var e, s, l := entries, shortTerm, longTerm;
        var found := Delete(id);
        ReducedTwice(old(entries), old(shortTerm), old(longTerm), gone, e, s, l, id, entries, shortTerm, longTerm);
        rest, gone := rest - {id}, gone + {id};
      }
    }
  }

  lemma Remaining(entries: Entries, ids: set<nat>, entries': Entries)
    requires ids <= entries.Keys && entries' == entries - ids
    ensures |entries'| + |ids| == |entries|
  {
    assert entries'.Keys == entries.Keys - ids;
    assert |entries'| == |entries'.Keys| && |entries| == |entries.Keys|;
  }

  lemma {:induction false} WithoutNone(list: seq<nat>)
    ensures Without(list, {}) == list
  {
    if list != [] {
      WithoutNone(list[..|list| - 1]);
    }
  }

  lemma {:induction false} NothingWithout(list: seq<nat>, id: nat)
    requires id !in list
    ensures Without(list, {id}) == list
  {
    if list != [] {
      NothingWithout(list[..|list| - 1], id);
    }
  }
}
