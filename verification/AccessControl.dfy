/**
 * The access-control engine: policies kept in descending priority, evaluated in that
 * order until one of them decides.
 *
 * A policy decides by its first rule that matches the request, or by its default unless
 * that abstains. The sort after each addition is stable, so policies of one priority are
 * asked in the order in which they were added.
 */
module AccessControl {
  import opened Wrappers
  import opened Glob

  datatype Decision = Allow | Deny | DefaultDeny | Audit

  datatype Request = Request(requester: string, resource: string, action: string)

  datatype Rule = Rule(
    id: string, effect: Decision, requester: Option<string>, resource: Option<string>, action: Option<string>)

  datatype Policy = Policy(id: string, rules: seq<Rule>, default: Decision, priority: nat)

  datatype AuditEntry = AuditEntry(request: Request, decision: Decision, policyId: Option<string>)

  // A missing pattern fits anything.
  ghost predicate Fits(pattern: Option<string>, text: string) {
    pattern.Some? ==> Accepts(pattern.value, text)
  }

  ghost predicate Matches(rule: Rule, r: Request) {
    Fits(rule.requester, r.requester) && Fits(rule.resource, r.resource) && Fits(rule.action, r.action)
  }

  ghost predicate IsFirst(rules: seq<Rule>, r: Request, i: nat) {
    i < |rules| && Matches(rules[i], r) && forall j :: 0 <= j < i ==> !Matches(rules[j], r)
  }

  ghost function FirstMatch(rules: seq<Rule>, r: Request): (d: Option<Decision>)
    ensures d.None? <==> forall i :: 0 <= i < |rules| ==> !Matches(rules[i], r)
    ensures d.Some? ==> exists i :: 0 <= i < |rules| && IsFirst(rules, r, i) && d.value == rules[i].effect
  {
    if rules == [] then None
    else if Matches(rules[0], r) then assert IsFirst(rules, r, 0); Some(rules[0].effect)
    else
      var d := FirstMatch(rules[1..], r);
      assert forall i :: 0 <= i < |rules| - 1 ==> rules[1..][i] == rules[i + 1];
      assert forall i :: 0 <= i < |rules| - 1 && IsFirst(rules[1..], r, i) ==> IsFirst(rules, r, i + 1);
      d
  }

  // What one policy says: its first matching rule, or its default unless that abstains.
  ghost function Says(p: Policy, r: Request): Option<Decision> {
    var d := FirstMatch(p.rules, r);
    if d.Some? then d else if p.default != DefaultDeny then Some(p.default) else None
  }

  // A policy says a decision exactly when it is the effect of the first rule that matches,
  // or no rule matches and it is the default and not the default denial.
  lemma SaysExactly(p: Policy, r: Request, d: Decision)
    ensures Says(p, r) == Some(d) <==>
              || (exists i :: 0 <= i < |p.rules| && IsFirst(p.rules, r, i) && p.rules[i].effect == d)
              || ((forall i :: 0 <= i < |p.rules| ==> !Matches(p.rules[i], r)) && p.default == d && d != DefaultDeny)
  {
    if i :| 0 <= i < |p.rules| && IsFirst(p.rules, r, i) {
      var j :| 0 <= j < |p.rules| && IsFirst(p.rules, r, j) && FirstMatch(p.rules, r) == Some(p.rules[j].effect);
      assert forall k :: 0 <= k < |p.rules| && IsFirst(p.rules, r, k) ==> k == j;
    }
  }

  ghost predicate Descending(policies: seq<Policy>) {
    forall i, j :: 0 <= i < j < |policies| ==> policies[i].priority >= policies[j].priority
  }

  // Where a new policy goes: after all of at least its priority.
  function Place(policies: seq<Policy>, p: Policy): (n: nat)
    ensures n <= |policies|
  {
    if policies == [] then 0
    else if policies[|policies| - 1].priority >= p.priority then |policies|
    else Place(policies[..|policies| - 1], p)
  }

  // A stable sort by descending priority puts an appended policy at its place.
  function Inserted(policies: seq<Policy>, p: Policy): seq<Policy> {
    policies[..Place(policies, p)] + [p] + policies[Place(policies, p)..]
  }

  function Sorted(policies: seq<Policy>): seq<Policy> {
    if policies == [] then []
    else Inserted(Sorted(policies[..|policies| - 1]), policies[|policies| - 1])
  }

  lemma {:induction false} PlaceExactly(policies: seq<Policy>, p: Policy)
    requires Descending(policies)
    ensures forall i :: 0 <= i < Place(policies, p) ==> policies[i].priority >= p.priority
    ensures forall i :: Place(policies, p) <= i < |policies| ==> policies[i].priority < p.priority
  {
    if policies != [] && policies[|policies| - 1].priority < p.priority {
      PlaceExactly(policies[..|policies| - 1], p);
    }
  }

  lemma InsertedDescending(policies: seq<Policy>, p: Policy)
    requires Descending(policies)
    ensures Descending(Inserted(policies, p))
    ensures multiset(Inserted(policies, p)) == multiset(policies) + multiset{p}
  {
    PlaceExactly(policies, p);
    var n := Place(policies, p);
    assert policies == policies[..n] + policies[n..];
  }

  // The policies of one priority, in order.
  function OfPriority(policies: seq<Policy>, k: nat): seq<Policy> {
    if policies == [] then []
    else
      var last := policies[|policies| - 1];
      OfPriority(policies[..|policies| - 1], k) + if last.priority == k then [last] else []
  }

  lemma {:induction false} OfPriorityAppend(a: seq<Policy>, b: seq<Policy>, k: nat)
    ensures OfPriority(a + b, k) == OfPriority(a, k) + OfPriority(b, k)
    decreases |b|
  {
    if b == [] {
      assert a + b == a;
    } else {
      assert (a + b)[..|a + b| - 1] == a + b[..|b| - 1];
      OfPriorityAppend(a, b[..|b| - 1], k);
    }
  }

  lemma {:induction false} NoneOfPriority(policies: seq<Policy>, k: nat)
    requires forall i :: 0 <= i < |policies| ==> policies[i].priority != k
    ensures OfPriority(policies, k) == []
  {
    if policies != [] {
      NoneOfPriority(policies[..|policies| - 1], k);
    }
  }

  lemma OfPriorityAround(front: seq<Policy>, p: Policy, back: seq<Policy>, k: nat)
    ensures OfPriority(front + [p] + back, k)
         == OfPriority(front, k) + (if p.priority == k then [p] else []) + OfPriority(back, k)
    ensures OfPriority(front + back + [p], k)
         == OfPriority(front, k) + OfPriority(back, k) + (if p.priority == k then [p] else [])
  {
    assert [p][..0] == [];
    assert OfPriority([p], k) == if p.priority == k then [p] else [];
    OfPriorityAppend(front + [p], back, k);
    OfPriorityAppend(front, [p], k);
    OfPriorityAppend(front + back, [p], k);
    OfPriorityAppend(front, back, k);
  }

  // Inserting is what a stable sort of the appended list does.
  lemma InsertedStable(policies: seq<Policy>, p: Policy, k: nat)
    requires Descending(policies)
    ensures OfPriority(Inserted(policies, p), k) == OfPriority(policies + [p], k)
  {
    PlaceExactly(policies, p);
    var n := Place(policies, p);
    var front, back := policies[..n], policies[n..];
    assert policies == front + back;
    OfPriorityAround(front, p, back, k);
    if p.priority == k {
      NoneOfPriority(back, k);
    }
  }

  // After any sequence of additions: descending, a permutation, and first come first
  // within one priority.
  lemma {:induction false} SortedExactly(policies: seq<Policy>, k: nat)
    ensures Descending(Sorted(policies)) && multiset(Sorted(policies)) == multiset(policies)
    ensures OfPriority(Sorted(policies), k) == OfPriority(policies, k)
  {
    if policies != [] {
      var front, last := policies[..|policies| - 1], policies[|policies| - 1];
      assert policies == front + [last];
      SortedExactly(front, k);
      InsertedDescending(Sorted(front), last);
      InsertedStable(Sorted(front), last, k);
      OfPriorityAppend(Sorted(front), [last], k);
      OfPriorityAppend(front, [last], k);
    }
  }

  // The policies other than those with an id.
  function Kept(policies: seq<Policy>, id: string): seq<Policy> {
    if policies == [] then []
    else
      var last := policies[|policies| - 1];
      Kept(policies[..|policies| - 1], id) + if last.id == id then [] else [last]
  }

  lemma {:induction false} KeptAppend(a: seq<Policy>, b: seq<Policy>, id: string)
    ensures Kept(a + b, id) == Kept(a, id) + Kept(b, id)
    decreases |b|
  {
    if b == [] {
      assert a + b == a;
    } else {
      assert (a + b)[..|a + b| - 1] == a + b[..|b| - 1];
      KeptAppend(a, b[..|b| - 1], id);
    }
  }

  // What is kept is every occurrence of every policy with another id, in order.
  lemma {:induction false} KeptExactly(policies: seq<Policy>, id: string, p: Policy)
    ensures multiset(Kept(policies, id))[p] == if p.id == id then 0 else multiset(policies)[p]
  {
    if policies != [] {
      var front, last := policies[..|policies| - 1], policies[|policies| - 1];
      assert policies == front + [last];
      KeptExactly(front, id, p);
    }
  }

  lemma {:induction false} KeptBounds(policies: seq<Policy>, id: string, low: nat, high: nat)
    ensures (forall i :: 0 <= i < |policies| ==> policies[i].priority >= low) ==>
      forall i :: 0 <= i < |Kept(policies, id)| ==> Kept(policies, id)[i].priority >= low
    ensures (forall i :: 0 <= i < |policies| ==> policies[i].priority < high) ==>
      forall i :: 0 <= i < |Kept(policies, id)| ==> Kept(policies, id)[i].priority < high
  {
    if policies != [] {
      KeptBounds(policies[..|policies| - 1], id, low, high);
    }
  }

  lemma {:induction false} PlaceUnique(front: seq<Policy>, back: seq<Policy>, p: Policy)
    requires forall i :: 0 <= i < |front| ==> front[i].priority >= p.priority
    requires forall i :: 0 <= i < |back| ==> back[i].priority < p.priority
    ensures Place(front + back, p) == |front|
    decreases |back|
  {
    if back == [] {
      assert front + back == front;
    } else {
      assert (front + back)[..|front + back| - 1] == front + back[..|back| - 1];
      PlaceUnique(front, back[..|back| - 1], p);
    }
  }

  lemma KeptAround(front: seq<Policy>, p: Policy, back: seq<Policy>, id: string)
    ensures Kept(front + back, id) == Kept(front, id) + Kept(back, id)
    ensures Kept(front + [p] + back, id)
         == Kept(front, id) + (if p.id == id then [] else [p]) + Kept(back, id)
  {
    KeptAppend(front, back, id);
    KeptAppend(front + [p], back, id);
    KeptAppend(front, [p], id);
    assert [p][..0] == [];
  }

  lemma InsertedBetween(front: seq<Policy>, p: Policy, back: seq<Policy>)
    requires forall i :: 0 <= i < |front| ==> front[i].priority >= p.priority
    requires forall i :: 0 <= i < |back| ==> back[i].priority < p.priority
    ensures Inserted(front + back, p) == front + [p] + back
  {
    PlaceUnique(front, back, p);
  }

  lemma KeptBetween(front: seq<Policy>, p: Policy, back: seq<Policy>, id: string)
    requires forall i :: 0 <= i < |front| ==> front[i].priority >= p.priority
    requires forall i :: 0 <= i < |back| ==> back[i].priority < p.priority
    ensures Kept(front + [p] + back, id)
         == if p.id == id then Kept(front + back, id) else Inserted(Kept(front + back, id), p)
  {
    KeptAround(front, p, back, id);
    KeptBounds(front, id, p.priority, p.priority);
    KeptBounds(back, id, p.priority, p.priority);
    InsertedBetween(Kept(front, id), p, Kept(back, id));
  }

  lemma KeptInserted(policies: seq<Policy>, p: Policy, id: string)
    requires Descending(policies)
    ensures Kept(Inserted(policies, p), id)
         == if p.id == id then Kept(policies, id) else Inserted(Kept(policies, id), p)
  {
    PlaceExactly(policies, p);
    var n := Place(policies, p);
    assert policies == policies[..n] + policies[n..];
    KeptBetween(policies[..n], p, policies[n..], id);
  }

  lemma {:induction false} KeptLength(policies: seq<Policy>, id: string)
    ensures |Kept(policies, id)| <= |policies|
    ensures |Kept(policies, id)| < |policies| <==> exists i :: 0 <= i < |policies| && policies[i].id == id
  {
    if policies != [] {
      KeptLength(policies[..|policies| - 1], id);
    }
  }

  // Removing policies from the sorted list is sorting without them.
  lemma {:induction false} KeptSorted(policies: seq<Policy>, id: string)
    ensures Kept(Sorted(policies), id) == Sorted(Kept(policies, id))
  {
    if policies != [] {
      var front, last := policies[..|policies| - 1], policies[|policies| - 1];
      KeptSorted(front, id);
      SortedExactly(front, 0);
      KeptInserted(Sorted(front), last, id);
      assert Kept(policies, id) == if last.id == id then Kept(front, id) else Kept(front, id) + [last];
      assert (Kept(front, id) + [last])[..|Kept(front, id)|] == Kept(front, id);
    }
  }

  // The first policy that decides.
  ghost function Decider(policies: seq<Policy>, r: Request): (n: nat)
    ensures n <= |policies|
    ensures n < |policies| ==> Says(policies[n], r).Some?
    ensures forall i :: 0 <= i < n ==> Says(policies[i], r).None?
  {
    if policies == [] then 0
    else if Says(policies[0], r).Some? then 0
    else
      var n := Decider(policies[1..], r);
      assert forall i :: 0 <= i < |policies| - 1 ==> policies[1..][i] == policies[i + 1];
      n + 1
  }

  ghost function Outcome(policies: seq<Policy>, r: Request): Decision {
    var n := Decider(policies, r);
    if n < |policies| then Says(policies[n], r).value else DefaultDeny
  }

  // The decision is what the first policy that says anything says, or the default denial.
  lemma OutcomeExactly(policies: seq<Policy>, r: Request)
    ensures (forall i :: 0 <= i < |policies| ==> Says(policies[i], r).None?) ==> Outcome(policies, r) == DefaultDeny
    ensures forall n :: 0 <= n < |policies| && Says(policies[n], r).Some?
                        && (forall i :: 0 <= i < n ==> Says(policies[i], r).None?) ==>
              Decider(policies, r) == n && Some(Outcome(policies, r)) == Says(policies[n], r)
  {
  }

  lemma {:induction false} DeciderAppend(a: seq<Policy>, b: seq<Policy>, r: Request)
    ensures Decider(a + b, r) == if Decider(a, r) < |a| then Decider(a, r) else |a| + Decider(b, r)
    decreases |a|
  {
    if a == [] {
      assert a + b == b;
    } else {
      assert (a + b)[1..] == a[1..] + b;
      DeciderAppend(a[1..], b, r);
    }
  }

  lemma OutcomeAppend(a: seq<Policy>, b: seq<Policy>, r: Request)
    ensures Outcome(a + b, r) == if Decider(a, r) < |a| then Outcome(a, r) else Outcome(b, r)
  {
    DeciderAppend(a, b, r);
  }

  lemma OutcomeBetween(front: seq<Policy>, p: Policy, back: seq<Policy>, r: Request)
    ensures Outcome(front + [p] + back, r)
         == if Says(p, r).Some? && Decider(front, r) == |front| then Says(p, r).value else Outcome(front + back, r)
  {
    assert front + [p] + back == front + ([p] + back);
    OutcomeAppend(front, [p] + back, r);
    OutcomeAppend([p], back, r);
    OutcomeAppend(front, back, r);
    assert Decider([p], r) == if Says(p, r).Some? then 0 else 1;
  }

  // A new policy takes over the decision exactly when it decides the request and no policy
  // of at least its priority does.
  lemma AddedOutcome(policies: seq<Policy>, p: Policy, r: Request)
    requires Descending(policies)
    ensures var n := Decider(policies, r);
      Outcome(Inserted(policies, p), r)
        == if Says(p, r).Some? && (n < |policies| ==> policies[n].priority < p.priority) then Says(p, r).value
           else Outcome(policies, r)
  {
    PlaceExactly(policies, p);
    var k := Place(policies, p);
    assert policies == policies[..k] + policies[k..];
    OutcomeBetween(policies[..k], p, policies[k..], r);
    DeciderAppend(policies[..k], policies[k..], r);
  }

  class AccessControlEngine {
    var policies: seq<Policy>
    var auditLog: seq<AuditEntry>
    // The policies in the order they were added.
    ghost var added: seq<Policy>

    ghost predicate Valid()
      reads this
    {
      policies == Sorted(added)
    }

    constructor ()
      ensures Valid() && added == [] && auditLog == []
    {
      policies, auditLog, added := [], [], [];
    }

    method AddPolicy(p: Policy)
      requires Valid()
      modifies this`policies, this`added
      ensures Valid() && added == old(added) + [p]
      ensures policies == Inserted(old(policies), p)
    {
      assert (added + [p])[..|added|] == added;
      policies := Inserted(policies, p);
      added := added + [p];
    }

    method RemovePolicy(id: string) returns (removed: bool)
      requires Valid()
      modifies this`policies, this`added
      ensures Valid() && added == Kept(old(added), id) && policies == Kept(old(policies), id)
      ensures removed <==> exists i :: 0 <= i < |old(policies)| && old(policies)[i].id == id
    {
      KeptSorted(added, id);
      KeptLength(policies, id);
      var before := |policies|;
      policies := Kept(policies, id);
      added := Kept(added, id);
      removed := |policies| != before;
    }

    method FitsPattern(pattern: Option<string>, text: string) returns (b: bool)
      ensures b <==> Fits(pattern, text)
    {
      match pattern {
        case None => b := true;
        case Some(glob) => b := GlobMatch(glob, text);
      }
    }

    method RuleMatches(rule: Rule, r: Request) returns (b: bool)
      ensures b <==> Matches(rule, r)
      ensures b <==>
                && (rule.requester.Some? ==> Accepts(rule.requester.value, r.requester))
                && (rule.resource.Some? ==> Accepts(rule.resource.value, r.resource))
                && (rule.action.Some? ==> Accepts(rule.action.value, r.action))
    {
      b := FitsPattern(rule.requester, r.requester);
      if !b {
        return false;
      }
      b := FitsPattern(rule.resource, r.resource);
      if !b {
        return false;
      }
      b := FitsPattern(rule.action, r.action);
    }

    // The first matching rule of a policy.
    method FirstRule(rules: seq<Rule>, r: Request) returns (d: Option<Decision>)
      ensures d == FirstMatch(rules, r)
    {
      for k := 0 to |rules|
        invariant FirstMatch(rules, r) == FirstMatch(rules[k..], r)
      {
        assert rules[k..][0] == rules[k] && rules[k..][1..] == rules[k + 1..];
        var hit := RuleMatches(rules[k], r);
        if hit {
          return Some(rules[k].effect);
        }
      }
      return None;
    }

    // What one policy says.
    method Consult(p: Policy, r: Request) returns (d: Option<Decision>)
      ensures d == Says(p, r)
    {
      d := FirstRule(p.rules, r);
      if d.None? && p.default != DefaultDeny {
        d := Some(p.default);
      }
    }

    // The first policy that decides, and its decision.
    method FirstSaid(r: Request) returns (n: nat, d: Decision)
      ensures n == Decider(policies, r) && d == Outcome(policies, r)
    {
      for k := 0 to |policies|
        invariant k <= Decider(policies, r)
      {
        var said := Consult(policies[k], r);
        if said.Some? {
          return k, said.value;
        }
      }
      return |policies|, DefaultDeny;
    }

    method Evaluate(r: Request) returns (d: Decision)
      modifies this`auditLog
      ensures d == Outcome(policies, r)
      ensures var n := Decider(policies, r);
        auditLog == old(auditLog) + [AuditEntry(r, d, if n < |policies| then Some(policies[n].id) else None)]
    {
      var n;
      n, d := FirstSaid(r);
      auditLog := auditLog + [AuditEntry(r, d, if n < |policies| then Some(policies[n].id) else None)];
    }
  }
}
