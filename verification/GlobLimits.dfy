/**
 * A skipped slash always costs the matcher its language: for every pattern that has
 * one there is a text on which they differ.
 */
module GlobLimits {
  import opened Wrappers
  import opened Glob

  // A state in which the loop stands when it has never backtracked.
  ghost predicate Straight(p: string, pi: nat) {
    && pi <= |p| && !SkippedSlash(p, pi)
    && (pi < |p| && p[pi] == '*' ==> StarsBefore(p, pi) % 2 == 0)
  }

  // What the pattern from i up to e spells without its stars and skipped slashes.
  function Spell(p: string, i: nat, e: nat): string
    requires i <= e <= |p|
    decreases e - i
  {
    if i == e then ""
    else if p[i] == '*' || SkippedSlash(p, i) then Spell(p, i + 1, e)
    else [if p[i] == '?' then 'a' else p[i]] + Spell(p, i + 1, e)
  }

  function Slashes(t: string, j: nat): nat
    requires j <= |t|
    decreases |t| - j
  {
    if j == |t| then 0 else (if t[j] == '/' then 1 else 0) + Slashes(t, j + 1)
  }

  function SkippedSlashes(p: string, i: nat): nat
    requires i <= |p|
    decreases |p| - i
  {
    if i == |p| then 0 else (if SkippedSlash(p, i) then 1 else 0) + SkippedSlashes(p, i + 1)
  }

  lemma {:induction false} SlashesMonotone(t: string, j: nat, m: nat)
    requires j <= m <= |t|
    ensures Slashes(t, j) >= Slashes(t, m)
    decreases m - j
  {
    if j < m {
      SlashesMonotone(t, j + 1, m);
    }
  }

  // A matching text has at least the slashes the pattern spells out.
  lemma {:induction false} MatchKeepsSlashes(p: string, t: string, i: nat, j: nat)
    requires i <= |p| && j <= |t| && MatchAt(p, t, i, j)
    ensures Slashes(t, j) >= Slashes(p, i)
    decreases |p| - i + |t| - j
  {
    if i < |p| {
      if p[i] == '*' && !MatchAt(p, t, i + 1, j) {
        MatchKeepsSlashes(p, t, i, j + 1);
      } else {
        MatchKeepsSlashes(p, t, i + 1, if p[i] == '*' then j else j + 1);
      }
    }
  }

  lemma {:induction false} SlashesAppend(s: string, t: string, j: nat)
    requires j <= |s|
    ensures Slashes(s + t, j) == Slashes(s, j) + Slashes(t, 0)
    decreases |s| - j
  {
    if j == |s| {
      SlashesShift(s, t, 0);
    } else {
      SlashesAppend(s, t, j + 1);
    }
  }

  lemma {:induction false} SlashesShift(s: string, t: string, j: nat)
    requires j <= |t|
    ensures Slashes(s + t, |s| + j) == Slashes(t, j)
    decreases |t| - j
  {
    if j < |t| {
      SlashesShift(s, t, j + 1);
    }
  }

  // Spelling a pattern out loses exactly its skipped slashes.
  lemma {:induction false} SpellSlashes(p: string, i: nat)
    requires i <= |p|
    ensures Slashes(Spell(p, i, |p|), 0) + SkippedSlashes(p, i) == Slashes(p, i)
    decreases |p| - i
  {
    if i < |p| {
      SpellSlashes(p, i + 1);
      if !(p[i] == '*' || SkippedSlash(p, i)) {
        var c := if p[i] == '?' then 'a' else p[i];
        SlashesAppend([c], Spell(p, i + 1, |p|), 0);
        assert Slashes([c], 0) == if c == '/' then 1 else 0;
      }
    }
  }

  lemma {:induction false} SpellSplit(p: string, i: nat, m: nat, e: nat)
    requires i <= m <= e <= |p|
    ensures Spell(p, i, e) == Spell(p, i, m) + Spell(p, m, e)
    decreases m - i
  {
    if i < m {
      SpellSplit(p, i + 1, m, e);
    }
  }

  // On a text that starts with the spelling up to e, the loop walks straight to e.
  lemma {:induction false} WalkTo(p: string, t: string, e: nat, tail: string,
                                  pi: nat, ti: nat, star: Option<nat>, mi: nat)
    returns (star': Option<nat>, mi': nat)
    requires Placed(p, t, pi, ti, star, mi) && Straight(p, pi)
    requires pi <= e < |p| && Straight(p, e) && t[ti..] == Spell(p, pi, e) + tail && tail != ""
    ensures Placed(p, t, e, |t| - |tail|, star', mi')
    ensures Run(p, t, pi, ti, star, mi) == Run(p, t, e, |t| - |tail|, star', mi')
    decreases e - pi
  {
    if pi == e {
      star', mi' := star, mi;
    } else if p[pi] == '*' {
      assert StarsBefore(p, pi + 1) == 1 + StarsBefore(p, pi);
      if pi + 1 < |p| && p[pi + 1] == '*' {
        assert StarsBefore(p, pi + 2) == 2 + StarsBefore(p, pi);
        assert e >= pi + 2;
        var next := if p[pi + 2] == '/' then pi + 3 else pi + 2;
        assert Spell(p, pi, e) == Spell(p, next, e);
        star', mi' := WalkTo(p, t, e, tail, next, ti, Some(pi), ti);
      } else {
        star', mi' := WalkTo(p, t, e, tail, pi + 1, ti, Some(pi), ti);
      }
    } else {
      var c := if p[pi] == '?' then 'a' else p[pi];
      assert t[ti] == t[ti..][0] == c && t[ti + 1..] == t[ti..][1..] == Spell(p, pi + 1, e) + tail;
      star', mi' := WalkTo(p, t, e, tail, pi + 1, ti + 1, star, mi);
    }
  }

  ghost predicate NoneSkippedFrom(p: string, i: nat) {
    forall k :: i <= k < |p| ==> !SkippedSlash(p, k)
  }

  // With no skipped slash ahead, the loop accepts the spelling of the rest.
  lemma {:induction false} AcceptSpelling(p: string, t: string, pi: nat, ti: nat, star: Option<nat>, mi: nat)
    requires Placed(p, t, pi, ti, star, mi) && Straight(p, pi) && NoneSkippedFrom(p, pi)
    requires t[ti..] == Spell(p, pi, |p|)
    ensures Run(p, t, pi, ti, star, mi)
    decreases |p| - pi
  {
    if pi == |p| {
      assert ti == |t|;
    } else if p[pi] == '*' {
      assert StarsBefore(p, pi + 1) == 1 + StarsBefore(p, pi);
      if pi + 1 < |p| && p[pi + 1] == '*' {
        assert StarsBefore(p, pi + 2) == 2 + StarsBefore(p, pi);
        AcceptSpelling(p, t, pi + 2, ti, Some(pi), ti);
        if pi + 2 < |p| {
          assert !SkippedSlash(p, pi + 2);
        }
      } else {
        AcceptSpelling(p, t, pi + 1, ti, Some(pi), ti);
      }
    } else {
      var c := if p[pi] == '?' then 'a' else p[pi];
      assert Spell(p, pi, |p|) == [c] + Spell(p, pi + 1, |p|);
      assert t[ti] == t[ti..][0] && t[ti + 1..] == t[ti..][1..];
      AcceptSpelling(p, t, pi + 1, ti + 1, star, mi);
    }
  }

  // Trailing stars absorb one last character.
  lemma {:induction false} AcceptOneMore(p: string, t: string, pi: nat, ti: nat, star: Option<nat>, mi: nat)
    requires Placed(p, t, pi, ti, star, mi) && pi < |p| && OnlyStars(p, pi) && ti + 1 == |t|
    ensures Run(p, t, pi, ti, star, mi)
    decreases |p| - pi
  {
    if pi + 2 < |p| {
      AcceptOneMore(p, t, pi + 2, ti, Some(pi), ti);
    } else if pi + 1 == |p| {
      assert Run(p, t, |p|, ti + 1, Some(pi), ti + 1);
      assert Run(p, t, |p|, ti, Some(pi), ti);
    }
  }

  lemma {:induction false} LastSkipped(p: string, n: nat) returns (q: nat)
    requires n <= |p| && NoneSkippedFrom(p, n) && !NoSkippedSlash(p)
    ensures q < n && SkippedSlash(p, q) && NoneSkippedFrom(p, q + 1)
    decreases n
  {
    if n > 0 && SkippedSlash(p, n - 1) {
      q := n - 1;
    } else {
      assert n > 0;
      q := LastSkipped(p, n - 1);
    }
  }

  lemma {:induction false} SkippedCounted(p: string, i: nat, q: nat)
    requires i <= q < |p| && SkippedSlash(p, q)
    ensures SkippedSlashes(p, i) >= 1
    decreases q - i
  {
    if i < q {
      SkippedCounted(p, i + 1, q);
    }
  }

  // The matcher decides the language of exactly the patterns without a skipped slash.
  lemma ExactlyWithoutSkippedSlash(p: string)
    ensures (forall t :: Accepts(p, t) <==> InLanguage(p, t)) <==> NoSkippedSlash(p)
  {
    if NoSkippedSlash(p) {
      forall t
        ensures Accepts(p, t) <==> InLanguage(p, t)
      {
        AcceptsLanguage(p, t);
      }
    } else {
      var t := Disagreement(p);
    }
  }

  lemma Disagreement(p: string) returns (t: string)
    requires !NoSkippedSlash(p)
    ensures !(Accepts(p, t) <==> InLanguage(p, t))
  {
    var q := LastSkipped(p, |p|);
    assert StarsBefore(p, q - 1) == StarsBefore(p, q) - 1 && StarsBefore(p, q - 2) == StarsBefore(p, q) - 2;
    if q + 1 < |p| {
      t := SlashShort(p, q);
    } else {
      t := SlashLast(p, q);
    }
    MatchIsLanguage(p, t);
  }

  // Something follows the last skipped slash: a text with too few slashes is accepted.
  lemma SlashShort(p: string, q: nat) returns (t: string)
    requires SkippedSlash(p, q) && q + 1 < |p| && NoneSkippedFrom(p, q + 1)
    ensures Accepts(p, t) && !MatchAt(p, t, 0, 0)
  {
    var head, rest := Spell(p, 0, q + 1), Spell(p, q + 1, |p|);
    var tail := if rest == "" then "a" else rest;
    t := head + tail;
    assert t[0..] == t;
    var star, mi := WalkTo(p, t, q + 1, tail, 0, 0, None, 0);
    assert t[|t| - |tail|..] == tail;
    if rest == "" {
      NothingSpelled(p, q + 1);
      AcceptOneMore(p, t, q + 1, |t| - |tail|, star, mi);
    } else {
      AcceptSpelling(p, t, q + 1, |t| - |tail|, star, mi);
    }
    SpellSlashes(p, 0);
    SkippedCounted(p, 0, q);
    SpellSplit(p, 0, q + 1, |p|);
    SlashesAppend(head, tail, 0);
    SlashesAppend(head, rest, 0);
    if MatchAt(p, t, 0, 0) {
      MatchKeepsSlashes(p, t, 0, 0);
    }
  }

  lemma {:induction false} NothingSpelled(p: string, i: nat)
    requires i <= |p| && NoneSkippedFrom(p, i) && Spell(p, i, |p|) == ""
    ensures OnlyStars(p, i)
    decreases |p| - i
  {
    if i < |p| {
      NothingSpelled(p, i + 1);
    }
  }

  // The skipped slash ends the pattern. When it is the only one, the plain spelling
  // with that slash is rejected though it matches; with more, a text that is short
  // of slashes is accepted.
  lemma SlashLast(p: string, q: nat) returns (t: string)
    requires SkippedSlash(p, q) && q + 1 == |p|
    ensures Accepts(p, t) != MatchAt(p, t, 0, 0)
  {
    assert StarsBefore(p, q - 1) == StarsBefore(p, q) - 1 && StarsBefore(p, q - 2) == StarsBefore(p, q) - 2;
    var head := Spell(p, 0, q - 2);
    SpellSplit(p, 0, q - 2, |p|);
    assert p[q - 2] == '*' && p[q - 1] == '*';
    assert Spell(p, q, |p|) == "" && Spell(p, q - 1, |p|) == "" && Spell(p, q - 2, |p|) == "";
    assert Spell(p, 0, |p|) == head;
    if SkippedSlashes(p, 0) == 1 {
      t := head + "/";
      assert t[0..] == t;
      var star, mi := WalkTo(p, t, q - 2, "/", 0, 0, None, 0);
      assert Run(p, t, q - 2, |t| - 1, star, mi) == Run(p, t, |p|, |t| - 1, Some((q - 2) as nat), |t| - 1);
      assert !Run(p, t, q - 1, |t|, Some((q - 2) as nat), |t|);
      SpelledWithSlash(p, t, 0, 0);
    } else {
      t := head + "a/";
      assert t[0..] == t;
      var star, mi := WalkTo(p, t, q - 2, "a/", 0, 0, None, 0);
      AcceptAfterRetry(p, t, q, star, mi);
      SpellSlashes(p, 0);
      SkippedCounted(p, 0, q);
      SlashesAppend(head, "a/", 0);
      assert Slashes("a/", 1) == 1 && Slashes("a/", 0) == 1;
      if MatchAt(p, t, 0, 0) {
        MatchKeepsSlashes(p, t, 0, 0);
      }
    }
  }

  lemma AcceptAfterRetry(p: string, t: string, q: nat, star: Option<nat>, mi: nat)
    requires 2 <= q && q + 1 == |p| && p[q - 2] == '*' && p[q - 1] == '*' && p[q] == '/'
    requires |t| >= 2 && t[|t| - 1] == '/' && Placed(p, t, q - 2, |t| - 2, star, mi)
    ensures Run(p, t, q - 2, |t| - 2, star, mi)
  {
    var s, n: nat := q - 2, |t|;
    assert Run(p, t, |p|, n, Some(s + 1), n - 1);
    assert Run(p, t, q, n - 1, Some(s + 1), n - 1);
    assert Run(p, t, s + 1, n - 1, Some(s), n - 1);
    assert Run(p, t, |p|, n - 2, Some(s), n - 2);
  }

  // With one skipped slash, the last character, the spelling with it matches.
  lemma {:induction false} SpelledWithSlash(p: string, t: string, i: nat, j: nat)
    requires i < |p| && p[|p| - 1] == '/' && SkippedSlashes(p, i) == 1 && SkippedSlash(p, |p| - 1)
    requires j <= |t| && t[j..] == Spell(p, i, |p|) + "/"
    ensures MatchAt(p, t, i, j)
    decreases |p| - i
  {
    if i == |p| - 1 {
      assert Spell(p, i, |p|) == "";
      assert t[j] == t[j..][0] && j + 1 == |t|;
    } else {
      if SkippedSlash(p, i) {
        SkippedCounted(p, i + 1, |p| - 1);
      }
      var n := if p[i] == '*' then 0 else 1;
      assert t[j + n..] == t[j..][n..];
      assert n == 1 ==> t[j] == t[j..][0];
      SpelledWithSlash(p, t, i + 1, j + n);
    }
  }
}
