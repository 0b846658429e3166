/** The glob matcher: a two-pointer loop that backtracks only to the last star. */
module Glob {
  import opened Wrappers

  // The language, as the code and not its comment has it: `*` also matches separators,
  // and a slash right after a pair of stars is skipped.

  // A run of stars matches any string, `?` any one character.
  predicate PieceFits(c: char, piece: string) {
    c == '*' || (|piece| == 1 && (c == '?' || piece[0] == c))
  }

  function Concat(pieces: seq<string>): string {
    if pieces == [] then "" else pieces[0] + Concat(pieces[1..])
  }

  ghost predicate Splits(pattern: string, text: string, pieces: seq<string>) {
    && |pieces| == |pattern| && Concat(pieces) == text
    && forall i :: 0 <= i < |pattern| ==> PieceFits(pattern[i], pieces[i])
  }

  // The text is a concatenation of one fitting piece per pattern character.
  ghost predicate InLanguage(pattern: string, text: string) {
    exists pieces :: Splits(pattern, text, pieces)
  }

  // Whether text from j is in the language of pattern from i.
  predicate MatchAt(p: string, t: string, i: nat, j: nat)
    requires i <= |p| && j <= |t|
    decreases |p| - i + |t| - j
  {
    if i == |p| then j == |t|
    else if p[i] == '*' then MatchAt(p, t, i + 1, j) || (j < |t| && MatchAt(p, t, i, j + 1))
    else j < |t| && (p[i] == '?' || p[i] == t[j]) && MatchAt(p, t, i + 1, j + 1)
  }

  lemma ConcatCons(x: string, pieces: seq<string>)
    ensures Concat([x] + pieces) == x + Concat(pieces)
  {
    assert ([x] + pieces)[1..] == pieces;
  }

  lemma SplitsCons(c: char, piece: string, p: string, t: string, pieces: seq<string>)
    requires Splits(p, t, pieces) && PieceFits(c, piece)
    ensures Splits([c] + p, piece + t, [piece] + pieces)
  {
    ConcatCons(piece, pieces);
  }

  lemma {:induction false} MatchSplits(p: string, t: string, i: nat, j: nat)
    requires i <= |p| && j <= |t| && MatchAt(p, t, i, j)
    ensures InLanguage(p[i..], t[j..])
    decreases |p| - i + |t| - j
  {
    if i == |p| {
      assert Splits(p[i..], t[j..], []);
    } else {
      assert p[i..] == [p[i]] + p[i + 1..];
      if p[i] == '*' && !MatchAt(p, t, i + 1, j) {
        MatchSplits(p, t, i, j + 1);
        var pieces :| Splits(p[i..], t[j + 1..], pieces);
        var rest := pieces[1..];
        assert pieces == [pieces[0]] + rest;
        assert t[j..] == [t[j]] + t[j + 1..];
        assert Splits(p[i..], t[j..], [[t[j]] + pieces[0]] + rest) by {
          ConcatCons([t[j]] + pieces[0], rest);
          ConcatCons(pieces[0], rest);
        }
      } else {
        var n := if p[i] == '*' then 0 else 1;
        MatchSplits(p, t, i + 1, j + n);
        var pieces :| Splits(p[i + 1..], t[j + n..], pieces);
        SplitsCons(p[i], t[j..j + n], p[i + 1..], t[j + n..], pieces);
        assert t[j..] == t[j..j + n] + t[j + n..];
      }
    }
  }

  lemma {:induction false} SplitsMatch(p: string, t: string, i: nat, j: nat, pieces: seq<string>)
    requires i <= |p| && j <= |t| && Splits(p[i..], t[j..], pieces)
    ensures MatchAt(p, t, i, j)
    decreases |p| - i + |t| - j
  {
    if i < |p| {
      var x, rest := pieces[0], pieces[1..];
      assert pieces == [x] + rest && p[i..] == [p[i]] + p[i + 1..];
      assert t[j..] == x + Concat(rest);
      if p[i] == '*' && x != "" {
        assert t[j] == x[0] && t[j + 1..] == x[1..] + Concat(rest);
        ConcatCons(x[1..], rest);
        assert Splits(p[i..], t[j + 1..], [x[1..]] + rest);
        SplitsMatch(p, t, i, j + 1, [x[1..]] + rest);
      } else {
        assert PieceFits(p[i], x);
        assert t[j + |x|..] == t[j..][|x|..] == Concat(rest);
        assert Splits(p[i + 1..], t[j + |x|..], rest);
        SplitsMatch(p, t, i + 1, j + |x|, rest);
        assert x != "" ==> t[j] == x[0];
      }
    }
  }

  lemma MatchIsLanguage(p: string, t: string)
    ensures MatchAt(p, t, 0, 0) <==> InLanguage(p, t)
  {
    assert p[0..] == p && t[0..] == t;
    if MatchAt(p, t, 0, 0) {
      MatchSplits(p, t, 0, 0);
    }
    if InLanguage(p, t) {
      var pieces :| Splits(p, t, pieces);
      SplitsMatch(p, t, 0, 0, pieces);
    }
  }

  predicate OnlyStars(p: string, i: nat)
    requires i <= |p|
  {
    forall k :: i <= k < |p| ==> p[k] == '*'
  }

  ghost predicate Placed(p: string, t: string, pi: nat, ti: nat, star: Option<nat>, mi: nat) {
    && pi <= |p| && mi <= ti <= |t|
    && (star.Some? ==> star.value < pi && p[star.value] == '*')
  }

  ghost function Tried(star: Option<nat>): nat {
    if star.Some? then star.value + 1 else 0
  }

  // The result of the matching loop from a given state.
  ghost function Run(p: string, t: string, pi: nat, ti: nat, star: Option<nat>, mi: nat): bool
    requires Placed(p, t, pi, ti, star, mi)
    decreases |p| - Tried(star), |t| - mi, |t| - ti
  {
    if ti == |t| then OnlyStars(p, pi)
    else if pi + 1 < |p| && p[pi] == '*' && p[pi + 1] == '*' then
      pi + 2 == |p| || Run(p, t, if p[pi + 2] == '/' then pi + 3 else pi + 2, ti, Some(pi), ti)
    else if pi < |p| && p[pi] == '*' then Run(p, t, pi + 1, ti, Some(pi), ti)
    else if pi < |p| && (p[pi] == '?' || p[pi] == t[ti]) then Run(p, t, pi + 1, ti + 1, star, mi)
    else star.Some? && Run(p, t, star.value + 1, mi + 1, star, mi + 1)
  }

  ghost predicate Accepts(p: string, t: string) {
    Run(p, t, 0, 0, None, 0)
  }

  // How many stars stand directly before position i.
  function StarsBefore(p: string, i: nat): nat
    requires i <= |p|
  {
    if i == 0 || p[i - 1] != '*' then 0 else 1 + StarsBefore(p, i - 1)
  }

  // A slash that follows an even, nonzero number of stars: the loop skips it.
  predicate SkippedSlash(p: string, i: nat) {
    i < |p| && p[i] == '/' && StarsBefore(p, i) > 0 && StarsBefore(p, i) % 2 == 0
  }

  predicate NoSkippedSlash(p: string) {
    forall i :: 0 <= i < |p| ==> !SkippedSlash(p, i)
  }

  // Patterns without the substring of two stars and a slash have no skipped slash.
  lemma NoStarStarSlash(p: string)
    requires forall i :: 2 <= i < |p| ==> !(p[i - 2] == '*' && p[i - 1] == '*' && p[i] == '/')
    ensures NoSkippedSlash(p)
  {
    forall i | 0 <= i < |p|
      ensures !SkippedSlash(p, i)
    {
      if StarsBefore(p, i) >= 2 {
        assert StarsBefore(p, i - 1) >= 1;
        assert p[i - 2] == '*' && p[i - 1] == '*';
      }
    }
  }

  // Some suffix of the text from j on is in the language of the pattern from i.
  ghost predicate MatchesLater(p: string, t: string, i: nat, j: nat)
    requires i <= |p|
  {
    exists m :: j <= m <= |t| && MatchAt(p, t, i, m)
  }

  lemma {:induction false} StarMeaning(p: string, t: string, i: nat, j: nat)
    requires i < |p| && p[i] == '*' && j <= |t|
    ensures MatchAt(p, t, i, j) <==> MatchesLater(p, t, i + 1, j)
    decreases |t| - j
  {
    if j < |t| {
      StarMeaning(p, t, i, j + 1);
    }
  }

  // A star that matches from a later position matches from an earlier one.
  lemma StarAbsorbs(p: string, t: string, i: nat, j: nat)
    requires i < |p| && p[i] == '*' && j <= |t| && MatchesLater(p, t, i, j)
    ensures MatchAt(p, t, i, j)
  {
    var m :| j <= m <= |t| && MatchAt(p, t, i, m);
    StarMeaning(p, t, i, m);
    StarMeaning(p, t, i, j);
  }

  lemma {:induction false} OnlyStarsMatch(p: string, t: string, i: nat)
    requires i <= |p|
    ensures MatchAt(p, t, i, |t|) <==> OnlyStars(p, i)
    decreases |p| - i
  {
    if i < |p| {
      OnlyStarsMatch(p, t, i + 1);
    }
  }

  lemma {:induction false} StarsMatchAll(p: string, t: string, i: nat, j: nat)
    requires i <= |p| && j <= |t| && OnlyStars(p, i) && (i < |p| || j == |t|)
    ensures MatchAt(p, t, i, j)
    decreases |p| - i + |t| - j
  {
    if j == |t| {
      OnlyStarsMatch(p, t, i);
    } else {
      StarsMatchAll(p, t, i, j + 1);
    }
  }

  // Pairs of stars are entered at even offsets within their run.
  ghost predicate PairAligned(p: string, pi: nat)
    requires pi <= |p|
  {
    pi + 1 < |p| && p[pi] == '*' && p[pi + 1] == '*' ==> StarsBefore(p, pi) % 2 == 0
  }

  // Whatever the last star could still absorb, the present state can match later: it
  // is why alternatives at earlier stars may be dropped.
  ghost predicate LastStarCovers(p: string, t: string, pi: nat, ti: nat, star: Option<nat>, mi: nat)
    requires Placed(p, t, pi, ti, star, mi)
  {
    star.Some? ==>
      && (star.value + 2 < |p| && p[star.value + 1] == '*' && p[star.value + 2] == '*' ==> pi == star.value + 2)
      && forall j :: mi <= j <= |t| && MatchAt(p, t, star.value, j) ==> MatchesLater(p, t, pi, ti)
  }

  // From any state the loop reaches, it accepts exactly when the rest matches here or
  // the last star can absorb one more character.
  lemma {:induction false} RunExact(p: string, t: string, pi: nat, ti: nat, star: Option<nat>, mi: nat)
    requires NoSkippedSlash(p) && Placed(p, t, pi, ti, star, mi)
    requires PairAligned(p, pi) && LastStarCovers(p, t, pi, ti, star, mi)
    ensures Run(p, t, pi, ti, star, mi) <==>
              MatchAt(p, t, pi, ti) || (star.Some? && mi < |t| && MatchAt(p, t, star.value, mi + 1))
    decreases |p| - Tried(star), |t| - mi, |t| - ti
  {
    if ti == |t| {
      OnlyStarsMatch(p, t, pi);
    } else if pi < |p| && p[pi] == '*' {
      RunExactAtStar(p, t, pi, ti, star, mi);
    } else if pi < |p| && (p[pi] == '?' || p[pi] == t[ti]) {
      if star.Some? {
        forall j | mi <= j <= |t| && MatchAt(p, t, star.value, j)
          ensures MatchesLater(p, t, pi + 1, ti + 1)
        {
          var m :| ti <= m <= |t| && MatchAt(p, t, pi, m);
          assert MatchAt(p, t, pi + 1, m + 1);
        }
      }
      RunExact(p, t, pi + 1, ti + 1, star, mi);
    } else if star.Some? {
      var s := star.value;
      forall j | mi + 1 <= j <= |t| && MatchAt(p, t, s, j)
        ensures MatchesLater(p, t, s + 1, mi + 1)
      {
        StarMeaning(p, t, s, j);
      }
      RunExact(p, t, s + 1, mi + 1, star, mi + 1);
    }
  }

  lemma {:induction false} RunExactAtStar(p: string, t: string, pi: nat, ti: nat, star: Option<nat>, mi: nat)
    requires NoSkippedSlash(p) && Placed(p, t, pi, ti, star, mi)
    requires PairAligned(p, pi) && LastStarCovers(p, t, pi, ti, star, mi)
    requires ti < |t| && pi < |p| && p[pi] == '*'
    ensures Run(p, t, pi, ti, star, mi) <==>
              MatchAt(p, t, pi, ti) || (star.Some? && mi < |t| && MatchAt(p, t, star.value, mi + 1))
    decreases |p| - Tried(star), |t| - mi, |t| - ti, 0
  {
    if star.Some? && mi < |t| && MatchAt(p, t, star.value, mi + 1) {
      StarAbsorbs(p, t, pi, ti);
    }
    var two := pi + 1 < |p| && p[pi + 1] == '*';
    if two && pi + 2 == |p| {
      StarsMatchAll(p, t, pi, ti);
    } else {
      var next := if two then pi + 2 else pi + 1;
      assert two ==> !SkippedSlash(p, pi + 2) && StarsBefore(p, pi + 2) == 2 + StarsBefore(p, pi);
      forall j | ti <= j <= |t| && MatchAt(p, t, pi, j)
        ensures MatchesLater(p, t, next, ti)
      {
        StarMeaning(p, t, pi, j);
        if two {
          var m :| j <= m <= |t| && MatchAt(p, t, pi + 1, m);
          StarMeaning(p, t, pi + 1, m);
        }
      }
      RunExact(p, t, next, ti, Some(pi), ti);
      StarMeaning(p, t, pi, ti);
      if two && MatchAt(p, t, pi + 1, ti) && !MatchAt(p, t, pi + 2, ti) {
        StarMeaning(p, t, pi, ti + 1);
        StarMeaning(p, t, pi + 1, ti + 1);
      }
    }
  }

  // The matcher decides the language on every pattern without a skipped slash.
  lemma AcceptsLanguage(p: string, t: string)
    requires NoSkippedSlash(p)
    ensures Accepts(p, t) <==> InLanguage(p, t)
  {
    RunExact(p, t, 0, 0, None, 0);
    MatchIsLanguage(p, t);
  }

  method GlobMatch(pattern: string, text: string) returns (b: bool)
    ensures b <==> Accepts(pattern, text)
    ensures NoSkippedSlash(pattern) ==> (b <==> InLanguage(pattern, text))
  {
    if NoSkippedSlash(pattern) {
      AcceptsLanguage(pattern, text);
    }
    var pi: nat, ti: nat := 0, 0;
    var starIdx: Option<nat> := None;
    var matchIdx: nat := 0;
    while ti < |text|
      invariant Placed(pattern, text, pi, ti, starIdx, matchIdx)
      invariant Accepts(pattern, text) <==> Run(pattern, text, pi, ti, starIdx, matchIdx)
      decreases |pattern| - Tried(starIdx), |text| - matchIdx, |text| - ti
    {
      if pi + 1 < |pattern| && pattern[pi] == '*' && pattern[pi + 1] == '*' {
        starIdx := Some(pi);
        matchIdx := ti;
        pi := pi + 2;
        if pi >= |pattern| {
          return true;
        }
        if pi < |pattern| && pattern[pi] == '/' {
          pi := pi + 1;
        }
      } else if pi < |pattern| && pattern[pi] == '*' {
        starIdx := Some(pi);
        matchIdx := ti;
        pi := pi + 1;
      } else if pi < |pattern| && (pattern[pi] == '?' || pattern[pi] == text[ti]) {
        pi := pi + 1;
        ti := ti + 1;
      } else if starIdx.Some? {
        pi := starIdx.value + 1;
        matchIdx := matchIdx + 1;
        ti := matchIdx;
      } else {
        return false;
      }
    }
    ghost var rest := pi;
    while pi < |pattern| && pattern[pi] == '*'
      invariant rest <= pi <= |pattern|
      invariant forall k :: rest <= k < pi ==> pattern[k] == '*'
    {
      pi := pi + 1;
    }
    b := pi == |pattern|;
  }
}
