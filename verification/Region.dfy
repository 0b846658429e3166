/** The first-fit allocator of a memory region. */
module Region {
  import opened Wrappers
  import opened Bits
  import opened Products

  type Usize = n: nat | n < TWO_64

  datatype Block = Block(offset: nat, size: nat) {
    function End(): nat {
      offset + size
    }
  }

  // Overflow stands for a 64-bit operation leaving its range: a panic in a debug
  // build, a wrapped value in a release build.
  datatype Error = InvalidAlignment | RegionFull | DeallocateError | Overflow

  function IsPowerOfTwo(n: nat): bool {
    n == 1 || (n > 0 && n % 2 == 0 && IsPowerOfTwo(n / 2))
  }

  lemma {:induction false} Exponent(n: nat) returns (k: nat)
    requires IsPowerOfTwo(n)
    ensures n == Pow2(k)
  {
    if n == 1 {
      k := 0;
    } else {
      k := Exponent(n / 2);
      k := k + 1;
    }
  }

  lemma {:induction false} PowerOfTwo(k: nat)
    ensures IsPowerOfTwo(Pow2(k))
  {
    if k > 0 {
      PowerOfTwo(k - 1);
    }
  }

  lemma PowerOfTwoExactly(n: nat)
    ensures IsPowerOfTwo(n) <==> exists k: nat :: n == Pow2(k)
  {
    if IsPowerOfTwo(n) {
      var k := Exponent(n);
    } else if k: nat :| n == Pow2(k) {
      PowerOfTwo(k);
    }
  }

  // Multiples of a, counted up from zero.
  ghost predicate Aligned(o: nat, a: nat)
    requires a > 0
  {
    o == 0 || (o >= a && Aligned(o - a, a))
  }

  lemma {:induction false} AlignedIsMultiple(o: nat, a: nat)
    requires a > 0
    ensures Aligned(o, a) <==> o % a == 0
    decreases o
  {
    if o >= a {
      AlignedIsMultiple(o - a, a);
      Quotient(o - a, a);
      var q := (o - a) / a;
      Distribute(q, 1, a);
      assert o == (q + 1) * a + (o - a) % a;
      RemainderUnique(o, a, q + 1, (o - a) % a);
    } else {
      RemainderUnique(o, a, 0, o);
    }
  }

  // (addr + alignment - 1) & !(alignment - 1) on 64-bit words.
  function AlignUp(addr: nat, alignment: nat): nat
    requires 0 < alignment <= TWO_64
  {
    And(addr + alignment - 1, TWO_64 - alignment)
  }

  lemma Pow64()
    ensures Pow2(64) == TWO_64
  {
    Pow32();
    Pow2Add(32, 32);
  }

  // The least multiple not below an address.
  ghost function Ceiling(addr: nat, a: nat): nat
    requires a > 0
  {
    (addr + a - 1) / a * a
  }

  lemma {:induction false} MultipleAligned(q: nat, a: nat)
    requires a > 0
    ensures Aligned(q * a, a)
  {
    if q > 0 {
      MultipleAligned(q - 1, a);
      Distribute(q - 1, 1, a);
    }
  }

  lemma CeilingBounds(addr: nat, a: nat)
    requires a > 0
    ensures addr <= Ceiling(addr, a) < addr + a && Aligned(Ceiling(addr, a), a)
  {
    Quotient(addr + a - 1, a);
    MultipleAligned((addr + a - 1) / a, a);
  }

  lemma CeilingLeast(addr: nat, a: nat, m: nat)
    requires a > 0 && Aligned(m, a) && m >= addr
    ensures m >= Ceiling(addr, a)
  {
    var x := addr + a - 1;
    var c, q := m / a, x / a;
    AlignedIsMultiple(m, a);
    Quotient(m, a);
    Quotient(x, a);
    if c < q {
      NoMore(c + 1, q, a);
      Distribute(c, 1, a);
    } else {
      NoMore(q, c, a);
    }
  }

  // Without overflow, the result is the least multiple not below the address.
  lemma AlignUpLeast(addr: nat, alignment: nat)
    requires IsPowerOfTwo(alignment) && addr + alignment <= TWO_64
    ensures Aligned(AlignUp(addr, alignment), alignment)
    ensures addr <= AlignUp(addr, alignment) < addr + alignment
    ensures forall m: nat :: Aligned(m, alignment) && m >= addr ==> m >= AlignUp(addr, alignment)
  {
    AlignUpValue(addr, alignment);
    CeilingBounds(addr, alignment);
    forall m: nat | Aligned(m, alignment) && m >= addr
      ensures m >= Ceiling(addr, alignment)
    {
      CeilingLeast(addr, alignment, m);
    }
  }

  lemma AlignUpValue(addr: nat, a: nat)
    requires IsPowerOfTwo(a) && addr + a <= TWO_64
    ensures AlignUp(addr, a) == Ceiling(addr, a)
  {
    Pow64();
    MaskedCeiling(addr, a, 64);
  }

  lemma MaskedCeiling(addr: nat, a: nat, n: nat)
    requires IsPowerOfTwo(a) && addr + a <= Pow2(n)
    ensures And(addr + a - 1, Pow2(n) - a) == Ceiling(addr, a)
  {
    var k := Exponent(a);
    if k > n {
      Pow2Grows(n + 1, k);
    }
    MaskedQuotient(addr + a - 1, k, n);
  }

  lemma MaskedQuotient(x: nat, k: nat, n: nat)
    requires k <= n && x < Pow2(n)
    ensures And(x, HighMask(n, k)) == x / Pow2(k) * Pow2(k)
  {
    Quotient(x, Pow2(k));
    AndHighBits(x / Pow2(k), x % Pow2(k), k, n);
  }

  // The position is aligned, inside the region and clear of every block.
  ghost predicate Fits(blocks: multiset<Block>, limit: nat, a: nat, o: nat, n: nat)
    requires a > 0
  {
    Aligned(o, a) && o + n <= limit && forall b :: b in blocks ==> Apart(Block(o, n), b)
  }

  ghost predicate Apart(b: Block, c: Block) {
    b.offset + b.size <= c.offset || c.offset + c.size <= b.offset
  }

  // Live blocks are nonempty, inside the region and pairwise apart.
  ghost predicate Tidy(blocks: multiset<Block>, limit: nat) {
    && (forall b :: b in blocks ==> b.size > 0 && b.offset + b.size <= limit && blocks[b] == 1)
    && forall b, c :: b in blocks && c in blocks && b != c ==> Apart(b, c)
  }

  // And they start at multiples of a.
  ghost predicate Orderly(blocks: multiset<Block>, limit: nat, a: nat)
    requires a > 0
  {
    Tidy(blocks, limit) && forall b :: b in blocks ==> Aligned(b.offset, a)
  }

  // An alignment the whole region shares.
  ghost predicate Common(a: nat, limit: nat) {
    IsPowerOfTwo(a) && 0 < a < TWO_64 && limit < TWO_64 && Aligned(limit, a)
  }

  function Total(blocks: seq<Block>): nat {
    if blocks == [] then 0 else Total(blocks[..|blocks| - 1]) + blocks[|blocks| - 1].size
  }

  ghost predicate SortedByOffset(blocks: seq<Block>) {
    forall i, j :: 0 <= i < j < |blocks| ==> blocks[i].offset <= blocks[j].offset
  }

  // Stable insertion: the new block goes behind those with the same offset.
  function InsertByOffset(sorted: seq<Block>, b: Block): seq<Block> {
    if sorted == [] || sorted[|sorted| - 1].offset <= b.offset then sorted + [b]
    else InsertByOffset(sorted[..|sorted| - 1], b) + [sorted[|sorted| - 1]]
  }

  function SortByOffset(blocks: seq<Block>): seq<Block> {
    if blocks == [] then []
    else InsertByOffset(SortByOffset(blocks[..|blocks| - 1]), blocks[|blocks| - 1])
  }

  lemma {:induction false} InsertContents(sorted: seq<Block>, b: Block)
    ensures multiset(InsertByOffset(sorted, b)) == multiset(sorted) + multiset{b}
    ensures Total(InsertByOffset(sorted, b)) == Total(sorted) + b.size
  {
    if sorted == [] || sorted[|sorted| - 1].offset <= b.offset {
      assert (sorted + [b])[..|sorted|] == sorted;
    } else {
      var init, last := sorted[..|sorted| - 1], sorted[|sorted| - 1];
      InsertContents(init, b);
      assert sorted == init + [last];
      var r := InsertByOffset(init, b);
      assert (r + [last])[..|r|] == r;
    }
  }

  lemma {:induction false} InsertBounded(sorted: seq<Block>, b: Block, high: nat)
    requires b.offset <= high && forall i :: 0 <= i < |sorted| ==> sorted[i].offset <= high
    ensures forall i :: 0 <= i < |InsertByOffset(sorted, b)| ==> InsertByOffset(sorted, b)[i].offset <= high
  {
    if sorted != [] {
      InsertBounded(sorted[..|sorted| - 1], b, high);
    }
  }

  lemma {:induction false} InsertSorted(sorted: seq<Block>, b: Block)
    requires SortedByOffset(sorted)
    ensures SortedByOffset(InsertByOffset(sorted, b))
  {
    if sorted != [] && sorted[|sorted| - 1].offset > b.offset {
      var init, last := sorted[..|sorted| - 1], sorted[|sorted| - 1];
      InsertSorted(init, b);
      InsertBounded(init, b, last.offset);
    }
  }

  lemma {:induction false} SortsOrder(blocks: seq<Block>)
    ensures SortedByOffset(SortByOffset(blocks))
  {
    if blocks != [] {
      SortsOrder(blocks[..|blocks| - 1]);
      InsertSorted(SortByOffset(blocks[..|blocks| - 1]), blocks[|blocks| - 1]);
    }
  }

  lemma WithLast(blocks: seq<Block>)
    requires blocks != []
    ensures multiset(blocks) == multiset(blocks[..|blocks| - 1]) + multiset{blocks[|blocks| - 1]}
  {
    assert blocks == blocks[..|blocks| - 1] + [blocks[|blocks| - 1]];
  }

  lemma {:induction false} SortsContents(blocks: seq<Block>)
    ensures multiset(SortByOffset(blocks)) == multiset(blocks)
    ensures Total(SortByOffset(blocks)) == Total(blocks)
  {
    if blocks != [] {
      SortsContents(blocks[..|blocks| - 1]);
      InsertContents(SortByOffset(blocks[..|blocks| - 1]), blocks[|blocks| - 1]);
      WithLast(blocks);
    }
  }

  lemma Sorts(blocks: seq<Block>)
    ensures SortedByOffset(SortByOffset(blocks)) && multiset(SortByOffset(blocks)) == multiset(blocks)
    ensures Total(SortByOffset(blocks)) == Total(blocks)
  {
    SortsOrder(blocks);
    SortsContents(blocks);
  }

  datatype Search = Found(offset: nat) | Full | OutOfRange

  // The gap between the current position and a boundary, if the request fits there.
  function TryGap(current: nat, boundary: nat, a: nat, n: nat): Search
    requires 0 < a <= TWO_64
  {
    if current + a > TWO_64 then OutOfRange
    else
      var aligned := AlignUp(current, a);
      if boundary < aligned then OutOfRange
      else if boundary - aligned >= n then Found(aligned) else Full
  }

  // First fit over sorted blocks.
  function FirstFit(sorted: seq<Block>, current: nat, limit: nat, a: nat, n: nat): Search
    requires 0 < a <= TWO_64
  {
    if sorted == [] then TryGap(current, limit, a, n)
    else
      var gap := TryGap(current, sorted[0].offset, a, n);
      if gap == Full then FirstFit(sorted[1..], sorted[0].End(), limit, a, n) else gap
  }

  ghost predicate Power(a: nat) {
    IsPowerOfTwo(a) && 0 < a <= TWO_64
  }

  // Every gap, aligned up, starts no later than it ends.
  ghost predicate GapsOpen(sorted: seq<Block>, current: nat, limit: nat, a: nat)
    requires 0 < a <= TWO_64
  {
    if sorted == [] then current + a <= TWO_64 && AlignUp(current, a) <= limit
    else
      && current + a <= TWO_64 && AlignUp(current, a) <= sorted[0].offset
      && GapsOpen(sorted[1..], sorted[0].End(), limit, a)
  }

  lemma PowerFitsWord(a: nat, limit: nat)
    requires Common(a, limit)
    ensures limit + a <= TWO_64
  {
    var k := Exponent(a);
    Pow64();
    if k >= 64 {
      Pow2Grows(64, k);
    }
    var c, p := limit / a, Pow2(64 - k);
    Pow2Add(64 - k, k);
    AlignedIsMultiple(limit, a);
    Quotient(limit, a);
    StrictProduct(c, p, a);
    NoMore(c + 1, p, a);
    Distribute(c, 1, a);
  }

  lemma {:induction false} TotalSplit(s: seq<Block>, i: nat)
    requires i < |s|
    ensures Total(s) == Total(s[..i] + s[i + 1..]) + s[i].size
  {
    var n := |s| - 1;
    if i == n {
      assert s[..i] + s[i + 1..] == s[..n];
    } else {
      TotalSplit(s[..n], i);
      var t := s[..i] + s[i + 1..];
      assert t[..|t| - 1] == s[..n][..i] + s[..n][i + 1..] && t[|t| - 1] == s[n];
    }
  }

  // The answer a first-fit search owes: the least position that fits, or none does.
  ghost predicate RightAnswer(blocks: multiset<Block>, limit: nat, a: nat, n: nat, r: Search)
    requires a > 0
  {
    match r
    case Found(o) =>
      Fits(blocks, limit, a, o, n) && forall o': nat :: Fits(blocks, limit, a, o', n) ==> o' >= o
    case Full => forall o: nat :: !Fits(blocks, limit, a, o, n)
    case OutOfRange => false
  }

  // Where the search stands: blocks already passed end before `current`, the others
  // start after it, and nothing before it fits.
  ghost predicate Searching(sorted: seq<Block>, all: multiset<Block>, current: nat, limit: nat, a: nat, n: nat)
    requires a > 0
  {
    && current <= limit && SortedByOffset(sorted) && multiset(sorted) <= all
    && (forall b :: b in sorted ==> current <= b.offset)
    && (forall b :: b in all && b !in sorted ==> b.End() <= current)
    && (forall o: nat :: Fits(all, limit, a, o, n) ==> o >= current)
  }

  lemma {:induction false} FirstFitIsFirst(sorted: seq<Block>, all: multiset<Block>, current: nat, limit: nat,
                                           a: nat, n: nat)
    requires Power(a) && n > 0 && Tidy(all, limit) && Searching(sorted, all, current, limit, a, n)
    requires FirstFit(sorted, current, limit, a, n) != OutOfRange
    ensures RightAnswer(all, limit, a, n, FirstFit(sorted, current, limit, a, n))
  {
    if sorted == [] {
      GapFacts(current, limit, a, n);
    } else if TryGap(current, sorted[0].offset, a, n) == Full {
      Advance(sorted, all, current, limit, a, n);
      FirstFitIsFirst(sorted[1..], all, sorted[0].End(), limit, a, n);
    } else {
      GapFits(sorted, all, current, limit, a, n);
    }
  }

  // Moving past a block whose gap is too small.
  lemma Advance(sorted: seq<Block>, all: multiset<Block>, current: nat, limit: nat, a: nat, n: nat)
    requires Power(a) && n > 0 && Tidy(all, limit) && Searching(sorted, all, current, limit, a, n)
    requires sorted != [] && TryGap(current, sorted[0].offset, a, n) == Full
    ensures Searching(sorted[1..], all, sorted[0].End(), limit, a, n)
  {
    var b, rest := sorted[0], sorted[1..];
    assert sorted == [b] + rest;
    assert forall c :: c in sorted <==> c == b || c in rest;
    SkipBlock(b, rest, all, limit);
    forall o: nat | Fits(all, limit, a, o, n)
      ensures o >= b.End()
    {
      NoFitBefore(b, all, current, limit, a, n, o);
    }
  }

  lemma NoFitBefore(b: Block, all: multiset<Block>, current: nat, limit: nat, a: nat, n: nat, o: nat)
    requires Power(a) && b in all && TryGap(current, b.offset, a, n) == Full
    requires Fits(all, limit, a, o, n) && o >= current
    ensures o >= b.End()
  {
    GapFacts(current, b.offset, a, n);
    assert Apart(Block(o, n), b);
  }

  // A gap that is large enough gives the least position.
  lemma GapFits(sorted: seq<Block>, all: multiset<Block>, current: nat, limit: nat, a: nat, n: nat)
    requires Power(a) && n > 0 && Tidy(all, limit) && Searching(sorted, all, current, limit, a, n)
    requires sorted != [] && TryGap(current, sorted[0].offset, a, n).Found?
    ensures RightAnswer(all, limit, a, n, TryGap(current, sorted[0].offset, a, n))
  {
    assert sorted[0] in multiset(sorted) && sorted[0] in all;
    GapFacts(current, sorted[0].offset, a, n);
    var o := TryGap(current, sorted[0].offset, a, n).offset;
    forall b | b in all
      ensures Apart(Block(o, n), b)
    {
      if b in sorted {
        var i :| 0 <= i < |sorted| && sorted[i] == b;
        assert sorted[0].offset <= b.offset;
      }
    }
  }

  lemma WithFirst(b: Block, rest: seq<Block>)
    ensures multiset([b] + rest) == multiset{b} + multiset(rest)
    ensures SortedByOffset([b] + rest) ==>
              SortedByOffset(rest) && forall i :: 0 <= i < |rest| ==> b.offset <= rest[i].offset
  {
    var sorted := [b] + rest;
    assert sorted[0] == b && forall i :: 0 <= i < |rest| ==> sorted[i + 1] == rest[i];
  }

  lemma SkipBlock(b: Block, rest: seq<Block>, all: multiset<Block>, limit: nat)
    requires Tidy(all, limit) && SortedByOffset([b] + rest) && multiset([b] + rest) <= all
    ensures SortedByOffset(rest) && multiset(rest) <= all && b in all && b !in rest
    ensures forall c :: c in rest ==> c in all && b.End() <= c.offset
  {
    WithFirst(b, rest);
    var others := multiset(rest);
    assert multiset{b} + others <= all;
    assert b in all && all[b] == 1 && b !in others;
    forall c | c in rest
      ensures c in all && b.End() <= c.offset
    {
      assert c in others && c in all;
      assert Apart(b, c);
    }
  }

  // What a gap offers.
  lemma GapFacts(current: nat, boundary: nat, a: nat, n: nat)
    requires Power(a)
    ensures match TryGap(current, boundary, a, n)
            case Found(o) =>
              && Aligned(o, a) && current <= o && o + n <= boundary
              && forall o': nat :: Aligned(o', a) && o' >= current ==> o' >= o
            case Full => current <= boundary && forall o: nat :: Aligned(o, a) && o >= current ==> o + n > boundary
            case OutOfRange => true
  {
    if current + a <= TWO_64 {
      AlignUpLeast(current, a);
    }
  }

  // On tidy blocks, for any power of two as alignment and any region size: unless the
  // search leaves its range, it finds the least place that fits, or there is none.
  lemma FirstFitCorrect(blocks: seq<Block>, limit: nat, a: nat, n: nat)
    requires Power(a) && n > 0 && Tidy(multiset(blocks), limit)
    ensures var r := FirstFit(SortByOffset(blocks), 0, limit, a, n);
      RightAnswer(multiset(blocks), limit, a, n, r) <==> r != OutOfRange
  {
    Sorts(blocks);
    var s := SortByOffset(blocks);
    forall b
      ensures b in s <==> b in multiset(blocks)
    {
      assert b in s <==> b in multiset(s);
    }
    if FirstFit(s, 0, limit, a, n) != OutOfRange {
      FirstFitIsFirst(s, multiset(blocks), 0, limit, a, n);
    }
  }

  // So it is right for every request exactly when every gap is open.
  lemma AlwaysRightExactly(blocks: seq<Block>, limit: Usize, a: nat)
    requires Power(a) && Tidy(multiset(blocks), limit)
    ensures AlwaysRight(blocks, limit, a) <==> GapsOpen(SortByOffset(blocks), 0, limit, a)
  {
    var s := SortByOffset(blocks);
    Sorts(blocks);
    assert forall b :: b in s ==> b in multiset(s);
    forall n: Usize | n > 0
      ensures RightAnswer(multiset(blocks), limit, a, n, FirstFit(s, 0, limit, a, n))
         <==> FirstFit(s, 0, limit, a, n) != OutOfRange
    {
      FirstFitCorrect(blocks, limit, a, n);
    }
    InRangeExactlyWhenOpen(s, limit, a);
  }

  ghost predicate AlwaysRight(blocks: seq<Block>, limit: nat, a: nat)
    requires 0 < a <= TWO_64
  {
    forall n: Usize :: n > 0 ==>
      RightAnswer(multiset(blocks), limit, a, n, FirstFit(SortByOffset(blocks), 0, limit, a, n))
  }

  // Blocks and a region of one alignment leave open gaps.
  lemma {:induction false} OrderlyOpen(sorted: seq<Block>, all: multiset<Block>, current: nat, limit: nat, a: nat)
    requires Common(a, limit) && Orderly(all, limit, a) && SortedByOffset(sorted) && multiset(sorted) <= all
    requires current <= limit && forall b :: b in sorted ==> current <= b.offset
    ensures Power(a) && GapsOpen(sorted, current, limit, a)
  {
    PowerFitsWord(a, limit);
    AlignUpLeast(current, a);
    if sorted != [] {
      var b, rest := sorted[0], sorted[1..];
      assert sorted == [b] + rest;
      SkipBlock(b, rest, all, limit);
      OrderlyOpen(rest, all, b.End(), limit, a);
    }
  }

  lemma CommonOpen(blocks: seq<Block>, limit: nat, a: nat)
    requires Common(a, limit) && Orderly(multiset(blocks), limit, a)
    ensures Power(a) && GapsOpen(SortByOffset(blocks), 0, limit, a)
  {
    Sorts(blocks);
    OrderlyOpen(SortByOffset(blocks), multiset(blocks), 0, limit, a);
  }

  lemma AllocateKeeps(blocks: seq<Block>, limit: nat, a: nat, o: nat, n: nat)
    requires a > 0 && n > 0 && Tidy(multiset(blocks), limit) && Fits(multiset(blocks), limit, a, o, n)
    ensures Tidy(multiset(SortByOffset(blocks) + [Block(o, n)]), limit)
    ensures Orderly(multiset(blocks), limit, a) ==> Orderly(multiset(SortByOffset(blocks) + [Block(o, n)]), limit, a)
    ensures multiset(SortByOffset(blocks) + [Block(o, n)]) == multiset(blocks) + multiset{Block(o, n)}
    ensures Total(SortByOffset(blocks) + [Block(o, n)]) == Total(blocks) + n
  {
    var s, b := SortByOffset(blocks), Block(o, n);
    Sorts(blocks);
    assert (s + [b])[..|s|] == s;
    TidyPlus(multiset(blocks), limit, a, o, n);
  }

  lemma TidyPlus(all: multiset<Block>, limit: nat, a: nat, o: nat, n: nat)
    requires a > 0 && n > 0 && Tidy(all, limit) && Fits(all, limit, a, o, n)
    ensures Tidy(all + multiset{Block(o, n)}, limit)
  {
    var b := Block(o, n);
    assert b in all ==> Apart(b, b);
    forall c, d | c in all + multiset{b} && d in all + multiset{b} && c != d
      ensures Apart(c, d)
    {
      assert c == b || c in all;
      assert d == b || d in all;
    }
  }

  lemma DeallocateKeeps(blocks: seq<Block>, limit: nat, i: nat)
    requires i < |blocks| && Tidy(multiset(blocks), limit)
    ensures Tidy(multiset(blocks[..i] + blocks[i + 1..]), limit)
    ensures forall a :: a > 0 && Orderly(multiset(blocks), limit, a) ==>
              Orderly(multiset(blocks[..i] + blocks[i + 1..]), limit, a)
  {
    var all, rest := multiset(blocks), multiset(blocks[..i] + blocks[i + 1..]);
    WithoutAt(blocks, i);
    forall b | b in rest
      ensures b in all && rest[b] == 1
    {
    }
  }

  // The bytes from an offset on are inside the region, clear of every block, and the offset
  // is a multiple of both alignments.
  ghost predicate FitsBoth(blocks: multiset<Block>, size: nat, p: nat, q: nat, offset: nat, n: nat)
    requires p > 0 && q > 0
  {
    && offset % p == 0 && offset % q == 0 && offset + n <= size
    && forall b :: b in blocks ==> offset + n <= b.offset || b.offset + b.size <= offset
  }

  // A success takes the least place that fits; a refusal for lack of space means none does.
  ghost predicate LeastPlace(
      blocks: multiset<Block>, base: nat, size: nat, p: nat, q: nat, n: nat, r: Result<nat, Error>)
    requires p > 0 && q > 0
  {
    && (r.Ok? ==>
          && r.value >= base && FitsBoth(blocks, size, p, q, r.value - base, n)
          && forall o: nat :: FitsBoth(blocks, size, p, q, o, n) ==> o >= r.value - base)
    && (r == Err(RegionFull) ==> forall o: nat :: !FitsBoth(blocks, size, p, q, o, n))
  }

  lemma {:induction false} MultipleOfLarger(o: nat, p: nat, q: nat)
    requires IsPowerOfTwo(p) && IsPowerOfTwo(q) && p <= q && o % q == 0
    ensures o % p == 0
  {
    var i := Exponent(p);
    var j := Exponent(q);
    if i > j {
      Pow2Grows(j + 1, i);
    }
    Pow2Add(j - i, i);
    var k, m := Pow2(j - i), o / q;
    Quotient(o, q);
    Regroup(m, k, p);
    RemainderUnique(o, p, m * k, 0);
  }

  // Being a multiple of the larger of two powers of two is being a multiple of both.
  lemma FitsBothExactly(blocks: multiset<Block>, size: nat, p: nat, q: nat, offset: nat, n: nat)
    requires IsPowerOfTwo(p) && IsPowerOfTwo(q)
    ensures FitsBoth(blocks, size, p, q, offset, n) <==> Fits(blocks, size, if p >= q then p else q, offset, n)
  {
    var a := if p >= q then p else q;
    AlignedIsMultiple(offset, a);
    if offset % a == 0 {
      MultipleOfLarger(offset, if p >= q then q else p, a);
    }
  }

  lemma RightIsLeast(
      blocks: multiset<Block>, base: nat, size: nat, p: nat, q: nat, n: nat, r: Result<nat, Error>)
    requires IsPowerOfTwo(p) && IsPowerOfTwo(q) && (r.Ok? ==> r.value >= base)
    requires r.Ok? || r == Err(RegionFull) ==>
               RightAnswer(blocks, size, if p >= q then p else q, n, AsSearch(r, base))
    ensures LeastPlace(blocks, base, size, p, q, n, r)
  {
    forall o: nat
      ensures FitsBoth(blocks, size, p, q, o, n) <==> Fits(blocks, size, if p >= q then p else q, o, n)
    {
      FitsBothExactly(blocks, size, p, q, o, n);
    }
  }

  // A region in order: `used` is the total of its blocks.
  ghost predicate Kept(base: nat, size: nat, blocks: seq<Block>, used: nat) {
    base + size <= TWO_64 && Tidy(multiset(blocks), size) && used == Total(blocks)
  }

  // All blocks and the region have the alignment a.
  ghost predicate Uniform(size: nat, blocks: seq<Block>, a: nat) {
    Common(a, size) && Orderly(multiset(blocks), size, a)
  }

  // The address an allocation returns for what the search found.
  function Answer(found: Search, base: nat): Result<nat, Error> {
    match found
    case OutOfRange => Err(Overflow)
    case Full => Err(RegionFull)
    case Found(o) => if base + o >= TWO_64 then Err(Overflow) else Ok(base + o)
  }

  ghost function AsSearch(r: Result<nat, Error>, base: nat): Search {
    match r
    case Ok(addr) => if addr >= base then Found(addr - base) else OutOfRange
    case Err(e) => if e == RegionFull then Full else OutOfRange
  }

  // What an allocation changes: a success adds its block and nothing else, behind the
  // blocks now sorted; a failure at most reorders them.
  ghost predicate Placed(
      base: nat, before: seq<Block>, used: nat, n: nat, r: Result<nat, Error>, after: seq<Block>, used': nat)
  {
    match r
    case Ok(addr) =>
      addr >= base && after == SortByOffset(before) + [Block(addr - base, n)] && used' == used + n
    case Err(_) =>
      after == SortByOffset(before) && used' == used
  }

  // What a release changes: one block of this address and size goes.
  ghost predicate Released(
      base: nat, before: seq<Block>, used: nat, addr: nat, n: nat, after: seq<Block>, used': nat)
  {
    && addr >= base && multiset(after) == multiset(before) - multiset{Block(addr - base, n)}
    && used' == if used >= n then used - n else 0
  }

  function SaturatingSub(x: nat, y: nat): nat {
    if x >= y then x - y else 0
  }

  // Releasing what was just allocated restores the live blocks and their total.
  lemma ReleaseUndoes(
      base: nat, before: seq<Block>, used: nat, n: nat, addr: nat, mid: seq<Block>, used1: nat,
      after: seq<Block>, used2: nat)
    requires Placed(base, before, used, n, Ok(addr), mid, used1)
    requires Released(base, mid, used1, addr, n, after, used2)
    ensures multiset(after) == multiset(before) && used2 == used
  {
    var b := Block(addr - base, n);
    assert multiset(after) == multiset(before) by {
      SortPermutes(before);
      TakenAgain(SortByOffset(before), b, mid, after);
    }
  }

  lemma SortPermutes(blocks: seq<Block>)
    ensures multiset(SortByOffset(blocks)) == multiset(blocks)
  {
    SortsContents(blocks);
  }

  lemma TakenAgain(blocks: seq<Block>, b: Block, mid: seq<Block>, after: seq<Block>)
    requires mid == blocks + [b] && multiset(after) == multiset(mid) - multiset{b}
    ensures multiset(after) == multiset(blocks)
  {
    assert multiset(mid) == multiset(blocks) + multiset{b};
  }

  // The address of a place inside the region does not overflow.
  lemma AddressFits(base: nat, size: nat, blocks: multiset<Block>, a: nat, n: nat, found: Search)
    requires a > 0 && n > 0 && base + size <= TWO_64
    requires found == OutOfRange || RightAnswer(blocks, size, a, n, found)
    ensures found.Found? ==> Answer(found, base) == Ok(base + found.offset)
    ensures AsSearch(Answer(found, base), base) == found
  {
  }

  function WithFound(before: seq<Block>, n: nat, found: Search): seq<Block> {
    SortByOffset(before) + if found.Found? then [Block(found.offset, n)] else []
  }

  lemma PlacedFound(base: nat, before: seq<Block>, used: nat, n: nat, found: Search, after: seq<Block>, used': nat)
    requires Placed(base, before, used, n, Answer(found, base), after, used')
    requires found.Found? ==> Answer(found, base) == Ok(base + found.offset)
    ensures after == WithFound(before, n, found) && used' == used + if found.Found? then n else 0
  {
  }

  // An allocation keeps the region in order, whatever the alignment.
  lemma AllocateKept(base: nat, size: nat, before: seq<Block>, used: nat, a: nat, n: nat, found: Search)
    requires a > 0 && n > 0 && Kept(base, size, before, used)
    requires found == OutOfRange || RightAnswer(multiset(before), size, a, n, found)
    ensures Kept(base, size, WithFound(before, n, found), used + if found.Found? then n else 0)
    ensures Uniform(size, before, a) ==> Uniform(size, WithFound(before, n, found), a)
  {
    Sorts(before);
    if found.Found? {
      AllocateKeeps(before, size, a, found.offset, n);
    } else {
      assert WithFound(before, n, found) == SortByOffset(before);
    }
  }

  // With one common alignment, or whenever all gaps are open, nothing overflows.
  lemma AllocateInRange(size: nat, before: seq<Block>, a: nat, n: nat)
    requires Power(a) && n > 0
    requires Uniform(size, before, a) || GapsOpen(SortByOffset(before), 0, size, a)
    ensures FirstFit(SortByOffset(before), 0, size, a, n) != OutOfRange
  {
    if Uniform(size, before, a) {
      CommonOpen(before, size, a);
    }
    OpenStaysInRange(SortByOffset(before), 0, size, a, n);
  }

  lemma AllocateOutcome(
      base: nat, size: nat, before: seq<Block>, used: nat, a: nat, n: nat, r: Result<nat, Error>,
      after: seq<Block>, used': nat)
    requires Power(a) && n > 0 && Kept(base, size, before, used)
    requires r == Answer(FirstFit(SortByOffset(before), 0, size, a, n), base)
    requires Placed(base, before, used, n, r, after, used')
    ensures Kept(base, size, after, used')
    ensures r != Err(Overflow) ==> RightAnswer(multiset(before), size, a, n, AsSearch(r, base))
    ensures Uniform(size, before, a) || GapsOpen(SortByOffset(before), 0, size, a) ==> r != Err(Overflow)
    ensures Uniform(size, before, a) ==> Uniform(size, after, a)
  {
    var found := FirstFit(SortByOffset(before), 0, size, a, n);
    FirstFitCorrect(before, size, a, n);
    AddressFits(base, size, multiset(before), a, n, found);
    PlacedFound(base, before, used, n, found, after, used');
    AllocateKept(base, size, before, used, a, n, found);
    if Uniform(size, before, a) || GapsOpen(SortByOffset(before), 0, size, a) {
      AllocateInRange(size, before, a, n);
    }
  }

  lemma ReleaseKept(base: nat, size: nat, before: seq<Block>, used: nat, i: nat)
    requires Kept(base, size, before, used) && i < |before|
    ensures Kept(base, size, before[..i] + before[i + 1..], SaturatingSub(used, before[i].size))
    ensures forall a :: a > 0 && Uniform(size, before, a) ==> Uniform(size, before[..i] + before[i + 1..], a)
  {
    TotalSplit(before, i);
    DeallocateKeeps(before, size, i);
  }

  lemma WithoutAt(blocks: seq<Block>, i: nat)
    requires i < |blocks|
    ensures multiset(blocks[..i] + blocks[i + 1..]) == multiset(blocks) - multiset{blocks[i]}
  {
    assert blocks == blocks[..i] + [blocks[i]] + blocks[i + 1..];
  }

  class MemoryRegion {
    var base: Usize
    var size: Usize
    var used: nat
    var alignment: Usize
    var blocks: seq<Block>

    ghost predicate Valid()
      reads this
    {
      IsPowerOfTwo(alignment) && Kept(base, size, blocks, used)
    }

    constructor (n: Usize)
      ensures Valid() && base == 0 && size == n && used == 0 && alignment == 16 && blocks == []
      ensures forall a :: Common(a, n) ==> Uniform(size, blocks, a)
    {
      base, size, used, alignment, blocks := 0, n, 0, 16, [];
      new;
      assert IsPowerOfTwo(16);
    }

    function EffectiveAlignment(requested: Usize): Usize
      reads this
    {
      if requested >= alignment then requested else alignment
    }

    // With blocks in order, a nonempty request gets the least aligned offset at which it fits
    // and is refused exactly when there is none, unless the scan meets a gap that is not open.
    method Allocate(n: Usize, requested: Usize) returns (r: Result<nat, Error>)
      modifies this`blocks, this`used
      ensures r == Err(InvalidAlignment) <==> !IsPowerOfTwo(requested)
      ensures r == Err(InvalidAlignment) ==> blocks == old(blocks) && used == old(used)
      ensures r != Err(InvalidAlignment) ==> Placed(base, old(blocks), old(used), n, r, blocks, used)
      ensures n > 0 && old(Valid()) ==> Valid()
      ensures n > 0 && old(Valid()) && r != Err(InvalidAlignment) && r != Err(Overflow) ==>
                RightAnswer(multiset(old(blocks)), size, EffectiveAlignment(requested), n, AsSearch(r, base))
      ensures n > 0 && old(Valid()) && r != Err(InvalidAlignment) ==>
                LeastPlace(multiset(old(blocks)), base, size, requested, alignment, n, r)
      ensures n > 0 && old(Valid()) && InStep(EffectiveAlignment(requested), old(blocks)) ==> r != Err(Overflow)
      ensures n > 0 && old(Valid()) && Uniform(size, old(blocks), EffectiveAlignment(requested)) ==>
                Uniform(size, blocks, EffectiveAlignment(requested))
    {
      if !IsPowerOfTwo(requested) || requested == 0 {
        return Err(InvalidAlignment);
      }
      var effective := EffectiveAlignment(requested);
      r := AllocateAligned(n, effective);
      if n > 0 && old(Valid()) {
        AllocateOutcome(base, size, old(blocks), old(used), effective, n, r, blocks, used);
        RightIsLeast(multiset(old(blocks)), base, size, requested, alignment, n, r);
      }
    }

    // All blocks share the alignment with the region, or at least all gaps are open.
    ghost predicate InStep(a: Usize, before: seq<Block>)
      reads this
    {
      a > 0 && (Uniform(size, before, a) || GapsOpen(SortByOffset(before), 0, size, a))
    }

    method AllocateAligned(n: Usize, effective: Usize) returns (r: Result<nat, Error>)
      requires effective > 0
      modifies this`blocks, this`used
      ensures r == Answer(FirstFit(SortByOffset(old(blocks)), 0, size, effective, n), base)
      ensures Placed(base, old(blocks), old(used), n, r, blocks, used)
    {
      blocks := SortByOffset(blocks);
      var found := SearchGaps(blocks, size, effective, n);
      match found {
        case OutOfRange => r := Err(Overflow);
        case Full => r := Err(RegionFull);
        case Found(offset) =>
          if base + offset >= TWO_64 {
            return Err(Overflow);
          }
          blocks := blocks + [Block(offset, n)];
          used := used + n;
          r := Ok(base + offset);
      }
    }

    // The scan over the gaps between sorted blocks and after the last one.
    static method SearchGaps(sorted: seq<Block>, limit: nat, a: nat, n: nat) returns (found: Search)
      requires 0 < a <= TWO_64
      ensures found == FirstFit(sorted, 0, limit, a, n)
    {
      var current: nat := 0;
      for i := 0 to |sorted|
        invariant FirstFit(sorted, 0, limit, a, n) == FirstFit(sorted[i..], current, limit, a, n)
      {
        assert sorted[i..][1..] == sorted[i + 1..];
        if current + a > TWO_64 {
          return OutOfRange;
        }
        var aligned := AlignUp(current, a);
        if sorted[i].offset < aligned {
          return OutOfRange;
        }
        if sorted[i].offset - aligned >= n {
          return Found(aligned);
        }
        current := sorted[i].End();
      }
      found := TryGap(current, limit, a, n);
    }

    // The first position of a block.
    method FindBlock(target: Block) returns (i: nat)
      ensures i <= |blocks| && target !in blocks[..i]
      ensures i < |blocks| ==> blocks[i] == target
    {
      for k := 0 to |blocks|
        invariant target !in blocks[..k]
      {
        if blocks[k] == target {
          return k;
        }
      }
      return |blocks|;
    }

    // Releases exactly a live block of this address and size.
    method Deallocate(addr: Usize, n: Usize) returns (r: Result<(), Error>)
      modifies this`blocks, this`used
      ensures old(Valid()) ==> Valid()
      ensures r == Err(Overflow) <==> addr < base
      ensures r.Ok? <==> addr >= base && Block(addr - base, n) in old(blocks)
      ensures r.Ok? ==> Released(base, old(blocks), old(used), addr, n, blocks, used)
      ensures r.Err? ==> blocks == old(blocks) && used == old(used)
      ensures old(Valid()) ==> forall a :: a > 0 && Uniform(size, old(blocks), a) ==> Uniform(size, blocks, a)
    {
      if addr < base {
        return Err(Overflow);
      }
      var target := Block(addr - base, n);
      var i := FindBlock(target);
      if i == |blocks| {
        assert blocks[..i] == blocks;
        return Err(DeallocateError);
      }
      assert target in blocks;
      if Valid() {
        ReleaseKept(base, size, blocks, used, i);
      }
      WithoutAt(blocks, i);
      blocks := blocks[..i] + blocks[i + 1..];
      used := SaturatingSub(used, n);
      r := Ok(());
    }
  }

  // Without a common alignment the gap before a block can be negative: with blocks at
  // 0 and 16, aligning 8 up to 64 passes the second block.
  lemma MixedAlignmentOverflows()
    ensures FirstFit([Block(0, 8), Block(16, 8)], 0, 1024, 64, 8) == OutOfRange
  {
    var two := [Block(0, 8), Block(16, 8)];
    assert IsPowerOfTwo(64);
    AlignUpLeast(0, 64);
    AlignUpLeast(8, 64);
    assert Aligned(0, 64);
    assert TryGap(0, 0, 64, 8) == Full;
    assert TryGap(8, 16, 64, 8) == OutOfRange;
    assert two[1..][0] == Block(16, 8);
  }

  ghost predicate NeverOutOfRange(sorted: seq<Block>, limit: nat, a: nat)
    requires 0 < a <= TWO_64
  {
    forall n: Usize :: n > 0 ==> FirstFit(sorted, 0, limit, a, n) != OutOfRange
  }

  // The search stays in range for every nonempty request exactly when every gap is open;
  // a request as large as the region tells.
  lemma InRangeExactlyWhenOpen(sorted: seq<Block>, limit: Usize, a: nat)
    requires 0 < a <= TWO_64 && forall b :: b in sorted ==> b.offset < limit
    ensures NeverOutOfRange(sorted, limit, a) <==> GapsOpen(sorted, 0, limit, a)
  {
    if GapsOpen(sorted, 0, limit, a) {
      forall n: Usize | n > 0
        ensures FirstFit(sorted, 0, limit, a, n) != OutOfRange
      {
        OpenStaysInRange(sorted, 0, limit, a, n);
      }
    }
    if NeverOutOfRange(sorted, limit, a) {
      var whole: Usize := if limit == 0 then 1 else limit;
      assert FirstFit(sorted, 0, limit, a, whole) != OutOfRange;
      WholeVisitsAll(sorted, 0, limit, a, whole);
    }
  }

  lemma {:induction false} OpenStaysInRange(sorted: seq<Block>, current: nat, limit: nat, a: nat, n: nat)
    requires 0 < a <= TWO_64 && GapsOpen(sorted, current, limit, a)
    ensures FirstFit(sorted, current, limit, a, n) != OutOfRange
    decreases |sorted|
  {
    if sorted != [] {
      OpenStaysInRange(sorted[1..], sorted[0].End(), limit, a, n);
    }
  }

  // No gap before a block holds the whole region.
  lemma {:induction false} WholeVisitsAll(sorted: seq<Block>, current: nat, limit: nat, a: nat, n: nat)
    requires 0 < a <= TWO_64 && forall b :: b in sorted ==> b.offset < n
    requires FirstFit(sorted, current, limit, a, n) != OutOfRange
    ensures GapsOpen(sorted, current, limit, a)
    decreases |sorted|
  {
    if sorted != [] {
      WholeVisitsAll(sorted[1..], sorted[0].End(), limit, a, n);
    }
  }
}
