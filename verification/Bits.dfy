/**
 * Bitwise operations on natural numbers, bit by bit, and the machine words built on them.
 *
 * `And`, `Or` and `Xor` recurse over halves, so that they are defined for numbers of any
 * width; `BitByBit` says that they act on each bit separately. A `Word` is a number below
 * 2^32, and the operations that end in W are those of 32-bit words: sums wrap around,
 * shifts to the left drop what leaves the word.
 *
 * Rotation is stated twice: by two shifts and an or, as programs write it, and as turning
 * the lowest bit to the top n times. The lemmas in between are about products and
 * quotients by powers of two.
 */
module Bits {
  import opened Products

  function Pow2(k: nat): (p: nat)
    ensures p >= 1
  {
    if k == 0 then 1 else 2 * Pow2(k - 1)
  }

  function And(x: nat, y: nat): nat {
    if x == 0 || y == 0 then 0
    else 2 * And(x / 2, y / 2) + if x % 2 == 1 && y % 2 == 1 then 1 else 0
  }

  function Or(x: nat, y: nat): nat
    decreases x
  {
    if x == 0 then y
    else 2 * Or(x / 2, y / 2) + if x % 2 == 1 || y % 2 == 1 then 1 else 0
  }

  function Xor(x: nat, y: nat): nat
    decreases x
  {
    if x == 0 then y
    else 2 * Xor(x / 2, y / 2) + if x % 2 != y % 2 then 1 else 0
  }

  predicate Bit(x: nat, i: nat)
    decreases i
  {
    if i == 0 then x % 2 == 1 else Bit(x / 2, i - 1)
  }

  lemma {:induction false} AndBit(x: nat, y: nat, i: nat)
    ensures Bit(And(x, y), i) == (Bit(x, i) && Bit(y, i))
    decreases i
  {
    if x == 0 || y == 0 {
      NoBit(i);
    } else if i > 0 {
      AndBit(x / 2, y / 2, i - 1);
    }
  }

  lemma {:induction false} OrBit(x: nat, y: nat, i: nat)
    ensures Bit(Or(x, y), i) == (Bit(x, i) || Bit(y, i))
    decreases i
  {
    if x == 0 {
      NoBit(i);
    } else if i > 0 {
      OrBit(x / 2, y / 2, i - 1);
    }
  }

  lemma {:induction false} XorBit(x: nat, y: nat, i: nat)
    ensures Bit(Xor(x, y), i) == (Bit(x, i) != Bit(y, i))
    decreases i
  {
    if x == 0 {
      NoBit(i);
    } else if i > 0 {
      XorBit(x / 2, y / 2, i - 1);
    }
  }

  lemma {:induction false} NoBit(i: nat)
    ensures !Bit(0, i)
    decreases i
  {
    if i > 0 {
      NoBit(i - 1);
    }
  }

  // The operations act on each bit separately.
  lemma BitByBit(x: nat, y: nat, i: nat)
    ensures Bit(And(x, y), i) == (Bit(x, i) && Bit(y, i))
    ensures Bit(Or(x, y), i) == (Bit(x, i) || Bit(y, i))
    ensures Bit(Xor(x, y), i) == (Bit(x, i) != Bit(y, i))
  {
    AndBit(x, y, i);
    OrBit(x, y, i);
    XorBit(x, y, i);
  }

  lemma {:induction false} Bounded(x: nat, y: nat, k: nat)
    requires x < Pow2(k) && y < Pow2(k)
    ensures And(x, y) < Pow2(k) && Or(x, y) < Pow2(k) && Xor(x, y) < Pow2(k)
  {
    if k > 0 {
      Bounded(x / 2, y / 2, k - 1);
    }
  }

  lemma {:induction false} Pow2Add(a: nat, b: nat)
    ensures Pow2(a + b) == Pow2(a) * Pow2(b)
  {
    if a > 0 {
      Pow2Add(a - 1, b);
      assert Pow2(a) * Pow2(b) == 2 * (Pow2(a - 1) * Pow2(b));
    }
  }

  // Or of numbers without common bits is their sum.
  lemma {:induction false} OrDisjoint(x: nat, m: nat, k: nat)
    requires x < Pow2(k)
    ensures Or(x, m * Pow2(k)) == x + m * Pow2(k)
  {
    if k > 0 {
      OrDisjoint(x / 2, m, k - 1);
      assert m * Pow2(k) == 2 * (m * Pow2(k - 1));
      OrEven(x, m * Pow2(k - 1));
    }
  }

  lemma OrEven(x: nat, z: nat)
    ensures Or(x, 2 * z) == 2 * Or(x / 2, z) + x % 2
  {
    assert 2 * z / 2 == z;
  }

  lemma {:induction false} AndOnes(x: nat, n: nat)
    requires x < Pow2(n)
    ensures And(x, Pow2(n) - 1) == x
  {
    if n > 0 {
      AndOnes(x / 2, n - 1);
    }
  }

  lemma {:induction false} Pow2Grows(k: nat, n: nat)
    requires k <= n
    ensures Pow2(k) <= Pow2(n)
  {
    if k < n {
      Pow2Grows(k, n - 1);
    }
  }

  // Ones in bits k to n - 1.
  function HighMask(n: nat, k: nat): nat
    requires k <= n
  {
    Pow2Grows(k, n);
    Pow2(n) - Pow2(k)
  }

  // Masking out the low k bits of an n-bit number clears its remainder modulo 2^k.
  lemma {:induction false} AndHighBits(q: nat, r: nat, k: nat, n: nat)
    requires r < Pow2(k) && k <= n && q * Pow2(k) + r < Pow2(n)
    ensures And(q * Pow2(k) + r, HighMask(n, k)) == q * Pow2(k)
  {
    var x := q * Pow2(k) + r;
    if k == 0 {
      assert x == q;
      AndOnes(x, n);
    } else {
      assert q * Pow2(k) == 2 * (q * Pow2(k - 1));
      assert x / 2 == q * Pow2(k - 1) + r / 2;
      AndHighBits(q, r / 2, k - 1, n - 1);
      assert HighMask(n, k) / 2 == HighMask(n - 1, k - 1);
    }
  }

  type Word = w: nat | w < 0x1_0000_0000

  type Byte = b: nat | b < 0x100

  const TWO_64 := 0x1_0000_0000_0000_0000

  function Zeros(n: nat): seq<Byte> {
    seq(n, _ => 0)
  }

  lemma Pow32()
    ensures Pow2(32) == 0x1_0000_0000
  {
    assert Pow2(8) == 256;
    Pow2Add(8, 8);
    Pow2Add(16, 16);
  }

  function AndW(x: Word, y: Word): Word {
    Pow32();
    Bounded(x, y, 32);
    And(x, y)
  }

  function XorW(x: Word, y: Word): Word {
    Pow32();
    Bounded(x, y, 32);
    Xor(x, y)
  }

  function OrW(x: Word, y: Word): Word {
    Pow32();
    Bounded(x, y, 32);
    Or(x, y)
  }

  function NotW(x: Word): Word {
    0xffff_ffff - x
  }

  function AddW(x: Word, y: Word): Word {
    (x + y) % 0x1_0000_0000
  }

  // Shifting right drops one low bit at a time.
  function Shr(x: Word, n: nat): Word {
    if n == 0 then x else Shr(x, n - 1) / 2
  }

  // The n low bits that shifting right drops.
  ghost function Low(x: Word, n: nat): nat {
    if n == 0 then 0 else Low(x, n - 1) + if Shr(x, n - 1) % 2 == 1 then Pow2(n - 1) else 0
  }

  function Shl(x: Word, n: nat): Word {
    x * Pow2(n) % 0x1_0000_0000
  }

  // Rotation to the right, as the program and section 3.2 of FIPS 180-4 write it.
  function Rotr(x: Word, n: nat): Word
    requires 0 < n < 32
  {
    OrW(Shr(x, n), Shl(x, 32 - n))
  }

  // The low bit moves to the top.
  function Turn(x: Word): Word {
    x / 2 + if x % 2 == 1 then 0x8000_0000 else 0
  }

  function Turns(x: Word, n: nat): Word {
    if n == 0 then x else Turn(Turns(x, n - 1))
  }

  lemma Quotient(x: nat, p: nat)
    requires p >= 1
    ensures x == x / p * p + x % p && x % p < p && x / p <= x
  {
    var q := x / p;
    Distribute(1, p - 1, q);
    assert q * p >= q;
  }

  lemma RemainderUnique(x: nat, a: nat, q: nat, r: nat)
    requires a > 0 && x == q * a + r && r < a
    ensures x / a == q && x % a == r
  {
    var d := x / a;
    Quotient(x, a);
    if d + 1 <= q {
      NoMore(d + 1, q, a);
      Distribute(d, 1, a);
    } else if q + 1 <= d {
      NoMore(q + 1, d, a);
      Distribute(q, 1, a);
    }
  }

  lemma Halve(h: nat, p: nat)
    ensures h * p == h / 2 * (2 * p) + if h % 2 == 1 then p else 0
  {
    var k := h / 2;
    Regroup(k, 2, p);
    Distribute(k * 2, h % 2, p);
    assert h == k * 2 + h % 2;
  }

  lemma StrictProduct(a: nat, b: nat, p: nat)
    requires p > 0
    ensures a < b <==> a * p < b * p
  {
    if a < b {
      Distribute(a, b - a, p);
    } else {
      Distribute(b, a - b, p);
    }
  }

  lemma {:induction false} SplitLow(x: Word, n: nat)
    ensures x == Shr(x, n) * Pow2(n) + Low(x, n) && Low(x, n) < Pow2(n)
  {
    if n > 0 {
      SplitLow(x, n - 1);
      Halve(Shr(x, n - 1), Pow2(n - 1));
    }
  }

  lemma HalfPower(n: nat)
    requires n <= 32
    ensures Pow2(n) * Pow2(32 - n) == 0x1_0000_0000
  {
    Pow2Add(n, 32 - n);
    Pow32();
  }

  lemma {:induction false} TurnsSplit(x: Word, n: nat)
    requires n <= 32
    ensures Turns(x, n) == Shr(x, n) + Low(x, n) * Pow2(32 - n)
  {
    if n > 0 {
      TurnsSplit(x, n - 1);
      HalfPower(n);
      Regroup(2, Pow2(n - 1), Pow2(32 - n));
      TurnStep(Turns(x, n - 1), Shr(x, n - 1), Low(x, n - 1), Pow2(n - 1), Pow2(32 - n));
    }
  }

  lemma TurnStep(t: Word, h: nat, l: nat, top: nat, p: nat)
    requires t == h + l * (2 * p) && top * p == 0x8000_0000
    ensures Turn(t) == h / 2 + (l + if h % 2 == 1 then top else 0) * p
  {
    Distribute(l, top, p);
    assert l * (2 * p) == 2 * (l * p) by {
      Regroup(l, 2, p);
      Regroup(2, l, p);
    }
  }

  lemma ModShift(q: nat, s: nat)
    requires s < 0x1_0000_0000
    ensures (q * 0x1_0000_0000 + s) % 0x1_0000_0000 == s
  {
  }

  // Multiplying the split x == q * pn + r by p, when pn * p is 2^32.
  lemma ShiftedOut(x: nat, q: nat, r: nat, pn: nat, p: nat)
    requires x == q * pn + r && r < pn && p > 0 && pn * p == 0x1_0000_0000 && x < 0x1_0000_0000
    ensures x * p % 0x1_0000_0000 == r * p && q < p
  {
    Distribute(q * pn, r, p);
    Regroup(q, pn, p);
    StrictProduct(r, pn, p);
    ModShift(q, r * p);
    StrictProduct(q, p, pn);
    assert p * pn == pn * p;
  }

  // Rotating by n is turning n times.
  lemma RotrIsTurns(x: Word, n: nat)
    requires 0 < n < 32
    ensures Rotr(x, n) == Turns(x, n)
  {
    TurnsSplit(x, n);
    SplitLow(x, n);
    HalfPower(n);
    ShiftedOut(x, Shr(x, n), Low(x, n), Pow2(n), Pow2(32 - n));
    OrDisjoint(Shr(x, n), Low(x, n), 32 - n);
  }
}
