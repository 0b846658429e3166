/** What the functions of FIPS 180-4 compute, bit by bit, by value and by position. */
module Sha256Laws {
  import opened Bits
  import opened Products
  import opened Fips180

  // The fraction of the square root of p begins with these 32 bits.
  ghost predicate FromRoot(p: nat, bits: Word) {
    exists root: nat :: SquareRootBits(p, root, bits)
  }

  // Section 5.3.3: the initial hash value, from the first eight primes in their order.
  lemma InitialExactly()
    ensures FromRoot(2, INITIAL.a) && FromRoot(3, INITIAL.b) && FromRoot(5, INITIAL.c) && FromRoot(7, INITIAL.d)
    ensures FromRoot(11, INITIAL.e) && FromRoot(13, INITIAL.f) && FromRoot(17, INITIAL.g) && FromRoot(19, INITIAL.h)
  {
    var a := InitialValueFromPrime(0);
    var b := InitialValueFromPrime(1);
    var c := InitialValueFromPrime(2);
    var d := InitialValueFromPrime(3);
    var e := InitialValueFromPrime(4);
    var f := InitialValueFromPrime(5);
    var g := InitialValueFromPrime(6);
    var h := InitialValueFromPrime(7);
  }

  // The number that bytes spell, most significant first.
  ghost function BigEndian(s: seq<Byte>): nat {
    if s == [] then 0 else BigEndian(s[..|s| - 1]) * 0x100 + s[|s| - 1]
  }

  lemma BigEndianNext(s: seq<Byte>, b: Byte)
    ensures BigEndian(s + [b]) == BigEndian(s) * 0x100 + b
  {
    assert (s + [b])[..|s|] == s;
  }

  lemma FourBytes(b0: Byte, b1: Byte, b2: Byte, b3: Byte)
    ensures BigEndian([b0, b1, b2, b3]) == ((b0 * 0x100 + b1) * 0x100 + b2) * 0x100 + b3
  {
    BigEndianNext([], b0);
    BigEndianNext([b0], b1);
    BigEndianNext([b0, b1], b2);
    BigEndianNext([b0, b1, b2], b3);
    assert [] + [b0] == [b0] && [b0] + [b1] == [b0, b1];
    assert [b0, b1] + [b2] == [b0, b1, b2] && [b0, b1, b2] + [b3] == [b0, b1, b2, b3];
  }

  // A word and its four bytes, both ways.
  lemma WordBytesSpell(w: Word)
    ensures |WordBytes(w)| == 4 && BigEndian(WordBytes(w)) == w
  {
    var b := WordBytes(w);
    WordBytesRoundTrip(w);
    FourBytes(b[0], b[1], b[2], b[3]);
  }

  lemma BytesSpellWord(b0: Byte, b1: Byte, b2: Byte, b3: Byte)
    ensures BigEndianWord(b0, b1, b2, b3) == BigEndian([b0, b1, b2, b3])
  {
    FourBytes(b0, b1, b2, b3);
  }

  lemma {:induction false} BigEndianAppend(a: seq<Byte>, b0: Byte, b1: Byte, b2: Byte, b3: Byte)
    ensures BigEndian(a + [b0, b1, b2, b3]) == BigEndian(a) * 0x1_0000_0000 + BigEndian([b0, b1, b2, b3])
  {
    FourBytes(b0, b1, b2, b3);
    BigEndianNext(a, b0);
    BigEndianNext(a + [b0], b1);
    BigEndianNext(a + [b0] + [b1], b2);
    BigEndianNext(a + [b0] + [b1] + [b2], b3);
    assert a + [b0] + [b1] + [b2] + [b3] == a + [b0, b1, b2, b3];
  }

  // With n == x * a + s and x == q * b + r, dividing n by a * b gives q.
  lemma Nested(n: nat, a: nat, b: nat, x: nat, s: nat, q: nat, r: nat)
    requires n == x * a + s && s < a && x == q * b + r && r < b && b * a > 0
    ensures n / (b * a) == q
  {
    Distribute(q * b, r, a);
    Regroup(q, b, a);
    NoMore(r + 1, b, a);
    Distribute(r, 1, a);
    RemainderUnique(n, b * a, q, r * a + s);
  }

  lemma DivideTwice(n: nat, a: nat, b: nat)
    requires a > 0 && b > 0
    ensures n / a / b == n / (b * a)
  {
    var x, s := n / a, n % a;
    var q, r := x / b, x % b;
    Quotient(n, a);
    Quotient(x, b);
    StrictProduct(0, b, a);
    Nested(n, a, b, x, s, q, r);
  }

  // The last byte split off.
  lemma LastByte(n: nat, a: nat)
    requires a > 0
    ensures n / a == n / (a * 0x100) * 0x100 + n / a % 0x100
  {
    DivideTwice(n, a, 0x100);
  }

  // The length field: the low 64 bits of the number, most significant byte first.
  lemma EightBytesSpell(n: nat)
    ensures |EightBytes(n)| == 8 && BigEndian(EightBytes(n)) == n % TWO_64
  {
    LastByte(n, 1);
    LastByte(n, 0x100);
    LastByte(n, 0x1_0000);
    LastByte(n, 0x100_0000);
    LastByte(n, 0x1_0000_0000);
    LastByte(n, 0x100_0000_0000);
    LastByte(n, 0x1_0000_0000_0000);
    LastByte(n, 0x100_0000_0000_0000);
    var b := EightBytes(n);
    FourBytes(b[0], b[1], b[2], b[3]);
    FourBytes(b[4], b[5], b[6], b[7]);
    assert b[..4] == [b[0], b[1], b[2], b[3]] && b[4..] == [b[4], b[5], b[6], b[7]];
    SpelledInEight(b, n, n / TWO_64);
  }

  lemma SpelledInEight(b: seq<Byte>, n: nat, high: nat)
    requires |b| == 8
    requires n == high * TWO_64 + 0x1_0000_0000 * BigEndian(b[..4]) + BigEndian(b[4..])
    ensures BigEndian(b) == n % TWO_64
  {
    FourBytes(b[0], b[1], b[2], b[3]);
    FourBytes(b[4], b[5], b[6], b[7]);
    BigEndianAppend(b[..4], b[4], b[5], b[6], b[7]);
    assert b[..4] == [b[0], b[1], b[2], b[3]] && b[4..] == [b[4], b[5], b[6], b[7]] && b == b[..4] + b[4..];
    RemainderUnique(n, TWO_64, high, BigEndian(b));
  }

  lemma PaddingShape(n: nat, zeros: nat, field: seq<Byte>)
    requires zeros < 64 && (n + 1 + zeros) % 64 == 56 && |field| == 8
    ensures var p := [0x80] + Zeros(zeros) + field;
      && 9 <= |p| <= 72 && (n + |p|) % 64 == 0
      && p[0] == 0x80 && (forall k :: 1 <= k < |p| - 8 ==> p[k] == 0)
      && p[|p| - 8..] == field
  {
  }

  // The padding of an n-byte message, position by position: 80, zeros, and eight bytes that
  // spell the bit length; it fills the last block, and takes less than a whole one more.
  lemma PaddingExactly(n: nat, bits: nat)
    ensures var p := Padding(n, bits);
      && 9 <= |p| <= 72 && (n + |p|) % 64 == 0
      && p[0] == 0x80 && (forall k :: 1 <= k < |p| - 8 ==> p[k] == 0)
      && BigEndian(p[|p| - 8..]) == bits % TWO_64
  {
    EightBytesSpell(bits);
    PaddingShape(n, ZeroCount(n), EightBytes(bits));
  }

  lemma FourPieces(a: seq<Byte>, b: seq<Byte>, c: seq<Byte>, d: seq<Byte>)
    requires |a| == |b| == |c| == |d| == 4
    ensures var s := a + b + c + d;
      |s| == 16 && s[..4] == a && s[4..8] == b && s[8..12] == c && s[12..] == d
  {
  }

  ghost predicate Spells(s: seq<Byte>, w0: Word, w1: Word, w2: Word, w3: Word) {
    && |s| == 16 && BigEndian(s[..4]) == w0 && BigEndian(s[4..8]) == w1
    && BigEndian(s[8..12]) == w2 && BigEndian(s[12..]) == w3
  }

  lemma FourWords(w0: Word, w1: Word, w2: Word, w3: Word)
    ensures Spells(WordBytes(w0) + WordBytes(w1) + WordBytes(w2) + WordBytes(w3), w0, w1, w2, w3)
  {
    WordBytesSpell(w0);
    WordBytesSpell(w1);
    WordBytesSpell(w2);
    WordBytesSpell(w3);
    FourPieces(WordBytes(w0), WordBytes(w1), WordBytes(w2), WordBytes(w3));
  }

  // The digest: each variable's word in turn, in four bytes.
  lemma DigestExactly(v: Vars)
    ensures |Digest(v)| == 32
    ensures Spells(Digest(v)[..16], v.a, v.b, v.c, v.d) && Spells(Digest(v)[16..], v.e, v.f, v.g, v.h)
  {
    FourWords(v.a, v.b, v.c, v.d);
    FourWords(v.e, v.f, v.g, v.h);
    var front := WordBytes(v.a) + WordBytes(v.b) + WordBytes(v.c) + WordBytes(v.d);
    var back := WordBytes(v.e) + WordBytes(v.f) + WordBytes(v.g) + WordBytes(v.h);
    assert Digest(v) == front + back;
    assert Digest(v)[..16] == front && Digest(v)[16..] == back;
  }

  // Sums of words wrap at 2^32.
  lemma SumWraps(x: nat, y: nat)
    ensures (x % TWO_32 + y) % TWO_32 == (x + y) % TWO_32
  {
  }

  lemma {:induction false} ScheduleGrows(block: seq<Byte>, n: nat, m: nat)
    requires |block| == 64 && n <= m <= 64
    ensures Schedule(block, m)[..n] == Schedule(block, n)
    decreases m
  {
    if n < m {
      ScheduleGrows(block, n, m - 1);
      assert Schedule(block, m)[..n] == Schedule(block, m - 1)[..n];
    }
  }

  // The message schedule: first the words of the block, then sums of earlier words.
  lemma ScheduleExactly(block: seq<Byte>, t: nat)
    requires |block| == 64 && t < 64
    ensures var w := Schedule(block, 64);
      if t < 16 then w[t] == BigEndian(block[4 * t..4 * t + 4])
      else w[t] == (SmallSigma1(w[t - 2]) + w[t - 7] + SmallSigma0(w[t - 15]) + w[t - 16]) % TWO_32
  {
    var w, v := Schedule(block, 64), Schedule(block, t);
    ScheduleGrows(block, t, 64);
    ScheduleGrows(block, t + 1, 64);
    assert w[t] == w[..t + 1][t] == NextWord(block, v);
    if t < 16 {
      var at := 4 * t;
      BytesSpellWord(block[at], block[at + 1], block[at + 2], block[at + 3]);
      assert block[at..at + 4] == [block[at], block[at + 1], block[at + 2], block[at + 3]];
    } else {
      assert w[..t] == v;
      FourTerms(w[t - 16], SmallSigma0(w[t - 15]), w[t - 7], SmallSigma1(w[t - 2]));
    }
  }

  lemma FourTerms(a: Word, b: Word, c: Word, d: Word)
    ensures AddW(AddW(AddW(a, b), c), d) == (a + b + c + d) % TWO_32
  {
    SumWraps(a + b, c);
    SumWraps(a + b + c, d);
  }

  // One round, with sums taken of whole numbers and reduced once.
  lemma RoundExactly(v: Vars, k: Word, w: Word)
    ensures var t1 := v.h + BigSigma1(v.e) + Ch(v.e, v.f, v.g) + k + w;
      var t2 := BigSigma0(v.a) + Maj(v.a, v.b, v.c);
      Round(v, k, w) == Vars((t1 + t2) % TWO_32, v.a, v.b, v.c, (v.d + t1) % TWO_32, v.e, v.f, v.g)
  {
    var t1, t2 := v.h + BigSigma1(v.e) + Ch(v.e, v.f, v.g) + k + w, BigSigma0(v.a) + Maj(v.a, v.b, v.c);
    FourTerms(v.h, BigSigma1(v.e), Ch(v.e, v.f, v.g), k);
    SumWraps(v.h + BigSigma1(v.e) + Ch(v.e, v.f, v.g) + k, w);
    SumWraps(t1, t2 % TWO_32);
    SumWraps(t2, t1);
    SumWraps(t1, v.d);
  }

  // Hash values are added word by word.
  lemma SumExactly(u: Vars, v: Vars)
    ensures Sum(u, v) == Vars((u.a + v.a) % TWO_32, (u.b + v.b) % TWO_32, (u.c + v.c) % TWO_32, (u.d + v.d) % TWO_32,
                              (u.e + v.e) % TWO_32, (u.f + v.f) % TWO_32, (u.g + v.g) % TWO_32, (u.h + v.h) % TWO_32)
  {
  }

  lemma {:induction false} HighBit(x: nat, k: nat, i: nat)
    requires x < Pow2(k) && i >= k
    ensures !Bit(x, i)
    decreases k
  {
    if k == 0 {
      NoBit(i);
    } else {
      HighBit(x / 2, k - 1, i - 1);
    }
  }

  // A bit set on top of a smaller number.
  lemma {:induction false} TopBit(x: nat, k: nat, i: nat)
    requires x < Pow2(k)
    ensures Bit(x + Pow2(k), i) <==> i == k || Bit(x, i)
    decreases k
  {
    if k == 0 {
      if i > 0 {
        NoBit(i - 1);
        NoBit(i);
      }
    } else if i > 0 {
      TopBit(x / 2, k - 1, i - 1);
      assert (x + Pow2(k)) / 2 == x / 2 + Pow2(k - 1);
    }
  }

  lemma {:induction false} FlippedBit(x: nat, n: nat, i: nat)
    requires x < Pow2(n) && i < n
    ensures Bit(Pow2(n) - 1 - x, i) <==> !Bit(x, i)
    decreases n
  {
    if i > 0 {
      FlippedBit(x / 2, n - 1, i - 1);
      assert (Pow2(n) - 1 - x) / 2 == Pow2(n - 1) - 1 - x / 2;
    }
  }

  lemma {:induction false} ShiftedBit(x: Word, n: nat, i: nat)
    ensures Bit(Shr(x, n), i) <==> Bit(x, i + n)
    decreases n
  {
    if n > 0 {
      ShiftedBit(x, n - 1, i + 1);
    }
  }

  lemma TurnedBit(x: Word, i: nat)
    requires i < 32
    ensures Bit(Turn(x), i) <==> Bit(x, (i + 1) % 32)
  {
    Pow32();
    assert Pow2(31) == 0x8000_0000;
    TopBit(x / 2, 31, i);
    HighBit(x, 32, 32);
  }

  lemma {:induction false} TurnsBit(x: Word, n: nat, i: nat)
    requires i < 32
    ensures Bit(Turns(x, n), i) <==> Bit(x, (i + n) % 32)
    decreases n
  {
    if n > 0 {
      TurnedBit(Turns(x, n - 1), i);
      TurnsBit(x, n - 1, (i + 1) % 32);
    }
  }

  // An odd number of three bits.
  predicate Odd(a: bool, b: bool, c: bool) {
    (a != b) != c
  }

  // The functions of section 4.1.2, on each bit: a choice, a majority, and parities of
  // turned and shifted bits.
  lemma ChoiceAndMajority(x: Word, y: Word, z: Word, i: nat)
    requires i < 32
    ensures Bit(Ch(x, y, z), i) <==> if Bit(x, i) then Bit(y, i) else Bit(z, i)
    ensures Bit(Maj(x, y, z), i) <==>
              (Bit(x, i) && Bit(y, i)) || (Bit(x, i) && Bit(z, i)) || (Bit(y, i) && Bit(z, i))
  {
    Pow32();
    FlippedBit(x, 32, i);
    BitByBit(x, y, i);
    BitByBit(NotW(x), z, i);
    BitByBit(AndW(x, y), AndW(NotW(x), z), i);
    BitByBit(x, z, i);
    BitByBit(y, z, i);
    BitByBit(AndW(x, y), AndW(x, z), i);
    BitByBit(XorW(AndW(x, y), AndW(x, z)), AndW(y, z), i);
  }

  lemma SigmaBits(x: Word, i: nat)
    requires i < 32
    ensures Bit(BigSigma0(x), i) <==> Odd(Bit(x, (i + 2) % 32), Bit(x, (i + 13) % 32), Bit(x, (i + 22) % 32))
    ensures Bit(BigSigma1(x), i) <==> Odd(Bit(x, (i + 6) % 32), Bit(x, (i + 11) % 32), Bit(x, (i + 25) % 32))
    ensures Bit(SmallSigma0(x), i) <==> Odd(Bit(x, (i + 7) % 32), Bit(x, (i + 18) % 32), Bit(x, i + 3))
    ensures Bit(SmallSigma1(x), i) <==> Odd(Bit(x, (i + 17) % 32), Bit(x, (i + 19) % 32), Bit(x, i + 10))
  {
    TurnsParity(x, 2, 13, 22, i);
    TurnsParity(x, 6, 11, 25, i);
    ShiftParity(x, 7, 18, 3, i);
    ShiftParity(x, 17, 19, 10, i);
  }

  lemma TurnsParity(x: Word, k: nat, m: nat, n: nat, i: nat)
    requires i < 32
    ensures Bit(XorW(XorW(Turns(x, k), Turns(x, m)), Turns(x, n)), i)
       <==> Odd(Bit(x, (i + k) % 32), Bit(x, (i + m) % 32), Bit(x, (i + n) % 32))
  {
    TurnsBit(x, k, i);
    TurnsBit(x, m, i);
    TurnsBit(x, n, i);
    BitByBit(Turns(x, k), Turns(x, m), i);
    BitByBit(XorW(Turns(x, k), Turns(x, m)), Turns(x, n), i);
  }

  lemma ShiftParity(x: Word, k: nat, m: nat, n: nat, i: nat)
    requires i < 32
    ensures Bit(XorW(XorW(Turns(x, k), Turns(x, m)), Shr(x, n)), i)
       <==> Odd(Bit(x, (i + k) % 32), Bit(x, (i + m) % 32), Bit(x, i + n))
  {
    TurnsBit(x, k, i);
    TurnsBit(x, m, i);
    ShiftedBit(x, n, i);
    BitByBit(Turns(x, k), Turns(x, m), i);
    BitByBit(XorW(Turns(x, k), Turns(x, m)), Shr(x, n), i);
  }
}
