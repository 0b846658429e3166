/**
 * The hash function of FIPS 180-4, on messages made of whole bytes.
 *
 * Section 4.1.2 gives the functions on words, section 4.2.2 the round constants, section
 * 5.1.1 the padding, section 5.3.3 the initial hash value and section 6.2.2 the
 * computation. Rotations are turns of single bits here; HashStream compares the rotations
 * by shifts with them. The constants are tables, each entry related to the
 * root of a prime that the standard takes it from.
 */
module Fips180 {
  import opened Bits
  import opened Primes
  import opened Streaming

  // Section 4.2.2: from the cube roots of the first 64 primes.
  function RoundConstant(t: nat): Word
    requires t < 64
  {
    match t
    case 0 => 0x428a2f98 case 1 => 0x71374491 case 2 => 0xb5c0fbcf case 3 => 0xe9b5dba5
    case 4 => 0x3956c25b case 5 => 0x59f111f1 case 6 => 0x923f82a4 case 7 => 0xab1c5ed5
    case 8 => 0xd807aa98 case 9 => 0x12835b01 case 10 => 0x243185be case 11 => 0x550c7dc3
    case 12 => 0x72be5d74 case 13 => 0x80deb1fe case 14 => 0x9bdc06a7 case 15 => 0xc19bf174
    case 16 => 0xe49b69c1 case 17 => 0xefbe4786 case 18 => 0x0fc19dc6 case 19 => 0x240ca1cc
    case 20 => 0x2de92c6f case 21 => 0x4a7484aa case 22 => 0x5cb0a9dc case 23 => 0x76f988da
    case 24 => 0x983e5152 case 25 => 0xa831c66d case 26 => 0xb00327c8 case 27 => 0xbf597fc7
    case 28 => 0xc6e00bf3 case 29 => 0xd5a79147 case 30 => 0x06ca6351 case 31 => 0x14292967
    case 32 => 0x27b70a85 case 33 => 0x2e1b2138 case 34 => 0x4d2c6dfc case 35 => 0x53380d13
    case 36 => 0x650a7354 case 37 => 0x766a0abb case 38 => 0x81c2c92e case 39 => 0x92722c85
    case 40 => 0xa2bfe8a1 case 41 => 0xa81a664b case 42 => 0xc24b8b70 case 43 => 0xc76c51a3
    case 44 => 0xd192e819 case 45 => 0xd6990624 case 46 => 0xf40e3585 case 47 => 0x106aa070
    case 48 => 0x19a4c116 case 49 => 0x1e376c08 case 50 => 0x2748774c case 51 => 0x34b0bcb5
    case 52 => 0x391c0cb3 case 53 => 0x4ed8aa4a case 54 => 0x5b9cca4f case 55 => 0x682e6ff3
    case 56 => 0x748f82ee case 57 => 0x78a5636f case 58 => 0x84c87814 case 59 => 0x8cc70208
    case 60 => 0x90befffa case 61 => 0xa4506ceb case 62 => 0xbef9a3f7 case _ => 0xc67178f2
  }

  // Section 5.3.3: from the square roots of the first 8 primes.
  function InitialValue(i: nat): Word
    requires i < 8
  {
    match i
    case 0 => 0x6a09e667 case 1 => 0xbb67ae85 case 2 => 0x3c6ef372 case 3 => 0xa54ff53a
    case 4 => 0x510e527f case 5 => 0x9b05688c case 6 => 0x1f83d9ab case _ => 0x5be0cd19
  }

  const TWO_32 := 0x1_0000_0000
  const TWO_96 := TWO_32 * TWO_64

  // `root` is the cube root of p scaled by 2^32 and rounded down; `bits` is its fraction.
  ghost predicate CubeRootBits(p: nat, root: nat, bits: nat) {
    root % TWO_32 == bits && root * root * root <= p * TWO_96 && p * TWO_96 < (root + 1) * (root + 1) * (root + 1)
  }

  ghost predicate SquareRootBits(p: nat, root: nat, bits: nat) {
    root % TWO_32 == bits && root * root <= p * TWO_64 && p * TWO_64 < (root + 1) * (root + 1)
  }

  lemma InitialValueFromPrime(i: nat) returns (root: nat)
    requires i < 8
    ensures IsPrime(Prime(i)) && SquareRootBits(Prime(i), root, InitialValue(i))
  {
    EntriesPrime(i);
    match i
    case 0 => return 0x1_6a09e667;
    case 1 => return 0x1_bb67ae85;
    case 2 => return 0x2_3c6ef372;
    case 3 => return 0x2_a54ff53a;
    case 4 => return 0x3_510e527f;
    case 5 => return 0x3_9b05688c;
    case 6 => return 0x4_1f83d9ab;
    case _ => return 0x4_5be0cd19;
  }

  lemma RoundConstantFromPrime(t: nat) returns (root: nat)
    requires t < 64
    ensures IsPrime(Prime(t)) && CubeRootBits(Prime(t), root, RoundConstant(t))
  {
    EntriesPrime(t);
    if t < 16 {
      root := RoundConstantUpTo16(t);
    } else if t < 32 {
      root := RoundConstantUpTo32(t);
    } else if t < 48 {
      root := RoundConstantUpTo48(t);
    } else {
      root := RoundConstantUpTo64(t);
    }
  }

  lemma RoundConstantUpTo16(t: nat) returns (root: nat)
    requires 0 <= t < 16
    ensures CubeRootBits(Prime(t), root, RoundConstant(t))
  {
    match t
    case 0 => return 0x1_428a2f98;
    case 1 => return 0x1_71374491;
    case 2 => return 0x1_b5c0fbcf;
    case 3 => return 0x1_e9b5dba5;
    case 4 => return 0x2_3956c25b;
    case 5 => return 0x2_59f111f1;
    case 6 => return 0x2_923f82a4;
    case 7 => return 0x2_ab1c5ed5;
    case 8 => return 0x2_d807aa98;
    case 9 => return 0x3_12835b01;
    case 10 => return 0x3_243185be;
    case 11 => return 0x3_550c7dc3;
    case 12 => return 0x3_72be5d74;
    case 13 => return 0x3_80deb1fe;
    case 14 => return 0x3_9bdc06a7;
    case _ => return 0x3_c19bf174;
  }

  lemma RoundConstantUpTo32(t: nat) returns (root: nat)
    requires 16 <= t < 32
    ensures CubeRootBits(Prime(t), root, RoundConstant(t))
  {
    match t
    case 16 => return 0x3_e49b69c1;
    case 17 => return 0x3_efbe4786;
    case 18 => return 0x4_0fc19dc6;
    case 19 => return 0x4_240ca1cc;
    case 20 => return 0x4_2de92c6f;
    case 21 => return 0x4_4a7484aa;
    case 22 => return 0x4_5cb0a9dc;
    case 23 => return 0x4_76f988da;
    case 24 => return 0x4_983e5152;
    case 25 => return 0x4_a831c66d;
    case 26 => return 0x4_b00327c8;
    case 27 => return 0x4_bf597fc7;
    case 28 => return 0x4_c6e00bf3;
    case 29 => return 0x4_d5a79147;
    case 30 => return 0x5_06ca6351;
    case _ => return 0x5_14292967;
  }

  lemma RoundConstantUpTo48(t: nat) returns (root: nat)
    requires 32 <= t < 48
    ensures CubeRootBits(Prime(t), root, RoundConstant(t))
  {
    match t
    case 32 => return 0x5_27b70a85;
    case 33 => return 0x5_2e1b2138;
    case 34 => return 0x5_4d2c6dfc;
    case 35 => return 0x5_53380d13;
    case 36 => return 0x5_650a7354;
    case 37 => return 0x5_766a0abb;
    case 38 => return 0x5_81c2c92e;
    case 39 => return 0x5_92722c85;
    case 40 => return 0x5_a2bfe8a1;
    case 41 => return 0x5_a81a664b;
    case 42 => return 0x5_c24b8b70;
    case 43 => return 0x5_c76c51a3;
    case 44 => return 0x5_d192e819;
    case 45 => return 0x5_d6990624;
    case 46 => return 0x5_f40e3585;
    case _ => return 0x6_106aa070;
  }

  lemma RoundConstantUpTo64(t: nat) returns (root: nat)
    requires 48 <= t < 64
    ensures CubeRootBits(Prime(t), root, RoundConstant(t))
  {
    match t
    case 48 => return 0x6_19a4c116;
    case 49 => return 0x6_1e376c08;
    case 50 => return 0x6_2748774c;
    case 51 => return 0x6_34b0bcb5;
    case 52 => return 0x6_391c0cb3;
    case 53 => return 0x6_4ed8aa4a;
    case 54 => return 0x6_5b9cca4f;
    case 55 => return 0x6_682e6ff3;
    case 56 => return 0x6_748f82ee;
    case 57 => return 0x6_78a5636f;
    case 58 => return 0x6_84c87814;
    case 59 => return 0x6_8cc70208;
    case 60 => return 0x6_90befffa;
    case 61 => return 0x6_a4506ceb;
    case 62 => return 0x6_bef9a3f7;
    case _ => return 0x6_c67178f2;
  }

  // Section 4.1.2, with rotation as repeated turning by one bit.
  function Ch(x: Word, y: Word, z: Word): Word {
    XorW(AndW(x, y), AndW(NotW(x), z))
  }

  function Maj(x: Word, y: Word, z: Word): Word {
    XorW(XorW(AndW(x, y), AndW(x, z)), AndW(y, z))
  }

  function BigSigma0(x: Word): Word {
    XorW(XorW(Turns(x, 2), Turns(x, 13)), Turns(x, 22))
  }

  function BigSigma1(x: Word): Word {
    XorW(XorW(Turns(x, 6), Turns(x, 11)), Turns(x, 25))
  }

  function SmallSigma0(x: Word): Word {
    XorW(XorW(Turns(x, 7), Turns(x, 18)), Shr(x, 3))
  }

  function SmallSigma1(x: Word): Word {
    XorW(XorW(Turns(x, 17), Turns(x, 19)), Shr(x, 10))
  }

  function BigEndianWord(b0: Byte, b1: Byte, b2: Byte, b3: Byte): Word {
    b0 * 0x100_0000 + b1 * 0x1_0000 + b2 * 0x100 + b3
  }

  function WordBytes(w: Word): seq<Byte> {
    [w / 0x100_0000, w / 0x1_0000 % 0x100, w / 0x100 % 0x100, w % 0x100]
  }

  lemma WordBytesRoundTrip(w: Word)
    ensures var b := WordBytes(w); BigEndianWord(b[0], b[1], b[2], b[3]) == w
  {
    ByteQuotients(w);
    var q1, q2, q3 := w / 0x100, w / 0x1_0000, w / 0x100_0000;
    assert w == 0x100 * q1 + w % 0x100;
    assert q1 == 0x100 * q2 + q1 % 0x100;
    assert q2 == 0x100 * q3 + q2 % 0x100;
  }

  lemma ByteQuotients(w: nat)
    ensures w / 0x100 / 0x100 == w / 0x1_0000 && w / 0x1_0000 / 0x100 == w / 0x100_0000
  {
  }

  // The next word of the message schedule after `w` (section 6.2.2, step 1).
  function NextWord(block: seq<Byte>, w: seq<Word>): Word
    requires |block| == 64 && |w| < 64
  {
    var t := |w|;
    if t < 16 then BigEndianWord(block[4 * t], block[4 * t + 1], block[4 * t + 2], block[4 * t + 3])
    else AddW(AddW(AddW(w[t - 16], SmallSigma0(w[t - 15])), w[t - 7]), SmallSigma1(w[t - 2]))
  }

  // The first n words of the message schedule.
  function Schedule(block: seq<Byte>, n: nat): (w: seq<Word>)
    requires |block| == 64 && n <= 64
    ensures |w| == n
    decreases block, n
  {
    if n == 0 then [] else Schedule(block, n - 1) + [NextWord(block, Schedule(block, n - 1))]
  }

  datatype Vars = Vars(a: Word, b: Word, c: Word, d: Word, e: Word, f: Word, g: Word, h: Word)

  // Step 3: one round with constant k and schedule word w.
  function Round(v: Vars, k: Word, w: Word): Vars {
    var t1 := AddW(AddW(AddW(AddW(v.h, BigSigma1(v.e)), Ch(v.e, v.f, v.g)), k), w);
    var t2 := AddW(BigSigma0(v.a), Maj(v.a, v.b, v.c));
    Vars(AddW(t1, t2), v.a, v.b, v.c, AddW(v.d, t1), v.e, v.f, v.g)
  }

  function Rounds(v: Vars, w: seq<Word>, n: nat): Vars
    requires n <= |w| == 64
    decreases w, n
  {
    if n == 0 then v else Round(Rounds(v, w, n - 1), RoundConstant(n - 1), w[n - 1])
  }

  function Sum(u: Vars, v: Vars): Vars {
    Vars(AddW(u.a, v.a), AddW(u.b, v.b), AddW(u.c, v.c), AddW(u.d, v.d),
         AddW(u.e, v.e), AddW(u.f, v.f), AddW(u.g, v.g), AddW(u.h, v.h))
  }

  // Step 4: the compression of one block.
  function Compress(h: Vars, block: seq<Byte>): Vars
    requires |block| == 64
  {
    Sum(h, Rounds(h, Schedule(block, 64), 64))
  }

  // The compression as a total function; blocks always have 64 bytes.
  function CompressBlock(h: Vars, block: seq<Byte>): Vars {
    if |block| == 64 then Compress(h, block) else h
  }

  const INITIAL := Vars(InitialValue(0), InitialValue(1), InitialValue(2),
                        InitialValue(3), InitialValue(4), InitialValue(5),
                        InitialValue(6), InitialValue(7))

  // Section 5.1.1 in bytes: the least k with |m| + 1 + k congruent to 56 modulo 64.
  function ZeroCount(n: nat): (k: nat)
    ensures (n + 1 + k) % 64 == 56
  {
    (119 - n % 64) % 64
  }

  lemma ZeroCountLeast(n: nat, j: nat)
    requires (n + 1 + j) % 64 == 56
    ensures ZeroCount(n) <= j
  {
    var q, b := n / 64, n % 64 + 1 + j;
    assert n + 1 + j == 64 * q + b;
    if b < 64 {
      RemainderOf(q, b);
    } else if b < 128 {
      RemainderOf(q + 1, b - 64);
    }
  }

  lemma RemainderOf(q: nat, r: nat)
    requires r < 64
    ensures (64 * q + r) % 64 == r
  {
  }

  // The low 64 bits of n, most significant byte first.
  function EightBytes(n: nat): seq<Byte> {
    [n / 0x100_0000_0000_0000 % 256, n / 0x1_0000_0000_0000 % 256, n / 0x100_0000_0000 % 256,
     n / 0x1_0000_0000 % 256, n / 0x100_0000 % 256, n / 0x1_0000 % 256, n / 0x100 % 256, n % 256]
  }

  // What follows an n-byte message: a one bit, the fewest zeros and the bit length.
  function Padding(n: nat, bits: nat): seq<Byte> {
    [0x80] + Zeros(ZeroCount(n)) + EightBytes(bits)
  }

  lemma PaddedWhole(m: seq<Byte>, bits: nat)
    ensures |m + Padding(|m|, bits)| % 64 == 0
  {
  }

  function Digest(v: Vars): seq<Byte> {
    WordBytes(v.a) + WordBytes(v.b) + WordBytes(v.c) + WordBytes(v.d)
    + WordBytes(v.e) + WordBytes(v.f) + WordBytes(v.g) + WordBytes(v.h)
  }

  // The padded message is made of whole blocks.
  function Padded(m: seq<Byte>): (p: seq<Byte>)
    requires 8 * |m| < TWO_64
    ensures |p| % 64 == 0
  {
    PaddedWhole(m, 8 * |m|);
    m + Padding(|m|, 8 * |m|)
  }

  // SHA-256 of a message shorter than 2^64 bits.
  function Sha256(m: seq<Byte>): seq<Byte>
    requires 8 * |m| < TWO_64
  {
    Digest(Blocks(CompressBlock, INITIAL, Padded(m)))
  }
}
