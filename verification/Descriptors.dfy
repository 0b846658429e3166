/** Open-file records, their flags and offsets, and the recycling of descriptor numbers. */
module Descriptors {
  import opened Bits
  import opened Sequences

  const READ: nat := 1
  const WRITE: nat := 2
  const APPEND: nat := 4
  const CREATE: nat := 8
  const TRUNCATE: nat := 16
  const DIRECTORY: nat := 64

  predicate Has(flags: nat, mask: nat) {
    And(flags, mask) != 0
  }

  predicate Writable(flags: nat) {
    Has(flags, WRITE) || Has(flags, APPEND)
  }

  datatype OpenFile = OpenFile(inodeId: nat, offset: nat, flags: nat, readable: bool, writable: bool)

  function Opened(inodeId: nat, flags: nat): OpenFile {
    OpenFile(inodeId, 0, flags, Has(flags, READ), Writable(flags))
  }

  // A mask of one bit tells whether that bit is set.
  lemma {:induction false} MaskBit(x: nat, k: nat)
    ensures Has(x, Pow2(k)) <==> Bit(x, k)
  {
    if x == 0 {
      NoBit(k);
    } else if k > 0 {
      MaskBit(x / 2, k - 1);
      assert Pow2(k) / 2 == Pow2(k - 1);
    } else {
      assert And(x / 2, 0) == 0;
    }
  }

  // The flags, by bit: 0 reads, 1 writes, 2 appends, 3 creates, 4 truncates, 6 asks for a
  // directory.
  lemma FlagBits(flags: nat)
    ensures Has(flags, READ) <==> flags % 2 == 1
    ensures Writable(flags) <==> flags / 2 % 2 == 1 || flags / 4 % 2 == 1
    ensures Has(flags, APPEND) <==> flags / 4 % 2 == 1
    ensures Has(flags, CREATE) <==> flags / 8 % 2 == 1
    ensures Has(flags, TRUNCATE) <==> flags / 16 % 2 == 1
    ensures Has(flags, DIRECTORY) <==> flags / 64 % 2 == 1
  {
    MaskBit(flags, 0);
    MaskBit(flags, 1);
    MaskBit(flags, 2);
    MaskBit(flags, 3);
    MaskBit(flags, 4);
    MaskBit(flags, 6);
  }

  // What a descriptor just opened is good for: bit 0 to read, bit 1 or bit 2 to write.
  ghost predicate JustOpened(file: OpenFile, inodeId: nat, flags: nat) {
    && file.inodeId == inodeId && file.offset == 0 && file.flags == flags
    && (file.readable <==> flags % 2 == 1)
    && (file.writable <==> flags / 2 % 2 == 1 || flags / 4 % 2 == 1)
  }

  type OpenFiles = map<nat, OpenFile>

  // Where a seek leads, in 64-bit two's complement.
  datatype SeekFrom = Start(offset: nat) | Current(delta: int) | End(delta: int)

  const HALF: int := 0x8000_0000_0000_0000

  function Signed(x: int): int {
    (x + HALF) % (2 * HALF) - HALF
  }

  function SeekTarget(pos: SeekFrom, offset: nat, size: nat): int {
    match pos
    case Start(o) => Signed(o)
    case Current(delta) => Signed(Signed(offset) + delta)
    case End(delta) => Signed(Signed(size) + delta)
  }

  // The position a seek means.
  function Meant(pos: SeekFrom, offset: nat, size: nat): int {
    match pos
    case Start(o) => o
    case Current(delta) => offset + delta
    case End(delta) => size + delta
  }

  // For offsets and sizes below 2^63, a seek goes where it is meant to or, when that
  // does not fit, is refused.
  lemma SeekExactly(pos: SeekFrom, offset: nat, size: nat)
    requires offset < HALF && size < HALF
    requires match pos
             case Start(o) => o < 2 * HALF
             case Current(d) => -HALF <= d < HALF
             case End(d) => -HALF <= d < HALF
    ensures Meant(pos, offset, size) < HALF ==> SeekTarget(pos, offset, size) == Meant(pos, offset, size)
    ensures Meant(pos, offset, size) >= HALF ==> SeekTarget(pos, offset, size) < 0
  {
    SignedSmall(offset);
    SignedSmall(size);
    SignedSmall(Meant(pos, offset, size));
  }

  // One turn of the wrap.
  lemma SignedSmall(x: int)
    ensures -HALF <= x < HALF ==> Signed(x) == x
    ensures HALF <= x < 2 * HALF ==> Signed(x) == x - 2 * HALF
  {
    var m := 2 * HALF;
    Turn(x + HALF, m);
  }

  lemma Turn(y: int, m: nat)
    requires m > 0
    ensures 0 <= y < m ==> y % m == y
    ensures m <= y < 2 * m ==> y % m == y - m
  {
  }

  // Open and free descriptors share out the numbers handed out so far.
  ghost predicate Pool(open: set<nat>, free: seq<nat>, next: nat) {
    && NoDup(free)
    && (forall fd :: fd in open ==> fd !in free)
    && (forall fd: nat :: fd < next <==> fd in open || fd in free)
  }

  ghost function UpTo(n: nat): (r: set<nat>)
    ensures |r| == n && forall fd: nat :: fd in r <==> fd < n
  {
    if n == 0 then {} else UpTo(n - 1) + {n - 1}
  }

  lemma PoolSize(open: set<nat>, free: seq<nat>, next: nat)
    requires Pool(open, free, next)
    ensures |open| + |free| == next
  {
    NoDupSize(free);
    assert UpTo(next) == open + Elements(free);
    assert open !! Elements(free);
  }

  // The next descriptor: the last one freed, or a new number.
  function Allocated(free: seq<nat>, next: nat): (nat, seq<nat>, nat) {
    if free != [] then (free[|free| - 1], free[..|free| - 1], next) else (next, free, next + 1)
  }

  // Allocation takes a number that is not open, and a new one only when every number is:
  // so `next` is the largest number of descriptors ever open at once.
  lemma AllocateKeepsPool(open: set<nat>, free: seq<nat>, next: nat, peak: nat)
    requires Pool(open, free, next) && next == peak
    ensures var (fd, free', next') := Allocated(free, next);
      && fd !in open && Pool(open + {fd}, free', next')
      && next' == if |open + {fd}| > peak then |open + {fd}| else peak
  {
    PoolSize(open, free, next);
    var (fd, free', next') := Allocated(free, next);
    if free != [] {
      assert free == free' + [fd];
      assert fd in free;
    }
  }

  lemma FreeKeepsPool(open: set<nat>, free: seq<nat>, next: nat, fd: nat)
    requires Pool(open, free, next) && fd in open
    ensures Pool(open - {fd}, free + [fd], next)
  {
  }
}
