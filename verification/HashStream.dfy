/** The streaming hasher: data is buffered and compressed block by block. */
module HashStream {
  import opened Bits
  import opened Sequences
  import opened Streaming
  import opened Fips180

  type HashState = Stream<Vars, Byte>

  const NEW: HashState := Stream(INITIAL, [], 0)

  // The digest of what has been fed so far.
  function Result(s: HashState): seq<Byte> {
    Digest(FinalState(CompressBlock, Padding, s))
  }

  lemma PaddingPeriodic()
    ensures forall n: nat, k: nat, bits: nat :: n % 64 == k % 64 ==> Padding(n, bits) == Padding(k, bits)
  {
    forall n: nat, k: nat, bits: nat | n % 64 == k % 64
      ensures Padding(n, bits) == Padding(k, bits)
    {
      assert ZeroCount(n) == ZeroCount(k);
    }
  }

  // A hasher fed `m`, however it was fed, gives the SHA-256 of `m`.
  lemma ResultIsSha256(s: HashState, m: seq<Byte>)
    requires Fed(CompressBlock, INITIAL, s, m) && 8 * |m| < TWO_64
    ensures Result(s) == Sha256(m)
  {
    SmallCount(8 * |m|);
    FinalPadded(s, m, 8 * |m|);
  }

  lemma SmallCount(bits: nat)
    requires bits < TWO_64
    ensures bits % TWO_64 == bits
  {
  }

  lemma FinalPadded(s: HashState, m: seq<Byte>, bits: nat)
    requires Fed(CompressBlock, INITIAL, s, m) && bits == 8 * |m| % TWO_64
    ensures FinalState(CompressBlock, Padding, s) == Blocks(CompressBlock, INITIAL, m + Padding(|m|, bits))
  {
    PaddingPeriodic();
    FinalFed(CompressBlock, INITIAL, Padding, s, m, bits);
  }

  // However a message is split into updates, the digest is the SHA-256 of the whole.
  lemma SplitIrrelevant(chunks: seq<seq<Byte>>)
    requires 8 * |Flatten(chunks)| < TWO_64
    ensures Result(FeedAll(CompressBlock, NEW, chunks)) == Sha256(Flatten(chunks))
  {
    FeedAllFed(CompressBlock, INITIAL, chunks);
    ResultIsSha256(FeedAll(CompressBlock, NEW, chunks), Flatten(chunks));
  }

  // The program's rotations by shifts are those of the standard's functions.
  lemma SigmasByShifts(x: Word)
    ensures XorW(XorW(Rotr(x, 2), Rotr(x, 13)), Rotr(x, 22)) == BigSigma0(x)
    ensures XorW(XorW(Rotr(x, 6), Rotr(x, 11)), Rotr(x, 25)) == BigSigma1(x)
    ensures XorW(XorW(Rotr(x, 7), Rotr(x, 18)), Shr(x, 3)) == SmallSigma0(x)
    ensures XorW(XorW(Rotr(x, 17), Rotr(x, 19)), Shr(x, 10)) == SmallSigma1(x)
  {
    RotrIsTurns(x, 2);
    RotrIsTurns(x, 13);
    RotrIsTurns(x, 22);
    RotrIsTurns(x, 6);
    RotrIsTurns(x, 11);
    RotrIsTurns(x, 25);
    RotrIsTurns(x, 7);
    RotrIsTurns(x, 18);
    RotrIsTurns(x, 17);
    RotrIsTurns(x, 19);
  }

  class Hash {
    var state: Vars
    var buffer: seq<Byte>
    var length: nat

    ghost function Model(): HashState
      reads this
    {
      Stream(state, buffer, length)
    }

    constructor ()
      ensures Model() == NEW
    {
      state, buffer, length := INITIAL, [], 0;
    }

    method Update(data: seq<Byte>)
      modifies this
      ensures Model() == Feed(CompressBlock, old(Model()), data)
    {
      buffer := buffer + data;
      length := (length + |data|) % TWO_64;
      DrainBuffer();
    }

    method DrainBuffer()
      modifies this`state, this`buffer
      ensures (state, buffer) == Drain(CompressBlock, old(state), old(buffer))
    {
      while |buffer| >= 64
        invariant Drain(CompressBlock, state, buffer) == Drain(CompressBlock, old(state), old(buffer))
        decreases |buffer|
      {
        ProcessBlock(buffer[..64]);
        buffer := buffer[64..];
      }
    }

    // Leaves the hasher as it was, so hashing can go on.
    method Finalize() returns (digest: seq<Byte>)
      modifies this
      ensures digest == Result(old(Model()))
      ensures Model() == old(Model())
    {
      var savedState, savedBuffer, savedLength := state, buffer, length;
      PadBuffer();
      DrainBuffer();
      digest := WordBytes(state.a) + WordBytes(state.b) + WordBytes(state.c) + WordBytes(state.d)
      + WordBytes(state.e) + WordBytes(state.f) + WordBytes(state.g) + WordBytes(state.h);
      state, buffer, length := savedState, savedBuffer, savedLength;
    }

    // Appends the one bit, zeros up to the length field and the bit length.
    method PadBuffer()
      modifies this`buffer
      ensures buffer == old(buffer) + Padding(|old(buffer)|, length * 8 % TWO_64)
    {
      var start := buffer;
      buffer := buffer + [0x80];
      ghost var zeros := 0;
      while |buffer| % 64 != 56
        invariant zeros <= ZeroCount(|start|)
        invariant buffer == start + [0x80] + Zeros(zeros)
        decreases ZeroCount(|start|) - zeros
      {
        buffer := buffer + [0x00];
        zeros := zeros + 1;
      }
      ZeroCountLeast(|start|, zeros);
      var bitLength := length * 8 % TWO_64;
      buffer := buffer + EightBytes(bitLength);
    }

    static method HashOf(data: seq<Byte>) returns (digest: seq<Byte>)
      ensures 8 * |data| < TWO_64 ==> digest == Sha256(data)
    {
      var h := new Hash();
      h.Update(data);
      digest := h.Finalize();
      FeedFed(CompressBlock, INITIAL, NEW, [], data);
      assert [] + data == data;
      if 8 * |data| < TWO_64 {
        ResultIsSha256(Feed(CompressBlock, NEW, data), data);
      }
    }

    method ProcessBlock(block: seq<Byte>)
      requires |block| == 64
      modifies this`state
      ensures state == CompressBlock(old(state), block)
    {
      var w := new Word[64];
      FillFromBlock(w, block);
      ExtendSchedule(w, block);
      var v := CompressionLoop(state, w[..]);
      state := Vars(AddW(state.a, v.a), AddW(state.b, v.b), AddW(state.c, v.c), AddW(state.d, v.d),
                    AddW(state.e, v.e), AddW(state.f, v.f), AddW(state.g, v.g), AddW(state.h, v.h));
    }

    static method FillFromBlock(w: array<Word>, block: seq<Byte>)
      requires w.Length == 64 && |block| == 64
      modifies w
      ensures w[..16] == Schedule(block, 16)
    {
      for i := 0 to 16
        invariant w[..i] == Schedule(block, i)
      {
        ghost var before := w[..i];
        w[i] := BigEndianWord(block[i * 4], block[i * 4 + 1], block[i * 4 + 2], block[i * 4 + 3]);
        assert w[..i + 1] == before + [w[i]];
      }
    }

    static method ExpandWord(w2: Word, w7: Word, w15: Word, w16: Word) returns (x: Word)
      ensures x == AddW(AddW(AddW(w16, SmallSigma0(w15)), w7), SmallSigma1(w2))
    {
      SigmasByShifts(w15);
      SigmasByShifts(w2);
      var s0 := XorW(XorW(Rotr(w15, 7), Rotr(w15, 18)), Shr(w15, 3));
      var s1 := XorW(XorW(Rotr(w2, 17), Rotr(w2, 19)), Shr(w2, 10));
      x := AddW(AddW(AddW(w16, s0), w7), s1);
    }

    static method ExtendSchedule(w: array<Word>, block: seq<Byte>)
      requires w.Length == 64 && |block| == 64 && w[..16] == Schedule(block, 16)
      modifies w
      ensures w[..] == Schedule(block, 64)
    {
      for i := 16 to 64
        invariant w[..i] == Schedule(block, i)
      {
        ghost var before := w[..i];
        var w2, w7, w15, w16 := w[i - 2], w[i - 7], w[i - 15], w[i - 16];
        assert before[i - 2] == w2 && before[i - 7] == w7 && before[i - 15] == w15 && before[i - 16] == w16;
        w[i] := ExpandWord(w2, w7, w15, w16);
        assert w[..i + 1] == before + [w[i]];
      }
      assert w[..64] == w[..];
    }

    static method CompressionLoop(v0: Vars, w: seq<Word>) returns (v: Vars)
      requires |w| == 64
      ensures v == Rounds(v0, w, 64)
    {
      var a, b, c, d := v0.a, v0.b, v0.c, v0.d;
      var e, f, g, h := v0.e, v0.f, v0.g, v0.h;
      for i := 0 to 64
        invariant Vars(a, b, c, d, e, f, g, h) == Rounds(v0, w, i)
      {
        SigmasByShifts(e);
        SigmasByShifts(a);
        var s1 := XorW(XorW(Rotr(e, 6), Rotr(e, 11)), Rotr(e, 25));
        var ch := XorW(AndW(e, f), AndW(NotW(e), g));
        var temp1 := AddW(AddW(AddW(AddW(h, s1), ch), RoundConstant(i)), w[i]);
        var s0 := XorW(XorW(Rotr(a, 2), Rotr(a, 13)), Rotr(a, 22));
        var maj := XorW(XorW(AndW(a, b), AndW(a, c)), AndW(b, c));
        var temp2 := AddW(s0, maj);
        h := g;
        g := f;
        f := e;
        e := AddW(d, temp1);
        d := c;
        c := b;
        b := a;
        a := AddW(temp1, temp2);
      }
      v := Vars(a, b, c, d, e, f, g, h);
    }
  }
}
