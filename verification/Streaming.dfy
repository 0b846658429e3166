/**
 * Block-wise processing of a byte stream, for any compression of 64-byte blocks and
 * any padding: buffering the input changes nothing.
 */
module Streaming {
  import opened Sequences
  import opened Bits

  // The part of n that fills whole blocks.
  function Whole(n: nat): (w: nat)
    ensures w <= n && n - w < 64 && w % 64 == 0
  {
    n - n % 64
  }

  // The fold of the compression over the whole blocks of `m`.
  function Blocks<S, B>(compress: (S, seq<B>) -> S, h: S, m: seq<B>): S
    decreases |m|
  {
    if |m| < 64 then h else Blocks(compress, compress(h, m[..64]), m[64..])
  }

  // Compresses whole blocks off the front of the buffer.
  function Drain<S, B>(compress: (S, seq<B>) -> S, state: S, buffer: seq<B>): (S, seq<B>)
    decreases |buffer|
  {
    if |buffer| < 64 then (state, buffer) else Drain(compress, compress(state, buffer[..64]), buffer[64..])
  }

  // A running computation as a value; the length is a 64-bit byte count.
  datatype Stream<S, B> = Stream(state: S, buffer: seq<B>, length: nat)

  function Feed<S, B>(compress: (S, seq<B>) -> S, s: Stream<S, B>, data: seq<B>): Stream<S, B> {
    var (state, buffer) := Drain(compress, s.state, s.buffer + data);
    Stream(state, buffer, (s.length + |data|) % TWO_64)
  }

  function FeedAll<S, B>(compress: (S, seq<B>) -> S, s: Stream<S, B>, chunks: seq<seq<B>>): Stream<S, B> {
    if chunks == [] then s
    else Feed(compress, FeedAll(compress, s, chunks[..|chunks| - 1]), chunks[|chunks| - 1])
  }

  // The state after the buffered rest and a tail chosen by its length and the bit
  // count, which wraps at 64 bits.
  function FinalState<S, B>(compress: (S, seq<B>) -> S, tail: (nat, nat) -> seq<B>, s: Stream<S, B>): S {
    Drain(compress, s.state, s.buffer + tail(|s.buffer|, s.length * 8 % TWO_64)).0
  }

  // The stream has been fed exactly `m`: whole blocks are compressed, the rest waits.
  ghost predicate Fed<S, B>(compress: (S, seq<B>) -> S, start: S, s: Stream<S, B>, m: seq<B>) {
    && s.state == Blocks(compress, start, m[..Whole(|m|)])
    && s.buffer == m[Whole(|m|)..]
    && s.length == |m| % TWO_64
  }

  lemma {:induction false} BlocksAppend<S, B>(compress: (S, seq<B>) -> S, h: S, a: seq<B>, b: seq<B>)
    requires |a| % 64 == 0
    ensures Blocks(compress, h, a + b) == Blocks(compress, Blocks(compress, h, a), b)
    decreases |a|
  {
    if a == [] {
      assert a + b == b;
    } else {
      assert (a + b)[..64] == a[..64] && (a + b)[64..] == a[64..] + b;
      BlocksAppend(compress, compress(h, a[..64]), a[64..], b);
    }
  }

  // Taking one block off the front leaves the other whole blocks and the same rest.
  lemma Peel<B>(buffer: seq<B>)
    requires |buffer| >= 64
    ensures var whole, rest := buffer[..Whole(|buffer|)], buffer[64..];
      && |whole| >= 64 && whole[..64] == buffer[..64] && whole[64..] == rest[..Whole(|rest|)]
      && buffer[Whole(|buffer|)..] == rest[Whole(|rest|)..]
  {
    assert Whole(|buffer| - 64) == Whole(|buffer|) - 64;
  }

  lemma {:induction false} DrainIsBlocks<S, B>(compress: (S, seq<B>) -> S, state: S, buffer: seq<B>)
    ensures Drain(compress, state, buffer)
         == (Blocks(compress, state, buffer[..Whole(|buffer|)]), buffer[Whole(|buffer|)..])
    decreases |buffer|
  {
    if |buffer| >= 64 {
      Peel(buffer);
      DrainIsBlocks(compress, compress(state, buffer[..64]), buffer[64..]);
    } else {
      assert buffer[..0] == [] && buffer[0..] == buffer;
    }
  }

  lemma WholeAppend(n: nat, k: nat)
    requires n % 64 == 0
    ensures Whole(n + k) == n + Whole(k)
  {
  }

  lemma FeedFed<S, B>(compress: (S, seq<B>) -> S, start: S, s: Stream<S, B>, m: seq<B>, data: seq<B>)
    requires Fed(compress, start, s, m)
    ensures Fed(compress, start, Feed(compress, s, data), m + data)
  {
    var pending := s.buffer + data;
    Resplit(m, data);
    DrainIsBlocks(compress, s.state, pending);
    BlocksAppend(compress, start, m[..Whole(|m|)], pending[..Whole(|pending|)]);
    LengthWrap(|m|, |data|);
  }

  lemma LengthWrap(m: nat, n: nat)
    ensures (m % TWO_64 + n) % TWO_64 == (m + n) % TWO_64
  {
  }

  // The whole blocks and the rest of a longer message, from those of its first part.
  lemma Resplit<B>(m: seq<B>, data: seq<B>)
    ensures var pending, all := m[Whole(|m|)..] + data, m + data;
      && all[..Whole(|all|)] == m[..Whole(|m|)] + pending[..Whole(|pending|)]
      && all[Whole(|all|)..] == pending[Whole(|pending|)..]
  {
    var done := Whole(|m|);
    var pending, all := m[done..] + data, m + data;
    WholeAppend(done, |pending|);
    assert all == m[..done] + pending;
  }

  lemma {:induction false} FeedAllFed<S, B>(compress: (S, seq<B>) -> S, start: S, chunks: seq<seq<B>>)
    ensures Fed(compress, start, FeedAll(compress, Stream(start, [], 0), chunks), Flatten(chunks))
  {
    if chunks != [] {
      var fewer := chunks[..|chunks| - 1];
      FeedAllFed(compress, start, fewer);
      FeedFed(compress, start, FeedAll(compress, Stream(start, [], 0), fewer), Flatten(fewer), chunks[|chunks| - 1]);
    }
  }

  lemma BlocksWhole<S, B>(compress: (S, seq<B>) -> S, h: S, m: seq<B>)
    ensures Blocks(compress, h, m) == Blocks(compress, h, m[..Whole(|m|)])
  {
    var whole, rest := m[..Whole(|m|)], m[Whole(|m|)..];
    assert m == whole + rest;
    BlocksAppend(compress, h, whole, rest);
  }

  // With a tail that depends on the length only modulo the block size, finishing the
  // stream processes the whole padded message; the bit count wraps at 64 bits.
  lemma FinalFed<S, B>(
      compress: (S, seq<B>) -> S, start: S, tail: (nat, nat) -> seq<B>, s: Stream<S, B>, m: seq<B>, bits: nat)
    requires Fed(compress, start, s, m) && bits == 8 * |m| % TWO_64
    requires forall n: nat, k: nat, b: nat :: n % 64 == k % 64 ==> tail(n, b) == tail(k, b)
    ensures FinalState(compress, tail, s) == Blocks(compress, start, m + tail(|m|, bits))
  {
    BitsWrap(|m|);
    RestLength(m);
    assert tail(|s.buffer|, bits) == tail(|m|, bits);
    TailFed(compress, start, s, m, tail(|m|, bits));
  }

  lemma RestLength<B>(m: seq<B>)
    ensures |m[Whole(|m|)..]| % 64 == |m| % 64
  {
  }

  lemma TailFed<S, B>(compress: (S, seq<B>) -> S, start: S, s: Stream<S, B>, m: seq<B>, t: seq<B>)
    requires Fed(compress, start, s, m)
    ensures Drain(compress, s.state, s.buffer + t).0 == Blocks(compress, start, m + t)
  {
    var pending := s.buffer + t;
    Resplit(m, t);
    DrainIsBlocks(compress, s.state, pending);
    BlocksAppend(compress, start, m[..Whole(|m|)], pending[..Whole(|pending|)]);
    BlocksWhole(compress, start, m + t);
  }

  lemma BitsWrap(n: nat)
    ensures n % TWO_64 * 8 % TWO_64 == 8 * n % TWO_64
  {
    var q := n / TWO_64;
    assert n == q * TWO_64 + n % TWO_64;
    assert 8 * n == n % TWO_64 * 8 + 8 * q * TWO_64;
  }
}
