/** Positioned reads and writes of a file's bytes. */
module FileBytes {
  import opened Bits
  import opened Sequences

  type Bytes = seq<Byte>

  // The data grown with zeros to at least n bytes.
  function Grown(data: Bytes, n: nat): Bytes {
    if n > |data| then data + Zeros(n - |data|) else data
  }

  // The file after writing `buf` at an offset: a gap before it is zero-filled.
  function Written(data: Bytes, offset: nat, buf: Bytes): (d: Bytes)
    ensures |d| == if offset + |buf| > |data| then offset + |buf| else |data|
  {
    var grown := Grown(data, offset + |buf|);
    grown[..offset] + buf + grown[offset + |buf|..]
  }

  // What a read of up to n bytes at an offset yields.
  function ReadAt(data: Bytes, offset: nat, n: nat): Bytes {
    if offset >= |data| then []
    else data[offset..if offset + n < |data| then offset + n else |data|]
  }

  // Byte by byte: the buffer where it was written, zeros in the gap, old bytes elsewhere.
  lemma WrittenAt(data: Bytes, offset: nat, buf: Bytes, i: nat)
    requires i < |Written(data, offset, buf)|
    ensures Written(data, offset, buf)[i]
         == if offset <= i < offset + |buf| then buf[i - offset] else if i < |data| then data[i] else 0
  {
  }

  // Reading back what was written.
  lemma ReadBack(data: Bytes, offset: nat, buf: Bytes)
    ensures ReadAt(Written(data, offset, buf), offset, |buf|) == buf
  {
  }

  lemma WriteTwiceAt(data: Bytes, offset: nat, a: Bytes, b: Bytes, i: nat)
    requires i < |Written(data, offset, a + b)|
    ensures |Written(Written(data, offset, a), offset + |a|, b)| == |Written(data, offset, a + b)|
    ensures Written(Written(data, offset, a), offset + |a|, b)[i] == Written(data, offset, a + b)[i]
  {
    WrittenAt(Written(data, offset, a), offset + |a|, b, i);
    WrittenAt(data, offset, a + b, i);
    if i < |Written(data, offset, a)| {
      WrittenAt(data, offset, a, i);
    }
  }

  lemma WriteTwice(data: Bytes, offset: nat, a: Bytes, b: Bytes)
    ensures Written(Written(data, offset, a), offset + |a|, b) == Written(data, offset, a + b)
  {
    var left, right := Written(Written(data, offset, a), offset + |a|, b), Written(data, offset, a + b);
    forall i | 0 <= i < |right|
      ensures |left| == |right| && left[i] == right[i]
    {
      WriteTwiceAt(data, offset, a, b, i);
    }
    assert |left| == |right|;
  }

  // A descriptor's sequence of writes: the file and the offset afterwards.
  function WriteAll(data: Bytes, offset: nat, chunks: seq<Bytes>): (Bytes, nat) {
    if chunks == [] then (data, offset)
    else
      var (d, o) := WriteAll(data, offset, chunks[..|chunks| - 1]);
      var last := chunks[|chunks| - 1];
      (Written(d, o, last), o + |last|)
  }

  // Any chunking of a write leaves the same file and offset as a single one.
  lemma {:induction false} WriteChunks(data: Bytes, offset: nat, chunks: seq<Bytes>)
    requires chunks != []
    ensures WriteAll(data, offset, chunks) == (Written(data, offset, Flatten(chunks)), offset + |Flatten(chunks)|)
  {
    var init, last := chunks[..|chunks| - 1], chunks[|chunks| - 1];
    if init == [] {
      assert Flatten(chunks) == last;
    } else {
      WriteChunks(data, offset, init);
      WriteTwice(data, offset, Flatten(init), last);
    }
  }

  // Appends, which ignore the offset.
  function AppendAll(data: Bytes, chunks: seq<Bytes>): Bytes {
    if chunks == [] then data
    else
      var d := AppendAll(data, chunks[..|chunks| - 1]);
      Written(d, |d|, chunks[|chunks| - 1])
  }

  lemma {:induction false} AppendChunks(data: Bytes, chunks: seq<Bytes>)
    ensures AppendAll(data, chunks) == data + Flatten(chunks)
  {
    if chunks != [] {
      AppendChunks(data, chunks[..|chunks| - 1]);
    }
  }

  lemma ReadTwice(data: Bytes, offset: nat, m: nat, n: nat)
    ensures var got := ReadAt(data, offset, m);
      got + ReadAt(data, offset + |got|, n) == ReadAt(data, offset, m + n)
  {
  }

  // A descriptor's sequence of reads: the bytes collected and the offset afterwards.
  function ReadAll(data: Bytes, offset: nat, sizes: seq<nat>): (Bytes, nat) {
    if sizes == [] then ([], offset)
    else
      var (before, o) := ReadAll(data, offset, sizes[..|sizes| - 1]);
      var got := ReadAt(data, o, sizes[|sizes| - 1]);
      (before + got, o + |got|)
  }

  function Sum(sizes: seq<nat>): nat {
    if sizes == [] then 0 else Sum(sizes[..|sizes| - 1]) + sizes[|sizes| - 1]
  }

  // Any chunking of a read yields the same bytes and offset as a single one.
  lemma {:induction false} ReadChunks(data: Bytes, offset: nat, sizes: seq<nat>)
    ensures ReadAll(data, offset, sizes)
         == (ReadAt(data, offset, Sum(sizes)), offset + |ReadAt(data, offset, Sum(sizes))|)
  {
    if sizes != [] {
      var init, last := sizes[..|sizes| - 1], sizes[|sizes| - 1];
      ReadChunks(data, offset, init);
      ReadTwice(data, offset, Sum(init), last);
    }
  }
}
