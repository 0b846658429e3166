/**
 * Row-major tensors over an arbitrary element type: slicing, transposing, concatenating.
 *
 * A slice is collected axis by axis, one range on each. Its elements are found at
 * multi-indices, and a multi-index has one position in the data: the sum of its
 * components, each times the product of the sizes behind it.
 */
module TensorLayout {
  import opened Wrappers
  import opened Products

  function Product(dims: seq<nat>): nat {
    if dims == [] then 1 else dims[0] * Product(dims[1..])
  }

  datatype Tensor<T> = Tensor(dims: seq<nat>, data: seq<T>) {
    predicate WellFormed() {
      |data| == Product(dims)
    }
  }

  // Overflow stands for a range whose end lies before its start.
  datatype Error = InvalidShape | IncompatibleType | Overflow

  datatype Range = Range(start: nat, end: nat)

  ghost predicate ValidRanges(dims: seq<nat>, ranges: seq<Range>) {
    && |ranges| == |dims|
    && forall k :: 0 <= k < |dims| ==> ranges[k].start <= ranges[k].end <= dims[k]
  }

  // The sizes a slice has along each axis.
  function Extents(ranges: seq<Range>): seq<nat>
    requires forall k :: 0 <= k < |ranges| ==> ranges[k].start <= ranges[k].end
  {
    seq(|ranges|, k requires 0 <= k < |ranges| => ranges[k].end - ranges[k].start)
  }

  ghost predicate IsIndex(dims: seq<nat>, index: seq<nat>) {
    |index| == |dims| && forall k :: 0 <= k < |dims| ==> index[k] < dims[k]
  }

  // The row-major position of a multi-index.
  function Flat(dims: seq<nat>, index: seq<nat>): nat
    requires |index| == |dims|
  {
    if dims == [] then 0 else index[0] * Product(dims[1..]) + Flat(dims[1..], index[1..])
  }

  // The multi-index moved to where the ranges start.
  function Shifted(ranges: seq<Range>, index: seq<nat>): seq<nat>
    requires |index| == |ranges|
  {
    seq(|index|, k requires 0 <= k < |index| => ranges[k].start + index[k])
  }

  lemma {:induction false} FlatInside(dims: seq<nat>, index: seq<nat>)
    requires IsIndex(dims, index)
    ensures Flat(dims, index) < Product(dims)
  {
    if dims != [] {
      FlatInside(dims[1..], index[1..]);
      var p := Product(dims[1..]);
      NoMore(index[0] + 1, dims[0], p);
      Distribute(index[0], 1, p);
    }
  }

  // What slicing collects, axis by axis: at the last level one element, if there is one.
  function SliceOf<T>(data: seq<T>, dims: seq<nat>, ranges: seq<Range>, base: nat): seq<T>
    requires |ranges| == |dims|
    decreases |dims|, 1, 0
  {
    if dims == [] then (if base < |data| then [data[base]] else [])
    else RowsOf(data, dims, ranges, base, ranges[0].start)
  }

  // The rows from i up to the end of the first range.
  function RowsOf<T>(data: seq<T>, dims: seq<nat>, ranges: seq<Range>, base: nat, i: nat): seq<T>
    requires |ranges| == |dims| > 0
    decreases |dims|, 0, if i < ranges[0].end then ranges[0].end - i else 0
  {
    if i >= ranges[0].end then []
    else
      SliceOf(data, dims[1..], ranges[1..], base + i * Product(dims[1..])) + RowsOf(data, dims, ranges, base, i + 1)
  }

  // A slice has as many elements as the product of its extents, and each is the source
  // element at the shifted multi-index.
  lemma {:induction false} SliceLayout<T>(data: seq<T>, dims: seq<nat>, ranges: seq<Range>, base: nat)
    requires ValidRanges(dims, ranges) && base + Product(dims) <= |data|
    ensures AllMoved(data, dims, ranges, base)
    decreases |dims|, 1, 0
  {
    if dims == [] {
      assert Extents(ranges) == [];
    } else {
      var i := ranges[0].start;
      RowsLayout(data, dims, ranges, base, i);
      assert Extents(ranges)[1..] == Extents(ranges[1..]);
      forall index | IsIndex(Extents(ranges), index)
        ensures ElementMoved(data, dims, ranges, base, index)
      {
        var rest := index[1..];
        assert IsIndex(Extents(ranges[1..]), rest);
        assert Shifted(ranges, index)[1..] == Shifted(ranges[1..], rest);
        assert RowElement(data, dims, ranges, base, i, index[0], rest);
      }
    }
  }

  ghost predicate AllMoved<T>(data: seq<T>, dims: seq<nat>, ranges: seq<Range>, base: nat)
    requires ValidRanges(dims, ranges)
  {
    && |SliceOf(data, dims, ranges, base)| == Product(Extents(ranges))
    && forall index :: IsIndex(Extents(ranges), index) ==> ElementMoved(data, dims, ranges, base, index)
  }

  ghost predicate ElementMoved<T>(data: seq<T>, dims: seq<nat>, ranges: seq<Range>, base: nat, index: seq<nat>)
    requires ValidRanges(dims, ranges) && |index| == |dims|
  {
    var s := SliceOf(data, dims, ranges, base);
    var at, source := Flat(Extents(ranges), index), base + Flat(dims, Shifted(ranges, index));
    at < |s| && source < |data| && s[at] == data[source]
  }

  // Element `rest` of the j-th row after row i.
  ghost predicate RowElement<T>(data: seq<T>, dims: seq<nat>, ranges: seq<Range>, base: nat,
                                i: nat, j: nat, rest: seq<nat>)
    requires ValidRanges(dims, ranges) && |dims| > 0 && |rest| == |dims| - 1
  {
    var rows := RowsOf(data, dims, ranges, base, i);
    var tail := Extents(ranges[1..]);
    var at := InRow(j, Product(tail), Flat(tail, rest));
    var source := base + InRow(i + j, Product(dims[1..]), Flat(dims[1..], Shifted(ranges[1..], rest)));
    at < |rows| && source < |data| && rows[at] == data[source]
  }

  // A position in the j-th of rows that are p long.
  function InRow(j: nat, p: nat, at: nat): nat {
    j * p + at
  }

  ghost predicate AllRows<T>(data: seq<T>, dims: seq<nat>, ranges: seq<Range>, base: nat, i: nat)
    requires ValidRanges(dims, ranges) && |dims| > 0 && i <= ranges[0].end
  {
    forall j: nat, rest: seq<nat> ::
      j < ranges[0].end - i && IsIndex(Extents(ranges[1..]), rest) ==> RowElement(data, dims, ranges, base, i, j, rest)
  }

  lemma {:induction false} RowsLayout<T>(data: seq<T>, dims: seq<nat>, ranges: seq<Range>, base: nat, i: nat)
    requires ValidRanges(dims, ranges) && |dims| > 0 && base + Product(dims) <= |data| && i <= ranges[0].end
    ensures |RowsOf(data, dims, ranges, base, i)| == (ranges[0].end - i) * Product(Extents(ranges[1..]))
    ensures AllRows(data, dims, ranges, base, i)
    decreases |dims|, 0, ranges[0].end - i
  {
    if i < ranges[0].end {
      var p, left := Product(dims[1..]), ranges[0].end - i - 1;
      RowInside(i, dims[0], p);
      SliceLayout(data, dims[1..], ranges[1..], base + i * p);
      RowsLayout(data, dims, ranges, base, i + 1);
      Distribute(1, left, Product(Extents(ranges[1..])));
      AllRowsStep(data, dims, ranges, base, i);
    }
  }

  lemma RowInside(i: nat, rows: nat, p: nat)
    requires i < rows
    ensures i * p + p <= rows * p
  {
    NoMore(i + 1, rows, p);
    Distribute(i, 1, p);
  }

  lemma AllRowsStep<T>(data: seq<T>, dims: seq<nat>, ranges: seq<Range>, base: nat, i: nat)
    requires ValidRanges(dims, ranges) && |dims| > 0 && i < ranges[0].end
    requires AllMoved(data, dims[1..], ranges[1..], base + i * Product(dims[1..]))
    requires AllRows(data, dims, ranges, base, i + 1)
    ensures AllRows(data, dims, ranges, base, i)
  {
    forall j: nat, rest: seq<nat> | j < ranges[0].end - i && IsIndex(Extents(ranges[1..]), rest)
      ensures RowElement(data, dims, ranges, base, i, j, rest)
    {
      RowStep(data, dims, ranges, base, i, j, rest);
    }
  }

  lemma RowStep<T>(data: seq<T>, dims: seq<nat>, ranges: seq<Range>, base: nat, i: nat, j: nat, rest: seq<nat>)
    requires ValidRanges(dims, ranges) && |dims| > 0 && i < ranges[0].end && j < ranges[0].end - i
    requires IsIndex(Extents(ranges[1..]), rest)
    requires |SliceOf(data, dims[1..], ranges[1..], base + i * Product(dims[1..]))| == Product(Extents(ranges[1..]))
    requires j == 0 ==> ElementMoved(data, dims[1..], ranges[1..], base + i * Product(dims[1..]), rest)
    requires j > 0 ==> RowElement(data, dims, ranges, base, i + 1, j - 1, rest)
    ensures RowElement(data, dims, ranges, base, i, j, rest)
  {
    var p, e := Product(dims[1..]), Product(Extents(ranges[1..]));
    var row, below := SliceOf(data, dims[1..], ranges[1..], base + i * p), RowsOf(data, dims, ranges, base, i + 1);
    var at := Flat(Extents(ranges[1..]), rest);
    FlatInside(Extents(ranges[1..]), rest);
    if j == 0 {
      assert (row + below)[at] == row[at];
    } else {
      Distribute(1, j - 1, e);
      Behind(row, below, (j - 1) * e + at);
      assert (i + 1) + (j - 1) == i + j;
    }
  }

  lemma Behind<T>(row: seq<T>, below: seq<T>, at: nat)
    requires at < |below|
    ensures (row + below)[|row| + at] == below[at]
  {
  }

  // Appends to `result0` what slicing collects from the given axis on.
  method ExtractSlice<T>(data: seq<T>, dims: seq<nat>, ranges: seq<Range>, dimIdx: nat, baseOffset: nat,
                         result0: seq<T>)
    returns (result: seq<T>)
    requires |ranges| == |dims| && dimIdx <= |dims|
    ensures result == result0 + SliceOf(data, dims[dimIdx..], ranges[dimIdx..], baseOffset)
    decreases |dims| - dimIdx
  {
    result := result0;
    if dimIdx == |dims| {
      if baseOffset < |data| {
        result := result + [data[baseOffset]];
      }
      return;
    }
    ghost var ds, rs := dims[dimIdx..], ranges[dimIdx..];
    assert ds[1..] == dims[dimIdx + 1..] && rs[1..] == ranges[dimIdx + 1..];
    var stride := Product(dims[dimIdx + 1..]);
    var i, end := ranges[dimIdx].start, ranges[dimIdx].end;
    while i < end
      invariant result + RowsOf(data, ds, rs, baseOffset, i)
             == result0 + RowsOf(data, ds, rs, baseOffset, ranges[dimIdx].start)
    {
      var offset := baseOffset + i * stride;
      ghost var before := result;
      result := ExtractSlice(data, dims, ranges, dimIdx + 1, offset, result);
      assert before + RowsOf(data, ds, rs, baseOffset, i) == result + RowsOf(data, ds, rs, baseOffset, i + 1);
      i := i + 1;
    }
  }

  // Slicing fails on a wrong rank or a range past its axis, and overflows on a range
  // that ends before it starts.
  method Slice<T>(t: Tensor<T>, ranges: seq<Range>) returns (r: Result<Tensor<T>, Error>)
    requires t.WellFormed()
    ensures r.Ok? <==> ValidRanges(t.dims, ranges)
    ensures r == Err(InvalidShape) <==>
              |ranges| != |t.dims| || exists k :: 0 <= k < |t.dims| && ranges[k].end > t.dims[k]
    ensures r.Ok? ==>
              r.value == Tensor(Extents(ranges), SliceOf(t.data, t.dims, ranges, 0)) && r.value.WellFormed()
  {
    if |ranges| != |t.dims| {
      return Err(InvalidShape);
    }
    for k := 0 to |ranges|
      invariant forall j :: 0 <= j < k ==> ranges[j].end <= t.dims[j]
    {
      if ranges[k].end > t.dims[k] {
        return Err(InvalidShape);
      }
    }
    if !(forall k :: 0 <= k < |ranges| ==> ranges[k].start <= ranges[k].end) {
      return Err(Overflow);
    }
    SliceLayout(t.data, t.dims, ranges, 0);
    var sliced := ExtractSlice(t.data, t.dims, ranges, 0, 0, []);
    assert t.dims[0..] == t.dims && ranges[0..] == ranges;
    r := Ok(Tensor(Extents(ranges), sliced));
  }

  // Entry (i, j) of the rows-by-cols matrix `a` is entry (j, i) of `b`.
  ghost predicate EntryMoved<T>(rows: nat, cols: nat, a: seq<T>, b: seq<T>, i: nat, j: nat) {
    var from, to := i * cols + j, j * rows + i;
    from < |a| && to < |b| && b[to] == a[from]
  }

  ghost predicate IsTranspose<T>(rows: nat, cols: nat, a: seq<T>, b: seq<T>) {
    && |a| == rows * cols && |b| == cols * rows
    && forall i: nat, j: nat :: i < rows && j < cols ==> EntryMoved(rows, cols, a, b, i, j)
  }

  lemma EntryInside(rows: nat, cols: nat, i: nat, j: nat)
    requires i < rows && j < cols
    ensures i * cols + j < rows * cols
  {
    NoMore(i + 1, rows, cols);
    Distribute(i, 1, cols);
  }

  lemma EntryUnique(cols: nat, i: nat, j: nat, i': nat, j': nat)
    requires j < cols && j' < cols && i * cols + j == i' * cols + j'
    ensures i == i' && j == j'
  {
    if i < i' {
      Distribute(i, 1, cols);
      NoMore(i + 1, i', cols);
    } else if i' < i {
      Distribute(i', 1, cols);
      NoMore(i' + 1, i, cols);
    }
  }

  lemma EntryExists(rows: nat, cols: nat, k: nat) returns (i: nat, j: nat)
    requires k < rows * cols
    ensures i < rows && j < cols && k == i * cols + j
    decreases rows
  {
    Distribute(rows - 1, 1, cols);
    if k < (rows - 1) * cols {
      i, j := EntryExists(rows - 1, cols, k);
    } else {
      i, j := rows - 1, k - (rows - 1) * cols;
    }
  }

  // Transposing twice restores the data.
  lemma TransposeTwice<T>(rows: nat, cols: nat, a: seq<T>, b: seq<T>, c: seq<T>)
    requires IsTranspose(rows, cols, a, b) && IsTranspose(cols, rows, b, c)
    ensures c == a
  {
    forall k | 0 <= k < |a|
      ensures c[k] == a[k]
    {
      var i, j := EntryExists(rows, cols, k);
      assert EntryMoved(rows, cols, a, b, i, j);
      assert EntryMoved(cols, rows, b, c, j, i);
    }
  }

  method Transpose<T>(t: Tensor<T>, zero: T) returns (r: Result<Tensor<T>, Error>)
    requires t.WellFormed()
    ensures r == Err(InvalidShape) <==> |t.dims| != 2
    ensures r.Ok? <==> |t.dims| == 2
    ensures r.Ok? ==> r.value.dims == [t.dims[1], t.dims[0]] && r.value.WellFormed()
    ensures r.Ok? ==> IsTranspose(t.dims[0], t.dims[1], t.data, r.value.data)
  {
    if |t.dims| != 2 {
      return Err(InvalidShape);
    }
    var rows, cols := t.dims[0], t.dims[1];
    MatrixProduct(t.dims);
    var transposed := new T[rows * cols](_ => zero);
    assert rows * cols == cols * rows;
    for i := 0 to rows
      invariant forall a: nat, b: nat :: a < i && b < cols ==> EntryMoved(rows, cols, t.data, transposed[..], a, b)
    {
      for j := 0 to cols
        invariant forall a: nat, b: nat :: (a < i && b < cols) || (a == i && b < j)
                    ==> EntryMoved(rows, cols, t.data, transposed[..], a, b)
      {
        EntryInside(rows, cols, i, j);
        EntryInside(cols, rows, j, i);
        ghost var before := transposed[..];
        transposed[j * rows + i] := t.data[i * cols + j];
        forall a: nat, b: nat | (a < i && b < cols) || (a == i && b < j + 1)
          ensures EntryMoved(rows, cols, t.data, transposed[..], a, b)
        {
          if a == i && b == j {
          } else {
            assert EntryMoved(rows, cols, t.data, before, a, b);
            if b * rows + a == j * rows + i {
              EntryUnique(rows, b, a, j, i);
            }
          }
        }
      }
    }
    MatrixProduct([cols, rows]);
    r := Ok(Tensor([cols, rows], transposed[..]));
  }

  lemma MatrixProduct(dims: seq<nat>)
    requires |dims| == 2
    ensures Product(dims) == dims[0] * dims[1]
  {
    assert dims[1..][1..] == [];
    assert Product(dims[1..]) == dims[1];
  }

  function SumAlong<T>(ts: seq<Tensor<T>>, axis: nat): nat
    requires forall t :: t in ts ==> axis < |t.dims|
  {
    if ts == [] then 0 else SumAlong(ts[..|ts| - 1], axis) + ts[|ts| - 1].dims[axis]
  }

  function Joined<T>(ts: seq<Tensor<T>>): seq<T> {
    if ts == [] then [] else Joined(ts[..|ts| - 1]) + ts[|ts| - 1].data
  }

  // Same rank, and same sizes except along the axis.
  ghost predicate SameBeside(a: seq<nat>, b: seq<nat>, axis: nat) {
    |a| == |b| && forall k :: 0 <= k < |a| && k != axis ==> a[k] == b[k]
  }

  ghost predicate Compatible<T>(ts: seq<Tensor<T>>, axis: nat) {
    && ts != [] && axis < |ts[0].dims|
    && forall t :: t in ts ==> SameBeside(t.dims, ts[0].dims, axis)
  }

  // Joins the operands' data one after the other, whatever the axis.
  method Concat<T>(ts: seq<Tensor<T>>, axis: nat) returns (r: Result<Tensor<T>, Error>)
    ensures r.Ok? <==> Compatible(ts, axis)
    ensures r == Err(IncompatibleType) ==> ts != [] && exists t :: t in ts && |t.dims| != |ts[0].dims|
    ensures r.Ok? ==> (forall t :: t in ts ==> axis < |t.dims|)
    ensures r.Ok? ==> r.value == Tensor(ts[0].dims[axis := SumAlong(ts, axis)], Joined(ts))
  {
    if ts == [] {
      return Err(InvalidShape);
    }
    var first := ts[0];
    if axis >= |first.dims| {
      return Err(InvalidShape);
    }
    for i := 1 to |ts|
      invariant Compatible(ts[..i], axis)
    {
      assert ts[..i + 1] == ts[..i] + [ts[i]] && ts[i] in ts;
      if |ts[i].dims| != |first.dims| {
        return Err(IncompatibleType);
      }
      for k := 0 to |first.dims|
        invariant forall j :: 0 <= j < k && j != axis ==> ts[i].dims[j] == first.dims[j]
      {
        if k != axis && first.dims[k] != ts[i].dims[k] {
          return Err(InvalidShape);
        }
      }
    }
    assert ts[..|ts|] == ts;
    var total, joined := 0, [];
    for i := 0 to |ts|
      invariant forall t :: t in ts[..i] ==> axis < |t.dims|
      invariant total == SumAlong(ts[..i], axis) && joined == Joined(ts[..i])
    {
      assert ts[i] in ts && ts[..i + 1][..i] == ts[..i];
      total := total + ts[i].dims[axis];
      joined := joined + ts[i].data;
    }
    r := Ok(Tensor(first.dims[axis := total], joined));
  }

  function FullRanges(dims: seq<nat>): seq<Range> {
    seq(|dims|, k requires 0 <= k < |dims| => Range(0, dims[k]))
  }

  // Slicing everything from a base on reads a contiguous block.
  lemma {:induction false} FullSlice<T>(data: seq<T>, dims: seq<nat>, base: nat)
    requires base + Product(dims) <= |data|
    ensures SliceOf(data, dims, FullRanges(dims), base) == data[base..base + Product(dims)]
    decreases |dims|
  {
    if dims != [] {
      assert FullRanges(dims)[1..] == FullRanges(dims[1..]);
      RowsContiguous(data, dims, FullRanges(dims), base, 0);
    }
  }

  lemma {:induction false} RowsContiguous<T>(data: seq<T>, dims: seq<nat>, ranges: seq<Range>, base: nat, i: nat)
    requires |ranges| == |dims| > 0 && ranges[1..] == FullRanges(dims[1..]) && i <= ranges[0].end
    requires base + ranges[0].end * Product(dims[1..]) <= |data|
    ensures i * Product(dims[1..]) <= ranges[0].end * Product(dims[1..])
    ensures RowsOf(data, dims, ranges, base, i)
         == data[base + i * Product(dims[1..])..base + ranges[0].end * Product(dims[1..])]
    decreases |dims|, ranges[0].end - i
  {
    var p := Product(dims[1..]);
    NoMore(i, ranges[0].end, p);
    if i < ranges[0].end {
      Distribute(i, 1, p);
      NoMore(i + 1, ranges[0].end, p);
      FullSlice(data, dims[1..], base + i * p);
      RowsContiguous(data, dims, ranges, base, i + 1);
      Adjoin(data, base + i * p, base + (i + 1) * p, base + ranges[0].end * p,
             SliceOf(data, dims[1..], ranges[1..], base + i * p), RowsOf(data, dims, ranges, base, i + 1));
    }
  }

  lemma Adjoin<T>(s: seq<T>, a: nat, b: nat, c: nat, left: seq<T>, right: seq<T>)
    requires a <= b <= c <= |s| && left == s[a..b] && right == s[b..c]
    ensures left + right == s[a..c]
  {
  }
}
