/**
 * Slicing a concatenation at an operand's ranges: what comes out along any axis, and
 * exactly when it is the operand.
 */
module ConcatLayout {
  import opened Sequences
  import opened Products
  import opened TensorLayout

  // The shape of an operand, by what comes before the axis, on it and after it.
  function Dims(pre: seq<nat>, n: nat, tail: seq<nat>): (dims: seq<nat>)
    ensures |dims| == |pre| + 1 + |tail|
  {
    pre + [n] + tail
  }

  // Everything beside the axis and a range on it.
  function Ranges(pre: seq<nat>, from: nat, rows: nat, tail: seq<nat>): (ranges: seq<Range>)
    ensures |ranges| == |pre| + 1 + |tail|
  {
    FullRanges(pre) + [Range(from, from + rows)] + FullRanges(tail)
  }

  lemma FirstAxis(pre: seq<nat>, n: nat, tail: seq<nat>, from: nat, rows: nat)
    ensures pre == [] ==> Dims(pre, n, tail) == [n] + tail
    ensures pre == [] ==> Ranges(pre, from, rows, tail) == [Range(from, from + rows)] + FullRanges(tail)
    ensures pre != [] ==> Dims(pre, n, tail) == [pre[0]] + Dims(pre[1..], n, tail)
    ensures pre != [] ==> Ranges(pre, from, rows, tail) == [Range(0, pre[0])] + Ranges(pre[1..], from, rows, tail)
  {
    if pre != [] {
      assert FullRanges(pre) == [Range(0, pre[0])] + FullRanges(pre[1..]);
    }
  }

  function Mul(a: nat, b: nat): nat {
    a * b
  }

  lemma MulStep(a: nat, x: nat)
    ensures Mul(a + 1, x) == Mul(a, x) + x && Mul(0, x) == 0 && Mul(1, x) == x
  {
    Distribute(a, 1, x);
  }

  function Piece<T>(data: seq<T>, at: nat, len: nat): seq<T> {
    if at + len <= |data| then data[at..at + len] else []
  }

  // Pieces of one length at regular distances.
  function Strips<T>(data: seq<T>, at: nat, count: nat, stride: nat, len: nat): seq<T>
    decreases count
  {
    if count == 0 then [] else Piece(data, at, len) + Strips(data, at + stride, count - 1, stride, len)
  }

  lemma {:induction false} StripsAppend<T>(data: seq<T>, at: nat, a: nat, b: nat, stride: nat, len: nat)
    ensures Strips(data, at, a + b, stride, len)
         == Strips(data, at, a, stride, len) + Strips(data, at + Mul(a, stride), b, stride, len)
    decreases a
  {
    MulStep(if a > 0 then a - 1 else 0, stride);
    if a > 0 {
      var rest := at + stride;
      StripsAppend(data, rest, a - 1, b, stride, len);
      AppendTwice(Piece(data, at, len), Strips(data, rest, a - 1, stride, len),
                  Strips(data, rest + Mul(a - 1, stride), b, stride, len));
    }
  }

  lemma {:induction false} StripsEmpty<T>(data: seq<T>, at: nat, count: nat, stride: nat)
    ensures Strips(data, at, count, stride, 0) == []
    decreases count
  {
    if count > 0 {
      StripsEmpty(data, at + stride, count - 1, stride);
    }
  }

  // Adjoining strips are one piece.
  lemma {:induction false} StripsAdjoin<T>(data: seq<T>, at: nat, count: nat, len: nat)
    requires at + Mul(count, len) <= |data|
    ensures Strips(data, at, count, len, len) == data[at..at + Mul(count, len)]
    decreases count
  {
    if count > 0 {
      Distribute(1, count - 1, len);
      StripsAdjoin(data, at + len, count - 1, len);
    }
  }

  lemma {:induction false} ProductSplit(a: seq<nat>, b: seq<nat>)
    ensures Product(a + b) == Mul(Product(a), Product(b))
    decreases |a|
  {
    if a == [] {
      assert a + b == b;
    } else {
      assert (a + b)[1..] == a[1..] + b;
      ProductSplit(a[1..], b);
      Regroup(a[0], Product(a[1..]), Product(b));
    }
  }

  lemma AxisProduct(pre: seq<nat>, n: nat, tail: seq<nat>)
    ensures Product(Dims(pre, n, tail)) == Mul(Product(pre), Mul(n, Product(tail)))
  {
    assert Dims(pre, n, tail) == pre + ([n] + tail);
    assert ([n] + tail)[1..] == tail;
    ProductSplit(pre, [n] + tail);
  }

  // The range on the axis, counted in elements.
  ghost predicate Counted(n: nat, tail: seq<nat>, from: nat, rows: nat, stride: nat, off: nat, len: nat) {
    && from + rows <= n
    && stride == Mul(n, Product(tail)) && off == Mul(from, Product(tail)) && len == Mul(rows, Product(tail))
  }

  // A slice along one axis is strips of the data.
  lemma {:induction false} SliceIsStrips<T>(
      data: seq<T>, pre: seq<nat>, n: nat, tail: seq<nat>, from: nat, rows: nat,
      stride: nat, off: nat, len: nat, base: nat)
    requires Counted(n, tail, from, rows, stride, off, len) && base + Mul(Product(pre), stride) <= |data|
    ensures SliceOf(data, Dims(pre, n, tail), Ranges(pre, from, rows, tail), base)
         == Strips(data, base + off, Product(pre), stride, len)
    decreases |pre|, 1, 0
  {
    FirstAxis(pre, n, tail, from, rows);
    if pre == [] {
      OneStrip(data, n, tail, from, rows, stride, off, len, base);
    } else {
      Regroup(pre[0], Product(pre[1..]), stride);
      RowsAreStrips(data, pre, n, tail, from, rows, stride, off, len, base, 0, base,
                    Product(pre[1..]), Mul(Product(pre[1..]), stride));
    }
  }

  lemma OneStrip<T>(
      data: seq<T>, n: nat, tail: seq<nat>, from: nat, rows: nat, stride: nat, off: nat, len: nat, base: nat)
    requires Counted(n, tail, from, rows, stride, off, len) && base + stride <= |data|
    ensures SliceOf(data, [n] + tail, [Range(from, from + rows)] + FullRanges(tail), base)
         == Strips(data, base + off, 1, stride, len)
  {
    var dims, ranges := [n] + tail, [Range(from, from + rows)] + FullRanges(tail);
    assert dims[1..] == tail && ranges[1..] == FullRanges(tail);
    NoMore(from + rows, n, Product(tail));
    Distribute(from, rows, Product(tail));
    RowsContiguous(data, dims, ranges, base, from);
    assert Strips(data, base + off, 1, stride, len) == Piece(data, base + off, len) + [];
  }

  lemma RowsUnfold<T>(data: seq<T>, pre: seq<nat>, n: nat, tail: seq<nat>, from: nat, rows: nat,
                      base: nat, i: nat, row: nat)
    requires pre != [] && i < pre[0] && row == Product(Dims(pre[1..], n, tail))
    ensures var dims, ranges := Dims(pre, n, tail), Ranges(pre, from, rows, tail);
      RowsOf(data, dims, ranges, base, i)
        == SliceOf(data, Dims(pre[1..], n, tail), Ranges(pre[1..], from, rows, tail), base + Mul(i, row))
         + RowsOf(data, dims, ranges, base, i + 1)
  {
    FirstAxis(pre, n, tail, from, rows);
  }

  lemma StripsRow<T>(data: seq<T>, at: nat, outer: nat, left: nat, stride: nat, len: nat)
    ensures Strips(data, at, Mul(left + 1, outer), stride, len)
         == Strips(data, at, outer, stride, len) + Strips(data, at + Mul(outer, stride), Mul(left, outer), stride, len)
  {
    MulStep(left, outer);
    assert Mul(left + 1, outer) == outer + Mul(left, outer);
    StripsAppend(data, at, outer, Mul(left, outer), stride, len);
  }

  // From row i, which starts at a position, the rows of the first axis.
  lemma {:induction false} RowsAreStrips<T>(
      data: seq<T>, pre: seq<nat>, n: nat, tail: seq<nat>, from: nat, rows: nat,
      stride: nat, off: nat, len: nat, base: nat, i: nat, at: nat, outer: nat, row: nat)
    requires Counted(n, tail, from, rows, stride, off, len) && pre != [] && i <= pre[0]
    requires outer == Product(pre[1..]) && row == Mul(outer, stride)
    requires at == base + Mul(i, row) && at + Mul(pre[0] - i, row) <= |data|
    ensures RowsOf(data, Dims(pre, n, tail), Ranges(pre, from, rows, tail), base, i)
         == Strips(data, at + off, Mul(pre[0] - i, outer), stride, len)
    decreases |pre|, 0, pre[0] - i
  {
    if i < pre[0] {
      var left: nat := pre[0] - i - 1;
      MulStep(left, row);
      MulStep(i, row);
      AxisProduct(pre[1..], n, tail);
      RowsUnfold(data, pre, n, tail, from, rows, base, i, row);
      SliceIsStrips(data, pre[1..], n, tail, from, rows, stride, off, len, at);
      RowsAreStrips(data, pre, n, tail, from, rows, stride, off, len, base, i + 1, at + row, outer, row);
      assert at + row + off == at + off + Mul(outer, stride);
      StripsRow(data, at + off, outer, left, stride, len);
    } else {
      FirstAxis(pre, n, tail, from, rows);
      MulStep(0, outer);
    }
  }

  // Operands of one shape beside the axis.
  ghost predicate Beside<T>(ts: seq<Tensor<T>>, axis: nat, pre: seq<nat>, tail: seq<nat>) {
    |pre| == axis && forall t :: t in ts ==> Fits(t, axis, pre, tail)
  }

  ghost predicate Fits<T>(t: Tensor<T>, axis: nat, pre: seq<nat>, tail: seq<nat>) {
    t.WellFormed() && axis < |t.dims| && t.dims == Dims(pre, t.dims[axis], tail)
  }

  lemma HasAxis<T>(ts: seq<Tensor<T>>, axis: nat, pre: seq<nat>, tail: seq<nat>)
    requires Beside(ts, axis, pre, tail)
    ensures forall t :: t in ts ==> Fits(t, axis, pre, tail) && axis < |t.dims|
    ensures forall i :: 0 <= i < |ts| ==> Fits(ts[i], axis, pre, tail) && axis < |ts[i].dims|
    ensures forall k, t :: 0 <= k <= |ts| && t in ts[..k] ==> t in ts
  {
  }

  lemma CompatibleBeside<T>(ts: seq<Tensor<T>>, axis: nat)
    requires Compatible(ts, axis) && forall t :: t in ts ==> t.WellFormed()
    ensures Beside(ts, axis, ts[0].dims[..axis], ts[0].dims[axis + 1..])
  {
    var pre, tail := ts[0].dims[..axis], ts[0].dims[axis + 1..];
    forall t | t in ts
      ensures Fits(t, axis, pre, tail)
    {
      assert SameBeside(t.dims, ts[0].dims, axis);
      assert t.dims == Dims(pre, t.dims[axis], tail);
    }
  }

  lemma DataSize<T>(t: Tensor<T>, axis: nat, pre: seq<nat>, tail: seq<nat>)
    requires Fits(t, axis, pre, tail)
    ensures |t.data| == Mul(Product(pre), Mul(t.dims[axis], Product(tail)))
  {
    AxisProduct(pre, t.dims[axis], tail);
  }

  lemma AddSizes(a: nat, x: nat, y: nat, p: nat)
    ensures Mul(a, Mul(x, p)) + Mul(a, Mul(y, p)) == Mul(a, Mul(x + y, p))
  {
    Distribute(x, y, p);
    Spread(a, x * p, y * p);
  }

  lemma Spread(a: nat, b: nat, c: nat)
    ensures a * (b + c) == a * b + a * c
  {
  }

  lemma {:induction false} JoinedSize<T>(ts: seq<Tensor<T>>, axis: nat, pre: seq<nat>, tail: seq<nat>)
    requires Beside(ts, axis, pre, tail)
    ensures forall t :: t in ts ==> axis < |t.dims|
    ensures |Joined(ts)| == Mul(Product(pre), Mul(SumAlong(ts, axis), Product(tail)))
    decreases |ts|
  {
    assert forall t :: t in ts ==> Fits(t, axis, pre, tail);
    if ts != [] {
      var init, last := ts[..|ts| - 1], ts[|ts| - 1];
      JoinedSize(init, axis, pre, tail);
      DataSize(last, axis, pre, tail);
      AddSizes(Product(pre), SumAlong(init, axis), last.dims[axis], Product(tail));
    }
  }

  // The k-th operand's data comes behind that of the operands before it.
  lemma {:induction false} JoinedPiece<T>(ts: seq<Tensor<T>>, k: nat)
    requires k < |ts|
    ensures |Joined(ts[..k])| + |ts[k].data| <= |Joined(ts)|
    ensures Piece(Joined(ts), |Joined(ts[..k])|, |ts[k].data|) == ts[k].data
    decreases |ts|
  {
    var init := ts[..|ts| - 1];
    if k < |init| {
      assert init[..k] == ts[..k] && init[k] == ts[k];
      JoinedPiece(init, k);
      assert Joined(ts) == Joined(init) + ts[|init|].data;
    } else {
      assert init == ts[..k] && Joined(ts) == Joined(init) + ts[k].data;
    }
  }

  lemma {:induction false} SumBound<T>(ts: seq<Tensor<T>>, axis: nat, k: nat)
    requires k < |ts| && forall t :: t in ts ==> axis < |t.dims|
    ensures SumAlong(ts[..k], axis) + ts[k].dims[axis] <= SumAlong(ts, axis)
    decreases |ts|
  {
    var init := ts[..|ts| - 1];
    if k < |ts| - 1 {
      assert init[..k] == ts[..k];
      SumBound(init, axis, k);
    }
  }

  // The ranges that pick the k-th operand out of a concatenation along the axis.
  function OperandRanges<T>(ts: seq<Tensor<T>>, axis: nat, k: nat): seq<Range>
    requires k < |ts| && forall t :: t in ts ==> axis < |t.dims|
  {
    var dims := ts[k].dims;
    Ranges(dims[..axis], SumAlong(ts[..k], axis), dims[axis], dims[axis + 1..])
  }

  // What slicing the concatenation at those ranges gives.
  ghost function PickedOut<T>(ts: seq<Tensor<T>>, axis: nat, k: nat): seq<T>
    requires Compatible(ts, axis) && k < |ts|
  {
    assert forall t :: t in ts ==> SameBeside(t.dims, ts[0].dims, axis);
    SliceOf(Joined(ts), ts[0].dims[axis := SumAlong(ts, axis)], OperandRanges(ts, axis, k), 0)
  }

  lemma OperandShape<T>(t: Tensor<T>, axis: nat, pre: seq<nat>, tail: seq<nat>, n: nat)
    requires Fits(t, axis, pre, tail) && |pre| == axis
    ensures t.dims[axis := n] == Dims(pre, n, tail)
    ensures t.dims[..axis] == pre && t.dims[axis + 1..] == tail
  {
  }

  lemma PickedSlice<T>(ts: seq<Tensor<T>>, axis: nat, pre: seq<nat>, tail: seq<nat>, k: nat)
    requires Compatible(ts, axis) && Beside(ts, axis, pre, tail) && k < |ts|
    ensures forall t :: t in ts ==> axis < |t.dims|
    ensures PickedOut(ts, axis, k)
         == SliceOf(Joined(ts), Dims(pre, SumAlong(ts, axis), tail),
                    Ranges(pre, SumAlong(ts[..k], axis), ts[k].dims[axis], tail), 0)
  {
    assert forall t :: t in ts ==> Fits(t, axis, pre, tail);
    OperandShape(ts[0], axis, pre, tail, SumAlong(ts, axis));
    OperandShape(ts[k], axis, pre, tail, 0);
  }

  lemma WholeSliceIsStrips<T>(data: seq<T>, pre: seq<nat>, n: nat, tail: seq<nat>, from: nat, rows: nat)
    requires from + rows <= n && Mul(Product(pre), Mul(n, Product(tail))) <= |data|
    ensures var p := Product(tail);
      SliceOf(data, Dims(pre, n, tail), Ranges(pre, from, rows, tail), 0)
        == Strips(data, Mul(from, p), Product(pre), Mul(n, p), Mul(rows, p))
  {
    var p := Product(tail);
    SliceIsStrips(data, pre, n, tail, from, rows, Mul(n, p), Mul(from, p), Mul(rows, p), 0);
  }

  // The operand's strips in the concatenation.
  lemma PickedStrips<T>(ts: seq<Tensor<T>>, axis: nat, pre: seq<nat>, tail: seq<nat>, k: nat)
    requires Compatible(ts, axis) && Beside(ts, axis, pre, tail) && k < |ts|
    ensures forall t :: t in ts ==> axis < |t.dims|
    ensures var p := Product(tail);
      PickedOut(ts, axis, k)
        == Strips(Joined(ts), Mul(SumAlong(ts[..k], axis), p), Product(pre), Mul(SumAlong(ts, axis), p),
                  Mul(ts[k].dims[axis], p))
  {
    JoinedSize(ts, axis, pre, tail);
    SumBound(ts, axis, k);
    PickedSlice(ts, axis, pre, tail, k);
    WholeSliceIsStrips(Joined(ts), pre, SumAlong(ts, axis), tail, SumAlong(ts[..k], axis), ts[k].dims[axis]);
  }

  // The operand comes out whole.
  ghost predicate Recovered<T>(ts: seq<Tensor<T>>, axis: nat, k: nat)
    requires Compatible(ts, axis) && k < |ts|
  {
    PickedOut(ts, axis, k) == ts[k].data
  }

  // With at most one position before the axis, every operand is recovered.
  lemma OnePositionRecovers<T>(ts: seq<Tensor<T>>, axis: nat, k: nat)
    requires Compatible(ts, axis) && (forall t :: t in ts ==> t.WellFormed()) && k < |ts|
    requires Product(ts[0].dims[..axis]) <= 1
    ensures Recovered(ts, axis, k)
  {
    var pre, tail := ts[0].dims[..axis], ts[0].dims[axis + 1..];
    CompatibleBeside(ts, axis);
    PickedStrips(ts, axis, pre, tail, k);
    assert Fits(ts[k], axis, pre, tail);
    DataSize(ts[k], axis, pre, tail);
    assert forall t :: t in ts[..k] ==> t in ts;
    JoinedSize(ts[..k], axis, pre, tail);
    JoinedPiece(ts, k);
    OneOrNone(Joined(ts), Product(pre), Mul(SumAlong(ts[..k], axis), Product(tail)),
              Mul(SumAlong(ts, axis), Product(tail)), Mul(ts[k].dims[axis], Product(tail)));
  }

  lemma OneOrNone<T>(data: seq<T>, outer: nat, at: nat, stride: nat, len: nat)
    requires outer <= 1
    ensures Strips(data, at, outer, stride, len) == if outer == 0 then [] else Piece(data, at, len)
    ensures Mul(outer, at) == if outer == 0 then 0 else at
    ensures Mul(outer, len) == if outer == 0 then 0 else len
  {
  }

  ghost predicate OneHasData<T>(ts: seq<Tensor<T>>) {
    forall i, j :: 0 <= i < j < |ts| ==> ts[i].data == [] || ts[j].data == []
  }

  lemma {:induction false} JoinedNone<T>(ts: seq<Tensor<T>>)
    requires forall i :: 0 <= i < |ts| ==> ts[i].data == []
    ensures Joined(ts) == []
  {
    if ts != [] {
      JoinedNone(ts[..|ts| - 1]);
    }
  }

  lemma {:induction false} JoinedOne<T>(ts: seq<Tensor<T>>, k: nat)
    requires k < |ts| && forall i :: 0 <= i < |ts| && i != k ==> ts[i].data == []
    ensures Joined(ts) == ts[k].data
  {
    var init := ts[..|ts| - 1];
    if k < |init| {
      JoinedOne(init, k);
    } else {
      JoinedNone(init);
    }
  }

  // Where only one operand has data, it is recovered, and so are the empty ones.
  lemma OneOperandRecovers<T>(ts: seq<Tensor<T>>, axis: nat, k: nat)
    requires Compatible(ts, axis) && (forall t :: t in ts ==> t.WellFormed()) && k < |ts|
    requires OneHasData(ts)
    ensures Recovered(ts, axis, k)
  {
    var pre, tail := ts[0].dims[..axis], ts[0].dims[axis + 1..];
    CompatibleBeside(ts, axis);
    PickedStrips(ts, axis, pre, tail, k);
    assert Fits(ts[k], axis, pre, tail);
    DataSize(ts[k], axis, pre, tail);
    var outer, p, rows := Product(pre), Product(tail), ts[k].dims[axis];
    var from, n := SumAlong(ts[..k], axis), SumAlong(ts, axis);
    if ts[k].data == [] {
      NoElements(outer, Mul(rows, p));
      if outer > 0 {
        StripsEmpty(Joined(ts), Mul(from, p), outer, Mul(n, p));
      }
    } else {
      JoinedOne(ts, k);
      JoinedSize(ts, axis, pre, tail);
      SumBound(ts, axis, k);
      assert forall t :: t in ts[..k] ==> t in ts;
      JoinedSize(ts[..k], axis, pre, tail);
      assert forall i :: 0 <= i < k ==> ts[..k][i] == ts[i];
      JoinedNone(ts[..k]);
      SameExtent(outer, from, rows, n, p);
      StripsAdjoin(Joined(ts), 0, outer, Mul(n, p));
    }
  }

  lemma NoElements(outer: nat, len: nat)
    requires Mul(outer, len) == 0
    ensures outer == 0 || len == 0
  {
    if outer > 0 {
      Distribute(1, outer - 1, len);
    }
  }

  // Then the operand's range is the whole axis.
  lemma SameExtent(outer: nat, from: nat, rows: nat, n: nat, p: nat)
    requires Mul(outer, Mul(rows, p)) > 0 && Mul(outer, Mul(n, p)) == Mul(outer, Mul(rows, p))
    requires Mul(outer, Mul(from, p)) == 0 && from + rows <= n
    ensures Mul(from, p) == 0 && Mul(n, p) == Mul(rows, p)
  {
    NoElements(outer, Mul(from, p));
    SameFactor(outer, Mul(n, p), Mul(rows, p));
  }

  lemma SameFactor(a: nat, b: nat, c: nat)
    requires a > 0 && Mul(a, b) == Mul(a, c)
    ensures b == c
  {
    StrictFactor(a, b, c);
    StrictFactor(a, c, b);
  }

  lemma StrictFactor(a: nat, b: nat, c: nat)
    ensures a > 0 && b < c ==> Mul(a, b) < Mul(a, c)
  {
    if a > 0 && b < c {
      Spread(a, b, c - b);
      Distribute(1, a - 1, c - b);
    }
  }

  // The same operands with other elements.
  function Refilled<T>(ts: seq<Tensor<T>>, fill: seq<T>): seq<Tensor<T>>
    requires |fill| == |Joined(ts)|
  {
    if ts == [] then []
    else
      var init := ts[..|ts| - 1];
      Refilled(init, fill[..|Joined(init)|]) + [Tensor(ts[|ts| - 1].dims, fill[|Joined(init)|..])]
  }

  ghost predicate SameShapes<T>(ts: seq<Tensor<T>>, us: seq<Tensor<T>>) {
    |us| == |ts| && forall k :: 0 <= k < |ts| ==> us[k].dims == ts[k].dims && us[k].WellFormed()
  }

  lemma JoinedLast<T>(ts: seq<Tensor<T>>, t: Tensor<T>)
    ensures Joined(ts + [t]) == Joined(ts) + t.data
  {
    assert (ts + [t])[..|ts|] == ts;
  }

  lemma SameShapesLast<T>(ts: seq<Tensor<T>>, us: seq<Tensor<T>>, t: Tensor<T>, u: Tensor<T>)
    requires SameShapes(ts, us) && u.dims == t.dims && u.WellFormed()
    ensures SameShapes(ts + [t], us + [u])
  {
  }

  lemma {:induction false} RefilledJoins<T>(ts: seq<Tensor<T>>, fill: seq<T>)
    requires |fill| == |Joined(ts)| && forall k :: 0 <= k < |ts| ==> ts[k].WellFormed()
    ensures SameShapes(ts, Refilled(ts, fill)) && Joined(Refilled(ts, fill)) == fill
  {
    if ts != [] {
      var init, last := ts[..|ts| - 1], ts[|ts| - 1];
      var front, back := fill[..|Joined(init)|], fill[|Joined(init)|..];
      var us, u := Refilled(init, front), Tensor(last.dims, back);
      RefilledJoins(init, front);
      JoinedLast(us, u);
      SameShapesLast(init, us, last, u);
      assert ts == init + [last] && fill == front + back;
    }
  }

  lemma SameShapesCompatible<T>(ts: seq<Tensor<T>>, us: seq<Tensor<T>>, axis: nat)
    requires Compatible(ts, axis) && SameShapes(ts, us)
    ensures Compatible(us, axis) && (forall u :: u in us ==> u.WellFormed()) && us[0].dims == ts[0].dims
  {
    forall u | u in us
      ensures u.WellFormed() && SameBeside(u.dims, us[0].dims, axis)
    {
      var k :| 0 <= k < |us| && us[k] == u;
      assert ts[k] in ts && SameBeside(ts[k].dims, ts[0].dims, axis);
    }
  }

  ghost predicate AllRecovered<T>(ts: seq<Tensor<T>>, axis: nat)
    requires Compatible(ts, axis)
  {
    forall k :: 0 <= k < |ts| ==> Recovered(ts, axis, k)
  }

  // Operands of these shapes come out whole, whatever their elements.
  ghost predicate AlwaysRecovered<T(!new)>(ts: seq<Tensor<T>>, axis: nat) {
    forall us: seq<Tensor<T>> :: SameShapes(ts, us) && Compatible(us, axis) ==> AllRecovered(us, axis)
  }

  // The first operand with data, and that there is another.
  lemma {:induction false} FirstWithData<T>(ts: seq<Tensor<T>>, j: nat) returns (k: nat)
    requires j < |ts| && ts[j].data != []
    ensures k <= j && ts[k].data != [] && forall i :: 0 <= i < k ==> ts[i].data == []
  {
    if i :| 0 <= i < j && ts[i].data != [] {
      k := FirstWithData(ts, i);
    } else {
      k := j;
    }
  }

  lemma StripsSecond<T>(data: seq<T>, at: nat, count: nat, stride: nat, len: nat)
    requires count >= 2 && 0 < len && at + stride + len <= |data|
    ensures |Strips(data, at, count, stride, len)| > len
    ensures Strips(data, at, count, stride, len)[len] == data[at + stride]
  {
    var rest := Strips(data, at + stride, count - 1, stride, len);
    assert Strips(data, at, count, stride, len) == Piece(data, at, len) + rest;
    assert rest == Piece(data, at + stride, len) + Strips(data, at + stride + stride, count - 2, stride, len);
  }

  lemma TwiceFits(a: nat, x: nat)
    requires a >= 2
    ensures Mul(a, x) >= 2 * x && Mul(a, 0) == 0
  {
    Distribute(2, a - 2, x);
  }

  lemma TwoStrips<T>(data: seq<T>, outer: nat, stride: nat, len: nat)
    requires outer >= 2 && 0 < len <= stride && |data| == Mul(outer, stride)
    ensures stride < |data| && len < Mul(outer, len)
    ensures var picked := Strips(data, 0, outer, stride, len);
      len < |picked| && picked[len] == data[stride]
  {
    TwiceFits(outer, stride);
    TwiceFits(outer, len);
    StripsSecond(data, 0, outer, stride, len);
  }

  // With two positions before the axis, the first operand with data gets the element after
  // its first strip from another place of the joined data than its own.
  lemma SecondStrip<T>(ts: seq<Tensor<T>>, axis: nat, pre: seq<nat>, tail: seq<nat>, k: nat)
    requires Compatible(ts, axis) && Beside(ts, axis, pre, tail) && k < |ts|
    requires Product(pre) >= 2 && ts[k].data != [] && forall i :: 0 <= i < k ==> ts[i].data == []
    ensures forall t :: t in ts ==> axis < |t.dims|
    ensures var own, picked := Mul(ts[k].dims[axis], Product(tail)), Mul(SumAlong(ts, axis), Product(tail));
      && 0 < own <= picked < |Joined(ts)| && own < |ts[k].data|
      && ts[k].data[own] == Joined(ts)[own]
      && own < |PickedOut(ts, axis, k)| && PickedOut(ts, axis, k)[own] == Joined(ts)[picked]
  {
    HasAxis(ts, axis, pre, tail);
    var outer, p := Product(pre), Product(tail);
    var rows, n := ts[k].dims[axis], SumAlong(ts, axis);
    PickedStrips(ts, axis, pre, tail, k);
    DataSize(ts[k], axis, pre, tail);
    assert Mul(outer, 0) == 0;
    JoinedSize(ts, axis, pre, tail);
    SumBound(ts, axis, k);
    NoMore(rows, n, p);
    NothingBefore(ts, axis, pre, tail, k);
    JoinedPiece(ts, k);
    TwoStrips(Joined(ts), outer, Mul(n, p), Mul(rows, p));
  }

  lemma NothingBefore<T>(ts: seq<Tensor<T>>, axis: nat, pre: seq<nat>, tail: seq<nat>, k: nat)
    requires Beside(ts, axis, pre, tail) && k <= |ts| && Product(pre) > 0
    requires forall i :: 0 <= i < k ==> ts[i].data == []
    ensures forall t :: t in ts ==> axis < |t.dims|
    ensures Joined(ts[..k]) == [] && Mul(SumAlong(ts[..k], axis), Product(tail)) == 0
  {
    assert forall t :: t in ts ==> Fits(t, axis, pre, tail);
    assert forall t :: t in ts[..k] ==> t in ts;
    JoinedNone(ts[..k]);
    JoinedSize(ts[..k], axis, pre, tail);
    NoElements(Product(pre), Mul(SumAlong(ts[..k], axis), Product(tail)));
  }

  // Another operand with data makes the two places differ.
  lemma PlacesDiffer<T>(ts: seq<Tensor<T>>, axis: nat, pre: seq<nat>, tail: seq<nat>, k: nat, j: nat)
    requires Beside(ts, axis, pre, tail) && k < j < |ts| && ts[j].data != []
    ensures forall t :: t in ts ==> axis < |t.dims|
    ensures Mul(ts[k].dims[axis], Product(tail)) < Mul(SumAlong(ts, axis), Product(tail))
  {
    HasAxis(ts, axis, pre, tail);
    var own, rows, before, p := ts[k].dims[axis], ts[j].dims[axis], SumAlong(ts[..j], axis), Product(tail);
    DataSize(ts[j], axis, pre, tail);
    SumBound(ts, axis, j);
    assert ts[..j][..k] == ts[..k] && ts[..j][k] == ts[k];
    SumBound(ts[..j], axis, k);
    Larger(Product(pre), own, rows, before, SumAlong(ts, axis), p);
  }

  lemma Larger(outer: nat, own: nat, rows: nat, before: nat, all: nat, p: nat)
    requires Mul(outer, Mul(rows, p)) > 0 && own <= before && before + rows <= all
    ensures Mul(own, p) < Mul(all, p)
  {
    assert Mul(outer, 0) == 0;
    Distribute(before, rows, p);
    NoMore(own, before, p);
    NoMore(before + rows, all, p);
  }

  lemma UnlikePlaces<T>(ts: seq<Tensor<T>>, axis: nat, pre: seq<nat>, tail: seq<nat>, k: nat, own: nat, picked: nat)
    requires Compatible(ts, axis) && Beside(ts, axis, pre, tail) && k < |ts| && axis < |ts[k].dims|
    requires Product(pre) >= 2 && ts[k].data != [] && forall i :: 0 <= i < k ==> ts[i].data == []
    requires own == Mul(ts[k].dims[axis], Product(tail)) && picked < |Joined(ts)| && own < |Joined(ts)|
    requires (forall t :: t in ts ==> axis < |t.dims|) && picked == Mul(SumAlong(ts, axis), Product(tail))
    requires Joined(ts)[own] != Joined(ts)[picked]
    ensures !AllRecovered(ts, axis)
  {
    SecondStrip(ts, axis, pre, tail, k);
    assert !Recovered(ts, axis, k);
  }

  // The first operand with data and the two places, when there is another with data.
  lemma TwoPlaces<T>(ts: seq<Tensor<T>>, axis: nat, pre: seq<nat>, tail: seq<nat>)
    returns (k: nat, own: nat, picked: nat)
    requires Compatible(ts, axis) && Beside(ts, axis, pre, tail) && Product(pre) >= 2 && !OneHasData(ts)
    ensures forall t :: t in ts ==> axis < |t.dims|
    ensures k < |ts| && ts[k].data != [] && forall i :: 0 <= i < k ==> ts[i].data == []
    ensures own == Mul(ts[k].dims[axis], Product(tail)) && picked == Mul(SumAlong(ts, axis), Product(tail))
    ensures own < picked < |Joined(ts)|
  {
    HasAxis(ts, axis, pre, tail);
    var i, j :| 0 <= i < j < |ts| && ts[i].data != [] && ts[j].data != [];
    k := FirstWithData(ts, i);
    SecondStrip(ts, axis, pre, tail, k);
    PlacesDiffer(ts, axis, pre, tail, k, j);
    own, picked := Mul(ts[k].dims[axis], Product(tail)), Mul(SumAlong(ts, axis), Product(tail));
  }

  // The operands refilled, and what stays as it was.
  lemma RefilledBeside<T>(ts: seq<Tensor<T>>, axis: nat, pre: seq<nat>, tail: seq<nat>, fill: seq<T>)
    returns (us: seq<Tensor<T>>)
    requires Compatible(ts, axis) && Beside(ts, axis, pre, tail) && |fill| == |Joined(ts)|
    requires pre == ts[0].dims[..axis] && tail == ts[0].dims[axis + 1..]
    ensures SameShapes(ts, us) && Compatible(us, axis) && Beside(us, axis, pre, tail) && Joined(us) == fill
    ensures (forall t :: t in ts ==> axis < |t.dims|) && forall u :: u in us ==> axis < |u.dims|
    ensures SumAlong(us, axis) == SumAlong(ts, axis)
    ensures forall i :: 0 <= i < |ts| ==> us[i].dims == ts[i].dims && |us[i].data| == |ts[i].data|
  {
    HasAxis(ts, axis, pre, tail);
    us := Refilled(ts, fill);
    RefilledJoins(ts, fill);
    SameShapesCompatible(ts, us, axis);
    CompatibleBeside(us, axis);
    SameData(ts, us, axis);
  }

  // Elements for which an operand does not come out whole.
  lemma Unrecovered<T(!new)>(ts: seq<Tensor<T>>, axis: nat, x: T, y: T) returns (us: seq<Tensor<T>>)
    requires Compatible(ts, axis) && (forall t :: t in ts ==> t.WellFormed()) && x != y
    requires Product(ts[0].dims[..axis]) >= 2 && !OneHasData(ts)
    ensures SameShapes(ts, us) && Compatible(us, axis) && !AllRecovered(us, axis)
  {
    var pre, tail := ts[0].dims[..axis], ts[0].dims[axis + 1..];
    CompatibleBeside(ts, axis);
    var k, own, picked := TwoPlaces(ts, axis, pre, tail);
    us := RefilledBeside(ts, axis, pre, tail, Marked(|Joined(ts)|, picked, x, y));
    UnlikePlaces(us, axis, pre, tail, k, own, picked);
  }

  // One element among others.
  function Marked<T>(n: nat, at: nat, x: T, y: T): (s: seq<T>)
    ensures |s| == n && forall m :: 0 <= m < n ==> s[m] == if m == at then y else x
  {
    seq(n, m => if m == at then y else x)
  }

  lemma {:induction false} SameSums<T>(ts: seq<Tensor<T>>, us: seq<Tensor<T>>, axis: nat)
    requires SameShapes(ts, us) && forall k :: 0 <= k < |ts| ==> axis < |ts[k].dims|
    ensures (forall t :: t in ts ==> axis < |t.dims|) && forall u :: u in us ==> axis < |u.dims|
    ensures SumAlong(us, axis) == SumAlong(ts, axis)
  {
    if ts != [] {
      SameSums(ts[..|ts| - 1], us[..|us| - 1], axis);
    }
  }

  // Other elements leave the operands' sizes as they are.
  lemma SameData<T>(ts: seq<Tensor<T>>, us: seq<Tensor<T>>, axis: nat)
    requires SameShapes(ts, us) && forall i :: 0 <= i < |ts| ==> ts[i].WellFormed() && axis < |ts[i].dims|
    ensures (forall t :: t in ts ==> axis < |t.dims|) && forall u :: u in us ==> axis < |u.dims|
    ensures SumAlong(us, axis) == SumAlong(ts, axis)
    ensures forall i :: 0 <= i < |ts| ==> us[i].dims == ts[i].dims && |us[i].data| == |ts[i].data|
  {
    SameSums(ts, us, axis);
  }

  // Whatever their elements, operands of these shapes come out whole exactly when there is
  // at most one position before the axis or at most one of them has data.
  lemma RecoveredExactly<T(!new)>(ts: seq<Tensor<T>>, axis: nat, x: T, y: T)
    requires Compatible(ts, axis) && (forall t :: t in ts ==> t.WellFormed()) && x != y
    ensures AlwaysRecovered(ts, axis) <==> Product(ts[0].dims[..axis]) <= 1 || OneHasData(ts)
  {
    CompatibleBeside(ts, axis);
    HasAxis(ts, axis, ts[0].dims[..axis], ts[0].dims[axis + 1..]);
    if Product(ts[0].dims[..axis]) <= 1 || OneHasData(ts) {
      forall us: seq<Tensor<T>>, k | SameShapes(ts, us) && Compatible(us, axis) && 0 <= k < |us|
        ensures Recovered(us, axis, k)
      {
        SameShapesCompatible(ts, us, axis);
        if Product(ts[0].dims[..axis]) <= 1 {
          OnePositionRecovers(us, axis, k);
        } else {
          SameData(ts, us, axis);
          OneOperandRecovers(us, axis, k);
        }
      }
    } else {
      var us := Unrecovered(ts, axis, x, y);
    }
  }

  lemma RangesInside(pre: seq<nat>, n: nat, tail: seq<nat>, from: nat, rows: nat)
    requires from + rows <= n
    ensures ValidRanges(Dims(pre, n, tail), Ranges(pre, from, rows, tail))
    ensures Extents(Ranges(pre, from, rows, tail)) == Dims(pre, rows, tail)
  {
  }

  // Along any axis the concatenation is well-formed, and the operand's ranges lie in it and
  // have the operand's shape.
  lemma OperandInside<T>(ts: seq<Tensor<T>>, axis: nat, k: nat)
    requires Compatible(ts, axis) && (forall t :: t in ts ==> t.WellFormed()) && k < |ts|
    ensures forall t :: t in ts ==> axis < |t.dims|
    ensures var whole := Tensor(ts[0].dims[axis := SumAlong(ts, axis)], Joined(ts));
            && whole.WellFormed()
            && ValidRanges(whole.dims, OperandRanges(ts, axis, k))
            && Extents(OperandRanges(ts, axis, k)) == ts[k].dims
  {
    var pre, tail := ts[0].dims[..axis], ts[0].dims[axis + 1..];
    CompatibleBeside(ts, axis);
    HasAxis(ts, axis, pre, tail);
    OperandShape(ts[0], axis, pre, tail, SumAlong(ts, axis));
    OperandShape(ts[k], axis, pre, tail, 0);
    JoinedSize(ts, axis, pre, tail);
    AxisProduct(pre, SumAlong(ts, axis), tail);
    SumBound(ts, axis, k);
    RangesInside(pre, SumAlong(ts, axis), tail, SumAlong(ts[..k], axis), ts[k].dims[axis]);
  }

  // In particular along axis 0.
  lemma ConcatRecovers<T>(ts: seq<Tensor<T>>, k: nat)
    requires Compatible(ts, 0) && (forall t :: t in ts ==> t.WellFormed()) && k < |ts|
    ensures forall t :: t in ts ==> 0 < |t.dims|
    ensures var whole := Tensor(ts[0].dims[0 := SumAlong(ts, 0)], Joined(ts));
            && whole.WellFormed()
            && ValidRanges(whole.dims, OperandRanges(ts, 0, k))
            && Extents(OperandRanges(ts, 0, k)) == ts[k].dims
            && SliceOf(whole.data, whole.dims, OperandRanges(ts, 0, k), 0) == ts[k].data
  {
    OperandInside(ts, 0, k);
    assert ts[0].dims[..0] == [];
    OnePositionRecovers(ts, 0, k);
  }
}
