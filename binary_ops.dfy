/** Elementwise binary operators on sparse arrays: sparse with sparse over
    the union of the occupied positions, sparse with a dense sequence (either
    side), and sparse with a scalar. The result's fill value is always the
    operator applied to the operands' fill values. */
module BinaryOps {
  import opened Elements
  import opened SparseIndex
  import opened SparseValues

  /** The dense reference: `op` applied position by position. */
  function Elementwise(op: Op, x: seq<Elem>, y: seq<Elem>): (r: seq<Elem>)
    requires |x| == |y|
    ensures |r| == |x|
    ensures forall i :: 0 <= i < |r| ==> r[i] == Apply(op, x[i], y[i])
  {
    seq(|x|, i requires 0 <= i < |x| => Apply(op, x[i], y[i]))
  }

  /** `op(a, b)` for two sparse arrays: the result stores a value at every
      position occupied in either operand, substituting an operand's fill
      value where it has none, and its fill value is `op(a.fill, b.fill)`. */
  function SparseOp(op: Op, a: SparseVec, b: SparseVec): (r: Result<SparseVec>)
    requires a.Valid() && b.Valid()
    ensures r.Ok? <==> a.Length() == b.Length()
    ensures r.Err? ==> r.error == LengthMismatch
    ensures r.Ok? ==> r.value.Valid() && r.value.fill == Apply(op, a.fill, b.fill)
    ensures r.Ok? ==> r.value.dtype == Promote(a.dtype, b.dtype)
    ensures r.Ok? ==> ToDense(r.value) == Elementwise(op, ToDense(a), ToDense(b))
  {
    if a.Length() != b.Length() then Err(LengthMismatch)
    else
      var u := Union(a.index, b.index);
      var vals := seq(|u.indices|, k requires 0 <= k < |u.indices| =>
        Apply(op, At(a, u.indices[k]), At(b, u.indices[k])));
      var r := SparseVec(u, vals, Apply(op, a.fill, b.fill), Promote(a.dtype, b.dtype));
      UnionDense(op, a, b, r);
      Ok(r)
  }

  lemma UnionDense(op: Op, a: SparseVec, b: SparseVec, r: SparseVec)
    requires a.Valid() && b.Valid() && a.Length() == b.Length()
    requires r.Valid() && r.Length() == a.Length() && r.fill == Apply(op, a.fill, b.fill)
    requires forall p :: p in r.index.indices <==> p in a.index.indices || p in b.index.indices
    requires forall k :: 0 <= k < |r.values| ==>
      r.values[k] == Apply(op, At(a, r.index.indices[k]), At(b, r.index.indices[k]))
    ensures ToDense(r) == Elementwise(op, ToDense(a), ToDense(b))
  {
    var d, da, db := ToDense(r), ToDense(a), ToDense(b);
    forall i | 0 <= i < |d| ensures d[i] == Apply(op, da[i], db[i]) {
      if i in r.index.indices {
        var k :| 0 <= k < |r.index.indices| && r.index.indices[k] == i;
        assert d[i] == r.values[k];
        assert da[i] == At(a, i) && db[i] == At(b, i);
      } else {
        assert da[i] == a.fill && db[i] == b.fill;
      }
    }
  }

  /** `op(a, d)` for a dense right operand: the dense sequence is first made
      sparse with a's fill value. */
  function SparseDenseOp(op: Op, a: SparseVec, d: seq<Elem>, dtype: DType): (r: Result<SparseVec>)
    requires a.Valid()
    ensures r.Ok? <==> a.Length() == |d|
    ensures r.Err? ==> r.error == LengthMismatch
    ensures r.Ok? ==> r.value.Valid() && r.value.fill == Apply(op, a.fill, a.fill)
    ensures r.Ok? ==> ToDense(r.value) == Elementwise(op, ToDense(a), d)
  {
    if a.Length() != |d| then Err(LengthMismatch)
    else
      DenseRoundTrip(d, a.fill, dtype);
      SparseOp(op, a, Sparsify(d, a.fill, dtype))
  }

  /** `op(d, b)` for a dense left operand: the dense sequence is first made
      sparse with b's fill value. */
  function DenseSparseOp(op: Op, d: seq<Elem>, dtype: DType, b: SparseVec): (r: Result<SparseVec>)
    requires b.Valid()
    ensures r.Ok? <==> |d| == b.Length()
    ensures r.Err? ==> r.error == LengthMismatch
    ensures r.Ok? ==> r.value.Valid() && r.value.fill == Apply(op, b.fill, b.fill)
    ensures r.Ok? ==> ToDense(r.value) == Elementwise(op, d, ToDense(b))
  {
    if |d| != b.Length() then Err(LengthMismatch)
    else
      DenseRoundTrip(d, b.fill, dtype);
      SparseOp(op, Sparsify(d, b.fill, dtype), b)
  }

  /** With matching fill values, replacing a canonical sparse operand by its
      dense values gives the same sparse result, on either side. */
  lemma DenseOperandAgrees(op: Op, a: SparseVec, b: SparseVec)
    requires a.Valid() && b.Valid() && a.Canonical() && b.Canonical()
    requires a.fill == b.fill
    ensures SparseDenseOp(op, a, ToDense(b), b.dtype) == SparseOp(op, a, b)
    ensures DenseSparseOp(op, ToDense(a), a.dtype, b) == SparseOp(op, a, b)
  {
    SparseRoundTrip(a);
    SparseRoundTrip(b);
  }

  /** `op(a, x)` for a scalar: the index is kept, every stored value is
      combined with x, and the fill value becomes `op(a.fill, x)`. */
  function ScalarOp(op: Op, a: SparseVec, x: Elem): (r: SparseVec)
    requires a.Valid()
    ensures r.Valid() && r.index == a.index
    ensures r.fill == Apply(op, a.fill, x)
    ensures |ToDense(r)| == a.Length()
    ensures forall i :: 0 <= i < a.Length() ==> ToDense(r)[i] == Apply(op, ToDense(a)[i], x)
  {
    var vals := seq(|a.values|, k requires 0 <= k < |a.values| => Apply(op, a.values[k], x));
    var r := SparseVec(a.index, vals, Apply(op, a.fill, x), Promote(a.dtype, KindOf(x)));
    assert forall i :: 0 <= i < a.Length() ==> ToDense(r)[i] == Apply(op, ToDense(a)[i], x) by {
      forall i | 0 <= i < a.Length() ensures ToDense(r)[i] == Apply(op, ToDense(a)[i], x) {
        if i in a.index.indices {
          var k :| 0 <= k < |a.index.indices| && a.index.indices[k] == i;
          assert ToDense(r)[i] == vals[k];
        }
      }
    }
    r
  }

  /** The array whose every position is x: a scalar broadcast as a sparse
      operand that is its own fill value. */
  function Broadcast(x: Elem, length: nat): (c: SparseVec)
    ensures c.Valid() && c.Length() == length && c.values == []
    ensures forall i :: 0 <= i < length ==> ToDense(c)[i] == x
  {
    SparseVec(IntIndex(length, []), [], x, KindOf(x))
  }

  /** A scalar operand acts as the broadcast array of itself: the scalar
      result and the sparse result agree in dense values and fill value. */
  lemma ScalarIsBroadcast(op: Op, a: SparseVec, x: Elem)
    requires a.Valid()
    ensures SparseOp(op, a, Broadcast(x, a.Length())).Ok?
    ensures ToDense(SparseOp(op, a, Broadcast(x, a.Length())).value) == ToDense(ScalarOp(op, a, x))
    ensures SparseOp(op, a, Broadcast(x, a.Length())).value.fill == ScalarOp(op, a, x).fill
  {
    var c := Broadcast(x, a.Length());
    var s := SparseOp(op, a, c).value;
    var t := ScalarOp(op, a, x);
    forall i | 0 <= i < a.Length() ensures ToDense(s)[i] == ToDense(t)[i] {
      assert ToDense(c)[i] == x;
    }
  }
}
