/** The behaviour the sparse-array tests pin down, stated over the model:
    the two fixture arrays (one missing-filled, one zero-filled), the boolean
    and single-precision constructions, slicing corner cases, `take`, copy and
    cast buffer independence, buffer sharing, the binary-operator checks and
    iteration. */
module Behaviour {
  import opened Elements
  import opened SparseIndex
  import opened SparseValues
  import opened BinaryOps
  import opened SparseArrays

  /** [nan, nan, 1, 2, 3, nan, 4, 5, nan, 6] */
  function ArrData(): seq<Elem> {
    [Missing, Missing, Num(1), Num(2), Num(3), Missing, Num(4), Num(5), Missing, Num(6)]
  }

  /** [0, 0, 1, 2, 3, 0, 4, 5, 0, 6] */
  function ZarrData(): seq<Elem> {
    [Num(0), Num(0), Num(1), Num(2), Num(3), Num(0), Num(4), Num(5), Num(0), Num(6)]
  }

  /** The missing-filled fixture `arr`: the canonical floating array of
      ArrData with fill NaN (by DenotesIsSparsify, exactly
      `Sparsify(ArrData(), Missing, Float)`). */
  predicate IsArr(a: SparseVec) {
    Denotes(a, ArrData(), Missing, Float)
  }

  /** The zero-filled fixture `zarr`. */
  predicate IsZarr(z: SparseVec) {
    Denotes(z, ZarrData(), Num(0), Float)
  }

  /** Bounds-checked access on the missing-filled fixture: stored and fill
      positions read their dense values, 11 and -11 are out of bounds, and -1
      reads the last element. */
  lemma GetItemMissingFilled(a: SparseVec)
    requires IsArr(a)
    ensures Get(a, 1) == Ok(Missing) && Get(a, 2) == Ok(Num(1)) && Get(a, 7) == Ok(Num(5))
    ensures Get(a, 11) == Err(OutOfBounds) && Get(a, -11) == Err(OutOfBounds)
    ensures Get(a, -1) == Get(a, 9) == Ok(Num(6))
  {
  }

  /** The same on the zero-filled fixture. */
  lemma GetItemZeroFilled(z: SparseVec)
    requires IsZarr(z)
    ensures Get(z, 0) == Ok(Num(0)) && Get(z, 2) == Ok(Num(1)) && Get(z, 7) == Ok(Num(5))
  {
  }

  /** For every position of an array built from dense data, `a[i]` and
      `a[-i]` equal the dense values at i and at length - i (0 for i = 0). */
  lemma GetMatchesDense(data: seq<Elem>, fill: Elem, dtype: DType, i: nat)
    requires i < |data|
    ensures Get(Sparsify(data, fill, dtype), i) == Ok(data[i])
    ensures Get(Sparsify(data, fill, dtype), -(i as int)) == Ok(data[if i == 0 then 0 else |data| - i])
  {
    DenseRoundTrip(data, fill, dtype);
  }

  /** Scalar `take` of 0, 2 and 6 reads the dense values; 11 and -11 are
      out of bounds. */
  lemma TakeScalarExamples(a: SparseVec)
    requires IsArr(a)
    ensures TakeOne(a, 0) == Ok(Missing) && TakeOne(a, 2) == Ok(Num(1)) && TakeOne(a, 6) == Ok(Num(4))
    ensures TakeOne(a, 11) == Err(OutOfBounds) && TakeOne(a, -11) == Err(OutOfBounds)
  {
  }

  /** `take([2, 3])` equals the array built from [1, 2]. */
  lemma TakeTwoExample(a: SparseVec)
    requires IsArr(a)
    ensures TakeMany(a, [2, 3]).Ok? && Denotes(TakeMany(a, [2, 3]).value, [Num(1), Num(2)], Missing, Float)
  {
    TakeManyIsSparsifiedPick(a, [2, 3], [Num(1), Num(2)]);
  }

  /** `take([0, 1, 2])` equals the array built from [nan, nan, 1]. */
  lemma TakeThreeExample(a: SparseVec)
    requires IsArr(a)
    ensures TakeMany(a, [0, 1, 2]).Ok? && Denotes(TakeMany(a, [0, 1, 2]).value, [Missing, Missing, Num(1)], Missing, Float)
  {
    TakeManyIsSparsifiedPick(a, [0, 1, 2], [Missing, Missing, Num(1)]);
  }

  /** `take` of in-bounds positions equals the array built from the dense
      values at those positions. */
  lemma TakeManyIsSparsifiedPick(a: SparseVec, positions: seq<int>, picked: seq<Elem>)
    requires a.Valid()
    requires |picked| == |positions|
    requires forall k :: 0 <= k < |positions| ==> Get(a, positions[k]) == Ok(picked[k])
    ensures TakeMany(a, positions).Ok?
    ensures Denotes(TakeMany(a, positions).value, picked, a.fill, a.dtype)
  {
    var r := TakeMany(a, positions);
    assert r.Ok?;
    assert ToDense(r.value) == picked;
  }

  /** [False, False, True, True, False, False] with fill False keeps the two
      True values at positions 2 and 3 and densifies back to the input. */
  lemma BoolConstruction()
    ensures var data := [Flag(false), Flag(false), Flag(true), Flag(true), Flag(false), Flag(false)];
      var a := Sparsify(data, Flag(false), Bool);
      a == SparseVec(IntIndex(6, [2, 3]), [Flag(true), Flag(true)], Flag(false), Bool) &&
      ToDense(a) == data
  {
    var data := [Flag(false), Flag(false), Flag(true), Flag(true), Flag(false), Flag(false)];
    var a := Sparsify(data, Flag(false), Bool);
    ExactPositions(a, data, [2, 3]);
    DenseRoundTrip(data, Flag(false), Bool);
  }

  /** [1, nan, 3] with the missing fill keeps 1 and 3 at positions 0 and 2. */
  lemma Float32Construction()
    ensures var data := [Num(1), Missing, Num(3)];
      var a := Sparsify(data, Missing, Float);
      a == SparseVec(IntIndex(3, [0, 2]), [Num(1), Num(3)], Missing, Float) &&
      ToDense(a) == data
  {
    var data := [Num(1), Missing, Num(3)];
    var a := Sparsify(data, Missing, Float);
    ExactPositions(a, data, [0, 2]);
    DenseRoundTrip(data, Missing, Float);
  }

  /** When the kept positions of `data` are exactly `expected`, the array
      built from it stores those positions and their elements. */
  lemma ExactPositions(a: SparseVec, data: seq<Elem>, expected: seq<nat>)
    requires a == Sparsify(data, a.fill, a.dtype)
    requires StrictlyIncreasing(expected)
    requires forall k :: 0 <= k < |expected| ==> expected[k] < |data|
    requires forall i :: 0 <= i < |data| ==> (i in expected <==> !IsFill(data[i], a.fill))
    ensures a.index.indices == expected
    ensures a.values == seq(|expected|, k requires 0 <= k < |expected| => data[expected[k]])
  {
    forall x: nat ensures x in a.index.indices <==> x in expected {
      if x in a.index.indices {
        var k :| 0 <= k < |a.index.indices| && a.index.indices[k] == x;
      }
      if x in expected {
        var k :| 0 <= k < |expected| && expected[k] == x;
      }
    }
    IncreasingDeterminedByMembers(a.index.indices, expected);
  }

  /** `arr[:-3]` is the array built from the first seven dense values. */
  lemma SliceHeadExample(a: SparseVec)
    requires IsArr(a)
    ensures Denotes(Slice(a, None, Some(-3)), ArrData()[..7], Missing, Float)
  {
    assert SliceWindow(10, None, Some(-3)) == (0, 7);
  }

  /** `arr[-4:]` is the array built from the last four dense values. */
  lemma SliceTailExample(a: SparseVec)
    requires IsArr(a)
    ensures Denotes(Slice(a, Some(-4), None), ArrData()[6..], Missing, Float)
  {
    assert SliceWindow(10, Some(-4), None) == (6, 10);
  }

  /** `arr[-12:]` is the whole array. */
  lemma SliceFromFarStartExample(a: SparseVec)
    requires IsArr(a)
    ensures Slice(a, Some(-12), None) == a
  {
    SliceFromFarBeforeStart(a, -12);
  }

  /** `arr[:-12]` is the empty array. */
  lemma SliceToFarStopExample(a: SparseVec)
    requires IsArr(a)
    ensures Denotes(Slice(a, None, Some(-12)), [], Missing, Float)
  {
  }

  /** Construction from a sparse array keeps its fill value and values. */
  method ConstructFromSparse(src: SparseArray) returns (res: SparseArray)
    requires src.Valid()
    ensures res.Valid() && res.fill == src.fill && res.spValues[..] == src.spValues[..]
  {
    res := new SparseArray.FromSparse(src, false);
  }

  /** With copy=true, writing into the new array's buffer leaves the source
      as it was. */
  method CopiedBufferIsIndependent(src: SparseArray, k: nat, x: Elem) returns (cp: SparseArray)
    requires src.Valid()
    ensures cp.Valid() && src.Valid()
    ensures src.Value() == old(src.Value())
    ensures cp.spValues[..] == Overwrite(src.spValues[..], k, x)
  {
    cp := new SparseArray.FromSparse(src, true);
    cp.AssignPrefix(k, x);
  }

  /** Without copy, the buffer is shared: a write through the new array is
      seen through the source. */
  method SharedBufferIsVisible(src: SparseArray, k: nat, x: Elem) returns (view: SparseArray)
    requires src.Valid()
    modifies src.spValues
    ensures view.Valid() && src.Valid() && view.spValues == src.spValues
    ensures src.spValues[..] == Overwrite(old(src.spValues[..]), k, x)
    ensures src.Value() == old(src.Value()).(values := Overwrite(old(src.spValues[..]), k, x))
  {
    view := new SparseArray.FromSparse(src, false);
    view.AssignPrefix(k, x);
  }

  /** A shallow copy shares the source's buffer. */
  method ShallowCopyShares(src: SparseArray) returns (arr2: SparseArray)
    requires src.Valid()
    ensures arr2.Valid() && arr2.spValues == src.spValues && arr2.Value() == src.Value()
  {
    arr2 := src.Copy(false);
  }

  /** Casting a floating array to a floating dtype gives a new buffer:
      writing into it leaves the source as it was. */
  method CastBufferIsIndependent(src: SparseArray, k: nat, x: Elem) returns (res: SparseArray)
    requires src.Valid() && src.dtype == Float
    ensures res.Valid() && src.Valid()
    ensures src.Value() == old(src.Value())
    ensures res.spValues[..] == Overwrite(Cast(src.Value(), Float).value.values, k, x)
  {
    var r := src.AsType(Float);
    res := r.value;
    res.AssignPrefix(k, x);
  }

  /** Casting a floating array to an integer dtype fails with the cast error. */
  method FloatToIntCastFails(src: SparseArray) returns (e: Error)
    requires src.Valid() && src.dtype == Float
    ensures e == InvalidCast
  {
    var r := src.AsType(Int);
    e := r.error;
  }

  /** One operator check over two arrays built from dense data with a shared
      fill value: the sparse result densifies to the elementwise result, a
      dense operand on either side gives the same sparse array, and the
      scalar form densifies to the elementwise result with fill op(fill, x). */
  lemma CheckOp(op: Op, d1: seq<Elem>, d2: seq<Elem>, fill: Elem, x: Elem)
    requires |d1| == |d2|
    ensures var first, second := Sparsify(d1, fill, Float), Sparsify(d2, fill, Float);
      var res := SparseOp(op, first, second);
      res.Ok? && ToDense(res.value) == Elementwise(op, d1, d2) &&
      res.value.fill == Apply(op, fill, fill) &&
      SparseDenseOp(op, first, ToDense(second), Float) == res &&
      DenseSparseOp(op, ToDense(first), Float, second) == res &&
      ToDense(ScalarOp(op, first, x)) == Elementwise(op, d1, seq(|d1|, _ => x)) &&
      ScalarOp(op, first, x).fill == Apply(op, fill, x)
  {
    var first, second := Sparsify(d1, fill, Float), Sparsify(d2, fill, Float);
    DenseRoundTrip(d1, fill, Float);
    DenseRoundTrip(d2, fill, Float);
    DenseOperandAgrees(op, first, second);
  }

  /** Iterating the array built from [1, 2, 3] yields 1, 2, 3 in order. */
  method IterateExample() returns (xs: seq<Elem>)
    ensures xs == [Num(1), Num(2), Num(3)]
  {
    var arr := new SparseArray.FromDense([Num(1), Num(2), Num(3)], Missing, Float);
    xs := arr.Elements();
    DenseRoundTrip([Num(1), Num(2), Num(3)], Missing, Float);
  }
}
