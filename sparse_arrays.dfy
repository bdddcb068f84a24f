/** The sparse array as an object: its index, fill value and dtype never
    change, while its compact values live in an array buffer that a shallow
    copy shares and a deep copy or a cast duplicates. Writes into that buffer
    are the only mutation; item assignment, slice assignment and in-place
    operators are refused. */
module SparseArrays {
  import opened Elements
  import opened SparseIndex
  import opened SparseValues

  /** The left-to-right scan of construction from dense data: the positions
      that are not fill, and their elements, in order. */
  method ScanDense(data: seq<Elem>, fill: Elem) returns (positions: seq<nat>, values: seq<Elem>)
    ensures positions == NonFill(data, fill)
    ensures |values| == |positions|
    ensures forall k :: 0 <= k < |values| ==> values[k] == data[positions[k]]
  {
    positions, values := [], [];
    var i := 0;
    while i < |data|
      invariant 0 <= i <= |data|
      invariant positions == NonFill(data[..i], fill)
      invariant values == Gather(data, positions)
    {
      NonFillSnoc(data, i, fill);
      if !IsFill(data[i], fill) {
        GatherSnoc(data, positions, i);
        positions := positions + [i];
        values := values + [data[i]];
      }
      i := i + 1;
    }
    assert data[..|data|] == data;
  }

  /** Extending the scanned prefix by one element appends its position
      exactly when that element is not fill. */
  lemma NonFillSnoc(data: seq<Elem>, i: nat, fill: Elem)
    requires i < |data|
    ensures NonFill(data[..i + 1], fill) == NonFill(data[..i], fill) + if IsFill(data[i], fill) then [] else [i]
  {
    assert data[..i + 1][..i] == data[..i];
  }

  /** Gathering one more position appends its element. */
  lemma GatherSnoc(data: seq<Elem>, positions: seq<nat>, i: nat)
    requires forall k :: 0 <= k < |positions| ==> positions[k] < |data|
    requires i < |data|
    ensures Gather(data, positions + [i]) == Gather(data, positions) + [data[i]]
  {
  }

  /** s with its first k elements (or all of them, when fewer) replaced by x:
      the effect of the buffer write `sp_values[:k] = x`. */
  function Overwrite(s: seq<Elem>, k: nat, x: Elem): (r: seq<Elem>)
    ensures |r| == |s|
    ensures forall i :: 0 <= i < |s| ==> r[i] == if i < k then x else s[i]
  {
    seq(|s|, i requires 0 <= i < |s| => if i < k then x else s[i])
  }

  class SparseArray {
    const index: IntIndex
    const fill: Elem
    const dtype: DType
    const spValues: array<Elem>

    /** One buffer slot per occupied position of a valid index. */
    ghost predicate Valid()
      reads spValues
    {
      index.Valid() && spValues.Length == |index.indices|
    }

    /** The value the object currently stands for. */
    function Value(): (v: SparseVec)
      reads spValues
      requires Valid()
      ensures v.Valid()
    {
      SparseVec(index, spValues[..], fill, dtype)
    }

    /** `SparseArray(data, fill_value=fill, dtype=dtype)` for dense data. */
    constructor FromDense(data: seq<Elem>, fill: Elem, dtype: DType)
      ensures Valid() && fresh(spValues)
      ensures Value() == Sparsify(data, fill, dtype)
    {
      var positions, values := ScanDense(data, fill);
      this.index := IntIndex(|data|, positions);
      this.fill := fill;
      this.dtype := dtype;
      this.spValues := new Elem[|values|](k requires 0 <= k < |values| => values[k]);
      new;
      assert spValues[..] == values;
    }

    /** `SparseArray(values, sparse_index=index, fill_value=fill)`: an array
        over a fresh buffer holding the given compact values. */
    constructor FromValue(v: SparseVec)
      requires v.Valid()
      ensures Valid() && fresh(spValues) && Value() == v
    {
      this.index := v.index;
      this.fill := v.fill;
      this.dtype := v.dtype;
      this.spValues := new Elem[|v.values|](k requires 0 <= k < |v.values| => v.values[k]);
      new;
      assert spValues[..] == v.values;
    }

    /** `SparseArray(src, copy=copy)`: the same index, fill value and values;
        the buffer is duplicated when `copy` holds and shared otherwise. */
    constructor FromSparse(src: SparseArray, copy: bool)
      requires src.Valid()
      ensures Valid() && Value() == src.Value()
      ensures copy ==> fresh(spValues)
      ensures !copy ==> spValues == src.spValues
    {
      this.index := src.index;
      this.fill := src.fill;
      this.dtype := src.dtype;
      if copy {
        var snapshot := src.spValues[..];
        this.spValues := new Elem[|snapshot|](k requires 0 <= k < |snapshot| => snapshot[k]);
      } else {
        this.spValues := src.spValues;
      }
      new;
      assert spValues[..] == src.spValues[..];
    }

    /** `copy(deep)`: a new array over a duplicated (deep) or shared buffer. */
    method Copy(deep: bool) returns (r: SparseArray)
      requires Valid()
      ensures fresh(r) && r.Valid() && r.Value() == Value()
      ensures deep ==> fresh(r.spValues)
      ensures !deep ==> r.spValues == spValues
    {
      r := new SparseArray.FromSparse(this, deep);
    }

    /** `astype(target)`: a new array over a fresh buffer holding the cast
        values, or the floating-point cast error. */
    method AsType(target: DType) returns (r: Result<SparseArray>)
      requires Valid()
      ensures r.Err? <==> Cast(Value(), target).Err?
      ensures r.Err? ==> r.error == InvalidCast
      ensures r.Ok? ==> fresh(r.value) && fresh(r.value.spValues) && r.value.Valid()
      ensures r.Ok? ==> r.value.Value() == Cast(Value(), target).value
    {
      var cast := Cast(Value(), target);
      if cast.Err? {
        return Err(cast.error);
      }
      var converted := new SparseArray.FromValue(cast.value);
      r := Ok(converted);
    }

    /** The write `sp_values[:k] = x` straight into the buffer. */
    method AssignPrefix(k: nat, x: Elem)
      requires Valid()
      modifies spValues
      ensures Valid()
      ensures spValues[..] == Overwrite(old(spValues[..]), k, x)
    {
      var n := if k < spValues.Length then k else spValues.Length;
      var i := 0;
      while i < n
        invariant 0 <= i <= n
        invariant forall j :: 0 <= j < spValues.Length ==> spValues[j] == if j < i then x else old(spValues[j])
      {
        spValues[i] := x;
        i := i + 1;
      }
    }

    /** Iteration: the elements `a[0]`, ..., `a[length - 1]` in order. */
    method Elements() returns (xs: seq<Elem>)
      requires Valid()
      ensures xs == ToDense(Value())
    {
      var a := Value();
      xs := [];
      var i := 0;
      while i < a.Length()
        invariant 0 <= i <= a.Length()
        invariant xs == ToDense(a)[..i]
      {
        var x := Get(a, i);
        xs := xs + [x.value];
        i := i + 1;
      }
    }

    /** `a[pos] = x` is refused; the array is left as it was. */
    method SetItem(pos: int, x: Elem) returns (e: Error)
      ensures e == Unsupported(ItemAssignment)
    {
      e := Unsupported(ItemAssignment);
    }

    /** `a[start:stop] = x` is refused with the same error. */
    method SetSlice(start: Option<int>, stop: Option<int>, x: Elem) returns (e: Error)
      ensures e == Unsupported(ItemAssignment)
    {
      e := Unsupported(ItemAssignment);
    }

    /** Every in-place operator against another array is refused. */
    method InPlace(op: InPlaceOp, other: SparseArray) returns (e: Error)
      ensures e == Unsupported(InPlaceOperation)
    {
      e := Unsupported(InPlaceOperation);
    }
  }
}
