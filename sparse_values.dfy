/** A sparse array as an immutable value: its index, the compact values of
    the occupied positions in position order, its fill value and dtype; with
    densification, construction from a dense sequence, bounds-checked access,
    `take`, step-1 slicing and dtype casting. */
module SparseValues {
  import opened Elements
  import opened SparseIndex

  datatype SparseVec = SparseVec(index: IntIndex, values: seq<Elem>, fill: Elem, dtype: DType) {
    /** One compact value per occupied position. */
    predicate Valid() {
      index.Valid() && |values| == |index.indices|
    }

    function Length(): nat {
      index.length
    }

    /** No stored value would have been dropped by construction from dense
        data: the shape every array built from a dense sequence has. */
    predicate Canonical()
      requires Valid()
    {
      forall k :: 0 <= k < |values| ==> !IsFill(values[k], fill)
    }
  }

  /** The logical element at position i. */
  function At(a: SparseVec, i: nat): (x: Elem)
    requires a.Valid() && i < a.Length()
    ensures forall k :: 0 <= k < |a.values| && a.index.indices[k] == i ==> x == a.values[k]
    ensures i !in a.index.indices ==> x == a.fill
  {
    match Lookup(a.index, i)
    case Some(k) => a.values[k]
    case None => a.fill
  }

  /** The dense sequence the array stands for (`to_dense`, `values`). */
  function ToDense(a: SparseVec): (d: seq<Elem>)
    requires a.Valid()
    ensures |d| == a.Length()
    ensures forall k :: 0 <= k < |a.values| ==> d[a.index.indices[k]] == a.values[k]
    ensures forall i :: 0 <= i < |d| && i !in a.index.indices ==> d[i] == a.fill
  {
    seq(a.Length(), i requires 0 <= i < a.Length() => At(a, i))
  }

  /** The positions of `data` that construction keeps, in increasing order. */
  function NonFill(data: seq<Elem>, fill: Elem): (r: seq<nat>)
    ensures StrictlyIncreasing(r)
    ensures forall k :: 0 <= k < |r| ==> r[k] < |data|
    ensures forall i :: 0 <= i < |data| ==> (i in r <==> !IsFill(data[i], fill))
    decreases |data|
  {
    if data == [] then []
    else
      var n := |data| - 1;
      var front := NonFill(data[..n], fill);
      assert forall i :: 0 <= i < n ==> data[..n][i] == data[i];
      var r := front + (if IsFill(data[n], fill) then [] else [n]);
      assert forall i :: 0 <= i < n ==> (i in r <==> i in front);
      r
  }

  /** The elements of `data` at the given positions, in order. */
  function Gather(data: seq<Elem>, positions: seq<nat>): (r: seq<Elem>)
    requires forall k :: 0 <= k < |positions| ==> positions[k] < |data|
    ensures |r| == |positions|
    ensures forall k :: 0 <= k < |r| ==> r[k] == data[positions[k]]
  {
    seq(|positions|, k requires 0 <= k < |positions| => data[positions[k]])
  }

  /** Construction from a dense sequence: the positions not equal to the
      fill value (and not missing when the fill is missing) become the index,
      and their elements, in order, the compact values. */
  function Sparsify(data: seq<Elem>, fill: Elem, dtype: DType): (a: SparseVec)
    ensures a.Valid() && a.Canonical()
    ensures a.Length() == |data| && a.fill == fill && a.dtype == dtype
    ensures forall i :: 0 <= i < |data| ==> (i in a.index.indices <==> !IsFill(data[i], fill))
  {
    var positions := NonFill(data, fill);
    SparseVec(IntIndex(|data|, positions), Gather(data, positions), fill, dtype)
  }

  /** Dense to sparse to dense is the identity. */
  lemma DenseRoundTrip(data: seq<Elem>, fill: Elem, dtype: DType)
    ensures ToDense(Sparsify(data, fill, dtype)) == data
  {
    var a := Sparsify(data, fill, dtype);
    var d := ToDense(a);
    forall i | 0 <= i < |data| ensures d[i] == data[i] {
      if i in a.index.indices {
        var k :| 0 <= k < |a.index.indices| && a.index.indices[k] == i;
        assert d[i] == a.values[k];
      }
    }
  }

  /** Sparse to dense to sparse is the identity for a canonical array. */
  lemma SparseRoundTrip(a: SparseVec)
    requires a.Valid() && a.Canonical()
    ensures Sparsify(ToDense(a), a.fill, a.dtype) == a
  {
    var d := ToDense(a);
    var b := Sparsify(d, a.fill, a.dtype);
    forall x: nat ensures x in b.index.indices <==> x in a.index.indices {
      if x in a.index.indices {
        var k :| 0 <= k < |a.index.indices| && a.index.indices[k] == x;
        assert d[x] == a.values[k];
      }
      if x < |d| && x !in a.index.indices {
        assert d[x] == a.fill;
        FillIsFill(a.fill);
      }
      if x in b.index.indices {
        var k :| 0 <= k < |b.index.indices| && b.index.indices[k] == x;
        assert x < |d|;
      }
    }
    IncreasingDeterminedByMembers(b.index.indices, a.index.indices);
  }

  /** A canonical array is determined by its dense values, fill value and dtype. */
  lemma CanonicalDeterminedByDense(a: SparseVec, b: SparseVec)
    requires a.Valid() && a.Canonical() && b.Valid() && b.Canonical()
    requires a.fill == b.fill && a.dtype == b.dtype
    requires ToDense(a) == ToDense(b)
    ensures a == b
  {
    SparseRoundTrip(a);
    SparseRoundTrip(b);
  }

  /** a is the canonical array of the given dense data, fill value and dtype. */
  predicate Denotes(a: SparseVec, data: seq<Elem>, fill: Elem, dtype: DType) {
    a.Valid() && a.Canonical() && a.fill == fill && a.dtype == dtype && ToDense(a) == data
  }

  /** The array built from dense data is the one array that denotes it. */
  lemma DenotesIsSparsify(a: SparseVec, data: seq<Elem>, fill: Elem, dtype: DType)
    ensures Denotes(a, data, fill, dtype) <==> a == Sparsify(data, fill, dtype)
  {
    DenseRoundTrip(data, fill, dtype);
    if Denotes(a, data, fill, dtype) {
      CanonicalDeterminedByDense(a, Sparsify(data, fill, dtype));
    }
  }

  /** A position accepted by `get` and `take`: inside [-length, length). */
  predicate InBounds(pos: int, length: nat) {
    -(length as int) <= pos < length
  }

  /** The position a bounds-checked access refers to: a negative one counts
      from the end. */
  function Wrap(pos: int, length: nat): (p: nat)
    requires InBounds(pos, length)
    ensures p < length
    ensures pos >= 0 ==> p == pos
    ensures pos < 0 ==> p + (-pos) == length
  {
    if pos < 0 then pos + length else pos
  }

  /** `a[pos]` for an integer position. */
  function Get(a: SparseVec, pos: int): (r: Result<Elem>)
    requires a.Valid()
    ensures r.Ok? <==> InBounds(pos, a.Length())
    ensures r.Err? ==> r.error == OutOfBounds
    ensures r.Ok? ==> r.value == ToDense(a)[Wrap(pos, a.Length())]
  {
    if InBounds(pos, a.Length()) then Ok(At(a, Wrap(pos, a.Length())))
    else Err(OutOfBounds)
  }

  /** A negative position reads the element that many places from the end. */
  lemma NegativeWraps(a: SparseVec, i: int)
    requires a.Valid() && 0 < i <= a.Length()
    ensures Get(a, -i) == Get(a, a.Length() - i)
    ensures Get(a, -i).Ok?
  {
  }

  /** `a.take(pos)` for a single integer position: a scalar, or a bounds error. */
  function TakeOne(a: SparseVec, pos: int): (r: Result<Elem>)
    requires a.Valid()
    ensures r.Ok? <==> InBounds(pos, a.Length())
    ensures r.Err? ==> r.error == OutOfBounds
    ensures r.Ok? ==> r.value == ToDense(a)[Wrap(pos, a.Length())]
  {
    Get(a, pos)
  }

  /** `a.take(positions)`: the array built from the dense values at the
      requested positions, in request order; any position out of bounds
      fails the whole call. */
  function TakeMany(a: SparseVec, positions: seq<int>): (r: Result<SparseVec>)
    requires a.Valid()
    ensures r.Ok? <==> forall k :: 0 <= k < |positions| ==> InBounds(positions[k], a.Length())
    ensures r.Err? ==> r.error == OutOfBounds
    ensures r.Ok? ==> r.value.Valid() && r.value.Canonical()
    ensures r.Ok? ==> r.value.fill == a.fill && r.value.dtype == a.dtype
    ensures r.Ok? ==> |ToDense(r.value)| == |positions|
    ensures r.Ok? ==> forall k :: 0 <= k < |positions| ==> Get(a, positions[k]) == Ok(ToDense(r.value)[k])
  {
    var n := a.Length();
    if forall k :: 0 <= k < |positions| ==> InBounds(positions[k], n) then
      var d := ToDense(a);
      var picked := seq(|positions|, k requires 0 <= k < |positions| => d[Wrap(positions[k], n)]);
      DenseRoundTrip(picked, a.fill, a.dtype);
      Ok(Sparsify(picked, a.fill, a.dtype))
    else
      Err(OutOfBounds)
  }

  /** Python's clipping of one bound of a step-1 slice: a negative bound
      counts from the end, then the bound is clamped to [0, length]. */
  function ClipBound(bound: int, length: nat): (r: nat)
    ensures r <= length
  {
    if bound < 0 then (if bound + length < 0 then 0 else bound + length)
    else if bound > length then length
    else bound
  }

  /** The window [lo, hi) that `a[start:stop]` selects. */
  function SliceWindow(length: nat, start: Option<int>, stop: Option<int>): (w: (nat, nat))
    ensures w.0 <= w.1 <= length
  {
    var lo := match start case None => 0 case Some(s) => ClipBound(s, length);
    var hi := match stop case None => length case Some(s) => ClipBound(s, length);
    if hi < lo then (lo, lo) else (lo, hi)
  }

  /** The independent reading of a step-1 slice: a position is selected when
      it is at or after the start and before the stop, each bound read from
      the end when negative. */
  predicate Selected(i: nat, length: nat, start: Option<int>, stop: Option<int>) {
    (start.None? || (if start.value < 0 then start.value + length else start.value) <= i) &&
    (stop.None? || i < (if stop.value < 0 then stop.value + length else stop.value))
  }

  /** The clipped window selects exactly the positions Python's slice does. */
  lemma SliceWindowSelects(length: nat, start: Option<int>, stop: Option<int>)
    ensures forall i :: 0 <= i < length ==>
      (SliceWindow(length, start, stop).0 <= i < SliceWindow(length, start, stop).1 <==> Selected(i, length, start, stop))
  {
  }

  /** `a[start:stop]` with step 1: the sub-index of the window, renumbered
      from 0, and the matching contiguous run of the compact values. */
  function Slice(a: SparseVec, start: Option<int>, stop: Option<int>): (r: SparseVec)
    requires a.Valid()
    ensures r.Valid() && r.fill == a.fill && r.dtype == a.dtype
    ensures ToDense(r) == ToDense(a)[SliceWindow(a.Length(), start, stop).0..SliceWindow(a.Length(), start, stop).1]
    ensures a.Canonical() ==> r.Canonical()
  {
    var w := SliceWindow(a.Length(), start, stop);
    Window(a, w.0, w.1)
  }

  /** The part of `a` over [lo, hi): the sub-index of the window and the
      contiguous run of compact values it points at. */
  function Window(a: SparseVec, lo: nat, hi: nat): (r: SparseVec)
    requires a.Valid() && lo <= hi <= a.Length()
    ensures r.Valid() && r.fill == a.fill && r.dtype == a.dtype
    ensures ToDense(r) == ToDense(a)[lo..hi]
    ensures a.Canonical() ==> r.Canonical()
  {
    var s := SliceIndex(a.index, lo, hi);
    var r := SparseVec(s.index, a.values[s.first..s.last], a.fill, a.dtype);
    WindowFacts(a, lo, hi, s, r);
    r
  }

  lemma WindowFacts(a: SparseVec, lo: nat, hi: nat, s: SlicedIndex, r: SparseVec)
    requires a.Valid() && lo <= hi <= a.Length()
    requires s.index.Valid() && s.index.length == hi - lo
    requires s.first <= s.last <= |a.index.indices|
    requires |s.index.indices| == s.last - s.first
    requires forall j :: 0 <= j < |s.index.indices| ==> s.index.indices[j] + lo == a.index.indices[s.first + j]
    requires forall p :: 0 <= p < hi - lo ==> (p in s.index.indices <==> p + lo in a.index.indices)
    requires r == SparseVec(s.index, a.values[s.first..s.last], a.fill, a.dtype)
    ensures r.Valid() && r.fill == a.fill && r.dtype == a.dtype
    ensures ToDense(r) == ToDense(a)[lo..hi]
    ensures a.Canonical() ==> r.Canonical()
  {
    assert forall j :: 0 <= j < |r.values| ==> r.values[j] == a.values[s.first + j];
    assert IsWindow(a, lo, s.first, r);
    SliceDense(a, lo, s.first, r);
  }

  /** The facts about a sliced array that its densification needs: its
      positions are those of `a` inside the window, shifted down by `lo`, and
      its values the matching run of a's values from offset `first`. */
  predicate IsWindow(a: SparseVec, lo: nat, first: nat, r: SparseVec)
    requires a.Valid() && r.Valid()
  {
    r.fill == a.fill && r.dtype == a.dtype &&
    lo + r.Length() <= a.Length() &&
    first + |r.values| <= |a.values| &&
    (forall j :: 0 <= j < |r.values| ==>
      r.values[j] == a.values[first + j] && r.index.indices[j] + lo == a.index.indices[first + j]) &&
    (forall p :: 0 <= p < r.Length() ==> (p in r.index.indices <==> p + lo in a.index.indices))
  }

  lemma SliceDense(a: SparseVec, lo: nat, first: nat, r: SparseVec)
    requires a.Valid() && r.Valid() && IsWindow(a, lo, first, r)
    ensures ToDense(r) == ToDense(a)[lo..lo + r.Length()]
    ensures a.Canonical() ==> r.Canonical()
  {
    var d, e := ToDense(a), ToDense(r);
    forall p | 0 <= p < r.Length() ensures e[p] == d[lo + p] {
      WindowPoint(a, lo, first, r, p);
    }
    assert e == d[lo..lo + r.Length()];
  }

  /** One position of the window reads the same element as position
      `lo + p` of `a`. */
  lemma WindowPoint(a: SparseVec, lo: nat, first: nat, r: SparseVec, p: nat)
    requires a.Valid() && r.Valid() && IsWindow(a, lo, first, r) && p < r.Length()
    ensures At(r, p) == At(a, lo + p)
  {
    if p in r.index.indices {
      var j :| 0 <= j < |r.index.indices| && r.index.indices[j] == p;
      assert a.index.indices[first + j] == lo + p;
    } else {
      assert lo + p !in a.index.indices;
    }
  }

  /** A slice equals the array built from the dense slice. */
  lemma SliceIsSparsifiedDenseSlice(a: SparseVec, start: Option<int>, stop: Option<int>)
    requires a.Valid() && a.Canonical()
    ensures var w := SliceWindow(a.Length(), start, stop);
      Slice(a, start, stop) == Sparsify(ToDense(a)[w.0..w.1], a.fill, a.dtype)
  {
    var w := SliceWindow(a.Length(), start, stop);
    var dense := ToDense(a)[w.0..w.1];
    DenseRoundTrip(dense, a.fill, a.dtype);
    CanonicalDeterminedByDense(Slice(a, start, stop), Sparsify(dense, a.fill, a.dtype));
  }

  /** A start at or before -length selects the whole array. */
  lemma SliceFromFarBeforeStart(a: SparseVec, start: int)
    requires a.Valid() && a.Canonical() && start <= -(a.Length() as int)
    ensures Slice(a, Some(start), None) == a
  {
    var r := Slice(a, Some(start), None);
    assert ToDense(a)[0..a.Length()] == ToDense(a);
    CanonicalDeterminedByDense(r, a);
  }

  /** A stop at or before -length selects nothing. */
  lemma SliceToFarBeforeStart(a: SparseVec, stop: int)
    requires a.Valid() && stop <= -(a.Length() as int)
    ensures Slice(a, None, Some(stop)) == Sparsify([], a.fill, a.dtype)
  {
    var r := Slice(a, None, Some(stop));
    assert r.Length() == 0 && r.index.indices == [] && r.values == [];
  }

  /** `astype(target)`: a floating array cannot become non-floating; any
      other cast converts every stored value and the fill value, keeping the
      index. */
  function Cast(a: SparseVec, target: DType): (r: Result<SparseVec>)
    requires a.Valid()
    ensures r.Err? <==> a.dtype == Float && target != Float
    ensures r.Err? ==> r.error == InvalidCast
    ensures r.Ok? ==> r.value.Valid() && r.value.index == a.index && r.value.dtype == target
    ensures r.Ok? ==> r.value.fill == CastElem(a.fill, target)
    ensures r.Ok? ==> forall i :: 0 <= i < a.Length() ==> ToDense(r.value)[i] == CastElem(ToDense(a)[i], target)
  {
    if a.dtype == Float && target != Float then Err(InvalidCast)
    else
      var converted := seq(|a.values|, k requires 0 <= k < |a.values| => CastElem(a.values[k], target));
      Ok(SparseVec(a.index, converted, CastElem(a.fill, target), target))
  }

  /** Casting an array of numbers and missing values to a floating dtype
      leaves it as it was. */
  lemma CastToFloatKeepsValues(a: SparseVec)
    requires a.Valid()
    requires !a.fill.Flag? && forall k :: 0 <= k < |a.values| ==> !a.values[k].Flag?
    ensures Cast(a, Float).Ok?
    ensures ToDense(Cast(a, Float).value) == ToDense(a)
  {
    var d, e := ToDense(a), ToDense(Cast(a, Float).value);
    forall i | 0 <= i < |d| ensures e[i] == d[i] {
      if i in a.index.indices {
        var k :| 0 <= k < |a.index.indices| && a.index.indices[k] == i;
        assert d[i] == a.values[k];
      }
    }
  }
}
