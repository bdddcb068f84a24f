# Sparse one-dimensional array (pandas `SparseArray`)

This project models pandas' immutable one-dimensional `SparseArray`. It has
a logical length, a strictly increasing list of occupied positions (the
integer form of its sparse index), one compact value per occupied position,
in position order, and a fill value that stands for every other position.
The implementation module of `SparseArray` is not part of this model. The
behaviour modelled is the behaviour its test suite,
`pandas/sparse/tests/test_array.py`, pins down. That behaviour is proved of a
reference model:

- `Elements`: elements (`Missing` stands for NaN, `Num` for numbers, `Flag`
  for booleans), dtype tags, the add/sub/mul operators with missing values
  propagating, element casts and the error kinds. The error kinds are out of
  bounds, unsupported mutation, invalid cast and length mismatch.
- `SparseIndex`: the sorted position list, binary-search lookup, the
  sorted-union merge used by binary operators, and the window of an index
  used by slicing.
- `SparseValues`: the array as a value. It covers densification,
  construction from dense data, bounds-checked `get` with negative
  wrapping, scalar and list `take`, step-1 slicing with Python's clipping,
  and `astype`.
- `BinaryOps`: sparse∘sparse, sparse∘dense, dense∘sparse and sparse∘scalar
  operators. Each is proved against the elementwise dense operator.
- `SparseArrays`: the array as an object. The compact values sit in an
  `array<Elem>` buffer. Construction from dense data is a left-to-right
  scan. Construction from another array shares or copies the buffer. `copy`,
  `astype`, direct buffer writes, iteration and the refused mutations are
  here too.
- `Behaviour`: the test file's own scenarios on the two fixture arrays, as
  lemmas and methods. A fixture is any array that is canonical with the
  fixture's dense values, fill value and dtype; `DenotesIsSparsify` shows
  that this is exactly the array built from those values.

A dense operand of a binary operator is first made sparse with the sparse
operand's fill value. Treating it as fully occupied instead would give
`op(a, b.values)` a full index, but `test_array.py:180-186` requires
`op(a, b.values)` and `op(a.values, b)` to be structurally equal to
`op(a, b)`. Only the first treatment gives that equality, so the model uses it.

## Model

| member | source | states |
|---|---|---|
| `Elements.Apply` | pandas/sparse/tests/test_array.py:204-205 | an operator yields a missing result exactly when an operand is missing, and a number otherwise |
| `Elements.CastElem` | pandas/sparse/tests/test_array.py:111 | a cast keeps missing values missing, leaves a number unchanged under a numeric target, turns a number into `n != 0` under bool and a boolean into 1 or 0 under a numeric target, and leaves an element already of the target kind unchanged |
| `SparseIndex.Search` | pandas/sparse/tests/test_array.py:23-31 | binary search over sorted positions finds the offset of the position, or proves it absent from the range |
| `SparseIndex.Lookup` | pandas/sparse/tests/test_array.py:23-31 | the buffer offset of a stored position, and None exactly when the position is not stored |
| `SparseIndex.Merge` | pandas/sparse/tests/test_array.py:173-178 | the merge of two sorted position lists is sorted and holds exactly the positions of either list |
| `SparseIndex.Union` | pandas/sparse/tests/test_array.py:173-178 | the union index is valid, has the operands' length, and holds the positions occupied in either operand |
| `SparseIndex.IncreasingDeterminedByMembers` | pandas/sparse/tests/test_array.py:47-52 | two sorted position lists with the same members are equal, so equal arrays have equal indices |
| `SparseIndex.CountBelow` | pandas/sparse/tests/test_array.py:141-148 | the offset splitting sorted positions into those below a bound and those at or above it |
| `SparseIndex.SliceIndex` | pandas/sparse/tests/test_array.py:141-148 | the window [lo, hi) of an index, renumbered from 0, is valid, and its positions are exactly the shifted positions of the window, stored in one contiguous buffer range |
| `SparseIndex.ShiftedWindow` | pandas/sparse/tests/test_array.py:141-148 | the shifted positions of a window are sorted, inside the window, and are exactly its occupied positions |
| `SparseValues.At` | pandas/sparse/tests/test_array.py:23-31 | a stored position reads its compact value, any other position reads the fill value |
| `SparseValues.ToDense` | pandas/sparse/tests/test_array.py:128-130 | the dense sequence has the logical length, the stored values at their positions, and the fill value everywhere else |
| `SparseValues.NonFill` | pandas/sparse/tests/test_array.py:82-90 | construction keeps, in increasing order, exactly the positions whose element is not fill (not missing when the fill is missing) |
| `SparseValues.Sparsify` | pandas/sparse/tests/test_array.py:19-21 | an array built from dense data is valid, stores no fill value, has the data's length, the given fill and dtype, and occupies exactly the non-fill positions |
| `SparseValues.DenseRoundTrip` | pandas/sparse/tests/test_array.py:92-94 | densifying an array built from dense data gives the data back |
| `SparseValues.SparseRoundTrip` | pandas/sparse/tests/test_array.py:150-153 | rebuilding a canonical array from its dense values and fill gives the same array |
| `SparseValues.CanonicalDeterminedByDense` | pandas/sparse/tests/test_array.py:141-157 | two canonical arrays with the same dense values, fill value and dtype are equal |
| `SparseValues.DenotesIsSparsify` | pandas/sparse/tests/test_array.py:19-21 | an array is canonical with given dense values, fill and dtype exactly when it is the array built from that data, so each fixture is one array |
| `SparseValues.Wrap` | pandas/sparse/tests/test_array.py:36 | an in-bounds position maps to itself when non-negative and counts from the end when negative |
| `SparseValues.Get` | pandas/sparse/tests/test_array.py:23-36 | `a[pos]` succeeds exactly for positions in [-length, length), with the dense value there (negative wrapping), and fails with out of bounds otherwise |
| `SparseValues.NegativeWraps` | pandas/sparse/tests/test_array.py:133-139 | `a[-i]` equals `a[length - i]` for 0 < i <= length |
| `SparseValues.TakeOne` | pandas/sparse/tests/test_array.py:38-45 | scalar `take` returns the dense value at an in-bounds position and fails with out of bounds at 11 or -11 on length 10 |
| `SparseValues.TakeMany` | pandas/sparse/tests/test_array.py:47-52 | list `take` fails if any position is out of bounds; otherwise it returns a canonical array with the source's fill and dtype whose dense values are the requested elements in request order |
| `SparseValues.ClipBound` | pandas/sparse/tests/test_array.py:150-157 | a clipped slice bound lies within [0, length] |
| `SparseValues.SliceWindow` | pandas/sparse/tests/test_array.py:141-157 | the clipped window of a step-1 slice satisfies 0 <= lo <= hi <= length |
| `SparseValues.SliceWindowSelects` | pandas/sparse/tests/test_array.py:141-157 | the clipped window holds exactly the positions Python's slice `[start:stop]` selects |
| `SparseValues.Slice` | pandas/sparse/tests/test_array.py:141-148 | a slice keeps fill and dtype, stays canonical, and densifies to the dense slice of the window |
| `SparseValues.SliceDense` | pandas/sparse/tests/test_array.py:141-148 | an array made of a window's positions and values densifies to the dense window |
| `SparseValues.SliceIsSparsifiedDenseSlice` | pandas/sparse/tests/test_array.py:142-148 | a slice equals the array built from the dense slice |
| `SparseValues.SliceFromFarBeforeStart` | pandas/sparse/tests/test_array.py:151-153 | a start at or before -length gives back the whole array |
| `SparseValues.SliceToFarBeforeStart` | pandas/sparse/tests/test_array.py:155-157 | a stop at or before -length gives the empty array, with the source's fill and dtype |
| `SparseValues.Window` | pandas/sparse/tests/test_array.py:141-148 | the part of an array over [lo, hi) keeps fill and dtype, stays canonical, and densifies to the dense window |
| `SparseValues.WindowFacts` | pandas/sparse/tests/test_array.py:141-148 | the sub-index and value run of a window form a valid array with the source's fill and dtype that densifies to the dense window and stays canonical |
| `SparseValues.WindowPoint` | pandas/sparse/tests/test_array.py:141-148 | each position of a window reads the element of the source at that position plus the window start |
| `SparseValues.Cast` | pandas/sparse/tests/test_array.py:110-115 | `astype` fails with invalid cast exactly when a floating array is cast to a non-floating dtype; otherwise it keeps the index, casts the fill, sets the dtype and casts every dense element |
| `SparseValues.CastToFloatKeepsValues` | pandas/sparse/tests/test_array.py:111 | casting an array of numbers and missing values to a floating dtype preserves its dense values |
| `BinaryOps.SparseOp` | pandas/sparse/tests/test_array.py:173-178 | sparse∘sparse fails on a length mismatch; otherwise its dense values are the elementwise results and its fill is `op(a.fill, b.fill)` |
| `BinaryOps.UnionDense` | pandas/sparse/tests/test_array.py:173-178 | values computed at every position of the union index densify to the elementwise result |
| `BinaryOps.SparseDenseOp` | pandas/sparse/tests/test_array.py:180-182 | sparse∘dense densifies to the elementwise result, with fill `op(a.fill, a.fill)` |
| `BinaryOps.DenseSparseOp` | pandas/sparse/tests/test_array.py:184-186 | dense∘sparse densifies to the elementwise result, with fill `op(b.fill, b.fill)` |
| `BinaryOps.DenseOperandAgrees` | pandas/sparse/tests/test_array.py:180-186 | with matching fills, a dense operand on either side gives exactly the sparse∘sparse result |
| `BinaryOps.ScalarOp` | pandas/sparse/tests/test_array.py:188-196 | sparse∘scalar keeps the index, densifies to the elementwise result with the scalar, and has fill `op(a.fill, x)` |
| `BinaryOps.Broadcast` | pandas/sparse/tests/test_array.py:188 | a scalar broadcast as an array stores nothing and reads the scalar at every position |
| `BinaryOps.ScalarIsBroadcast` | pandas/sparse/tests/test_array.py:188-196 | the scalar form agrees with sparse∘sparse against the broadcast scalar, in dense values and fill |
| `SparseArrays.ScanDense` | pandas/sparse/tests/test_array.py:82-90 | the left-to-right scan yields exactly the non-fill positions and their elements, in order |
| `SparseArrays.GatherSnoc` | pandas/sparse/tests/test_array.py:82-90 | gathering one more position appends the element there to the gathered values |
| `SparseArrays.NonFillSnoc` | pandas/sparse/tests/test_array.py:82-90 | one more scanned element appends its position to the kept positions exactly when it is not fill |
| `SparseArrays.SparseArray.FromDense` | pandas/sparse/tests/test_array.py:19-21 | construction from dense data gives a fresh buffer and the array built from that data |
| `SparseArrays.SparseArray.FromValue` | pandas/sparse/tests/test_array.py:111 | a new array over a fresh buffer holding given compact values |
| `SparseArrays.SparseArray.FromSparse` | pandas/sparse/tests/test_array.py:68-80 | construction from an array keeps its index, fill, dtype and values; the buffer is fresh with copy and shared without |
| `SparseArrays.SparseArray.Copy` | pandas/sparse/tests/test_array.py:117-118 | `copy(deep)` gives an equal array over a fresh buffer (deep) or the same buffer (shallow) |
| `SparseArrays.SparseArray.AsType` | pandas/sparse/tests/test_array.py:110-115 | `astype` fails exactly as `Cast` does; otherwise it returns a fresh array over a fresh buffer holding the cast value |
| `SparseArrays.SparseArray.AssignPrefix` | pandas/sparse/tests/test_array.py:75 | writing `sp_values[:k] = x` overwrites the first k buffer slots (all of them when fewer) and nothing else |
| `SparseArrays.SparseArray.Elements` | pandas/sparse/tests/test_array.py:229 | iteration yields the dense values in order |
| `SparseArrays.SparseArray.SetItem` | pandas/sparse/tests/test_array.py:59-65 | item assignment fails as unsupported and, modifying nothing, leaves the array unchanged |
| `SparseArrays.SparseArray.SetSlice` | pandas/sparse/tests/test_array.py:62-66 | slice assignment fails with the same item-assignment error and changes nothing |
| `SparseArrays.SparseArray.InPlace` | pandas/sparse/tests/test_array.py:200-212 | every in-place operator fails as unsupported and changes nothing |
| `Behaviour.GetItemMissingFilled` | pandas/sparse/tests/test_array.py:23-36 | on the NaN-filled fixture, positions 1, 2, 7 read nan, 1, 5; 11 and -11 are out of bounds; -1 reads position 9, which holds 6 |
| `Behaviour.GetItemZeroFilled` | pandas/sparse/tests/test_array.py:29-31 | on the zero-filled fixture, positions 0, 2, 7 read 0, 1, 5 |
| `Behaviour.GetMatchesDense` | pandas/sparse/tests/test_array.py:133-139 | for every position i, `a[i]` and `a[-i]` equal the dense values at i and at (length - i) mod length |
| `Behaviour.TakeScalarExamples` | pandas/sparse/tests/test_array.py:38-56 | `take(0)`, `take(2)`, `take(6)` read nan, 1, 4; `take(11)` and `take(-11)` are out of bounds |
| `Behaviour.TakeTwoExample` | pandas/sparse/tests/test_array.py:47-49 | on the NaN-filled fixture, `take([2, 3])` succeeds and is the canonical array of `[1, 2]` with fill nan and floating dtype |
| `Behaviour.TakeThreeExample` | pandas/sparse/tests/test_array.py:50-52 | on the NaN-filled fixture, `take([0, 1, 2])` succeeds and is the canonical array of `[nan, nan, 1]` with fill nan and floating dtype |
| `Behaviour.TakeManyIsSparsifiedPick` | pandas/sparse/tests/test_array.py:47-52 | list `take` of positions that all read successfully succeeds and is the canonical array of the values read, with the source's fill and dtype |
| `Behaviour.BoolConstruction` | pandas/sparse/tests/test_array.py:82-94 | `[F, F, T, T, F, F]` with fill False stores `[T, T]` at positions `[2, 3]` with dtype bool, and densifies back to the data |
| `Behaviour.Float32Construction` | pandas/sparse/tests/test_array.py:96-108 | `[1, nan, 3]` stores `[1, 3]` at positions `[0, 2]` and densifies back to the data |
| `Behaviour.ExactPositions` | pandas/sparse/tests/test_array.py:88-90 | when the non-fill positions are exactly a given sorted list, the array stores that list and the elements there |
| `Behaviour.SliceHeadExample` | pandas/sparse/tests/test_array.py:142-144 | on the NaN-filled fixture, `[:-3]` is the canonical array of the dense slice `[:-3]`, with fill nan and floating dtype |
| `Behaviour.SliceTailExample` | pandas/sparse/tests/test_array.py:146-148 | on the NaN-filled fixture, `[-4:]` is the canonical array of the dense slice `[-4:]`, with fill nan and floating dtype |
| `Behaviour.SliceFromFarStartExample` | pandas/sparse/tests/test_array.py:150-153 | on the NaN-filled fixture, `[-12:]` is the whole array |
| `Behaviour.SliceToFarStopExample` | pandas/sparse/tests/test_array.py:155-157 | on the NaN-filled fixture, `[:-12]` is the empty canonical array with fill nan and floating dtype |
| `Behaviour.ConstructFromSparse` | pandas/sparse/tests/test_array.py:68-71 | construction from the zero-filled array keeps its fill value and compact values |
| `Behaviour.CopiedBufferIsIndependent` | pandas/sparse/tests/test_array.py:73-76 | with copy=true, writing into the new buffer leaves the source array unchanged |
| `Behaviour.SharedBufferIsVisible` | pandas/sparse/tests/test_array.py:78-80 | without copy, the write into the new array's buffer shows in the source's values |
| `Behaviour.ShallowCopyShares` | pandas/sparse/tests/test_array.py:117-126 | a shallow copy shares the source's buffer |
| `Behaviour.CastBufferIsIndependent` | pandas/sparse/tests/test_array.py:110-113 | writing into the buffer of a float cast leaves the source unchanged |
| `Behaviour.FloatToIntCastFails` | pandas/sparse/tests/test_array.py:115 | casting a floating array to an integer dtype fails with the floating-point cast error |
| `Behaviour.CheckOp` | pandas/sparse/tests/test_array.py:173-198 | for two arrays built from dense data with one fill, `op` densifies to the elementwise result with fill `op(f, f)`, dense operands on either side give the same sparse array, and the scalar form densifies elementwise with fill `op(f, x)` |
| `Behaviour.IterateExample` | pandas/sparse/tests/test_array.py:222-231 | iterating the array built from `[1, 2, 3]` yields 1, 2, 3 in order |

## Left out

- Real floating point and NaN arithmetic: elements are integers, booleans and a `Missing` marker that stands for NaN. Missing values propagate through every operator.
- True division, floor division and power (`test_array.py:204-205`), and the `ValueError` swallowed for power (lines 191-198): these are numeric-backend behaviour. Only add, sub and mul are modelled. Every in-place operator, including the division and power ones, is modelled because all of them are refused.
- Comparison and logical operators, and numpy's boolean arithmetic rules: booleans take part in arithmetic as 0 and 1.
- Pickle round trip (lines 214-220): it goes through the host serialization framework.
- Warning capture (lines 222-231) and the numpy version gate (lines 42-43). Only "iteration yields the elements in order" is kept, and iteration produces the whole sequence rather than a lazy generator.
- The `.base` chain walk (lines 120-126) is numpy view plumbing. Sharing is modelled as two objects holding the same `array`.
- `SparseValues.Sparsify`: construction neither converts the data's elements to the requested dtype nor compares elements of different kinds when it decides what is fill. `Sparsify([Num(0)], Flag(false), Bool)` therefore stores `Num(0)`, where numpy would convert it to `False` and drop it as fill. `SparseValues.SparseVec.Valid` likewise does not tie the element kinds to the dtype tag. The tests only build arrays whose data already has the kind of its dtype.
- dtype widths (float32 versus float64, lines 96-108) and the dtype of densified output (lines 93, 107): dtype is a tag with three kinds (floating, integer, boolean).
- `np.asarray(arr)` returning the compact buffer (lines 89, 103, 131) is ndarray-subclass behaviour, and is not modelled.
- The block encoding of the sparse index and the conversions between encodings: the tests never make the encoding observable, so only the integer encoding is modelled.
- Slicing with a step other than 1, and default arguments: construction takes the fill value and dtype explicitly. The fixtures pass `Missing` and floating, which are the defaults.
- Error messages ("bounds", "item assignment", "floating point") are modelled as error kinds, not as text. A length mismatch in a binary operator is modelled as the error `LengthMismatch`.
- `SparseArrays.SparseArray.SetItem`, `SparseArrays.SparseArray.SetSlice` and `SparseArrays.SparseArray.InPlace`: "the array is unchanged" follows from their having no `modifies` clause. It is not restated as an `ensures`.
