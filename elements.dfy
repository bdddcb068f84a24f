/** Scalars held by a sparse array, their dtype tags, the arithmetic operators
    applied elementwise, and the errors the array reports. */
module Elements {

  datatype Option<+T> = None | Some(value: T)

  /** An element of a sparse array. `Missing` is the not-a-number marker of
      floating dtypes; integers stand in for numeric values and `Flag` for
      booleans. */
  datatype Elem = Missing | Num(n: int) | Flag(b: bool)

  /** The dtype tag an array carries. */
  datatype DType = Float | Int | Bool

  /** The mutations a sparse array refuses. */
  datatype Mutation = ItemAssignment | InPlaceOperation

  datatype Error =
    | OutOfBounds           // a position outside [-length, length)
    | Unsupported(what: Mutation)
    | InvalidCast           // a floating array cast to a non-floating dtype
    | LengthMismatch        // a binary operator applied to arrays of different lengths

  datatype Result<+T> = Ok(value: T) | Err(error: Error)

  /** The element stands for "not a number" while the fill value does too. */
  predicate BothMissing(x: Elem, fill: Elem) {
    x.Missing? && fill.Missing?
  }

  /** The element is exactly the (non-missing) fill value. */
  predicate EqualsFill(x: Elem, fill: Elem) {
    !fill.Missing? && x == fill
  }

  /** A dense element that construction leaves out of the compact buffer. */
  predicate IsFill(x: Elem, fill: Elem) {
    EqualsFill(x, fill) || BothMissing(x, fill)
  }

  /** Every value counts as fill against itself, missing ones included. */
  lemma FillIsFill(x: Elem)
    ensures IsFill(x, x)
  {
  }

  /** The supported non-mutating binary operators. */
  datatype Op = Add | Sub | Mul

  /** The in-place operators, all of which a sparse array refuses. */
  datatype InPlaceOp = IAdd | ISub | IMul | ITrueDiv | IFloorDiv | IPow

  /** The numeric reading of a present element; booleans read as 0 and 1. */
  function Numeric(x: Elem): int
    requires !x.Missing?
  {
    match x
    case Num(n) => n
    case Flag(b) => if b then 1 else 0
  }

  /** One application of `op`: a missing operand makes the result missing. */
  function Apply(op: Op, x: Elem, y: Elem): (r: Elem)
    ensures r.Missing? <==> x.Missing? || y.Missing?
    ensures r.Num? || r.Missing?
  {
    if x.Missing? || y.Missing? then Missing
    else
      var m, n := Numeric(x), Numeric(y);
      Num(match op
          case Add => m + n
          case Sub => m - n
          case Mul => m * n)
  }

  /** The dtype a value of its own would carry. */
  function KindOf(x: Elem): DType {
    match x
    case Missing => Float
    case Num(_) => Int
    case Flag(_) => Bool
  }

  /** The dtype of an arithmetic result: floating when either side is. */
  function Promote(s: DType, t: DType): DType {
    if s == Float || t == Float then Float else Int
  }

  /** The conversion of one element to the target dtype. A missing element
      stays missing; booleans become 0 and 1; numbers become booleans by
      comparing with zero. */
  function CastElem(x: Elem, target: DType): (r: Elem)
    ensures r.Missing? <==> x.Missing?
    ensures KindOf(x) == target ==> r == x
    ensures x.Num? && target != Bool ==> r == x
    ensures x.Num? && target == Bool ==> r == Flag(x.n != 0)
    ensures x.Flag? && target != Bool ==> r == Num(if x.b then 1 else 0)
  {
    match x
    case Missing => Missing
    case Num(n) => if target == Bool then Flag(n != 0) else x
    case Flag(b) => if target == Bool then x else Num(if b then 1 else 0)
  }
}
