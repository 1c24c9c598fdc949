/**
  Query constraints on integer columns, and what they mean for a stored value.
 */
module Constraints {

  const INT64_MIN: int := -0x8000_0000_0000_0000
  const INT64_MAX: int := 0x7FFF_FFFF_FFFF_FFFF

  type Int64 = x: int | INT64_MIN <= x <= INT64_MAX

  datatype ConstraintOperator =
    | EQUAL
    | LESS_THAN
    | LESS_THAN_EQUAL
    | GREATER_THAN
    | GREATER_THAN_EQUAL
    | MATCH
    | LIKE
    | GLOB
    | REGEX

  datatype Operand = IntegerOperand(int64Val: Int64) | DoubleOperand(doubleVal: real)

  datatype Constraint = Constraint(columnName: string, op: ConstraintOperator, operand: Operand)

  datatype Result<+T> = Ok(value: T) | Err(message: string)

  function Floor(d: real): int {
    d.Floor
  }

  function Ceil(d: real): int {
    -((-d).Floor)
  }

  /** A DOUBLE operand that can be cast to int64 after rounding; every other cast is undefined. */
  predicate Castable(c: Constraint) {
    c.operand.DoubleOperand? ==>
      INT64_MIN <= Floor(c.operand.doubleVal) && Ceil(c.operand.doubleVal) <= INT64_MAX
  }

  function Value(x: Operand): real {
    match x
    case IntegerOperand(i) => i as real
    case DoubleOperand(d) => d
  }

  predicate Supported(op: ConstraintOperator) {
    op.EQUAL? || op.LESS_THAN? || op.LESS_THAN_EQUAL? || op.GREATER_THAN? || op.GREATER_THAN_EQUAL?
  }

  /** The comparison itself, on the exact values. */
  predicate Holds(c: Constraint, v: Int64)
    requires Supported(c.op)
  {
    var x, y := v as real, Value(c.operand);
    match c.op
    case EQUAL => x == y
    case LESS_THAN => x < y
    case LESS_THAN_EQUAL => x <= y
    case GREATER_THAN => x > y
    case GREATER_THAN_EQUAL => x >= y
  }

  predicate IsLower(op: ConstraintOperator) {
    op.GREATER_THAN? || op.GREATER_THAN_EQUAL?
  }

  predicate IsUpper(op: ConstraintOperator) {
    op.LESS_THAN? || op.LESS_THAN_EQUAL?
  }

  ghost predicate AllSupported(cs: seq<Constraint>) {
    forall k | 0 <= k < |cs| :: Supported(cs[k].op)
  }

  ghost predicate HoldsAll(cs: seq<Constraint>, v: Int64)
    requires AllSupported(cs)
  {
    forall k | 0 <= k < |cs| :: Holds(cs[k], v)
  }

  lemma HoldsOne(c: Constraint)
    requires Supported(c.op)
    ensures AllSupported([c]) && forall v :: HoldsAll([c], v) <==> Holds(c, v)
  {
    assert [c][0] == c;
  }

  lemma HoldsBoth(c: Constraint, d: Constraint)
    requires Supported(c.op) && Supported(d.op)
    ensures AllSupported([c, d]) && forall v :: HoldsAll([c, d], v) <==> Holds(c, v) && Holds(d, v)
  {
    assert [c, d][0] == c && [c, d][1] == d;
  }

  /** The answer of a full scan of one column: the ids whose value satisfies every constraint. */
  ghost function ScanAll(values: seq<Int64>, cs: seq<Constraint>): set<nat>
    requires AllSupported(cs)
  {
    set i: nat | i < |values| && HoldsAll(cs, values[i])
  }

  /** An integer is below, or not above, a real exactly when it is so for the rounded real. */
  lemma Rounding(v: int, d: real)
    ensures (v as real) < d <==> v < Ceil(d)
    ensures v as real > d <==> v > Floor(d)
    ensures v as real >= d <==> v >= Ceil(d)
    ensures v as real <= d <==> v <= Floor(d)
    ensures Floor(d) <= Ceil(d) <= Floor(d) + 1
    ensures Floor(d) == Ceil(d) <==> (Floor(d) as real) == d
  {
  }

  function RoundUp(x: Operand): int {
    match x
    case IntegerOperand(i) => i
    case DoubleOperand(d) => Ceil(d)
  }

  function RoundDown(x: Operand): int {
    match x
    case IntegerOperand(i) => i
    case DoubleOperand(d) => Floor(d)
  }

  /** Each comparison, restated on the rounded operand. */
  lemma HoldsRounded(c: Constraint)
    requires Supported(c.op)
    ensures forall v: Int64 :: Holds(c, v) <==>
              match c.op
              case EQUAL => v as real == Value(c.operand)
              case LESS_THAN => v < RoundUp(c.operand)
              case LESS_THAN_EQUAL => v < RoundUp(c.operand) || v as real == Value(c.operand)
              case GREATER_THAN => v > RoundDown(c.operand)
              case GREATER_THAN_EQUAL => v >= RoundUp(c.operand)
  {
  }

  /** `static_cast<int64_t>(d)`: truncation towards zero. */
  function Truncate(d: real): int {
    if d >= 0.0 then Floor(d) else Ceil(d)
  }

  lemma TruncateExact(v: int, d: real)
    ensures v as real == d <==> (Truncate(d) as real == d && v == Truncate(d))
  {
  }
}
