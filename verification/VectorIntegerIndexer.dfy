/**
  The vector index of an integer column: the stored values themselves, scanned by every query.
 */
module VectorIndexer {
  import opened EwahBits
  import opened EwahFormat
  import opened EwahBitmap
  import opened Constraints

  /** `<=` and `>=` with an int64 operand are answered as `<` and `>` of its neighbour, which must exist. */
  predicate NoOverflow(c: Constraint) {
    c.operand.IntegerOperand? ==>
      && (c.op.LESS_THAN_EQUAL? ==> c.operand.int64Val < INT64_MAX)
      && (c.op.GREATER_THAN_EQUAL? ==> c.operand.int64Val > INT64_MIN)
  }

  /** The value that `<` is applied to. */
  function UpperLimit(c: Constraint): int {
    match c.operand
    case DoubleOperand(d) => Ceil(d)
    case IntegerOperand(i) => if c.op.LESS_THAN_EQUAL? then i + 1 else i
  }

  /** The value that `>` is applied to. */
  function LowerLimit(c: Constraint): int {
    match c.operand
    case DoubleOperand(d) => Floor(d)
    case IntegerOperand(i) => if c.op.GREATER_THAN_EQUAL? then i - 1 else i
  }

  /** What the vector index tests. */
  predicate Tests(c: Constraint, v: Int64)
    requires Supported(c.op)
  {
    if c.op.EQUAL? then v as real == Value(c.operand)
    else if IsUpper(c.op) then v < UpperLimit(c)
    else v > LowerLimit(c)
  }

  /** The constraints that the vector index answers exactly: all but `<=` and `>=` with an integral DOUBLE. */
  predicate Exact(c: Constraint) {
    !((c.op.LESS_THAN_EQUAL? || c.op.GREATER_THAN_EQUAL?)
      && c.operand.DoubleOperand? && Floor(c.operand.doubleVal) as real == c.operand.doubleVal)
  }

  /** The vector index misses exactly the values equal to an integral DOUBLE operand of `<=` or `>=`. */
  lemma TestsUpToEquality(c: Constraint, v: Int64)
    requires Supported(c.op)
    ensures Tests(c, v) <==> Holds(c, v) && (Exact(c) || v as real != Value(c.operand))
  {
    match c.operand {
      case DoubleOperand(d) => Rounding(v, d);
      case IntegerOperand(i) =>
    }
  }

  /** The vector index is right about every stored value exactly for the `Exact` constraints. */
  lemma ExactIffRight(c: Constraint)
    requires Supported(c.op) && Castable(c)
    ensures Exact(c) <==> forall v: Int64 :: Tests(c, v) == Holds(c, v)
  {
    forall v: Int64
      ensures Tests(c, v) <==> Holds(c, v) && (Exact(c) || v as real != Value(c.operand))
    {
      TestsUpToEquality(c, v);
    }
    if !Exact(c) {
      var v: Int64 := Floor(c.operand.doubleVal);
      assert Holds(c, v) && !Tests(c, v);
    }
  }

  /** `score <= 5.0` misses a stored 5. */
  lemma MissesEqualValue()
    ensures var c := Constraint("score", LESS_THAN_EQUAL, DoubleOperand(5.0)); Holds(c, 5) && !Tests(c, 5)
  {
  }

  ghost predicate TestsAll(cs: seq<Constraint>, v: Int64)
    requires AllSupported(cs)
  {
    forall k | 0 <= k < |cs| :: Tests(cs[k], v)
  }

  /** The ids that the vector index returns. */
  ghost function Tested(values: seq<Int64>, cs: seq<Constraint>): set<nat>
    requires AllSupported(cs)
  {
    set i: nat | i < |values| && TestsAll(cs, values[i])
  }

  class VectorIntegerIndexer {
    var dataVector: seq<Int64>

    constructor ()
      ensures dataVector == [] && fresh(this)
    {
      dataVector := [];
    }

    method Insert(documentID: nat, val: Int64)
      requires documentID == |dataVector|
      modifies this
      ensures dataVector == old(dataVector) + [val]
    {
      dataVector := dataVector + [val];
    }

    /** The scan shared by all filters: the ids of the values strictly between two limits. */
    method SelectBetween(lower: int, upper: int) returns (bitmap: EwahBoolArray)
      ensures fresh(bitmap) && bitmap.Valid()
      ensures forall i: nat :: i in bitmap.Bits() <==> i < |dataVector| && lower < dataVector[i] < upper
    {
      hide Expand, Parses, NoEmptyMarker, Ones, WellFormed, WordCount;
      bitmap := new EwahBoolArray();
      var n := 0;
      while n < |dataVector|
        invariant 0 <= n <= |dataVector| && bitmap.SetBuilt() && bitmap.sizeinbits <= n
        invariant forall i: nat :: i in bitmap.Bits() <==> i < n && lower < dataVector[i] < upper
        modifies bitmap
      {
        if dataVector[n] > lower && dataVector[n] < upper {
          var added := bitmap.Add(n);
          assert added;
        }
        n := n + 1;
      }
    }

    method Filter(c: Constraint) returns (r: Result<EwahBoolArray>)
      requires Castable(c) && NoOverflow(c)
      ensures r.Ok? <==> Supported(c.op)
      ensures r.Ok? ==> fresh(r.value) && r.value.Valid() && r.value.Bits() == Tested(dataVector, [c])
    {
      hide Expand, Parses, NoEmptyMarker, Ones, WellFormed, WordCount;
      var bitmap: EwahBoolArray;
      match c.op {
        case EQUAL =>
          var intVal := match c.operand case IntegerOperand(i) => i case DoubleOperand(d) => Truncate(d);
          if intVal as real == Value(c.operand) {
            bitmap := SelectBetween(intVal - 1, intVal + 1);
          } else {
            bitmap := SelectBetween(0, 0);
            forall v: Int64 { TruncateExact(v, Value(c.operand)); }
          }
        case LESS_THAN => bitmap := SelectBetween(INT64_MIN - 1, UpperLimit(c));
        case LESS_THAN_EQUAL => bitmap := SelectBetween(INT64_MIN - 1, UpperLimit(c));
        case GREATER_THAN => bitmap := SelectBetween(LowerLimit(c), INT64_MAX + 1);
        case GREATER_THAN_EQUAL => bitmap := SelectBetween(LowerLimit(c), INT64_MAX + 1);
        case _ => return Err("IndexConstraintOperator type is not valid.");
      }
      TestsOne(c);
      return Ok(bitmap);
    }

    method FilterRange(lower: Constraint, upper: Constraint) returns (r: EwahBoolArray)
      requires IsLower(lower.op) && IsUpper(upper.op)
      requires Castable(lower) && Castable(upper) && NoOverflow(lower) && NoOverflow(upper)
      ensures fresh(r) && r.Valid() && r.Bits() == Tested(dataVector, [lower, upper])
    {
      r := SelectBetween(LowerLimit(lower), UpperLimit(upper));
      TestsBoth(lower, upper);
    }
  }

  lemma TestsOne(c: Constraint)
    requires Supported(c.op)
    ensures AllSupported([c]) && forall v :: TestsAll([c], v) <==> Tests(c, v)
  {
    assert [c][0] == c;
  }

  lemma TestsBoth(c: Constraint, d: Constraint)
    requires Supported(c.op) && Supported(d.op)
    ensures AllSupported([c, d]) && forall v :: TestsAll([c, d], v) <==> Tests(c, v) && Tests(d, v)
  {
    assert [c, d][0] == c && [c, d][1] == d;
  }
}
