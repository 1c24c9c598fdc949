/**
  The inverted index of an integer column: one compressed bitmap per stored value.
 */
module EwahIndexer {
  import opened OrderedSets
  import opened EwahBits
  import opened EwahFormat
  import opened EwahBitmap
  import opened MamaJennies
  import opened Constraints

  /** In-order traversal of the keys of a `std::map`. */
  ghost predicate SortedKeys(keys: seq<Int64>, s: set<Int64>) {
    && (forall i, j | 0 <= i < j < |keys| :: keys[i] < keys[j])
    && (forall k :: k in s <==> k in keys)
  }

  /** The position of the first key that is at least `x`, as `lower_bound` finds it. */
  function LowerBound(keys: seq<Int64>, x: int): (i: nat)
    ensures i <= |keys|
    ensures forall j | 0 <= j < i :: keys[j] < x
    ensures i < |keys| ==> keys[i] >= x
  {
    if keys == [] || keys[0] >= x then 0 else 1 + LowerBound(keys[1..], x)
  }

  /** The position of the first key above `x`, as `upper_bound` finds it. */
  function UpperBound(keys: seq<Int64>, x: int): (i: nat)
    ensures i <= |keys|
    ensures forall j | 0 <= j < i :: keys[j] <= x
    ensures i < |keys| ==> keys[i] > x
  {
    LowerBound(keys, x + 1)
  }

  /** The bitmap can be appended to and holds the ids of one value. */
  ghost predicate IdsOf(bm: EwahBoolArray, v: Int64, values: seq<Int64>)
    reads bm
  {
    bm.SetBuilt() && bm.sizeinbits <= |values| && forall i: nat :: i in bm.Bits() <==> i < |values| && values[i] == v
  }

  /** Another value stored changes nothing for `v`. */
  lemma OtherValue(bm: EwahBoolArray, v: Int64, values: seq<Int64>, val: Int64)
    requires IdsOf(bm, v, values) && v != val
    ensures IdsOf(bm, v, values + [val])
  {
    hide Expand, Parses, NoEmptyMarker, Ones, WellFormed, WordCount;
  }

  class EwahIntegerIndexer {
    var bitmaps: map<Int64, EwahBoolArray>
    /** The value stored for each document id. */
    ghost var values: seq<Int64>
    ghost var Repr: set<object>

    /** The bitmaps partition the ids by value. */
    ghost predicate Valid()
      reads this, Repr
      ensures Valid() ==> this in Repr
    {
      && this in Repr
      && (forall v | v in bitmaps :: bitmaps[v] in Repr)
      && (forall v :: v in bitmaps <==> v in values)
      && (forall v | v in bitmaps :: IdsOf(bitmaps[v], v, values))
      && (forall v, w | v in bitmaps && w in bitmaps && v != w :: bitmaps[v] != bitmaps[w])
    }

    constructor ()
      ensures Valid() && fresh(Repr) && values == []
    {
      bitmaps := map[];
      values := [];
      Repr := {this};
    }

    method Insert(documentID: nat, val: Int64)
      requires Valid() && documentID == |values|
      modifies Repr
      ensures Valid() && fresh(Repr - old(Repr)) && values == old(values) + [val]
    {
      hide IdsOf;
      if val !in bitmaps {
        var bm := FirstId(documentID, val, values);
        bitmaps := bitmaps[val := bm];
        Repr := Repr + {bm};
      } else {
        NextId(bitmaps[val], documentID, val, values);
      }
      values := values + [val];
      forall v | v in bitmaps
        ensures IdsOf(bitmaps[v], v, values)
      {
        if v != val {
          assert old(IdsOf(bitmaps[v], v, values)) && bitmaps[v] == old(bitmaps)[v];
          OtherValue(bitmaps[v], v, old(values), val);
        }
      }
    }

    /** The bitmap of a value that is stored for the first time. */
    static method FirstId(documentID: nat, val: Int64, ghost values: seq<Int64>) returns (bm: EwahBoolArray)
      requires documentID == |values| && val !in values
      ensures fresh(bm) && IdsOf(bm, val, values + [val])
    {
      hide Expand, Parses, NoEmptyMarker, Ones, WellFormed, WordCount;
      bm := new EwahBoolArray();
      var added := bm.Add(documentID);
      assert added;
    }

    /** One more id in the bitmap of a value. */
    static method NextId(bm: EwahBoolArray, documentID: nat, val: Int64, ghost values: seq<Int64>)
      requires documentID == |values| && IdsOf(bm, val, values)
      modifies bm
      ensures IdsOf(bm, val, values + [val])
    {
      hide Expand, Parses, NoEmptyMarker, Ones, WellFormed, WordCount;
      var added := bm.Add(documentID);
      assert added;
    }

    /** The bitmaps collected so far, one for each chosen value. */
    ghost predicate Picked(picked: seq<EwahBoolArray>, chosen: seq<Int64>)
      reads this
    {
      |picked| == |chosen| && forall j | 0 <= j < |chosen| :: chosen[j] in bitmaps && picked[j] == bitmaps[chosen[j]]
    }

    /** The union of the bitmaps of the values that satisfy all of `cs` is what a scan for `cs` returns. */
    method UniteChosen(picked: seq<EwahBoolArray>, ghost chosen: seq<Int64>, ghost cs: seq<Constraint>)
      returns (r: EwahBoolArray)
      requires Valid() && Picked(picked, chosen) && AllSupported(cs)
      requires forall v | v in bitmaps :: v in chosen <==> HoldsAll(cs, v)
      ensures r.Valid() && r.Bits() == ScanAll(values, cs)
      ensures r in bitmaps.Values || fresh(r)
    {
      hide Expand, Parses, NoEmptyMarker, Ones, WellFormed, WordCount, Join;
      r := LogicalOrAll(picked);
      if |picked| == 1 {
        assert picked[0] in bitmaps.Values;
      }
      ghost var sets := SetsOf(picked);
      forall i: nat
        ensures i in r.Bits() <==> i in ScanAll(values, cs)
      {
        JoinMember(sets, i);
        if i < |values| {
          assert values[i] in bitmaps;
          if values[i] in chosen {
            var j :| 0 <= j < |chosen| && chosen[j] == values[i];
            assert i in sets[j];
          }
        }
      }
    }

    method GetBitmapEQ(c: Constraint) returns (r: EwahBoolArray)
      requires Valid() && c.op.EQUAL? && Castable(c)
      ensures r.Valid() && r.Bits() == ScanAll(values, [c])
      ensures r in bitmaps.Values || fresh(r)
    {
      hide Expand, Parses, NoEmptyMarker, Ones, WellFormed, WordCount;
      var picked: seq<EwahBoolArray> := [];
      ghost var chosen: seq<Int64> := [];
      match c.operand {
        case IntegerOperand(i) =>
          if i in bitmaps {
            picked, chosen := [bitmaps[i]], [i];
          }
        case DoubleOperand(d) =>
          var intVal := Truncate(d);
          if intVal as real == d && intVal in bitmaps {
            picked, chosen := [bitmaps[intVal]], [intVal];
          }
          forall v: Int64 { TruncateExact(v, d); }
      }
      HoldsOne(c);
      r := UniteChosen(picked, chosen, [c]);
    }

    method GetBitmapLT(c: Constraint, orEqual: bool) returns (r: EwahBoolArray)
      requires Valid() && c.op == (if orEqual then LESS_THAN_EQUAL else LESS_THAN) && Castable(c)
      ensures r.Valid() && r.Bits() == ScanAll(values, [c])
      ensures r in bitmaps.Values || fresh(r)
    {
      hide Expand, Parses, NoEmptyMarker, Ones, WellFormed, WordCount, EwahBoolArray.Valid;
      var keys: seq<Int64> := InOrder(bitmaps.Keys);
      var picked: seq<EwahBoolArray> := [];
      ghost var chosen: seq<Int64> := [];
      var ceiling := RoundUp(c.operand);
      HoldsRounded(c);
      var n := 0;
      while n < |keys|
        invariant 0 <= n <= |keys| && Picked(picked, chosen)
        invariant chosen == keys[..n]
        invariant forall j | 0 <= j < n :: keys[j] < ceiling
      {
        if keys[n] < ceiling {
          picked, chosen := picked + [bitmaps[keys[n]]], chosen + [keys[n]];
        } else {
          if orEqual && keys[n] as real == Value(c.operand) {
            picked, chosen := picked + [bitmaps[keys[n]]], chosen + [keys[n]];
          }
          break;
        }
        n := n + 1;
      }
      HoldsOne(c);
      r := UniteChosen(picked, chosen, [c]);
    }

    method GetBitmapGT(c: Constraint) returns (r: EwahBoolArray)
      requires Valid() && c.op.GREATER_THAN? && Castable(c)
      ensures r.Valid() && r.Bits() == ScanAll(values, [c])
      ensures r in bitmaps.Values || fresh(r)
    {
      hide Expand, Parses, NoEmptyMarker, Ones, WellFormed, WordCount;
      var keys: seq<Int64> := InOrder(bitmaps.Keys);
      var operandVal := RoundDown(c.operand);
      HoldsRounded(c);
      var start := UpperBound(keys, operandVal);
      var picked := CollectFrom(keys, start);
      HoldsOne(c);
      r := UniteChosen(picked, keys[start..], [c]);
    }

    method GetBitmapGTE(c: Constraint) returns (r: EwahBoolArray)
      requires Valid() && c.op.GREATER_THAN_EQUAL? && Castable(c)
      ensures r.Valid() && r.Bits() == ScanAll(values, [c])
      ensures r in bitmaps.Values || fresh(r)
    {
      hide Expand, Parses, NoEmptyMarker, Ones, WellFormed, WordCount;
      var keys: seq<Int64> := InOrder(bitmaps.Keys);
      var operandVal := RoundUp(c.operand);
      HoldsRounded(c);
      var start := LowerBound(keys, operandVal);
      var picked := CollectFrom(keys, start);
      HoldsOne(c);
      r := UniteChosen(picked, keys[start..], [c]);
    }

    /** The loop from an iterator to the end of the map. */
    method CollectFrom(keys: seq<Int64>, start: nat) returns (picked: seq<EwahBoolArray>)
      requires SortedKeys(keys, bitmaps.Keys) && start <= |keys|
      ensures Picked(picked, keys[start..])
    {
      picked := [];
      var iter := start;
      while iter < |keys|
        invariant start <= iter <= |keys| && Picked(picked, keys[start..iter])
      {
        picked := picked + [bitmaps[keys[iter]]];
        iter := iter + 1;
      }
    }

    method Filter(c: Constraint) returns (r: Result<EwahBoolArray>)
      requires Valid() && Castable(c)
      ensures r.Ok? <==> Supported(c.op)
      ensures r.Ok? ==> r.value.Valid() && r.value.Bits() == ScanAll(values, [c])
      ensures r.Ok? ==> r.value in bitmaps.Values || fresh(r.value)
    {
      var bm: EwahBoolArray;
      match c.op {
        case EQUAL => bm := GetBitmapEQ(c);
        case LESS_THAN => bm := GetBitmapLT(c, false);
        case LESS_THAN_EQUAL => bm := GetBitmapLT(c, true);
        case GREATER_THAN => bm := GetBitmapGT(c);
        case GREATER_THAN_EQUAL => bm := GetBitmapGTE(c);
        case _ => return Err("IndexConstraintOperator type is not valid.");
      }
      return Ok(bm);
    }

    /** A lower and an upper constraint answered by one walk over the keys. */
    method FilterRange(lower: Constraint, upper: Constraint) returns (r: EwahBoolArray)
      requires Valid() && IsLower(lower.op) && IsUpper(upper.op) && Castable(lower) && Castable(upper)
      ensures r.Valid() && r.Bits() == ScanAll(values, [lower, upper])
      ensures r in bitmaps.Values || fresh(r)
    {
      hide Expand, Parses, NoEmptyMarker, Ones, WellFormed, WordCount, EwahBoolArray.Valid;
      var lowerVal := if lower.op.GREATER_THAN? then RoundDown(lower.operand) else RoundUp(lower.operand);
      var upperVal := RoundUp(upper.operand);
      HoldsRounded(lower);
      var keys: seq<Int64> := InOrder(bitmaps.Keys);
      var start := if lower.op.GREATER_THAN? then UpperBound(keys, lowerVal) else LowerBound(keys, lowerVal);
      var picked, chosen := CollectUpTo(keys, start, upper, upperVal);
      HoldsBoth(lower, upper);
      forall v | v in bitmaps
        ensures v in chosen <==> HoldsAll([lower, upper], v)
      {
        var j :| 0 <= j < |keys| && keys[j] == v;
        assert j >= start <==> Holds(lower, v);
      }
      r := UniteChosen(picked, chosen, [lower, upper]);
    }

    /** The loop of the range filter: the keys from `start` on that satisfy the upper constraint. */
    method CollectUpTo(keys: seq<Int64>, start: nat, upper: Constraint, upperVal: int)
      returns (picked: seq<EwahBoolArray>, ghost chosen: seq<Int64>)
      requires SortedKeys(keys, bitmaps.Keys) && start <= |keys|
      requires IsUpper(upper.op) && upperVal == RoundUp(upper.operand)
      ensures Picked(picked, chosen)
      ensures forall j | 0 <= j < |keys| :: keys[j] in chosen <==> j >= start && Holds(upper, keys[j])
    {
      HoldsRounded(upper);
      picked, chosen := [], [];
      var iter := start;
      while iter < |keys|
        invariant start <= iter <= |keys| && Picked(picked, chosen)
        invariant forall j | 0 <= j < |keys| :: keys[j] in chosen <==> start <= j < iter && Holds(upper, keys[j])
      {
        if keys[iter] < upperVal {
          picked, chosen := picked + [bitmaps[keys[iter]]], chosen + [keys[iter]];
        } else if upper.op.LESS_THAN_EQUAL? {
          if keys[iter] as real == Value(upper.operand) {
            picked, chosen := picked + [bitmaps[keys[iter]]], chosen + [keys[iter]];
          }
        } else {
          break;
        }
        iter := iter + 1;
      }
    }
  }

  /** The keys in ascending order. */
  method InOrder(s: set<Int64>) returns (keys: seq<Int64>)
    ensures SortedKeys(keys, s)
  {
    keys := [];
    var rest := s;
    while rest != {}
      invariant rest <= s && SortedKeys(keys, s - rest)
      invariant forall k, x | k in keys && x in rest :: k < x
      decreases rest
    {
      var k := Least(rest);
      assert forall j | 0 <= j < |keys| :: keys[j] in keys;
      keys := keys + [k];
      rest := rest - {k};
    }
  }
}
