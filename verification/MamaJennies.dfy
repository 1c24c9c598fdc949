/**
  Lists of bitmaps: intersection and union with two alternating output bitmaps.
 */
module MamaJennies {
  import opened EwahBits
  import opened EwahFormat
  import opened EwahBitmap
  import opened EwahMerge

  ghost predicate AllValid(bitmaps: seq<EwahBoolArray>)
    reads bitmaps
  {
    forall i | 0 <= i < |bitmaps| :: bitmaps[i].Valid()
  }

  /** The sets that the bitmaps stand for. */
  ghost function SetsOf(bitmaps: seq<EwahBoolArray>): (s: seq<set<nat>>)
    requires AllValid(bitmaps)
    reads bitmaps
    ensures |s| == |bitmaps| && forall i | 0 <= i < |s| :: s[i] == bitmaps[i].Bits()
  {
    seq(|bitmaps|, i requires 0 <= i < |bitmaps| && bitmaps[i].Valid() reads bitmaps => bitmaps[i].Bits())
  }

  ghost function Meet(s: seq<set<nat>>): set<nat>
    requires |s| > 0
  {
    if |s| == 1 then s[0] else Meet(s[..|s| - 1]) * s[|s| - 1]
  }

  ghost function Join(s: seq<set<nat>>): set<nat> {
    if s == [] then {} else Join(s[..|s| - 1]) + s[|s| - 1]
  }

  lemma {:induction false} MeetMember(s: seq<set<nat>>, x: nat)
    requires |s| > 0
    ensures x in Meet(s) <==> forall i | 0 <= i < |s| :: x in s[i]
  {
    if |s| > 1 {
      var t := s[..|s| - 1];
      MeetMember(t, x);
      assert forall i | 0 <= i < |t| :: t[i] == s[i];
    }
  }

  lemma {:induction false} JoinMember(s: seq<set<nat>>, x: nat)
    ensures x in Join(s) <==> exists i :: 0 <= i < |s| && x in s[i]
  {
    if |s| > 0 {
      var t := s[..|s| - 1];
      JoinMember(t, x);
      assert forall i | 0 <= i < |t| :: t[i] == s[i];
    }
  }

  /** One operand more. */
  lemma FoldMore(s: seq<set<nat>>, i: nat)
    requires 0 < i < |s|
    ensures Meet(s[..i + 1]) == Meet(s[..i]) * s[i] && Join(s[..i + 1]) == Join(s[..i]) + s[i]
  {
    assert s[..i + 1][..i] == s[..i];
  }

  lemma FoldOne(s: seq<set<nat>>)
    requires |s| > 0
    ensures Meet(s[..1]) == s[0] && Join(s[..1]) == s[0]
    ensures |s| == 1 ==> s[..1] == s
  {
    assert Join(s[..1][..0]) == {};
  }

  lemma JoinNothing(s: seq<set<nat>>)
    requires s == []
    ensures Join(s) == {}
  {
  }

  /** Nothing comes back once the intersection is empty. */
  lemma {:induction false} MeetStaysEmpty(s: seq<set<nat>>, i: nat)
    requires 0 < i <= |s| && Meet(s[..i]) == {}
    ensures Meet(s) == {}
    decreases |s| - i
  {
    if i < |s| {
      FoldMore(s, i);
      MeetStaysEmpty(s, i + 1);
    } else {
      assert s[..i] == s;
    }
  }

  /** The intersection of the list; stops early when an operand has size zero. */
  method LogicalAndAll(bitmaps: seq<EwahBoolArray>) returns (r: EwahBoolArray)
    requires AllValid(bitmaps)
    ensures r.Valid()
    ensures |bitmaps| == 0 ==> r.Bits() == {} && r.sizeinbits == 0
    ensures |bitmaps| > 0 ==> r.Bits() == Meet(SetsOf(bitmaps))
    ensures if |bitmaps| == 1 then r == bitmaps[0] else fresh(r)
  {
    hide Expand, Parses, NoEmptyMarker, Ones, Meet, Join, WellFormed, WordCount;
    if |bitmaps| == 0 {
      r := new EwahBoolArray();
      return;
    }
    ghost var sets := SetsOf(bitmaps);
    FoldOne(sets);
    if |bitmaps| == 1 {
      return bitmaps[0];
    }
    var b1 := new EwahBoolArray();
    var b2 := new EwahBoolArray();
    var combinedBitmap, outputBitmap := bitmaps[0], b2;
    var flipper := true;
    var i := 1;
    while i < |bitmaps|
      invariant 1 <= i <= |bitmaps|
      invariant combinedBitmap == (if i == 1 then bitmaps[0] else if flipper then b1 else b2)
      invariant outputBitmap == if flipper then b2 else b1
      invariant combinedBitmap.Valid() && combinedBitmap.Bits() == Meet(sets[..i])
      modifies b1, b2
    {
      LogicalAnd(bitmaps[i], combinedBitmap, outputBitmap);
      FoldMore(sets, i);
      flipper := !flipper;
      combinedBitmap := if flipper then b1 else b2;
      outputBitmap := if flipper then b2 else b1;
      i := i + 1;
      if combinedBitmap.sizeinbits == 0 {
        assert combinedBitmap.Bits() == {};
        MeetStaysEmpty(sets, i);
        return if flipper then b1 else b2;
      }
    }
    assert sets[..i] == sets;
    r := if flipper then b1 else b2;
  }

  /** The union of the list. */
  method LogicalOrAll(bitmaps: seq<EwahBoolArray>) returns (r: EwahBoolArray)
    requires AllValid(bitmaps)
    ensures r.Valid() && r.Bits() == Join(SetsOf(bitmaps))
    ensures if |bitmaps| == 1 then r == bitmaps[0] else fresh(r)
  {
    hide Expand, Parses, NoEmptyMarker, Ones, Meet, WellFormed, WordCount, RunningLength, LiteralCount, EwahBoolArray.Bits, EwahBoolArray.Structured, Join;
    if |bitmaps| == 0 {
      JoinNothing(SetsOf(bitmaps));
      r := new EwahBoolArray();
      return;
    }
    ghost var sets := SetsOf(bitmaps);
    FoldOne(sets);
    if |bitmaps| == 1 {
      return bitmaps[0];
    }
    var b1 := new EwahBoolArray();
    var b2 := new EwahBoolArray();
    var combinedBitmap, outputBitmap := bitmaps[0], b2;
    var flipper := true;
    var i := 1;
    while i < |bitmaps|
      invariant 1 <= i <= |bitmaps|
      invariant combinedBitmap == (if i == 1 then bitmaps[0] else if flipper then b1 else b2)
      invariant outputBitmap == if flipper then b2 else b1
      invariant combinedBitmap.Valid() && combinedBitmap.Bits() == Join(sets[..i])
      modifies b1, b2
    {
      LogicalOr(bitmaps[i], combinedBitmap, outputBitmap);
      FoldMore(sets, i);
      flipper := !flipper;
      combinedBitmap := if flipper then b1 else b2;
      outputBitmap := if flipper then b2 else b1;
      i := i + 1;
    }
    assert sets[..i] == sets;
    r := if flipper then b1 else b2;
  }
}
