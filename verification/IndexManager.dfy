/**
  All indexes of a collection: every document goes into every index, and a query is the
  intersection of what the indexes of its constraints answer.
 */
module IndexManagement {
  import opened EwahBits
  import opened EwahFormat
  import opened EwahBitmap
  import opened MamaJennies
  import opened Constraints
  import opened EwahIndexer
  import opened VectorIndexer

  /** A document, seen through its integer fields. */
  type Document = string -> Int64

  datatype Indexer = Inverted(inverted: EwahIntegerIndexer) | Linear(linear: VectorIntegerIndexer)

  /** An index on a column; the index consulted for a column is the first one created on it. */
  datatype Slot = Slot(columnName: string, indexer: Indexer)

  datatype IndexType = INVERTED_COMPRESSED_BITMAP | VECTOR

  ghost function Column(docs: seq<Document>, columnName: string): (values: seq<Int64>)
    ensures |values| == |docs| && forall i | 0 <= i < |docs| :: values[i] == docs[i](columnName)
  {
    seq(|docs|, i requires 0 <= i < |docs| => docs[i](columnName))
  }

  /** `k` is the position of the first index on a column: the one that is consulted. */
  ghost predicate IsFirst(slots: seq<Slot>, columnName: string, k: nat) {
    k < |slots| && slots[k].columnName == columnName && forall j | 0 <= j < k :: slots[j].columnName != columnName
  }

  ghost predicate HasIndex(slots: seq<Slot>, columnName: string) {
    exists k | 0 <= k < |slots| :: slots[k].columnName == columnName
  }

  /** The position of the index consulted for a column, or the number of all when there is none. */
  function FindSlot(slots: seq<Slot>, columnName: string): (k: nat)
    ensures k <= |slots|
    ensures if HasIndex(slots, columnName) then IsFirst(slots, columnName, k) else k == |slots|
    ensures forall j: nat :: IsFirst(slots, columnName, j) ==> j == k
  {
    if slots == [] || slots[0].columnName == columnName then 0
    else
      FindInRest(slots, columnName);
      1 + FindSlot(slots[1..], columnName)
  }

  lemma FindInRest(slots: seq<Slot>, columnName: string)
    requires slots != [] && slots[0].columnName != columnName
    ensures HasIndex(slots, columnName) <==> HasIndex(slots[1..], columnName)
    ensures forall k: nat :: IsFirst(slots[1..], columnName, k) <==> IsFirst(slots, columnName, k + 1)
  {
    forall k: nat
      ensures IsFirst(slots[1..], columnName, k) <==> IsFirst(slots, columnName, k + 1)
    {
      assert forall j | 0 < j < |slots| :: slots[1..][j - 1] == slots[j];
    }
    if HasIndex(slots, columnName) {
      var k :| 0 <= k < |slots| && slots[k].columnName == columnName;
      assert slots[1..][k - 1] == slots[k];
    }
  }

  /** What the first index on the constraint's column tests on a value. */
  ghost predicate Answers(slots: seq<Slot>, c: Constraint, v: Int64)
    requires Supported(c.op)
  {
    forall k: nat | IsFirst(slots, c.columnName, k) :: if slots[k].indexer.Inverted? then Holds(c, v) else Tests(c, v)
  }

  /** The first index on the constraint's column tests exactly the constraint. */
  ghost predicate AnsweredExactly(slots: seq<Slot>, c: Constraint) {
    forall k: nat | IsFirst(slots, c.columnName, k) :: slots[k].indexer.Linear? ==> Exact(c)
  }

  /** A constraint that a caller may pass: its operand survives the conversions of the index. */
  ghost predicate Askable(slots: seq<Slot>, c: Constraint) {
    Castable(c) && forall k: nat | IsFirst(slots, c.columnName, k) :: slots[k].indexer.Linear? ==> NoOverflow(c)
  }

  ghost predicate Answerable(slots: seq<Slot>, c: Constraint) {
    HasIndex(slots, c.columnName) && Supported(c.op)
  }

  ghost predicate AllAnswerable(slots: seq<Slot>, cs: seq<Constraint>) {
    forall k | 0 <= k < |cs| :: Answerable(slots, cs[k])
  }

  ghost predicate AnswersAll(slots: seq<Slot>, cs: seq<Constraint>, d: Document)
    requires AllAnswerable(slots, cs)
  {
    forall k | 0 <= k < |cs| :: Answers(slots, cs[k], d(cs[k].columnName))
  }

  function Object(x: Indexer): object {
    match x
    case Inverted(e) => e
    case Linear(v) => v
  }

  ghost function ReprOf(x: Indexer): set<object>
    reads Object(x)
  {
    match x
    case Inverted(e) => e.Repr
    case Linear(v) => {v}
  }

  /** The index holds the given values. */
  ghost predicate Stores(x: Indexer, values: seq<Int64>)
    reads Object(x), ReprOf(x)
  {
    match x
    case Inverted(e) => e.Valid() && e.values == values
    case Linear(v) => v.dataVector == values
  }

  /** One index on each of the given columns, of the given type. */
  ghost predicate SameColumns(slots: seq<Slot>, indexes: seq<(string, IndexType)>) {
    && |slots| == |indexes|
    && forall k | 0 <= k < |slots| ::
         slots[k].columnName == indexes[k].0 && (slots[k].indexer.Linear? <==> indexes[k].1.VECTOR?)
  }

  class DocumentIDGenerator {
    var currentID: nat

    constructor ()
      ensures currentID == 0
    {
      currentID := 0;
    }

    method ReserveID(n: nat) returns (start: nat)
      modifies this
      ensures start == old(currentID) && currentID == start + n
    {
      start := currentID;
      currentID := currentID + n;
    }
  }

  class IndexManager {
    var slots: seq<Slot>
    /** The documents indexed so far. */
    ghost var docs: seq<Document>
    ghost var Repr: set<object>

    /** The indexes are separate parts of the state. */
    ghost predicate Separate()
      reads this, Repr
    {
      && this in Repr
      && (forall k | 0 <= k < |slots| ::
            && Object(slots[k].indexer) in Repr
            && Object(slots[k].indexer) in ReprOf(slots[k].indexer) && ReprOf(slots[k].indexer) <= Repr
            && this !in ReprOf(slots[k].indexer))
      && (forall j, k | 0 <= j < k < |slots| :: ReprOf(slots[j].indexer) !! ReprOf(slots[k].indexer))
    }

    /** Indexes `from` up to `to` hold the values of their columns for the documents `ds`. */
    ghost predicate Holding(from: nat, to: nat, ds: seq<Document>)
      requires from <= to <= |slots| && Separate()
      reads this, Repr
    {
      forall k | from <= k < to :: Stores(slots[k].indexer, Column(ds, slots[k].columnName))
    }

    /** Every index holds the values of its column for every document. */
    ghost predicate Valid()
      reads this, Repr
      ensures Valid() ==> this in Repr
    {
      Separate() && Holding(0, |slots|, docs)
    }

    constructor (indexes: seq<(string, IndexType)>)
      ensures Valid() && fresh(Repr) && docs == []
      ensures SameColumns(slots, indexes)
    {
      slots := [];
      docs := [];
      Repr := {this};
      new;
      for k := 0 to |indexes|
        invariant Valid() && fresh(Repr) && docs == [] && |slots| == k
        invariant forall j | 0 <= j < k ::
                    slots[j].columnName == indexes[j].0 && (slots[j].indexer.Linear? <==> indexes[j].1.VECTOR?)
      {
        CreateIndex(indexes[k].0, indexes[k].1);
      }
    }

    /** A new index on a column, before any document is indexed. */
    method CreateIndex(columnName: string, indexType: IndexType)
      requires Valid() && docs == []
      modifies this
      ensures Valid() && fresh(Repr - old(Repr)) && docs == []
      ensures |slots| == |old(slots)| + 1 && slots[..|old(slots)|] == old(slots)
      ensures var s := slots[|old(slots)|]; s.columnName == columnName && (s.indexer.Linear? <==> indexType.VECTOR?)
    {
      hide EwahIntegerIndexer.Valid, Column;
      var indexer: Indexer;
      match indexType {
        case INVERTED_COMPRESSED_BITMAP =>
          var e := new EwahIntegerIndexer();
          indexer := Inverted(e);
          Repr := Repr + e.Repr;
        case VECTOR =>
          var v := new VectorIntegerIndexer();
          indexer := Linear(v);
          Repr := Repr + {v};
      }
      slots := slots + [Slot(columnName, indexer)];
    }

    /** One document into one index. */
    method InsertIntoSlot(k: nat, documentID: nat, doc: Document, ghost ds: seq<Document>)
      requires Separate() && k < |slots| && documentID == |ds|
      requires Holding(0, k, ds + [doc]) && Holding(k, |slots|, ds)
      modifies Repr
      ensures slots == old(slots) && docs == old(docs) && Separate() && fresh(Repr - old(Repr))
      ensures Holding(0, k + 1, ds + [doc]) && Holding(k + 1, |slots|, ds)
    {
      hide Expand, Parses, NoEmptyMarker, Ones, WellFormed, WordCount, EwahIntegerIndexer.Valid, Column, RunningLength, LiteralCount;
      var slot := slots[k];
      var val := doc(slot.columnName);
      assert Column(ds + [doc], slot.columnName) == Column(ds, slot.columnName) + [val];
      match slot.indexer {
        case Inverted(e) =>
          e.Insert(documentID, val);
          Repr := Repr + e.Repr;
        case Linear(v) =>
          v.Insert(documentID, val);
      }
    }

    /** One document into every index. */
    method InsertDocument(documentID: nat, doc: Document)
      requires Valid() && documentID == |docs|
      modifies Repr
      ensures Valid() && fresh(Repr - old(Repr)) && slots == old(slots) && docs == old(docs) + [doc]
    {
      ghost var ds := docs;
      var k := 0;
      while k < |slots|
        invariant 0 <= k <= |slots| && slots == old(slots) && docs == ds
        invariant Separate() && fresh(Repr - old(Repr))
        invariant Holding(0, k, ds + [doc]) && Holding(k, |slots|, ds)
      {
        InsertIntoSlot(k, documentID, doc, ds);
        k := k + 1;
      }
      docs := docs + [doc];
    }

    /** Every document gets the next id and goes into every index; returns the first id. */
    method IndexDocuments(documentIDGenerator: DocumentIDGenerator, documents: seq<Document>) returns (startID: nat)
      requires Valid() && documentIDGenerator !in Repr && documentIDGenerator.currentID == |docs|
      modifies Repr, documentIDGenerator
      ensures Valid() && fresh(Repr - old(Repr)) && slots == old(slots)
      ensures docs == old(docs) + documents
      ensures startID == |old(docs)| && documentIDGenerator.currentID == |docs|
    {
      startID := documentIDGenerator.ReserveID(|documents|);
      var documentID := startID;
      for i := 0 to |documents|
        invariant Valid() && fresh(Repr - old(Repr)) && slots == old(slots)
        invariant documentIDGenerator !in Repr && documentIDGenerator.currentID == startID + |documents|
        invariant documentID == startID + i && docs == old(docs) + documents[..i]
      {
        InsertDocument(documentID, documents[i]);
        documentID := documentID + 1;
      }
      assert documents[..|documents|] == documents;
    }

    /** The answer of index `k` to one constraint on its column, or to a range. */
    method Ask(k: nat, cs: seq<Constraint>) returns (r: Result<EwahBoolArray>)
      requires Valid() && k < |slots|
      requires 1 <= |cs| <= 2 && (|cs| == 2 ==> IsLower(cs[0].op) && IsUpper(cs[1].op))
      requires forall j | 0 <= j < |cs| :: IsFirst(slots, cs[j].columnName, k) && Askable(slots, cs[j])
      ensures r.Ok? <==> AllAnswerable(slots, cs)
      ensures r.Ok? ==> r.value.Valid() && r.value.Bits() == Selected(slots, docs, cs)
      ensures r.Ok? ==> r.value in Repr || fresh(r.value)
    {
      hide Expand, Parses, NoEmptyMarker, Ones, WellFormed, WordCount, FindSlot;
      if |cs| == 1 {
        assert cs == [cs[0]];
        match slots[k].indexer {
          case Inverted(e) => r := e.Filter(cs[0]);
          case Linear(v) => r := v.Filter(cs[0]);
        }
      } else {
        assert cs == [cs[0], cs[1]];
        var bm: EwahBoolArray;
        match slots[k].indexer {
          case Inverted(e) => bm := e.FilterRange(cs[0], cs[1]);
          case Linear(v) => bm := v.FilterRange(cs[0], cs[1]);
        }
        r := Ok(bm);
      }
      if r.Ok? {
        AnswerIsSelection(slots, docs, cs, k);
      }
    }

    /** The answer to the constraint at `i`, or to the range that it begins; `n` constraints are used up. */
    method AskNext(constraints: seq<Constraint>, i: nat) returns (n: nat, r: Result<EwahBoolArray>)
      requires Valid() && i < |constraints| && forall k | 0 <= k < |constraints| :: Askable(slots, constraints[k])
      ensures 1 <= n && i + n <= |constraints|
      ensures r.Ok? <==> AllAnswerable(slots, constraints[i..i + n])
      ensures r.Ok? ==> r.value.Valid() && r.value.Bits() == Selected(slots, docs, constraints[i..i + n])
      ensures r.Ok? ==> r.value in Repr || fresh(r.value)
    {
      hide Expand, Parses, NoEmptyMarker, Ones, WellFormed, WordCount, FindSlot, Selected;
      n := FuseLength(constraints, i);
      var cs := constraints[i..i + n];
      assert cs[0] == constraints[i];
      var k := FindSlot(slots, constraints[i].columnName);
      if k == |slots| {
        return n, Err("Cannot apply filter operation because no indexes exist on this field.");
      }
      r := Ask(k, cs);
    }

    /**
      One bitmap for each constraint, or for each range: adjacent lower and upper constraints on
      one column are fused. Fails exactly when a constraint has no index or an operator that no
      index supports.
     */
    method CollectAnswers(constraints: seq<Constraint>) returns (r: Result<seq<EwahBoolArray>>)
      requires Valid() && forall k | 0 <= k < |constraints| :: Askable(slots, constraints[k])
      ensures r.Ok? <==> AllAnswerable(slots, constraints)
      ensures r.Ok? ==> AllValid(r.value) && (forall k | 0 <= k < |r.value| :: r.value[k] in Repr || fresh(r.value[k]))
      ensures r.Ok? ==> if constraints == [] then r.value == []
                        else r.value != [] && Meet(SetsOf(r.value)) == Selected(slots, docs, constraints)
    {
      hide Expand, Parses, NoEmptyMarker, Ones, WellFormed, WordCount, Answerable, Askable, Selected, Meet;
      var bitmaps: seq<EwahBoolArray> := [];
      var i := 0;
      while i < |constraints|
        invariant 0 <= i <= |constraints| && AllValid(bitmaps)
        invariant forall k | 0 <= k < |bitmaps| :: bitmaps[k] in Repr || fresh(bitmaps[k])
        invariant AllAnswerable(slots, constraints[..i])
        invariant if i == 0 then bitmaps == []
                  else bitmaps != [] && Meet(SetsOf(bitmaps)) == Selected(slots, docs, constraints[..i])
      {
        var n, answer := AskNext(constraints, i);
        ghost var cs := constraints[i..i + n];
        SplitPrefix(constraints, i, n);
        AnswersConcat(slots, constraints[..i], cs);
        if answer.Err? {
          AnswersConcat(slots, constraints[..i + n], constraints[i + n..]);
          return Err(answer.message);
        }
        MeetAnother(SetsOf(bitmaps), answer.value.Bits());
        SelectedConcat(slots, docs, constraints[..i], cs);
        assert SetsOf(bitmaps + [answer.value]) == SetsOf(bitmaps) + [answer.value.Bits()];
        bitmaps := bitmaps + [answer.value];
        i := i + n;
      }
      assert constraints[..i] == constraints;
      return Ok(bitmaps);
    }

    /** The ids of the documents for which the index of every constraint's column answers yes. */
    method Filter(constraints: seq<Constraint>) returns (r: Result<EwahBoolArray>)
      requires Valid() && forall k | 0 <= k < |constraints| :: Askable(slots, constraints[k])
      ensures r.Ok? <==> AllAnswerable(slots, constraints)
      ensures r.Err? <==>
                exists k | 0 <= k < |constraints| :: Unanswerable(slots, constraints[k])
      ensures r.Ok? ==> r.value.Valid() && (r.value in Repr || fresh(r.value))
      ensures r.Ok? ==> r.value.Bits() == if |constraints| > 0 then Selected(slots, docs, constraints) else {}
      ensures r.Ok? && |constraints| > 0 ==>
                forall i: nat :: i in r.value.Bits() <==>
                  i < |docs| && forall k | 0 <= k < |constraints| :: Answers(slots, constraints[k], docs[i](constraints[k].columnName))
    {
      hide Expand, Parses, NoEmptyMarker, Ones, WellFormed, WordCount, Meet, Selected, Answers, Askable, AllAnswerable, Unanswerable;
      var answers := CollectAnswers(constraints);
      UnansweredMeans(slots, constraints);
      if answers.Err? {
        return Err(answers.message);
      }
      SelectedMeans(slots, docs, constraints);
      var bm := LogicalAndAll(answers.value);
      return Ok(bm);
    }
  }

  /** The ids of the documents that pass every constraint, as answered by the indexes. */
  ghost function Selected(slots: seq<Slot>, docs: seq<Document>, cs: seq<Constraint>): set<nat>
    requires AllAnswerable(slots, cs)
  {
    set i: nat | i < |docs| && AnswersAll(slots, cs, docs[i])
  }

  /** The answer of a full scan of the documents. */
  ghost function Matching(docs: seq<Document>, cs: seq<Constraint>): set<nat>
    requires AllSupported(cs)
  {
    set i: nat | i < |docs| && Matches(docs[i], cs)
  }

  ghost predicate Matches(d: Document, cs: seq<Constraint>)
    requires AllSupported(cs)
  {
    forall k | 0 <= k < |cs| :: Holds(cs[k], d(cs[k].columnName))
  }

  /** The indexes never select a document that a scan would not, and select them all when each answers exactly. */
  lemma SelectedIsScan(slots: seq<Slot>, docs: seq<Document>, cs: seq<Constraint>)
    requires AllAnswerable(slots, cs)
    ensures Selected(slots, docs, cs) <= Matching(docs, cs)
    ensures (forall k | 0 <= k < |cs| :: AnsweredExactly(slots, cs[k])) ==> Selected(slots, docs, cs) == Matching(docs, cs)
  {
    hide Tests, Holds, Exact;
    forall k, v: Int64 | 0 <= k < |cs|
      ensures Answers(slots, cs[k], v) ==> Holds(cs[k], v)
      ensures AnsweredExactly(slots, cs[k]) ==> (Answers(slots, cs[k], v) <==> Holds(cs[k], v))
    {
      assert Answerable(slots, cs[k]);
      assert IsFirst(slots, cs[k].columnName, FindSlot(slots, cs[k].columnName));
      TestsUpToEquality(cs[k], v);
    }
  }

  /** Filtering by one list and then by another is filtering by both: fusing constraints changes nothing. */
  lemma SelectedConcat(slots: seq<Slot>, docs: seq<Document>, a: seq<Constraint>, b: seq<Constraint>)
    requires AllAnswerable(slots, a) && AllAnswerable(slots, b)
    ensures AllAnswerable(slots, a + b)
    ensures Selected(slots, docs, a + b) == Selected(slots, docs, a) * Selected(slots, docs, b)
    ensures a == [] ==> Selected(slots, docs, a + b) == Selected(slots, docs, b)
  {
    forall d: Document
      ensures AnswersAll(slots, a + b, d) <==> AnswersAll(slots, a, d) && AnswersAll(slots, b, d)
    {
      assert forall k | 0 <= k < |a| :: (a + b)[k] == a[k];
      assert forall k | 0 <= k < |b| :: (a + b)[|a| + k] == b[k];
    }
  }

  lemma AnswersConcat(slots: seq<Slot>, a: seq<Constraint>, b: seq<Constraint>)
    ensures AllAnswerable(slots, a + b) <==> AllAnswerable(slots, a) && AllAnswerable(slots, b)
  {
    assert forall k | 0 <= k < |a| :: (a + b)[k] == a[k];
    assert forall k | 0 <= k < |b| :: (a + b)[|a| + k] == b[k];
  }

  lemma SplitPrefix(cs: seq<Constraint>, i: nat, n: nat)
    requires i + n <= |cs|
    ensures cs[..i + n] == cs[..i] + cs[i..i + n]
    ensures cs == cs[..i] + cs[i..i + n] + cs[i + n..]
  {
  }

  lemma MeetAnother(s: seq<set<nat>>, x: set<nat>)
    ensures Meet(s + [x]) == if s == [] then x else Meet(s) * x
  {
    assert (s + [x])[..|s|] == s;
  }

  lemma FirstAnswers(slots: seq<Slot>, c: Constraint, v: Int64, k: nat)
    requires Supported(c.op) && IsFirst(slots, c.columnName, k)
    ensures Answers(slots, c, v) <==> if slots[k].indexer.Inverted? then Holds(c, v) else Tests(c, v)
  {
    hide Tests, Holds;
    var first := FindSlot(slots, c.columnName);
    assert k == first;
  }

  /** What cannot be answered: an operator of the four that compare strings, or a column without an index. */
  ghost predicate Unanswerable(slots: seq<Slot>, c: Constraint) {
    || c.op.MATCH? || c.op.LIKE? || c.op.GLOB? || c.op.REGEX?
    || forall j | 0 <= j < |slots| :: slots[j].columnName != c.columnName
  }

  lemma UnansweredMeans(slots: seq<Slot>, cs: seq<Constraint>)
    ensures AllAnswerable(slots, cs) <==> forall k | 0 <= k < |cs| :: !Unanswerable(slots, cs[k])
  {
    forall k | 0 <= k < |cs|
      ensures Answerable(slots, cs[k]) <==> !Unanswerable(slots, cs[k])
    {
    }
  }

  /** Membership, on the values of the single constraints. */
  lemma SelectedMeans(slots: seq<Slot>, docs: seq<Document>, cs: seq<Constraint>)
    requires AllAnswerable(slots, cs)
    ensures forall i: nat :: i in Selected(slots, docs, cs) <==>
              i < |docs| && forall k | 0 <= k < |cs| :: Answers(slots, cs[k], docs[i](cs[k].columnName))
  {
    hide Answers;
  }

  /** A scan of the column, by either index, selects the documents that answer every constraint on it. */
  lemma AnswerIsSelection(slots: seq<Slot>, docs: seq<Document>, cs: seq<Constraint>, k: nat)
    requires AllAnswerable(slots, cs) && k < |slots|
    requires forall j | 0 <= j < |cs| :: IsFirst(slots, cs[j].columnName, k)
    ensures AllSupported(cs)
    ensures Selected(slots, docs, cs) == if slots[k].indexer.Inverted? then ScanAll(Column(docs, slots[k].columnName), cs)
                                         else Tested(Column(docs, slots[k].columnName), cs)
  {
    hide Tests, Holds;
    var values := Column(docs, slots[k].columnName);
    forall j, v: Int64 | 0 <= j < |cs|
      ensures Answers(slots, cs[j], v) <==> if slots[k].indexer.Inverted? then Holds(cs[j], v) else Tests(cs[j], v)
    {
      FirstAnswers(slots, cs[j], v, k);
    }
    forall i: nat | i < |docs|
      ensures AnswersAll(slots, cs, docs[i]) <==>
              if slots[k].indexer.Inverted? then HoldsAll(cs, values[i]) else TestsAll(cs, values[i])
    {
      assert forall j | 0 <= j < |cs| :: cs[j].columnName == slots[k].columnName;
    }
  }

  /** 2 when the constraint at `i` and the next one make a range on one column, else 1. */
  function FuseLength(cs: seq<Constraint>, i: nat): (n: nat)
    requires i < |cs|
    ensures 1 <= n <= 2 && i + n <= |cs|
    ensures n == 2 <==> i + 1 < |cs| && cs[i].columnName == cs[i + 1].columnName && IsLower(cs[i].op) && IsUpper(cs[i + 1].op)
  {
    if i + 1 < |cs| && cs[i].columnName == cs[i + 1].columnName && IsLower(cs[i].op) && IsUpper(cs[i + 1].op) then 2 else 1
  }
}
