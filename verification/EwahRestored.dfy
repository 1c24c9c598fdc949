/**
  Appending to a bitmap that has been stored and restored. The position of the last marker is not
  stored, so `lastRLW` is 0 afterwards; this is about what `set` then does.
 */
module EwahRestored {
  import opened Words
  import opened EwahBits
  import opened EwahFormat
  import opened EwahAppend

  /** How a marker that `set` put behind `p` looks: it has a run, unless `p` was full, and continues no run with room. */
  predicate Follows(p: Word, m: Word) {
    && (RunningLength(m) > 0 || LiteralCount(p) == LARGEST_LITERAL_COUNT)
    && (LiteralCount(p) == 0 && RunningBit(p) == RunningBit(m) ==> RunningLength(p) == LARGEST_RUNNING_LENGTH)
  }

  /** Every marker follows the one before it. */
  predicate Packed(b: seq<Word>)
    requires Parses(b)
  {
    b == [] || Span(b[0]) == |b| || (Follows(b[0], b[Span(b[0])]) && Packed(b[Span(b[0])..]))
  }

  /** The buffer and the size that ascending calls of `set` leave for `ids`; `last` is the last marker. */
  ghost predicate StoredForm(b: seq<Word>, size: nat, ids: set<nat>, last: nat) {
    && CanAppend(Tail(b, last), size)
    && Ones(Expand(b)) == ids
    && (size % WORD_BITS != 0 ==> LiteralCount(b[last]) > 0)
    && (size > 0 ==> size - 1 in ids)
    && (last > 0 ==> Size(b[last]) > 0)
    && Packed(b)
  }

  /** The empty bitmap. */
  lemma EmptyForm()
    ensures StoredForm([0], 0, {}, 0)
  {
    ZeroMarker();
    ExpandSegment([0]);
    assert [0][1..] == [];
  }

  /** What comes behind the first marker of a buffer with several. */
  lemma SecondMarker(b: seq<Word>, last: nat)
    requires WellFormed(b, last) && Parses(b) && last > 0
    ensures Size(b[0]) > 0 && Span(b[0]) <= last
    ensures var c := b[Span(b[0])..];
            WellFormed(c, last - Span(b[0])) && Parses(c) && c[0] == b[Span(b[0])] && c[last - Span(b[0])] == b[last]
    ensures Packed(b) ==> Follows(b[0], b[Span(b[0])]) && Packed(b[Span(b[0])..])
  {
    var n := Span(b[0]);
    assert b[..last][0] == b[0];
    assert b[..last][n..] == b[n..last] == b[n..][..last - n];
  }

  lemma {:induction false} PackedAppend(b: seq<Word>, last: nat, s: seq<Word>)
    requires WellFormed(b, last) && Parses(b) && Packed(b)
    requires Parses(s) && s != [] && Packed(s) && Follows(b[last], s[0])
    ensures Parses(b + s) && Packed(b + s)
  {
    hide RunningLength, LiteralCount, Follows, NoEmptyMarker;
    ParsesConcat(b, s);
    var n := Span(b[0]);
    SplitConcat(b, s, n);
    if last == 0 {
      assert b[n..] + s == s;
    } else {
      SecondMarker(b, last);
      PackedAppend(b[n..], last - n, s);
    }
  }

  /** Rewriting the last marker, whose run may only grow, and what follows it. */
  lemma {:induction false} PackedReplaceLast(b: seq<Word>, last: nat, m: Word, literals: seq<Word>)
    requires WellFormed(b, last) && Parses(b) && Packed(b) && LiteralCount(m) == |literals|
    requires RunningLength(b[last]) > 0 ==> RunningLength(m) > 0 && RunningBit(m) == RunningBit(b[last])
    ensures var c := b[..last] + [m] + literals; Parses(c) && Packed(c)
  {
    hide RunningLength, LiteralCount, NoEmptyMarker;
    var c := b[..last] + [m] + literals;
    ReplaceLast(b, last, m, literals);
    if last > 0 {
      var n := Span(b[0]);
      SecondMarker(b, last);
      PackedReplaceLast(b[n..], last - n, m, literals);
      assert c[0] == b[0] && c[n..] == b[n..][..last - n] + [m] + literals;
      assert c[n] == (b[n..][..last - n] + [m] + literals)[0];
    }
  }

  ghost predicate PackedTail(t: Tail) {
    WellFormed(t.buffer, t.last) && Parses(t.buffer) && Packed(t.buffer)
  }

  lemma OneMarker(m: Word, literals: seq<Word>)
    requires LiteralCount(m) == |literals|
    ensures Parses([m] + literals) && Packed([m] + literals)
  {
    assert ([m] + literals)[Span(m)..] == [];
  }

  lemma UpdateMark(t: Tail, m: Word, ws: seq<Word>)
    requires PackedTail(t) && LiteralCount(m) == LiteralCount(t.buffer[t.last]) + |ws|
    requires RunningLength(t.buffer[t.last]) > 0 ==>
               RunningLength(m) > 0 && RunningBit(m) == RunningBit(t.buffer[t.last])
    ensures var c := t.buffer[t.last := m] + ws; Parses(c) && Packed(c)
  {
    hide RunningLength, LiteralCount, NoEmptyMarker, Packed;
    UpdateAt(t.buffer, t.last, m, ws);
    PackedReplaceLast(t.buffer, t.last, m, t.buffer[t.last + 1..] + ws);
  }

  lemma AddLiteralPacked(t: Tail, w: Word)
    requires PackedTail(t)
    ensures t.Hangs() && PackedTail(AddLiteral(t, w))
  {
    hide RunningLength, LiteralCount, NoEmptyMarker, Packed, Expand, Parses;
    AddLiteralGrows(t, w);
    var m := t.buffer[t.last];
    if LiteralCount(m) >= LARGEST_LITERAL_COUNT {
      var s := [Marker(false, 0, 1)] + [w];
      OneMarker(s[0], [w]);
      PackedAppend(t.buffer, t.last, s);
      assert t.buffer + s == t.buffer + [Marker(false, 0, 1)] + [w];
    } else {
      UpdateMark(t, WithLiteralCount(m, LiteralCount(m) + 1), [w]);
    }
  }

  lemma AddEmptyPacked(t: Tail, v: bool)
    requires PackedTail(t)
    ensures t.Hangs() && PackedTail(AddEmpty(t, v))
  {
    hide RunningLength, LiteralCount, NoEmptyMarker, Packed, Expand, Parses;
    AddEmptyGrows(t, v);
    var m := t.buffer[t.last];
    if LiteralCount(m) == 0 && (RunningLength(m) == 0 || RunningBit(m) == v) && RunningLength(m) < LARGEST_RUNNING_LENGTH {
      var m' := Marker(v, RunningLength(m) + 1, 0);
      UpdateMark(t, m', []);
      NilRight(t.buffer[t.last := m']);
    } else {
      OneMarker(Marker(v, 1, 0), []);
      NilRight([Marker(v, 1, 0)]);
      PackedAppend(t.buffer, t.last, [Marker(v, 1, 0)]);
    }
  }

  /** The markers of a run are packed, and well formed behind any non-empty marker. */
  lemma {:induction false} RunMarkersPacked(v: bool, n: nat)
    ensures Parses(RunMarkers(v, n)) && Packed(RunMarkers(v, n))
    ensures n > 0 ==> RunningBit(RunMarkers(v, n)[0]) == v && RunningLength(RunMarkers(v, n)[0]) > 0
    decreases n
  {
    hide RunningLength, LiteralCount, NoEmptyMarker;
    RunMarkersStep(v, n);
    if n >= LARGEST_RUNNING_LENGTH {
      var full, rest := Marker(v, LARGEST_RUNNING_LENGTH, 0), RunMarkers(v, n - LARGEST_RUNNING_LENGTH);
      RunMarkersPacked(v, n - LARGEST_RUNNING_LENGTH);
      assert ([full] + rest)[1..] == rest;
    } else if n > 0 {
      OneMarker(Marker(v, n, 0), []);
      NilRight([Marker(v, n, 0)]);
    }
  }

  lemma PushRunsPacked(t: Tail, v: bool, n: nat)
    requires PackedTail(t) && (n > 0 ==> Size(t.buffer[t.last]) > 0)
    requires n > 0 && LiteralCount(t.buffer[t.last]) == 0 && RunningBit(t.buffer[t.last]) == v ==>
               RunningLength(t.buffer[t.last]) == LARGEST_RUNNING_LENGTH
    ensures t.Hangs() && PackedTail(PushRuns(t, v, n))
  {
    hide RunningLength, LiteralCount, NoEmptyMarker, Packed, Expand, Parses, RunMarkers;
    PushRunsGrow(t, v, n);
    if n > 0 {
      RunMarkersPacked(v, n);
      PackedAppend(t.buffer, t.last, RunMarkers(v, n));
    }
  }

  /** Behind literals or a run of the other bit, a run opens new markers. */
  lemma FastAddPushes(t: Tail, v: bool, n: nat)
    requires t.Hangs() && n > 0 && Size(t.Mark()) > 0 && (LiteralCount(t.Mark()) != 0 || RunningBit(t.Mark()) != v)
    ensures FastAdd(t, v, n) == PushRuns(t, v, n)
  {
    hide RunningLength, LiteralCount, RunMarkers;
    var empty, k := Marker(v, 0, 0), Room(Marker(v, 0, 0), n);
    var b := t.buffer;
    assert (b + [empty])[|b| := Marker(v, k, 0)] == b + [Marker(v, k, 0)];
    RunMarkersStep(v, n);
    if n < LARGEST_RUNNING_LENGTH {
      RunMarkersStep(v, n - k);
    } else {
      PushRunsStep(t, v, n);
    }
  }

  lemma FastAddPacked(t: Tail, v: bool, n: nat)
    requires PackedTail(t) && n > 0
    ensures t.Hangs() && PackedTail(FastAdd(t, v, n))
  {
    hide RunningLength, LiteralCount, NoEmptyMarker, Packed, Expand, Parses, WellFormed, PushRuns;
    FastAddGrows(t, v, n);
    var m := t.buffer[t.last];
    if Size(m) > 0 && (LiteralCount(m) != 0 || RunningBit(m) != v) {
      FastAddPushes(t, v, n);
      PushRunsPacked(t, v, n);
    } else {
      var k := Room(m, n);
      var m' := Marker(v, RunningLength(m) + k, 0);
      FastAddExtends(t, v, n);
      var u := Tail(t.buffer[t.last := m'], t.last);
      UpdateMark(t, m', []);
      NilRight(u.buffer);
      ExtendGrows(t, v, k);
      PushRunsPacked(u, v, n - k);
    }
  }

  /** A run of the same bit without literals, or an empty marker, is lengthened first. */
  lemma FastAddExtends(t: Tail, v: bool, n: nat)
    requires t.Hangs() && LiteralCount(t.Mark()) == 0 && (RunningLength(t.Mark()) == 0 || RunningBit(t.Mark()) == v)
    ensures var m := t.Mark();
            var u := Tail(t.buffer[t.last := Marker(v, RunningLength(m) + Room(m, n), 0)], t.last);
            u.Hangs() && FastAdd(t, v, n) == PushRuns(u, v, n - Room(m, n))
  {
    hide RunningLength, LiteralCount, PushRuns;
    var m := t.Mark();
    var m' := Marker(v, RunningLength(m) + Room(m, n), 0);
    assert t.buffer[t.last := Marker(v, 0, 0)][t.last := m'] == t.buffer[t.last := m'];
  }

  /** `set` keeps the buffer packed, with the position of the last marker right. */
  lemma AfterSetPacked(t: Tail, size: nat, i: nat)
    requires CanAppend(t, size) && Packed(t.buffer) && size <= i
    requires size % WORD_BITS != 0 ==> LiteralCount(t.buffer[t.last]) > 0
    ensures t.Hangs() && PackedTail(AfterSet(t, size, i))
  {
    hide RunningLength, LiteralCount, NoEmptyMarker, Packed, Expand, Parses, AddLiteral, AddEmpty, FastAdd, Ones;
    AfterSetAppends(t, size, i);
    if Dist(size, i) > 0 {
      var u := if Dist(size, i) > 1 then FastAdd(t, false, Dist(size, i) - 1) else t;
      if Dist(size, i) > 1 {
        FastAddPacked(t, false, Dist(size, i) - 1);
      }
      AddLiteralPacked(u, OneBit(i % WORD_BITS));
    } else {
      LastWordOf(size, i);
      OrLastPacked(t, i);
      if LastWith(t.buffer, i) == ALL_ONES {
        CollapsePacked(OrLast(t, i));
      }
    }
  }

  lemma OrLastPacked(t: Tail, i: nat)
    requires PackedTail(t) && LiteralCount(t.buffer[t.last]) > 0
    ensures t.Hangs() && PackedTail(OrLast(t, i)) && OrLast(t, i).buffer[t.last] == t.buffer[t.last]
  {
    hide RunningLength, LiteralCount, NoEmptyMarker, Packed, Expand, Parses, Bitwise;
    WellFormedHangs(t);
    var b, m, x := t.buffer, t.buffer[t.last], LastWith(t.buffer, i);
    ReplaceLastLiteral(b, t.last, x);
    var literals := b[t.last + 1..|b| - 1] + [x];
    PackedReplaceLast(b, t.last, m, literals);
    assert b[|b| - 1 := x] == b[..t.last] + [m] + literals;
  }

  lemma CollapsePacked(t: Tail)
    requires PackedTail(t) && LiteralCount(t.buffer[t.last]) > 0 && t.buffer[|t.buffer| - 1] == ALL_ONES
    ensures t.Hangs() && PackedTail(Collapse(t))
  {
    hide RunningLength, LiteralCount, NoEmptyMarker, Packed, Expand, Parses, AddEmpty;
    WellFormedHangs(t);
    var b, m := t.buffer, t.buffer[t.last];
    var m' := WithLiteralCount(m, LiteralCount(m) - 1);
    DropLastLiteral(b, t.last);
    var literals := b[t.last + 1..|b| - 1];
    PackedReplaceLast(b, t.last, m', literals);
    assert b[..|b| - 1][t.last := m'] == b[..t.last] + [m'] + literals;
    AddEmptyPacked(Tail(b[..|b| - 1][t.last := m'], t.last), true);
  }

  /** With the position of the last marker right, `set` keeps the stored form. */
  lemma AfterSetStored(b: seq<Word>, size: nat, ids: set<nat>, last: nat, i: nat)
    requires StoredForm(b, size, ids, last) && size <= i
    ensures Tail(b, last).Hangs()
    ensures var r := AfterSet(Tail(b, last), size, i); StoredForm(r.buffer, i + 1, ids + {i}, r.last)
  {
    hide RunningLength, LiteralCount, NoEmptyMarker, Packed, Expand, Parses, AfterSet, Ones, WellFormed;
    AfterSetAppends(Tail(b, last), size, i);
    AfterSetPacked(Tail(b, last), size, i);
  }

  /**
    The code's own guard: the position is that of the last marker, or the bit goes into the last
    word and does not complete it, or new markers are opened at the end.
   */
  predicate AppendsRightly(t: Tail, size: nat, i: nat)
    requires t.Hangs() && size <= i
  {
    var m := t.Mark();
    || t.last + Span(m) == |t.buffer|
    || (Dist(size, i) == 0 && LiteralCount(m) > 0 && LastWith(t.buffer, i) != ALL_ONES)
    || (Dist(size, i) > 1 && (LiteralCount(m) > 0 || RunningBit(m) || RunningLength(m) == LARGEST_RUNNING_LENGTH))
  }

  /** The last word holds the last bit, so a last marker without literals announces ones. */
  lemma LastRunIsOnes(b: seq<Word>, size: nat, ids: set<nat>, last: nat)
    requires StoredForm(b, size, ids, last) && last > 0 && LiteralCount(b[last]) == 0
    ensures RunningBit(b[last])
  {
    hide RunningLength, LiteralCount, NoEmptyMarker, Packed, Parses, Expand, Bit;
    var ws := Expand(b);
    ExpandAtLast(b, last);
    assert ws[|ws| - 1] == FillWord(RunningBit(b[last]));
    InOnes(ws, size - 1);
    ZeroBit((size - 1) % WORD_BITS);
  }

  lemma FirstMarkerHangs(b: seq<Word>, last: nat)
    requires WellFormed(b, last)
    ensures Tail(b, 0).Hangs() && Tail(b, last).Hangs()
  {
    WellFormedHangs(Tail(b, last));
  }

  /** The bit goes into the last word, which no marker announces differently. */
  lemma StaleOr(b: seq<Word>, size: nat, ids: set<nat>, last: nat, i: nat)
    requires StoredForm(b, size, ids, last) && size <= i && Dist(size, i) == 0
    requires LiteralCount(b[0]) > 0 && LastWith(b, i) != ALL_ONES
    ensures Tail(b, 0).Hangs()
    ensures var r := AfterSet(Tail(b, 0), size, i); r.last == 0 && StoredForm(r.buffer, i + 1, ids + {i}, last)
  {
    hide RunningLength, LiteralCount, NoEmptyMarker, Packed, Parses, Expand, StoredForm;
    FormOf(b, size, ids, last);
    FirstMarkerHangs(b, last);
    AfterSetStored(b, size, ids, last, i);
    LastWordOf(size, i);
  }

  lemma FormOf(b: seq<Word>, size: nat, ids: set<nat>, last: nat)
    requires StoredForm(b, size, ids, last)
    ensures WellFormed(b, last) && Parses(b) && Packed(b) && |Expand(b)| == WordCount(size) && Ones(Expand(b)) == ids
    ensures size % WORD_BITS != 0 ==> LiteralCount(b[last]) > 0
    ensures last > 0 ==> Size(b[last]) > 0
  {
  }

  lemma FormEnds(b: seq<Word>, size: nat, ids: set<nat>, last: nat)
    requires StoredForm(b, size, ids, last)
    ensures Tail(b, 0).Hangs() && Tail(b, last).Hangs()
    ensures AllBelow(ids, size) && (size > 0 ==> size - 1 in ids)
  {
    hide Expand, Parses, NoEmptyMarker, Packed, Ones;
    FirstMarkerHangs(b, last);
  }

  /** Opening markers at the end does not depend on the position. */
  lemma StalePush(b: seq<Word>, size: nat, ids: set<nat>, last: nat, i: nat)
    requires StoredForm(b, size, ids, last) && last > 0 && size <= i && Dist(size, i) > 1
    requires LiteralCount(b[0]) > 0 || RunningBit(b[0]) || RunningLength(b[0]) == LARGEST_RUNNING_LENGTH
    ensures Tail(b, 0).Hangs()
    ensures var r := AfterSet(Tail(b, 0), size, i); StoredForm(r.buffer, i + 1, ids + {i}, r.last)
  {
    hide RunningLength, LiteralCount, NoEmptyMarker, Packed, Parses, Expand, FastAdd, PushRuns, Ones, AddLiteral;
    var n, w, ws := Dist(size, i) - 1, OneBit(i % WORD_BITS), Expand(b);
    FirstMarkerHangs(b, last);
    PushesAtEnd(b, last, n);
    if LiteralCount(b[last]) == 0 {
      LastRunIsOnes(b, size, ids, last);
    }
    var u := PushRuns(Tail(b, last), false, n);
    PushRunsGrow(Tail(b, last), false, n);
    AddLiteralGrows(u, w);
    GrowsTwice(Tail(b, last), u, AddLiteral(u, w), Repeat(0, n), [w]);
    assert ws + (Repeat(0, n) + [w]) == ws + Repeat(0, n) + [w];
    GapThenBit(ws, i, n, Expand(AddLiteral(u, w).buffer));
    PushRunsPacked(Tail(b, last), false, n);
    AddLiteralPacked(u, w);
  }

  lemma PushesAtEnd(b: seq<Word>, last: nat, n: nat)
    requires WellFormed(b, last) && Parses(b) && last > 0 && n > 0
    requires LiteralCount(b[0]) > 0 || RunningBit(b[0]) || RunningLength(b[0]) == LARGEST_RUNNING_LENGTH
    ensures Tail(b, 0).Hangs() && Tail(b, last).Hangs()
    ensures FastAdd(Tail(b, 0), false, n) == PushRuns(Tail(b, last), false, n)
  {
    hide RunningLength, LiteralCount, NoEmptyMarker, Parses, FastAdd, RunMarkers;
    FirstMarkerHangs(b, last);
    SecondMarker(b, last);
    var m := b[0];
    if LiteralCount(m) != 0 || RunningBit(m) {
      FastAddPushes(Tail(b, 0), false, n);
    } else {
      FastAddExtends(Tail(b, 0), false, n);
      MarkerOfFields(m);
      assert b[0 := m] == b;
    }
  }

  /** A buffer reads as `ids`. */
  ghost predicate ReadsAs(b: seq<Word>, ids: set<nat>) {
    Parses(b) && Ones(Expand(b)) == ids
  }

  /** Adding a bit changes no earlier word. */
  lemma EarlierWord(ws: seq<Word>, ws': seq<Word>, i: nat, q: nat)
    requires Ones(ws') == Ones(ws) + {i} && q < i / WORD_BITS
    ensures Word0(ws', q) == Word0(ws, q)
  {
    hide Bit, Ones;
    WordLimitIsPow2();
    forall k: nat | k < WORD_BITS
      ensures Bit(Word0(ws', q), k) == Bit(Word0(ws, q), k)
    {
      Position(q, k);
      InOnes(ws, WORD_BITS * q + k);
      InOnes(ws', WORD_BITS * q + k);
      ZeroBit(k);
    }
    SameBits(Word0(ws', q), Word0(ws, q), WORD_BITS);
  }

  /** A buffer seen from its first marker. */
  lemma FromFirst(m: Word, literals: seq<Word>, rest: seq<Word>)
    requires LiteralCount(m) == |literals|
    ensures var c := [m] + literals + rest;
            (Parses(c) <==> Parses(rest)) && (Parses(c) ==> Expand(c) == Run(m) + literals + Expand(rest))
  {
    hide RunningLength, LiteralCount;
    var c := [m] + literals + rest;
    assert c[1..Span(m)] == literals && c[Span(m)..] == rest;
  }

  /** The words of a stored buffer with several markers, around the end of the first one. */
  lemma WordsAroundFirst(b: seq<Word>, size: nat, ids: set<nat>, last: nat)
    requires StoredForm(b, size, ids, last) && last > 0 && |b| < LARGEST_LITERAL_COUNT
    ensures var (ws, run, n) := (Expand(b), RunningLength(b[0]), Span(b[0]));
            && n <= last && run + n - 1 < |ws| == WordCount(size) && Ones(ws) == ids && LiteralCount(b[0]) < LARGEST_LITERAL_COUNT
            && (forall q: nat | q < run :: ws[q] == FillWord(RunningBit(b[0])))
            && (forall q: nat | run <= q < run + n - 1 :: ws[q] == b[1 + q - run])
            && ws[run + n - 1] == FillWord(RunningBit(b[n]))
            && RunningLength(b[n]) > 0 && b[n] != 0 && b[n] != ALL_ONES && Follows(b[0], b[n])
            && |Expand(b[n..])| == |ws| - run - (n - 1)
            && WellFormed(b[n..], last - n) && b[n..][last - n] == b[last] && Parses(b[n..])
  {
    hide NoEmptyMarker, Packed, Parses, Expand, StoredForm, RunningLength, LiteralCount;
    FormOf(b, size, ids, last);
    SecondMarker(b, last);
    var n := Span(b[0]);
    ExpandUnfold(b);
    ExpandUnfold(b[n..]);
    ZeroMarker();
    AllOnesMarker();
  }

  /** Read as a marker, a word of ones announces more literals than any shorter buffer has. */
  lemma AllOnesMarker()
    ensures LiteralCount(ALL_ONES) == LARGEST_LITERAL_COUNT && RunningBit(ALL_ONES)
  {
    FieldLimits();
    MarkerFields(1, LARGEST_RUNNING_LENGTH, LARGEST_LITERAL_COUNT);
  }

  lemma WordBehindFirst(m: Word, literals: seq<Word>, rest: seq<Word>, q: nat)
    requires LiteralCount(m) == |literals| && Parses([m] + literals + rest)
    ensures var ws := Expand([m] + literals + rest);
            && (q < RunningLength(m) ==> q < |ws| && ws[q] == FillWord(RunningBit(m)))
            && (RunningLength(m) <= q < Size(m) ==> q < |ws| && ws[q] == literals[q - RunningLength(m)])
            && Parses(rest) && |ws| == Size(m) + |Expand(rest)|
            && (q == Size(m) ==> Word0(ws, q) == Word0(Expand(rest), 0))
  {
    hide Parses, Expand, RunningLength, LiteralCount;
    FromFirst(m, literals, rest);
  }

  /** The first marker has no literals: it gains one, and so the second marker is read as a literal. */
  lemma BreaksWithoutLiterals(b: seq<Word>, size: nat, ids: set<nat>, last: nat, i: nat)
    requires StoredForm(b, size, ids, last) && last > 0 && |b| < LARGEST_LITERAL_COUNT
    requires size <= i && Dist(size, i) == 0 && LiteralCount(b[0]) == 0
    ensures Tail(b, 0).Hangs() && !ReadsAs(AfterSet(Tail(b, 0), size, i).buffer, ids + {i})
  {
    hide NoEmptyMarker, Packed, Parses, Expand, StoredForm, RunningLength, LiteralCount, Ones, Follows;
    FormOf(b, size, ids, last);
    FirstMarkerHangs(b, last);
    WordsAroundFirst(b, size, ids, last);
    SecondMarker(b, last);
    LastWordOf(size, i);
    var run, w := RunningLength(b[0]), OneBit(i % WORD_BITS);
    var m := Marker(RunningBit(b[0]), run - 1, 1);
    var c := AfterSet(Tail(b, 0), size, i).buffer;
    assert c == [m] + [b[1]] + (b[2..] + [w]);
    if ReadsAs(c, ids + {i}) {
      WordBehindFirst(m, [b[1]], b[2..] + [w], run - 1);
      EarlierWord(Expand(b), Expand(c), i, run - 1);
    }
  }

  /** The next word goes behind the last marker, but is counted in the first. */
  lemma BreaksNextWord(b: seq<Word>, size: nat, ids: set<nat>, last: nat, i: nat)
    requires StoredForm(b, size, ids, last) && last > 0 && |b| < LARGEST_LITERAL_COUNT
    requires size <= i && Dist(size, i) == 1
    ensures Tail(b, 0).Hangs() && !ReadsAs(AfterSet(Tail(b, 0), size, i).buffer, ids + {i})
  {
    hide NoEmptyMarker, Packed, Parses, Expand, StoredForm, RunningLength, LiteralCount, Ones, Follows;
    FormOf(b, size, ids, last);
    FirstMarkerHangs(b, last);
    WordsAroundFirst(b, size, ids, last);
    var n, w := Span(b[0]), OneBit(i % WORD_BITS);
    var m, literals := WithLiteralCount(b[0], LiteralCount(b[0]) + 1), b[1..n + 1];
    var q := RunningLength(b[0]) + n - 1;
    var c := AfterSet(Tail(b, 0), size, i).buffer;
    assert c == [m] + literals + (b[n + 1..] + [w]);
    if ReadsAs(c, ids + {i}) {
      WordBehindFirst(m, literals, b[n + 1..] + [w], q);
      EarlierWord(Expand(b), Expand(c), i, q);
    }
  }

  /** The zero words are put into the first run, over words of ones. */
  lemma BreaksRun(b: seq<Word>, size: nat, ids: set<nat>, last: nat, i: nat)
    requires StoredForm(b, size, ids, last) && last > 0 && |b| < LARGEST_LITERAL_COUNT
    requires size <= i && Dist(size, i) > 1
    requires LiteralCount(b[0]) == 0 && !RunningBit(b[0]) && RunningLength(b[0]) < LARGEST_RUNNING_LENGTH
    ensures Tail(b, 0).Hangs() && !ReadsAs(AfterSet(Tail(b, 0), size, i).buffer, ids + {i})
  {
    hide NoEmptyMarker, Packed, Parses, Expand, StoredForm, RunningLength, LiteralCount, Ones, FastAdd, RunMarkers;
    FormOf(b, size, ids, last);
    FirstMarkerHangs(b, last);
    WordsAroundFirst(b, size, ids, last);
    var t, run := Tail(b, 0), RunningLength(b[0]);
    FastAddExtends(t, false, Dist(size, i) - 1);
    var c := AfterSet(t, size, i).buffer;
    assert !RunningBit(c[0]) && RunningLength(c[0]) > run;
    if ReadsAs(c, ids + {i}) {
      ExpandUnfold(c);
      EarlierWord(Expand(b), Expand(c), i, run);
    }
  }

  /** A literal `x` that has come to be read as a marker, before the buffer `d` whose last literal was replaced. */
  lemma LiteralAsMarker(x: Word, d: seq<Word>, k: nat, p: Word)
    requires WellFormed(d, k) && Parses(d) && LiteralCount(d[k]) > 0
    requires RunningLength(d[0]) > 0 && |d| + 1 < LARGEST_LITERAL_COUNT
    ensures var rest := [x] + d[|d| - 1 := p];
            Parses(rest) ==> Word0(Expand(rest), 0) != x || |Expand(rest)| == |Expand(d)|
  {
    hide NoEmptyMarker, Parses, Expand, RunningLength, LiteralCount;
    var d' := d[|d| - 1 := p];
    var rest := [x] + d';
    ReplaceLastLiteral(d, k, p);
    ExpandUnfold(rest);
    ZeroMarker();
    AllOnesMarker();
    if Parses(rest) && Size(x) == 0 {
      assert rest[1..] == d' && rest[1..1] == [];
    } else if Parses(rest) && RunningLength(x) == 0 {
      assert rest[1..Span(x)][0] == d[0];
    }
  }

  /** The completed word goes into the first run, and the literal behind it is read as a marker. */
  lemma BreaksIntoRun(b: seq<Word>, size: nat, ids: set<nat>, last: nat, i: nat)
    requires StoredForm(b, size, ids, last) && last > 0 && |b| < LARGEST_LITERAL_COUNT
    requires size <= i && Dist(size, i) == 0 && LiteralCount(b[0]) == 1 && LastWith(b, i) == ALL_ONES
    requires (RunningLength(b[0]) == 0 || RunningBit(b[0])) && RunningLength(b[0]) < LARGEST_RUNNING_LENGTH
    ensures Tail(b, 0).Hangs() && !ReadsAs(AfterSet(Tail(b, 0), size, i).buffer, ids + {i})
  {
    hide NoEmptyMarker, Packed, Parses, Expand, StoredForm, RunningLength, LiteralCount, Ones, Follows;
    FormOf(b, size, ids, last);
    FirstMarkerHangs(b, last);
    WordsAroundFirst(b, size, ids, last);
    LastWordOf(size, i);
    var run := RunningLength(b[0]);
    var m, rest := Marker(true, run + 1, 0), b[1..|b| - 1];
    var c := AfterSet(Tail(b, 0), size, i).buffer;
    assert c == [m] + [] + rest;
    if ReadsAs(c, ids + {i}) {
      WordBehindFirst(m, [], rest, run);
      EarlierWord(Expand(b), Expand(c), i, run);
      AllOnesMarker();
      assert rest[0] == b[1];
      ExpandUnfold(rest);
    }
  }

  lemma Cut<T>(b: seq<T>, l: nat, m: T)
    requires 1 <= l && l + 1 < |b|
    ensures b[..|b| - 1][0 := m] == [m] + b[1..l] + ([b[l]] + b[l + 1..][..|b| - l - 2])
  {
  }

  /** The buffer in which a completed word was taken from the count of the first marker. */
  lemma MiscountedBuffer(b: seq<Word>, i: nat)
    requires Tail(b, 0).Hangs() && LiteralCount(b[0]) > 0 && LastWith(b, i) == ALL_ONES && Span(b[0]) < |b| - 1
    requires LiteralCount(b[0]) == 1 && (RunningLength(b[0]) == 0 || RunningBit(b[0])) ==>
               RunningLength(b[0]) == LARGEST_RUNNING_LENGTH
    ensures var l, d := LiteralCount(b[0]), b[Span(b[0])..];
            Collapse(OrLast(Tail(b, 0), i)).buffer ==
            [WithLiteralCount(b[0], l - 1)] + b[1..l] + ([b[l]] + d[|d| - 1 := Marker(true, 1, 0)])
  {
    hide RunningLength, LiteralCount;
    var l, d, p := LiteralCount(b[0]), b[Span(b[0])..], Marker(true, 1, 0);
    var m := WithLiteralCount(b[0], l - 1);
    assert d == b[l + 1..] && d[|d| - 1 := p] == d[..|d| - 1] + [p];
    Cut(b, l, m);
    var front, rest := [m] + b[1..l], d[..|d| - 1];
    assert front + ([b[l]] + rest) + [p] == front + ([b[l]] + (rest + [p]));
  }

  /** The completed word becomes a run at the end, but is taken from the count of the first marker. */
  lemma BreaksCount(b: seq<Word>, size: nat, ids: set<nat>, last: nat, i: nat)
    requires StoredForm(b, size, ids, last) && last > 0 && |b| < LARGEST_LITERAL_COUNT
    requires size <= i && Dist(size, i) == 0 && LiteralCount(b[0]) > 0 && LastWith(b, i) == ALL_ONES
    requires LiteralCount(b[0]) == 1 && (RunningLength(b[0]) == 0 || RunningBit(b[0])) ==>
               RunningLength(b[0]) == LARGEST_RUNNING_LENGTH
    ensures Tail(b, 0).Hangs() && !ReadsAs(AfterSet(Tail(b, 0), size, i).buffer, ids + {i})
  {
    hide NoEmptyMarker, Packed, Parses, Expand, StoredForm, RunningLength, LiteralCount, Ones, Follows, Collapse, OrLast;
    FormOf(b, size, ids, last);
    FirstMarkerHangs(b, last);
    WordsAroundFirst(b, size, ids, last);
    LastWordOf(size, i);
    MiscountedBuffer(b, i);
    var n, p := Span(b[0]), Marker(true, 1, 0);
    var l, q := n - 1, RunningLength(b[0]) + n - 2;
    var m, literals, d := WithLiteralCount(b[0], l - 1), b[1..l], b[n..];
    var rest := [b[l]] + d[|d| - 1 := p];
    var c := AfterSet(Tail(b, 0), size, i).buffer;
    LiteralAsMarker(b[l], d, last - n, p);
    if ReadsAs(c, ids + {i}) {
      WordBehindFirst(m, literals, rest, q);
      EarlierWord(Expand(b), Expand(c), i, q);
      InOnes(Expand(c), i);
    }
  }

  /**
    When `set` is right on a restored bitmap: under the code's own guard, and only then. Buffers of
    2^31 - 1 words and more, whose markers can be full, are covered in the first direction only.
   */
  lemma AppendIsRight(b: seq<Word>, size: nat, ids: set<nat>, last: nat, p: nat, i: nat) returns (last': nat)
    requires StoredForm(b, size, ids, last) && (p == 0 || p == last) && size <= i
    ensures Tail(b, p).Hangs()
    ensures var r := AfterSet(Tail(b, p), size, i);
            && (AppendsRightly(Tail(b, p), size, i) ==>
                  StoredForm(r.buffer, i + 1, ids + {i}, last') && (r.last == 0 || r.last == last'))
            && (|b| < LARGEST_LITERAL_COUNT ==>
                  (AppendsRightly(Tail(b, p), size, i) <==> ReadsAs(r.buffer, ids + {i})))
  {
    hide NoEmptyMarker, Packed, Parses, Expand, StoredForm, RunningLength, LiteralCount, AfterSet, Ones;
    FormOf(b, size, ids, last);
    FirstMarkerHangs(b, last);
    LastPosition(b, last, p);
    var r := AfterSet(Tail(b, p), size, i);
    last' := r.last;
    if p == last {
      AfterSetStored(b, size, ids, last, i);
      FormOf(r.buffer, i + 1, ids + {i}, last');
    } else if AppendsRightly(Tail(b, p), size, i) {
      if Dist(size, i) == 0 {
        StaleOr(b, size, ids, last, i);
        last' := last;
      } else {
        StalePush(b, size, ids, last, i);
      }
      FormOf(r.buffer, i + 1, ids + {i}, last');
    } else if |b| < LARGEST_LITERAL_COUNT {
      AppendBreaks(b, size, ids, last, i);
    }
  }

  lemma LastPosition(b: seq<Word>, last: nat, p: nat)
    requires WellFormed(b, last) && Parses(b) && (p == 0 || p == last)
    ensures p + Span(b[p]) == |b| <==> p == last
  {
    if p != last {
      SecondMarker(b, last);
    }
  }

  lemma AppendBreaks(b: seq<Word>, size: nat, ids: set<nat>, last: nat, i: nat)
    requires StoredForm(b, size, ids, last) && last > 0 && |b| < LARGEST_LITERAL_COUNT && size <= i
    requires Tail(b, 0).Hangs() && !AppendsRightly(Tail(b, 0), size, i)
    ensures !ReadsAs(AfterSet(Tail(b, 0), size, i).buffer, ids + {i})
  {
    hide NoEmptyMarker, Packed, Parses, Expand, StoredForm, RunningLength, LiteralCount, AfterSet, ReadsAs;
    if Dist(size, i) > 1 {
      BreaksRun(b, size, ids, last, i);
    } else if Dist(size, i) == 1 {
      BreaksNextWord(b, size, ids, last, i);
    } else if LiteralCount(b[0]) == 0 {
      BreaksWithoutLiterals(b, size, ids, last, i);
    } else if LiteralCount(b[0]) == 1 && (RunningLength(b[0]) == 0 || RunningBit(b[0]))
              && RunningLength(b[0]) < LARGEST_RUNNING_LENGTH {
      BreaksIntoRun(b, size, ids, last, i);
    } else {
      BreaksCount(b, size, ids, last, i);
    }
  }

  /** The buffer grows by little more than the gap. */
  lemma AfterSetLength(t: Tail, size: nat, i: nat)
    requires t.Hangs() && size <= i
    ensures |AfterSet(t, size, i).buffer| <= |t.buffer| + Dist(size, i) + 2
  {
    hide RunningLength, LiteralCount, RunMarkers;
  }
}
