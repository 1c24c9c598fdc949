/**
  Appending to a bitmap, as a function of the buffer and of the position that is taken for that of
  the last marker (`lastRLW`), whether or not it is.
 */
module EwahAppend {
  import opened Words
  import opened EwahBits
  import opened EwahFormat

  datatype Tail = Tail(buffer: seq<Word>, last: nat) {
    predicate Hangs() {
      last < |buffer| && last + Span(buffer[last]) <= |buffer|
    }

    /** The marker that is taken for the last one. */
    function Mark(): Word
      requires Hangs()
    {
      buffer[last]
    }
  }

  /** `addLiteralWord` */
  function AddLiteral(t: Tail, w: Word): (r: Tail)
    requires t.Hangs()
    ensures r.Hangs() && LiteralCount(r.Mark()) > 0
  {
    var m := t.Mark();
    if LiteralCount(m) >= LARGEST_LITERAL_COUNT then Tail(t.buffer + [Marker(false, 0, 1)] + [w], |t.buffer|)
    else Tail(t.buffer[t.last := WithLiteralCount(m, LiteralCount(m) + 1)] + [w], t.last)
  }

  /** `addEmptyWord` */
  function AddEmpty(t: Tail, v: bool): (r: Tail)
    requires t.Hangs()
    ensures r.Hangs() && RunningLength(r.Mark()) > 0 && LiteralCount(r.Mark()) == 0
  {
    var m := t.Mark();
    if LiteralCount(m) == 0 && (RunningLength(m) == 0 || RunningBit(m) == v) && RunningLength(m) < LARGEST_RUNNING_LENGTH
    then Tail(t.buffer[t.last := Marker(v, RunningLength(m) + 1, 0)], t.last)
    else Tail(t.buffer + [Marker(v, 1, 0)], |t.buffer|)
  }

  /** The new markers that announce a run of `n` words. */
  function RunMarkers(v: bool, n: nat): (s: seq<Word>)
    ensures |s| > 0 <==> n > 0
    ensures |s| <= n
    ensures |s| > 0 ==> RunningBit(s[|s| - 1]) == v && RunningLength(s[|s| - 1]) > 0 && LiteralCount(s[|s| - 1]) == 0
  {
    if n == 0 then []
    else if n < LARGEST_RUNNING_LENGTH then [Marker(v, n, 0)]
    else [Marker(v, LARGEST_RUNNING_LENGTH, 0)] + RunMarkers(v, n - LARGEST_RUNNING_LENGTH)
  }

  /** New markers at the end of the buffer for a run of `n` words. */
  function PushRuns(t: Tail, v: bool, n: nat): (r: Tail)
    requires t.Hangs()
    ensures r.Hangs()
    ensures n > 0 ==> RunningBit(r.Mark()) == v && LiteralCount(r.Mark()) == 0
  {
    var s := RunMarkers(v, n);
    if n == 0 then t else Tail(t.buffer + s, |t.buffer| + |s| - 1)
  }

  /** Makes the marker one whose run of `v` can be lengthened. */
  function Align(t: Tail, v: bool): (r: Tail)
    requires t.Hangs()
    ensures r.Hangs() && LiteralCount(r.Mark()) == 0 && RunningBit(r.Mark()) == v
  {
    var m := t.Mark();
    if RunningBit(m) != v && Size(m) == 0 then Tail(t.buffer[t.last := Marker(v, 0, 0)], t.last)
    else if LiteralCount(m) != 0 || RunningBit(m) != v then Tail(t.buffer + [Marker(v, 0, 0)], |t.buffer|)
    else t
  }

  function Room(m: Word, n: nat): (k: nat)
    ensures RunningLength(m) + k <= LARGEST_RUNNING_LENGTH && k <= n
  {
    if n < LARGEST_RUNNING_LENGTH - RunningLength(m) then n else LARGEST_RUNNING_LENGTH - RunningLength(m)
  }

  /** Lengthens an aligned run, and opens new markers when the running length is full. */
  function Lengthen(t: Tail, v: bool, n: nat): (r: Tail)
    requires t.Hangs() && LiteralCount(t.Mark()) == 0 && RunningBit(t.Mark()) == v
    ensures r.Hangs() && LiteralCount(r.Mark()) == 0 && RunningBit(r.Mark()) == v
  {
    var m := t.Mark();
    var k := Room(m, n);
    PushRuns(Tail(t.buffer[t.last := Marker(v, RunningLength(m) + k, 0)], t.last), v, n - k)
  }

  /** `fastaddStreamOfEmptyWords` */
  function FastAdd(t: Tail, v: bool, n: nat): (r: Tail)
    requires t.Hangs()
    ensures r.Hangs()
  {
    Lengthen(Align(t, v), v, n)
  }

  /** The number of words that setting bit `i` adds to a bitmap of `size` bits. */
  function Dist(size: nat, i: nat): nat
    requires size <= i
  {
    (i + WORD_BITS) / WORD_BITS - WordCount(size)
  }

  /** The first branch of `set`: `dist - 1` zero words and a literal with bit `i`. */
  function AddGapAndBit(t: Tail, i: nat, dist: nat): (r: Tail)
    requires t.Hangs() && dist > 0
    ensures r.Hangs() && LiteralCount(r.Mark()) > 0
  {
    AddLiteral(if dist > 1 then FastAdd(t, false, dist - 1) else t, OneBit(i % WORD_BITS))
  }

  /** The second branch: one word less in the run, whose length wraps, and a literal with bit `i`. */
  function SplitRun(t: Tail, i: nat): (r: Tail)
    requires t.Hangs()
    ensures r.Hangs() && LiteralCount(r.Mark()) > 0
  {
    var m := t.Mark();
    var run := if RunningLength(m) == 0 then LARGEST_RUNNING_LENGTH else RunningLength(m) - 1;
    AddLiteral(Tail(t.buffer[t.last := WithRunningLength(m, run)], t.last), OneBit(i % WORD_BITS))
  }

  /** The marker keeps its bit, loses a word of its run modulo 2^32, and gains a literal; the word goes to the end. */
  lemma SplitRunWraps(t: Tail, i: nat)
    requires t.Hangs() && LiteralCount(t.Mark()) == 0
    ensures var r := SplitRun(t, i);
            && RunningBit(r.Mark()) == RunningBit(t.Mark()) && LiteralCount(r.Mark()) == 1
            && RunningLength(r.Mark()) == (RunningLength(t.Mark()) + 0xFFFF_FFFF) % 0x1_0000_0000
            && r == Tail(t.buffer[t.last := r.Mark()] + [OneBit(i % WORD_BITS)], t.last)
  {
    hide RunningLength, LiteralCount;
  }

  /** The last word of the buffer with bit `i`. */
  function LastWith(b: seq<Word>, i: nat): Word
    requires b != []
  {
    BitwiseWord(Or, b[|b| - 1], OneBit(i % WORD_BITS))
  }

  function OrLast(t: Tail, i: nat): (r: Tail)
    requires t.Hangs() && LiteralCount(t.Mark()) > 0
    ensures r.Hangs() && r.Mark() == t.Mark() && r.last == t.last && |r.buffer| == |t.buffer|
    ensures r.buffer[|r.buffer| - 1] == LastWith(t.buffer, i)
  {
    Tail(t.buffer[|t.buffer| - 1 := LastWith(t.buffer, i)], t.last)
  }

  /** The last word of the buffer goes, the marker loses a literal and a word of ones is added. */
  function Collapse(t: Tail): (r: Tail)
    requires t.Hangs() && LiteralCount(t.Mark()) > 0
    ensures r.Hangs() && RunningLength(r.Mark()) > 0
  {
    AddEmpty(Tail(t.buffer[..|t.buffer| - 1][t.last := WithLiteralCount(t.Mark(), LiteralCount(t.Mark()) - 1)], t.last), true)
  }

  /** What `set` leaves behind for a bit that is not below the size. */
  function AfterSet(t: Tail, size: nat, i: nat): (r: Tail)
    requires t.Hangs() && size <= i
    ensures r.Hangs()
  {
    if Dist(size, i) > 0 then AddGapAndBit(t, i, Dist(size, i))
    else if LiteralCount(t.Mark()) == 0 then SplitRun(t, i)
    else if LastWith(t.buffer, i) == ALL_ONES then Collapse(OrLast(t, i))
    else OrLast(t, i)
  }

  /** `r` is well formed and stands for the words of `t`, which is well formed, and `ws` behind them. */
  ghost predicate Grows(t: Tail, r: Tail, ws: seq<Word>) {
    && WellFormed(t.buffer, t.last) && WellFormed(r.buffer, r.last)
    && Parses(t.buffer) && Parses(r.buffer)
    && Expand(r.buffer) == Expand(t.buffer) + ws
  }

  lemma WellFormedHangs(t: Tail)
    requires WellFormed(t.buffer, t.last)
    ensures t.Hangs() && Parses(t.buffer)
  {
    ExpandAtLast(t.buffer, t.last);
  }

  lemma AppendNothing(t: Tail)
    requires WellFormed(t.buffer, t.last)
    ensures Grows(t, t, []) && Repeat(0, 0) == []
  {
    WellFormedHangs(t);
    assert Expand(t.buffer) + [] == Expand(t.buffer);
  }

  lemma GrowsTwice(t: Tail, u: Tail, r: Tail, a: seq<Word>, b: seq<Word>)
    requires Grows(t, u, a) && Grows(u, r, b)
    ensures Grows(t, r, a + b)
  {
    hide Expand, Parses, WellFormed;
    assert Expand(t.buffer) + a + b == Expand(t.buffer) + (a + b);
  }

  /** A marker without literals behind a non-empty last one. */
  lemma PushGrows(t: Tail, v: bool, n: nat)
    requires WellFormed(t.buffer, t.last) && Size(t.buffer[t.last]) > 0 && n <= LARGEST_RUNNING_LENGTH
    ensures Grows(t, Tail(t.buffer + [Marker(v, n, 0)], |t.buffer|), Repeat(FillWord(v), n))
  {
    hide Expand, Parses, WellFormed, NoEmptyMarker, RunningLength, LiteralCount;
    var m := Marker(v, n, 0);
    PushMarker(t.buffer, t.last, m);
    assert Run(m) == Repeat(FillWord(v), n);
  }

  lemma AddLiteralGrows(t: Tail, w: Word)
    requires WellFormed(t.buffer, t.last)
    ensures t.Hangs() && Grows(t, AddLiteral(t, w), [w])
  {
    hide Expand, Parses, NoEmptyMarker, RunningLength, LiteralCount;
    WellFormedHangs(t);
    var b, m := t.buffer, t.buffer[t.last];
    if LiteralCount(m) >= LARGEST_LITERAL_COUNT {
      PushGrows(t, false, 0);
      var c := b + [Marker(false, 0, 0)];
      AppendLiterals(c, |b|, [w]);
      assert c[|b| := WithLiteralCount(c[|b|], 1)] == b + [Marker(false, 0, 1)];
      assert Expand(b) + Repeat(FillWord(false), 0) == Expand(b);
    } else {
      AppendLiterals(b, t.last, [w]);
    }
  }

  lemma ExtendGrows(t: Tail, v: bool, k: nat)
    requires WellFormed(t.buffer, t.last) && LiteralCount(t.buffer[t.last]) == 0
    requires RunningLength(t.buffer[t.last]) == 0 || RunningBit(t.buffer[t.last]) == v
    requires RunningLength(t.buffer[t.last]) + k <= LARGEST_RUNNING_LENGTH
    ensures Grows(t, Tail(t.buffer[t.last := Marker(v, RunningLength(t.buffer[t.last]) + k, 0)], t.last), Repeat(FillWord(v), k))
  {
    ExtendRun(t.buffer, t.last, v, k);
  }

  lemma AddEmptyGrows(t: Tail, v: bool)
    requires WellFormed(t.buffer, t.last)
    ensures t.Hangs() && Grows(t, AddEmpty(t, v), [FillWord(v)])
  {
    hide Expand, Parses, NoEmptyMarker, RunningLength, LiteralCount, WellFormed;
    WellFormedHangs(t);
    var m := t.buffer[t.last];
    assert Repeat(FillWord(v), 1) == [FillWord(v)];
    if LiteralCount(m) == 0 && (RunningLength(m) == 0 || RunningBit(m) == v) && RunningLength(m) < LARGEST_RUNNING_LENGTH {
      ExtendGrows(t, v, 1);
    } else {
      PushGrows(t, v, 1);
    }
  }

  lemma {:induction false} PushRunsGrow(t: Tail, v: bool, n: nat)
    requires WellFormed(t.buffer, t.last) && (n > 0 ==> Size(t.buffer[t.last]) > 0)
    ensures t.Hangs() && Grows(t, PushRuns(t, v, n), Repeat(FillWord(v), n))
    decreases n
  {
    hide Expand, Parses, NoEmptyMarker, RunningLength, LiteralCount, WellFormed, Grows, PushRuns;
    WellFormedHangs(t);
    if n < LARGEST_RUNNING_LENGTH {
      LastRun(t, v, n);
      if n == 0 {
        AppendNothing(t);
        assert Repeat(FillWord(v), 0) == [];
      } else {
        PushGrows(t, v, n);
      }
    } else {
      var full, rest := Marker(v, LARGEST_RUNNING_LENGTH, 0), n - LARGEST_RUNNING_LENGTH;
      var u := Tail(t.buffer + [full], |t.buffer|);
      PushGrows(t, v, LARGEST_RUNNING_LENGTH);
      assert WellFormed(u.buffer, u.last) by {
        GrowsWell(t, u, Repeat(FillWord(v), LARGEST_RUNNING_LENGTH));
      }
      PushRunsGrow(u, v, rest);
      GrowsTwice(t, u, PushRuns(u, v, rest), Repeat(FillWord(v), LARGEST_RUNNING_LENGTH), Repeat(FillWord(v), rest));
      assert Repeat(FillWord(v), LARGEST_RUNNING_LENGTH) + Repeat(FillWord(v), rest) == Repeat(FillWord(v), n);
      PushRunsStep(t, v, n);
    }
  }

  lemma GrowsWell(t: Tail, r: Tail, ws: seq<Word>)
    requires Grows(t, r, ws)
    ensures WellFormed(r.buffer, r.last)
  {
  }

  lemma PushRunsStep(t: Tail, v: bool, n: nat)
    requires t.Hangs() && n >= LARGEST_RUNNING_LENGTH
    ensures var u := Tail(t.buffer + [Marker(v, LARGEST_RUNNING_LENGTH, 0)], |t.buffer|);
            u.Hangs() && PushRuns(t, v, n) == PushRuns(u, v, n - LARGEST_RUNNING_LENGTH)
  {
    hide RunningLength, LiteralCount, RunMarkers;
    var full, rest := Marker(v, LARGEST_RUNNING_LENGTH, 0), n - LARGEST_RUNNING_LENGTH;
    assert RunMarkers(v, n) == [full] + RunMarkers(v, rest) by { RunMarkersStep(v, n); }
    assert t.buffer + ([full] + RunMarkers(v, rest)) == t.buffer + [full] + RunMarkers(v, rest);
    if rest == 0 {
      assert t.buffer + ([full] + []) == t.buffer + [full];
    }
  }

  lemma RunMarkersStep(v: bool, n: nat)
    ensures n >= LARGEST_RUNNING_LENGTH ==>
              RunMarkers(v, n) == [Marker(v, LARGEST_RUNNING_LENGTH, 0)] + RunMarkers(v, n - LARGEST_RUNNING_LENGTH)
    ensures 0 < n < LARGEST_RUNNING_LENGTH ==> RunMarkers(v, n) == [Marker(v, n, 0)]
    ensures RunMarkers(v, 0) == []
  {
  }

  lemma AlignGrows(t: Tail, v: bool)
    requires WellFormed(t.buffer, t.last)
    ensures t.Hangs() && Grows(t, Align(t, v), [])
  {
    hide Expand, Parses, NoEmptyMarker, RunningLength, LiteralCount, WellFormed;
    WellFormedHangs(t);
    AppendNothing(t);
    var m := t.buffer[t.last];
    assert Repeat(FillWord(v), 0) == [];
    if RunningBit(m) != v && Size(m) == 0 {
      ExtendGrows(t, v, 0);
    } else if LiteralCount(m) != 0 || RunningBit(m) != v {
      PushGrows(t, v, 0);
    }
  }

  lemma LengthenGrows(t: Tail, v: bool, n: nat)
    requires WellFormed(t.buffer, t.last)
    requires LiteralCount(t.buffer[t.last]) == 0 && RunningBit(t.buffer[t.last]) == v
    ensures t.Hangs() && Grows(t, Lengthen(t, v, n), Repeat(FillWord(v), n))
  {
    hide Expand, Parses, NoEmptyMarker, RunningLength, LiteralCount, WellFormed;
    WellFormedHangs(t);
    var m := t.buffer[t.last];
    var k := Room(m, n);
    var u := Tail(t.buffer[t.last := Marker(v, RunningLength(m) + k, 0)], t.last);
    ExtendGrows(t, v, k);
    WellFormedHangs(u);
    PushRunsGrow(u, v, n - k);
    GrowsTwice(t, u, PushRuns(u, v, n - k), Repeat(FillWord(v), k), Repeat(FillWord(v), n - k));
    assert Repeat(FillWord(v), k) + Repeat(FillWord(v), n - k) == Repeat(FillWord(v), n);
  }

  lemma FastAddGrows(t: Tail, v: bool, n: nat)
    requires WellFormed(t.buffer, t.last)
    ensures t.Hangs() && Grows(t, FastAdd(t, v, n), Repeat(FillWord(v), n))
  {
    hide Expand, Parses, NoEmptyMarker, RunningLength, LiteralCount, WellFormed, Align, Lengthen;
    AlignGrows(t, v);
    var u := Align(t, v);
    LengthenGrows(u, v, n);
    GrowsTwice(t, u, Lengthen(u, v, n), [], Repeat(FillWord(v), n));
    assert [] + Repeat(FillWord(v), n) == Repeat(FillWord(v), n);
  }

  /** Zero words and a literal with bit `i`. */
  lemma AddGapAndBitGrows(t: Tail, i: nat, dist: nat)
    requires WellFormed(t.buffer, t.last) && dist > 0
    ensures t.Hangs() && Grows(t, AddGapAndBit(t, i, dist), Repeat(0, dist - 1) + [OneBit(i % WORD_BITS)])
  {
    hide Expand, Parses, NoEmptyMarker, RunningLength, LiteralCount, WellFormed, FastAdd, AddLiteral;
    var w := OneBit(i % WORD_BITS);
    WellFormedHangs(t);
    var u := if dist > 1 then FastAdd(t, false, dist - 1) else t;
    if dist > 1 {
      FastAddGrows(t, false, dist - 1);
    } else {
      AppendNothing(t);
    }
    AddLiteralGrows(u, w);
    GrowsTwice(t, u, AddLiteral(u, w), Repeat(0, dist - 1), [w]);
  }

  lemma SplitRunExpands(t: Tail, i: nat)
    requires WellFormed(t.buffer, t.last) && LiteralCount(t.buffer[t.last]) == 0
    requires RunningLength(t.buffer[t.last]) > 0
    ensures t.Hangs() && Parses(t.buffer)
    ensures var r, ws := SplitRun(t, i), Expand(t.buffer);
            && WellFormed(r.buffer, r.last) && Parses(r.buffer)
            && |ws| > 0 && ws[|ws| - 1] == FillWord(RunningBit(t.buffer[t.last]))
            && Expand(r.buffer) == ws[..|ws| - 1] + [OneBit(i % WORD_BITS)]
  {
    hide Expand, Parses, NoEmptyMarker, RunningLength, LiteralCount, WellFormed, AddLiteral;
    WellFormedHangs(t);
    ShortenRun(t.buffer, t.last);
    var u := Tail(t.buffer[t.last := WithRunningLength(t.Mark(), RunningLength(t.Mark()) - 1)], t.last);
    AddLiteralGrows(u, OneBit(i % WORD_BITS));
  }

  lemma OrLastExpands(t: Tail, i: nat)
    requires WellFormed(t.buffer, t.last) && LiteralCount(t.buffer[t.last]) > 0
    requires Parses(t.buffer) && i / WORD_BITS == |Expand(t.buffer)| - 1
    ensures t.Hangs()
    ensures var r := OrLast(t, i);
            && WellFormed(r.buffer, r.last) && Parses(r.buffer) && |Expand(r.buffer)| == |Expand(t.buffer)|
            && Ones(Expand(r.buffer)) == Ones(Expand(t.buffer)) + {i}
            && r.buffer[|r.buffer| - 1] == Expand(r.buffer)[|Expand(r.buffer)| - 1]
  {
    hide Expand, Parses, NoEmptyMarker, RunningLength, LiteralCount, Ones, Bitwise;
    WellFormedHangs(t);
    ReplaceLastLiteral(t.buffer, t.last, LastWith(t.buffer, i));
    OrIntoLast(Expand(t.buffer), i, Expand(OrLast(t, i).buffer));
  }

  /** Turning a last literal of ones into a word of a run keeps the words. */
  lemma CollapseKeeps(t: Tail)
    requires WellFormed(t.buffer, t.last) && LiteralCount(t.buffer[t.last]) > 0
    requires t.buffer[|t.buffer| - 1] == ALL_ONES
    ensures t.Hangs()
    ensures var r := Collapse(t);
            WellFormed(r.buffer, r.last) && Parses(t.buffer) && Parses(r.buffer) && Expand(r.buffer) == Expand(t.buffer)
  {
    hide Expand, Parses, NoEmptyMarker, RunningLength, LiteralCount, AddEmpty;
    WellFormedHangs(t);
    DetachLastLiteral(t.buffer, t.last);
    var b := t.buffer;
    assert b[|b| - 1 := 0][..|b| - 1] == b[..|b| - 1];
    AddEmptyGrows(Tail(b[..|b| - 1][t.last := WithLiteralCount(b[t.last], LiteralCount(b[t.last]) - 1)], t.last), true);
  }

  /** What `set` relies on. */
  ghost predicate CanAppend(t: Tail, size: nat) {
    && WellFormed(t.buffer, t.last) && Parses(t.buffer)
    && AllBelow(Ones(Expand(t.buffer)), size)
    && |Expand(t.buffer)| == WordCount(size)
    && (size % WORD_BITS != 0 ==>
          LiteralCount(t.buffer[t.last]) > 0
          || (RunningLength(t.buffer[t.last]) > 0 && !RunningBit(t.buffer[t.last])))
  }

  /** With the position of the last marker right, `set` appends exactly the bit. */
  lemma AfterSetAppends(t: Tail, size: nat, i: nat)
    requires CanAppend(t, size) && size <= i
    ensures t.Hangs()
    ensures var r := AfterSet(t, size, i);
            && CanAppend(r, i + 1)
            && ((i + 1) % WORD_BITS != 0 ==> LiteralCount(r.buffer[r.last]) > 0)
            && Ones(Expand(r.buffer)) == Ones(Expand(t.buffer)) + {i}
            && Size(r.buffer[r.last]) > 0
  {
    hide Expand, Parses, NoEmptyMarker, RunningLength, LiteralCount, Ones, AddGapAndBit, SplitRun, OrLast, Collapse, WellFormed;
    WellFormedHangs(t);
    var ws, r := Expand(t.buffer), AfterSet(t, size, i);
    var dist := Dist(size, i);
    if dist > 0 {
      AddGapAndBitGrows(t, i, dist);
      assert ws + (Repeat(0, dist - 1) + [OneBit(i % WORD_BITS)]) == ws + Repeat(0, dist - 1) + [OneBit(i % WORD_BITS)];
      GapThenBit(ws, i, dist - 1, Expand(r.buffer));
    } else {
      LastWordOf(size, i);
      if LiteralCount(t.Mark()) == 0 {
        SplitRunExpands(t, i);
        BitIntoZeroWord(ws, i, Expand(r.buffer));
      } else {
        OrLastExpands(t, i);
        if LastWith(t.buffer, i) == ALL_ONES {
          FullLastWord(Expand(OrLast(t, i).buffer), i + 1);
          CollapseKeeps(OrLast(t, i));
        }
      }
    }
  }

  lemma GapThenBit(ws: seq<Word>, i: nat, gap: nat, ws': seq<Word>)
    requires i / WORD_BITS == |ws| + gap
    requires ws' == ws + Repeat(0, gap) + [OneBit(i % WORD_BITS)]
    ensures Ones(ws') == Ones(ws) + {i}
  {
    assert ws'[..|ws|] == ws;
    AppendOneBit(ws, gap, i, ws');
  }

  /** A bit in an all-zero last word. */
  lemma BitIntoZeroWord(ws: seq<Word>, i: nat, ws': seq<Word>)
    requires |ws| > 0 && i / WORD_BITS == |ws| - 1 && ws[|ws| - 1] == 0
    requires ws' == ws[..|ws| - 1] + [OneBit(i % WORD_BITS)]
    ensures Ones(ws') == Ones(ws) + {i}
  {
    var short := ws[..|ws| - 1];
    AppendOneBit(short, 0, i, ws');
    forall j: nat
      ensures j in Ones(ws) <==> j in Ones(short)
    {
      ZeroBit(j % WORD_BITS);
    }
  }

  /** When no word has to be added, the last word is a partial one and holds bit `i`. */
  lemma LastWordOf(size: nat, i: nat)
    requires size <= i && (i + WORD_BITS) / WORD_BITS == (size + WORD_BITS - 1) / WORD_BITS
    ensures size % WORD_BITS != 0 && i / WORD_BITS == WordCount(size) - 1 && WordCount(i + 1) == WordCount(size)
  {
  }

  /** A full last word has its highest bit. */
  lemma FullLastWord(ws: seq<Word>, size: nat)
    requires |ws| == WordCount(size) > 0 && ws[|ws| - 1] == ALL_ONES
    requires AllBelow(Ones(ws), size)
    ensures size % WORD_BITS == 0
  {
    var top := WORD_BITS * (|ws| - 1) + WORD_BITS - 1;
    FillWordBit(true, WORD_BITS - 1);
    Position(|ws| - 1, WORD_BITS - 1);
    InOnes(ws, top);
  }

  /** A pushed `0` is the empty marker. */
  lemma EmptyMarker()
    ensures Marker(false, 0, 0) == 0
  {
  }

  lemma LastRun(t: Tail, v: bool, n: nat)
    requires t.Hangs() && n < LARGEST_RUNNING_LENGTH
    ensures PushRuns(t, v, n) == if n == 0 then t else Tail(t.buffer + [Marker(v, n, 0)], |t.buffer|)
  {
    hide RunningLength, LiteralCount;
  }
}
