/**
  The compressed bitmap: a growing buffer of words, a size in bits, and the position
  of the last marker.
 */
module EwahBitmap {
  import opened Words
  import opened EwahBits
  import opened EwahFormat
  import opened EwahAppend
  import opened EwahNegation

  class EwahBoolArray {
    var buffer: seq<Word>
    var sizeinbits: nat
    var lastRLW: nat

    /** The buffer parses, `lastRLW` is its last marker, and only that marker may be empty. */
    ghost predicate Structured()
      reads this
    {
      WellFormed(buffer, lastRLW)
    }

    /** The uncompressed words. */
    ghost function Contents(): seq<Word>
      requires Structured()
      reads this
    {
      ExpandAtLast(buffer, lastRLW);
      Expand(buffer)
    }

    /** The set the bitmap stands for. */
    ghost function Bits(): set<nat>
      requires Structured()
      reads this
    {
      Ones(Contents())
    }

    /** What every reader relies on: the format, and no bit at or beyond `sizeinbits`. */
    ghost predicate Valid()
      reads this
    {
      Structured() && AllBelow(Bits(), sizeinbits)
    }

    /** What `set` relies on: the last word is the one that holds bit `sizeinbits - 1`, as a literal or in a zero run. */
    ghost predicate Appendable()
      reads this
    {
      && Valid()
      && |Contents()| == WordCount(sizeinbits)
      && (sizeinbits % WORD_BITS != 0 ==>
            LiteralCount(buffer[lastRLW]) > 0
            || (RunningLength(buffer[lastRLW]) > 0 && !RunningBit(buffer[lastRLW])))
    }

    /** What `set` establishes: a partial last word is a literal. */
    ghost predicate SetBuilt()
      reads this
    {
      Appendable() && (sizeinbits % WORD_BITS != 0 ==> LiteralCount(buffer[lastRLW]) > 0)
    }

    constructor ()
      ensures SetBuilt() && Contents() == [] && sizeinbits == 0 && Bits() == {}
      ensures buffer == [0] && lastRLW == 0
    {
      ZeroMarker();
      buffer, sizeinbits, lastRLW := [0], 0, 0;
    }

    method Reset()
      modifies this
      ensures SetBuilt() && Contents() == [] && sizeinbits == 0 && Bits() == {}
      ensures buffer == [0] && lastRLW == 0
    {
      ZeroMarker();
      buffer := [0];
      sizeinbits := 0;
      lastRLW := 0;
    }

    /** The buffer and the position taken for that of the last marker. */
    ghost function End(): Tail
      reads this
    {
      Tail(buffer, lastRLW)
    }

    /** `buffer.push_back(0)`: a new marker, behind a non-empty last one. */
    method PushBackMarker()
      modifies this`buffer, this`lastRLW
      ensures buffer == old(buffer) + [Marker(false, 0, 0)] && lastRLW == |old(buffer)|
      ensures old(Structured() && Size(buffer[lastRLW]) > 0) ==> Structured() && Contents() == old(Contents())
    {
      hide Expand, Parses, NoEmptyMarker, OnlyLastEmpty, RunningLength, LiteralCount;
      if Structured() && Size(buffer[lastRLW]) > 0 {
        PushGrows(End(), false, 0);
        RepeatNone(Contents(), FillWord(false));
      }
      EmptyMarker();
      buffer := buffer + [0];
      lastRLW := |buffer| - 1;
    }

    /** Puts literals at the end of the buffer and counts them in the marker, which has room for them. */
    method AppendToLast(ws: seq<Word>)
      requires lastRLW < |buffer| && LiteralCount(buffer[lastRLW]) + |ws| <= LARGEST_LITERAL_COUNT
      modifies this`buffer
      ensures buffer == old(buffer)[lastRLW := WithLiteralCount(old(buffer)[lastRLW], LiteralCount(old(buffer)[lastRLW]) + |ws|)] + ws
      ensures old(Structured()) ==> Structured() && Contents() == old(Contents()) + ws
    {
      hide Expand, Parses, NoEmptyMarker, OnlyLastEmpty, RunningLength, LiteralCount;
      if Structured() {
        AppendLiterals(buffer, lastRLW, ws);
      }
      buffer := buffer[lastRLW := WithLiteralCount(buffer[lastRLW], LiteralCount(buffer[lastRLW]) + |ws|)] + ws;
    }

    method AddLiteralWord(newdata: Word) returns (added: nat)
      requires End().Hangs()
      modifies this`buffer, this`lastRLW
      ensures End() == AddLiteral(old(End()), newdata)
      ensures old(Structured()) ==> Structured() && Contents() == old(Contents()) + [newdata]
      ensures added == |buffer| - |old(buffer)|
    {
      hide Expand, Parses, NoEmptyMarker, OnlyLastEmpty, RunningLength, LiteralCount, WellFormed;
      if Structured() {
        AddLiteralGrows(End(), newdata);
      }
      if LiteralCount(buffer[lastRLW]) >= LARGEST_LITERAL_COUNT {
        PushBackMarker();
        AppendToLast([newdata]);
        return 2;
      }
      AppendToLast([newdata]);
      return 1;
    }

    /** Sets the bit of a marker without literals and lengthens its run (`setRunningBit`, `setRunningLength`). */
    method ExtendLastRun(v: bool, n: nat)
      requires lastRLW < |buffer| && LiteralCount(buffer[lastRLW]) == 0
      requires RunningLength(buffer[lastRLW]) + n <= LARGEST_RUNNING_LENGTH
      modifies this`buffer
      ensures buffer == old(buffer)[lastRLW := Marker(v, RunningLength(old(buffer)[lastRLW]) + n, 0)]
    {
      hide Expand, Parses, NoEmptyMarker, OnlyLastEmpty, RunningLength, LiteralCount;
      buffer := buffer[lastRLW := Marker(v, RunningLength(buffer[lastRLW]) + n, 0)];
    }

    method AddEmptyWord(v: bool) returns (added: nat)
      requires End().Hangs()
      modifies this`buffer, this`lastRLW
      ensures End() == AddEmpty(old(End()), v)
      ensures old(Structured()) ==> Structured() && Contents() == old(Contents()) + [FillWord(v)]
      ensures added == |buffer| - |old(buffer)|
    {
      hide Expand, Parses, NoEmptyMarker, OnlyLastEmpty, RunningLength, LiteralCount, WellFormed;
      if Structured() {
        AddEmptyGrows(End(), v);
      }
      var noliteralword := LiteralCount(buffer[lastRLW]) == 0;
      var runlen := RunningLength(buffer[lastRLW]);
      if noliteralword && runlen == 0 {
        ExtendLastRun(v, 0);
      }
      if noliteralword && RunningBit(buffer[lastRLW]) == v && runlen < LARGEST_RUNNING_LENGTH {
        ExtendLastRun(v, 1);
        return 0;
      } else {
        PushBackMarker();
        ExtendLastRun(v, 1);
        return 1;
      }
    }

    /** Makes the last marker one whose run of `v` can be lengthened. */
    method AlignLastMarker(v: bool) returns (added: nat)
      requires End().Hangs()
      modifies this`buffer, this`lastRLW
      ensures End() == Align(old(End()), v)
      ensures old(Structured()) ==> Structured() && Contents() == old(Contents())
      ensures added == |buffer| - |old(buffer)|
    {
      hide Expand, Parses, NoEmptyMarker, OnlyLastEmpty, RunningLength, LiteralCount, WellFormed;
      if Structured() {
        AlignGrows(End(), v);
        RepeatNone(Contents(), FillWord(v));
      }
      added := 0;
      if RunningBit(buffer[lastRLW]) != v && Size(buffer[lastRLW]) == 0 {
        ExtendLastRun(v, 0);
      } else if LiteralCount(buffer[lastRLW]) != 0 || RunningBit(buffer[lastRLW]) != v {
        PushBackMarker();
        added := 1;
        if v {
          ExtendLastRun(v, 0);
        }
      }
    }

    /** Adds `number` words to an aligned run, opening new markers when the running length is full. */
    method LengthenRun(v: bool, number: nat) returns (added: nat)
      requires End().Hangs() && RunningBit(buffer[lastRLW]) == v && LiteralCount(buffer[lastRLW]) == 0
      modifies this`buffer, this`lastRLW
      ensures End() == Lengthen(old(End()), v, number)
      ensures old(Structured()) ==> Structured() && Contents() == old(Contents()) + Repeat(FillWord(v), number)
      ensures added == |buffer| - |old(buffer)|
    {
      hide Expand, Parses, NoEmptyMarker, OnlyLastEmpty, RunningLength, LiteralCount, WellFormed, PushRuns, RunMarkers;
      if Structured() {
        LengthenGrows(End(), v, number);
      }
      var runlen := RunningLength(buffer[lastRLW]);
      var whatwecanadd := if number < LARGEST_RUNNING_LENGTH - runlen then number else LARGEST_RUNNING_LENGTH - runlen;
      ExtendLastRun(v, whatwecanadd);
      var left: nat := number - whatwecanadd;
      ghost var r := PushRuns(End(), v, left);
      added := 0;
      while left >= LARGEST_RUNNING_LENGTH
        invariant left <= number && End().Hangs() && PushRuns(End(), v, left) == r
        invariant added == |buffer| - |old(buffer)|
      {
        PushRunsStep(End(), v, left);
        PushRun(v, LARGEST_RUNNING_LENGTH);
        added := added + 1;
        left := left - LARGEST_RUNNING_LENGTH;
      }
      LastRun(End(), v, left);
      if left > 0 {
        PushRun(v, left);
        added := added + 1;
      }
    }

    /** A new marker announcing a run. */
    method PushRun(v: bool, run: nat)
      requires run <= LARGEST_RUNNING_LENGTH
      modifies this`buffer, this`lastRLW
      ensures buffer == old(buffer) + [Marker(v, run, 0)] && lastRLW == |old(buffer)|
    {
      hide RunningLength, LiteralCount;
      PushBackMarker();
      ExtendLastRun(v, run);
    }

    /** Appends `number` words of bit `v` without touching `sizeinbits`; `number` may be 0. */
    method FastAddStreamOfEmptyWords(v: bool, number: nat)
      requires End().Hangs()
      modifies this`buffer, this`lastRLW
      ensures End() == FastAdd(old(End()), v, number)
      ensures old(Structured()) ==> Structured() && Contents() == old(Contents()) + Repeat(FillWord(v), number)
    {
      hide Expand, Parses, NoEmptyMarker, OnlyLastEmpty, RunningLength, LiteralCount, WellFormed, Align, Lengthen;
      var _ := AlignLastMarker(v);
      var _ := LengthenRun(v, number);
    }

    /** Appends `number` words of bit `v`; returns the storage cost. */
    method AddStreamOfEmptyWords(v: bool, number: nat) returns (added: nat)
      requires Structured()
      modifies this
      ensures Structured() && Contents() == old(Contents()) + Repeat(FillWord(v), number)
      ensures sizeinbits == old(sizeinbits) + number * WORD_BITS
      ensures added == |buffer| - |old(buffer)|
    {
      hide Expand, Parses, NoEmptyMarker, OnlyLastEmpty, RunningLength, LiteralCount, Align, Lengthen;
      if number == 0 {
        RepeatNone(Contents(), FillWord(v));
        return 0;
      }
      sizeinbits := sizeinbits + number * WORD_BITS;
      var aligned := AlignLastMarker(v);
      var lengthened := LengthenRun(v, number);
      added := aligned + lengthened;
    }

    /**
      Appends bit `i`, filling the gap with zero words. A completed all-ones literal
      becomes part of a run. Bits below `sizeinbits` are refused.
     */
    method Set(i: nat) returns (changed: bool)
      requires End().Hangs()
      modifies this
      ensures changed == (i >= old(sizeinbits))
      ensures !changed ==> buffer == old(buffer) && sizeinbits == old(sizeinbits) && lastRLW == old(lastRLW)
      ensures changed ==> End() == AfterSet(old(End()), old(sizeinbits), i) && sizeinbits == i + 1
      ensures changed && old(Appendable()) ==> SetBuilt() && Bits() == old(Bits()) + {i}
    {
      hide Expand, Parses, NoEmptyMarker, OnlyLastEmpty, RunningLength, LiteralCount, WellFormed, LowBits, ShiftRight, Ones;
      hide AfterSet;
      if i < sizeinbits {
        return false;
      }
      if Appendable() {
        ExpandAtLast(buffer, lastRLW);
        AfterSetAppends(End(), sizeinbits, i);
      }
      var dist: nat := (i + WORD_BITS) / WORD_BITS - (sizeinbits + WORD_BITS - 1) / WORD_BITS;
      ghost var size := sizeinbits;
      sizeinbits := i + 1;
      AppendBit(i, dist, size);
      return true;
    }

    /** `MamaJenniesBitmap::Add`; the source throws where this answers false. */
    method Add(i: nat) returns (added: bool)
      requires Appendable()
      modifies this
      ensures added == (i >= old(sizeinbits))
      ensures !added ==> buffer == old(buffer) && sizeinbits == old(sizeinbits) && lastRLW == old(lastRLW)
      ensures added ==> SetBuilt() && sizeinbits == i + 1 && Bits() == old(Bits()) + {i}
    {
      hide Expand, Parses, NoEmptyMarker, OnlyLastEmpty, RunningLength, LiteralCount, Ones, AfterSet;
      added := Set(i);
    }

    /** The three branches of `set`. */
    method AppendBit(i: nat, dist: nat, ghost size: nat)
      requires End().Hangs() && size <= i && dist == Dist(size, i)
      modifies this`buffer, this`lastRLW
      ensures End() == AfterSet(old(End()), size, i)
    {
      hide Expand, Parses, NoEmptyMarker, OnlyLastEmpty, RunningLength, LiteralCount, WellFormed, LowBits, ShiftRight, Ones;
      hide AddGapAndBit, SplitRun, OrLast, Collapse;
      if dist > 0 {
        AddWordWithBit(i, dist);
        return;
      }
      if LiteralCount(buffer[lastRLW]) == 0 {
        SplitZeroRun(i);
        return;
      }
      OrIntoLastWord(i);
      if buffer[|buffer| - 1] == ALL_ONES {
        CollapseLastWord();
      }
    }

    /** The first branch of `set`: `dist - 1` zero words and a literal with bit `i`. */
    method AddWordWithBit(i: nat, dist: nat)
      requires End().Hangs() && dist > 0
      modifies this`buffer, this`lastRLW
      ensures End() == AddGapAndBit(old(End()), i, dist)
      ensures old(Structured()) ==>
                Structured() && Contents() == old(Contents()) + (Repeat(0, dist - 1) + [OneBit(i % WORD_BITS)])
    {
      hide Expand, Parses, NoEmptyMarker, OnlyLastEmpty, RunningLength, LiteralCount, WellFormed, FastAdd, AddLiteral;
      if Structured() {
        AddGapAndBitGrows(End(), i, dist);
      }
      if dist > 1 {
        FastAddStreamOfEmptyWords(false, dist - 1);
      }
      var _ := AddLiteralWord(OneBit(i % WORD_BITS));
    }

    /** The second branch of `set`: the last word of a run becomes a literal; a run of length 0 wraps. */
    method SplitZeroRun(i: nat)
      requires End().Hangs()
      modifies this`buffer, this`lastRLW
      ensures End() == SplitRun(old(End()), i)
      ensures old(Structured() && LiteralCount(buffer[lastRLW]) == 0 && RunningLength(buffer[lastRLW]) > 0) ==>
                && Structured() && |old(Contents())| > 0
                && Contents() == old(Contents())[..|old(Contents())| - 1] + [OneBit(i % WORD_BITS)]
    {
      hide Expand, Parses, NoEmptyMarker, OnlyLastEmpty, RunningLength, LiteralCount, WellFormed, AddLiteral;
      if Structured() && LiteralCount(buffer[lastRLW]) == 0 && RunningLength(buffer[lastRLW]) > 0 {
        SplitRunExpands(End(), i);
      }
      var runlen := RunningLength(buffer[lastRLW]);
      buffer := buffer[lastRLW := WithRunningLength(buffer[lastRLW], if runlen == 0 then LARGEST_RUNNING_LENGTH else runlen - 1)];
      var _ := AddLiteralWord(OneBit(i % WORD_BITS));
    }

    /** `buffer[buffer.size() - 1] |= 1 << (i % wordinbits)` */
    method OrIntoLastWord(i: nat)
      requires End().Hangs() && LiteralCount(buffer[lastRLW]) > 0
      modifies this`buffer
      ensures End() == OrLast(old(End()), i)
      ensures old(Structured() && i / WORD_BITS == |Contents()| - 1) ==>
                && Structured() && Bits() == old(Bits()) + {i} && |Contents()| == |old(Contents())|
                && buffer[|buffer| - 1] == Contents()[|Contents()| - 1]
    {
      hide Expand, Parses, NoEmptyMarker, OnlyLastEmpty, RunningLength, LiteralCount, LowBits, ShiftRight, Bitwise, Ones, WellFormed;
      if Structured() && i / WORD_BITS == |Contents()| - 1 {
        ExpandAtLast(buffer, lastRLW);
        OrLastExpands(End(), i);
      }
      buffer := buffer[|buffer| - 1 := BitwiseWord(Or, buffer[|buffer| - 1], OneBit(i % WORD_BITS))];
    }

    /** Turns a completed all-ones literal into one more word of a run of ones. */
    method CollapseLastWord()
      requires End().Hangs() && LiteralCount(buffer[lastRLW]) > 0
      modifies this`buffer, this`lastRLW
      ensures End() == Collapse(old(End()))
      ensures old(Structured() && buffer[|buffer| - 1] == ALL_ONES) ==> Structured() && Contents() == old(Contents())
    {
      hide Expand, Parses, NoEmptyMarker, OnlyLastEmpty, RunningLength, LiteralCount, WellFormed, AddEmpty;
      if Structured() && buffer[|buffer| - 1] == ALL_ONES {
        CollapseKeeps(End());
      }
      ghost var b := buffer;
      buffer := buffer[|buffer| - 1 := 0];
      buffer := buffer[..|buffer| - 1];
      assert buffer == b[..|b| - 1];
      buffer := buffer[lastRLW := WithLiteralCount(buffer[lastRLW], LiteralCount(buffer[lastRLW]) - 1)];
      var _ := AddEmptyWord(true);
    }

    /**
      Negates the bitmap in place. For a bitmap whose partial last word is a literal this is
      the complement below `sizeinbits`; for one whose partial last word ends a zero run the
      buffer is left unreadable.
     */
    method InplaceLogicalNot()
      requires Appendable()
      modifies this
      ensures sizeinbits == old(sizeinbits)
      ensures buffer == InplaceNot(old(buffer), old(lastRLW), sizeinbits)
      ensures old(SetBuilt()) ==> SetBuilt() && Bits() == Range(sizeinbits) - old(Bits())
      ensures !old(SetBuilt()) ==> !Parses(buffer)
    {
      hide Expand, Parses, NoEmptyMarker, LowBits, ShiftRight, OnlyLastEmpty, Flip, Ones, RunningLength, LiteralCount, CutLastWord;
      ExpandAtLast(buffer, lastRLW);
      InplaceNotIsComplement(buffer, lastRLW, sizeinbits);
      NegateBuffer();
      assert AllBelow(Range(sizeinbits) - old(Bits()), sizeinbits);
    }

    method NegateBuffer()
      requires Structured()
      modifies this`buffer, this`lastRLW
      ensures buffer == InplaceNot(old(buffer), old(lastRLW), sizeinbits)
      ensures sizeinbits % WORD_BITS == 0 || old(LiteralCount(buffer[lastRLW])) > 0 ==> lastRLW == old(lastRLW)
    {
      var lastrlw := FlipAll();
      if sizeinbits % WORD_BITS != 0 {
        CutPartialWord(lastrlw);
      }
    }

    method CutPartialWord(lastrlw: nat)
      requires lastrlw < |buffer| && lastrlw + Span(buffer[lastrlw]) == |buffer|
      requires sizeinbits % WORD_BITS != 0
      modifies this`buffer, this`lastRLW
      ensures buffer == CutLastWord(old(buffer), lastrlw, sizeinbits)
      ensures old(LiteralCount(buffer[lastrlw])) > 0 ==> lastRLW == old(lastRLW)
    {
      hide Expand, Parses, NoEmptyMarker, OnlyLastEmpty, RunningLength, LiteralCount, Bitwise;
      var maskbogus := LowMask(sizeinbits % WORD_BITS);
      if LiteralCount(buffer[lastrlw]) > 0 {
        var tail := lastrlw + 1 + LiteralCount(buffer[lastrlw]) - 1;
        buffer := buffer[tail := BitwiseWord(And, buffer[tail], maskbogus)];
      } else if RunningBit(buffer[lastrlw]) {
        buffer := buffer[lastrlw := WithLiteralCount(buffer[lastrlw], LARGEST_LITERAL_COUNT)];
        buffer := buffer + [Marker(false, 0, 1), maskbogus];
        lastRLW := |buffer| - 2;
      }
    }

    /** Flips every running bit and negates every literal; returns the position of the last marker. */
    method FlipAll() returns (lastrlw: nat)
      requires Structured()
      modifies this`buffer
      ensures lastrlw == lastRLW
      ensures Parses(old(buffer)) && buffer == Flip(old(buffer))
      ensures Structured() && buffer[lastRLW] == WithRunningBit(old(buffer[lastRLW]), !RunningBit(old(buffer[lastRLW])))
    {
      ghost var b := buffer;
      FlipWellFormed(b, lastRLW);
      StartFlipping(b, lastRLW);
      ghost var f := Flip(b);
      var pointer := 0;
      lastrlw := 0;
      while pointer < |buffer|
        invariant |buffer| == |b| && Flipping(buffer, b, f, pointer, lastRLW)
        invariant pointer == |b| ==> lastrlw == lastRLW
      {
        ghost var before := buffer;
        NextSegment(before, b, f, pointer, lastRLW);
        lastrlw := pointer;
        pointer := FlipSegment(pointer, b, f);
        KeepFlipping(before, b, f, lastrlw, lastRLW, buffer, pointer);
      }
      assert buffer == buffer[..pointer] && f == f[..pointer];
    }

    /** One step of the negation: the marker at `p` and its literals. */
    method FlipSegment(p: nat, ghost b: seq<Word>, ghost f: seq<Word>) returns (pointer: nat)
      requires p < |buffer| == |b| == |f| && buffer[p] == b[p] && p + Span(b[p]) <= |b|
      requires buffer[..p] == f[..p] && buffer[p..] == b[p..]
      requires f[p] == WithRunningBit(b[p], !RunningBit(b[p]))
      requires f[p + 1..p + Span(b[p])] == NotWords(b[p + 1..p + Span(b[p])])
      modifies this`buffer
      ensures pointer == p + Span(b[p]) && |buffer| == |b|
      ensures buffer[..pointer] == f[..pointer] && buffer[pointer..] == b[pointer..]
    {
      pointer := p + Span(buffer[p]);
      assert buffer[p + 1..] == buffer[p..][1..] && b[p + 1..] == b[p..][1..];
      buffer := buffer[p := WithRunningBit(buffer[p], !RunningBit(buffer[p]))];
      NegateLiterals(p + 1, LiteralCount(buffer[p]), b, f);
    }

    method NegateLiterals(from: nat, count: nat, ghost b: seq<Word>, ghost f: seq<Word>)
      requires from + count <= |buffer| == |b| == |f|
      requires buffer[..from] == f[..from] && buffer[from..] == b[from..]
      requires f[from..from + count] == NotWords(b[from..from + count])
      modifies this`buffer
      ensures |buffer| == |b|
      ensures buffer[..from + count] == f[..from + count] && buffer[from + count..] == b[from + count..]
    {
      var pointer := from;
      for k := 0 to count
        invariant pointer == from + k && |buffer| == |b|
        invariant buffer[..pointer] == f[..pointer] && buffer[pointer..] == b[pointer..]
      {
        assert f[pointer] == f[from..from + count][k] == NotWord(b[from..from + count][k]);
        assert buffer[pointer] == buffer[pointer..][0] == b[pointer..][0];
        buffer := buffer[pointer := NotWord(buffer[pointer])];
        pointer := pointer + 1;
      }
    }

    method SetSizeInBits(size: nat)
      modifies this`sizeinbits
      ensures sizeinbits == size
    {
      sizeinbits := size;
    }

    /** Appends one word, as part of a run when it is all zeros or all ones. */
    method AddWord(newdata: Word) returns (added: nat)
      requires Structured()
      modifies this
      ensures Structured() && Contents() == old(Contents()) + [newdata]
      ensures sizeinbits == old(sizeinbits) + WORD_BITS
      ensures added == |buffer| - |old(buffer)|
    {
      sizeinbits := sizeinbits + WORD_BITS;
      if newdata == 0 {
        added := AddEmptyWord(false);
      } else if newdata == ALL_ONES {
        added := AddEmptyWord(true);
      } else {
        added := AddLiteralWord(newdata);
      }
    }

    /** Appends literal words verbatim, opening new markers when the literal count is full. */
    method AddStreamOfDirtyWords(v: seq<Word>) returns (added: nat)
      requires Structured()
      modifies this
      ensures Structured() && Contents() == old(Contents()) + v
      ensures sizeinbits == old(sizeinbits) + |v| * WORD_BITS
      ensures added == |buffer| - |old(buffer)|
      decreases |v|, LiteralCount(buffer[lastRLW])
    {
      ghost var before := Contents();
      if |v| == 0 {
        assert before + v == before;
        return 0;
      }
      var literals := LiteralCount(buffer[lastRLW]);
      var whatwecanadd := if |v| < LARGEST_LITERAL_COUNT - literals then |v| else LARGEST_LITERAL_COUNT - literals;
      AppendToLast(v[..whatwecanadd]);
      sizeinbits := sizeinbits + whatwecanadd * WORD_BITS;
      added := whatwecanadd;
      if |v| - whatwecanadd > 0 {
        added := added + 1;
        PushBackMarker();
        var more := AddStreamOfDirtyWords(v[whatwecanadd..]);
        added := added + more;
      }
      SplitAt(before, v, whatwecanadd);
    }
  }

  lemma RepeatNone(before: seq<Word>, w: Word)
    ensures before + Repeat(w, 0) == before && Repeat(w, 1) == [w]
  {
  }

  lemma SplitAt<T>(before: seq<T>, v: seq<T>, k: nat)
    requires k <= |v|
    ensures before + v[..k] + v[k..] == before + v && v[..|v|] == v
  {
  }
}
