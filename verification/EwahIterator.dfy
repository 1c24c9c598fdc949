/**
  The forward iterator over the set bits (`begin`, `end`, `++`, `*`).
 */
module EwahIterator {
  import opened Words
  import opened EwahBits
  import opened EwahFormat
  import opened EwahReaders

  class SetBitForwardIterator {
    const buffer: seq<Word>
    ghost const ws: seq<Word>
    var mpointer: nat
    var offsetofpreviousrun: nat
    var currentrunoffset: nat
    var rlw: Word

    /** The bit position the iterator is at. */
    function Deref(): nat
      reads this
    {
      currentrunoffset + offsetofpreviousrun
    }

    predicate AtEnd()
      reads this
    {
      mpointer == |buffer|
    }

    /** Somewhere within the marker at `mpointer`, or at the end of the buffer. */
    ghost predicate Placed()
      reads this
    {
      && offsetofpreviousrun % WORD_BITS == 0
      && At(buffer, ws, mpointer, offsetofpreviousrun / WORD_BITS)
      && (!AtEnd() ==> rlw == buffer[mpointer] && currentrunoffset <= WORD_BITS * Size(rlw))
      && (AtEnd() ==> Deref() >= WORD_BITS * |ws|)
    }

    /** At a set bit, or at the end. */
    ghost predicate Valid()
      reads this
    {
      Placed() && (!AtEnd() ==> currentrunoffset < WORD_BITS * Size(rlw) && BitAt(ws, Deref()))
    }

    /** The positions still to be visited. */
    ghost function Remaining(): seq<nat>
      reads this
    {
      OnesFrom(ws, Deref())
    }

    /** `begin()` */
    constructor (b: seq<Word>, ghost last: nat)
      requires WellFormed(b, last)
      ensures Parses(b) && buffer == b && ws == Expand(b)
      ensures Valid() && Remaining() == OnesFrom(ws, 0)
    {
      StartReading(b, last);
      buffer := b;
      ws := Expand(b);
      mpointer := 0;
      offsetofpreviousrun := 0;
      currentrunoffset := 0;
      rlw := b[0];
      new;
      var _ := AdvanceToNextSetBit();
    }

    /** Moves to the first set bit at or after the current position. */
    method AdvanceToNextSetBit() returns (found: bool)
      requires Placed()
      modifies this
      ensures Valid() && Remaining() == old(Remaining())
      ensures found == !AtEnd()
      decreases |buffer| - mpointer
    {
      hide OnesFrom, Bit, Expand, Parses, RunningLength, LiteralCount;
      if mpointer == |buffer| {
        return false;
      }
      ghost var k := offsetofpreviousrun / WORD_BITS;
      ReadMarker(buffer, ws, mpointer, k);
      var runEnd := RunningLength(rlw) * WORD_BITS;
      RunBits(ws, k, k + RunningLength(rlw), RunningBit(rlw));
      if currentrunoffset < runEnd {
        if RunningBit(rlw) {
          return true;
        }
        OnesSkip(ws, Deref(), Deref() + (runEnd - currentrunoffset));
        SkipBy(runEnd - currentrunoffset);
      }
      found := ScanLiterals();
      if !found {
        var more := AdvanceToNextRun();
        if more {
          found := AdvanceToNextSetBit();
        }
      }
    }

    /** The search through the literals of the current marker. */
    method ScanLiterals() returns (found: bool)
      requires Placed() && !AtEnd() && currentrunoffset >= RunningLength(rlw) * WORD_BITS
      modifies this`currentrunoffset
      ensures Placed() && Remaining() == old(Remaining())
      ensures if found then Valid() else currentrunoffset == WORD_BITS * Size(rlw)
    {
      found := false;
      while !found && currentrunoffset < WORD_BITS * Size(rlw)
        invariant Placed() && !AtEnd() && currentrunoffset >= RunningLength(rlw) * WORD_BITS
        invariant Remaining() == old(Remaining())
        invariant found ==> Valid()
        decreases if found then 0 else 1, WORD_BITS * Size(rlw) - currentrunoffset
      {
        found := ScanLiteral();
      }
    }

    /** One literal: stops at its next one, or moves to the end of the word. */
    method ScanLiteral() returns (found: bool)
      requires Placed() && !AtEnd()
      requires RunningLength(rlw) * WORD_BITS <= currentrunoffset < WORD_BITS * Size(rlw)
      modifies this`currentrunoffset
      ensures Placed() && Remaining() == old(Remaining())
      ensures if found then Valid() else currentrunoffset > old(currentrunoffset)
      ensures currentrunoffset >= old(currentrunoffset)
    {
      hide OnesFrom, Bit;
      var indexoflitword := (currentrunoffset - RunningLength(rlw) * WORD_BITS) / WORD_BITS;
      var tinwordpointer := (currentrunoffset - RunningLength(rlw) * WORD_BITS) % WORD_BITS;
      var currentword := buffer[mpointer + 1 + indexoflitword];
      LiteralAt(indexoflitword);
      var modcurrentword := ShiftRight(currentword, tinwordpointer);
      if modcurrentword != 0 {
        NextInWord(ws, Deref(), modcurrentword);
        StopAfter(TrailingZeros(modcurrentword));
        return true;
      }
      RestOfWordIsZero(ws, Deref());
      SkipBy(WORD_BITS - tinwordpointer);
      return false;
    }

    /** Moves over `n` positions without a set bit. */
    method SkipBy(n: nat)
      requires Placed() && !AtEnd() && currentrunoffset + n <= WORD_BITS * Size(rlw)
      requires OnesFrom(ws, Deref()) == OnesFrom(ws, Deref() + n)
      modifies this`currentrunoffset
      ensures Placed() && Remaining() == old(Remaining())
      ensures currentrunoffset == old(currentrunoffset) + n && Deref() == old(Deref()) + n
    {
      currentrunoffset := currentrunoffset + n;
      assert Deref() == old(Deref()) + n;
    }

    /** Moves over `n` positions to a set bit. */
    method StopAfter(n: nat)
      requires Placed() && !AtEnd() && currentrunoffset + n < WORD_BITS * Size(rlw)
      requires OnesFrom(ws, Deref()) == OnesFrom(ws, Deref() + n) && BitAt(ws, Deref() + n)
      modifies this`currentrunoffset
      ensures Valid() && Remaining() == old(Remaining())
      ensures currentrunoffset == old(currentrunoffset) + n
    {
      hide Expand, Parses, OnesFrom, Bit;
      currentrunoffset := currentrunoffset + n;
      assert Deref() == old(Deref()) + n;
    }

    /** The literal that the current position lies in. */
    lemma LiteralAt(index: nat)
      requires Placed() && !AtEnd() && currentrunoffset >= RunningLength(rlw) * WORD_BITS
      requires index == (currentrunoffset - RunningLength(rlw) * WORD_BITS) / WORD_BITS < LiteralCount(rlw)
      ensures mpointer + 1 + index < |buffer| && Deref() / WORD_BITS < |ws|
      ensures ws[Deref() / WORD_BITS] == buffer[mpointer + 1 + index]
      ensures Deref() % WORD_BITS == (currentrunoffset - RunningLength(rlw) * WORD_BITS) % WORD_BITS
      ensures currentrunoffset + (WORD_BITS - Deref() % WORD_BITS) <= WORD_BITS * Size(rlw)
    {
      hide Expand, Parses, OnesFrom;
      var k := offsetofpreviousrun / WORD_BITS;
      Locate(offsetofpreviousrun, currentrunoffset, RunningLength(rlw));
      ReadMarker(buffer, ws, mpointer, k);
      assert buffer[mpointer + 1..mpointer + Span(rlw)][index] == buffer[mpointer + 1 + index];
    }

    method AdvanceToNextRun() returns (more: bool)
      requires Placed() && !AtEnd() && currentrunoffset == WORD_BITS * Size(rlw)
      modifies this
      ensures Placed() && Remaining() == old(Remaining())
      ensures more == !AtEnd() && mpointer > old(mpointer)
    {
      hide Expand, Parses, OnesFrom, RunningLength, LiteralCount, Bit;
      NextMarker();
      offsetofpreviousrun := offsetofpreviousrun + currentrunoffset;
      currentrunoffset := 0;
      mpointer := mpointer + 1 + LiteralCount(rlw);
      if mpointer < |buffer| {
        rlw := buffer[mpointer];
        return true;
      }
      return false;
    }

    /** Where the next marker starts. */
    lemma NextMarker()
      requires Placed() && !AtEnd() && currentrunoffset == WORD_BITS * Size(rlw)
      ensures mpointer + Span(rlw) <= |buffer| && Deref() % WORD_BITS == 0
      ensures At(buffer, ws, mpointer + Span(rlw), Deref() / WORD_BITS)
      ensures mpointer + Span(rlw) == |buffer| ==> Deref() == WORD_BITS * |ws|
    {
      hide Expand, Parses, NoEmptyMarker, OnlyLastEmpty, RunningLength, LiteralCount, Bit, OnesFrom;
      ReadMarker(buffer, ws, mpointer, offsetofpreviousrun / WORD_BITS);
      Locate(offsetofpreviousrun, currentrunoffset, 0);
      if mpointer + Span(rlw) == |buffer| {
        EndReading(buffer, ws, Deref() / WORD_BITS);
      }
    }

    /** Only at the end is nothing left. */
    lemma EndIsEmpty()
      requires Valid()
      ensures AtEnd() <==> Remaining() == []
    {
      if !AtEnd() {
        assert Remaining()[0] == Deref();
      }
    }

    /** `++`: leaves exactly the positions after the current one. */
    method Increment()
      requires Valid() && !AtEnd()
      modifies this
      ensures Valid() && old(Remaining()) == [old(Deref())] + Remaining()
    {
      hide Expand, Parses, NoEmptyMarker, RunningLength, LiteralCount, OnesFrom, Bit, At;
      NextOne(ws, Deref());
      currentrunoffset := currentrunoffset + 1;
      var _ := AdvanceToNextSetBit();
    }
  }

  lemma Locate(offset: nat, current: nat, run: nat)
    requires offset % WORD_BITS == 0 && current >= run * WORD_BITS
    ensures (current + offset) / WORD_BITS == offset / WORD_BITS + run + (current - run * WORD_BITS) / WORD_BITS
    ensures (current + offset) % WORD_BITS == (current - run * WORD_BITS) % WORD_BITS
  {
  }

  /** The lowest one of the rest of the word is the next set bit. */
  lemma NextInWord(ws: seq<Word>, pos: nat, x: nat)
    requires pos / WORD_BITS < |ws| && x == ShiftRight(ws[pos / WORD_BITS], pos % WORD_BITS) && x != 0
    ensures pos % WORD_BITS + TrailingZeros(x) < WORD_BITS
    ensures BitAt(ws, pos + TrailingZeros(x))
    ensures OnesFrom(ws, pos) == OnesFrom(ws, pos + TrailingZeros(x))
  {
    hide OnesFrom, ShiftRight, TrailingZeros, Bit, Pow2;
    var n, t := pos / WORD_BITS, pos % WORD_BITS;
    WordLimitIsPow2();
    ShiftRightBound(ws[n], t, WORD_BITS - t);
    TrailingZerosLowest(x, WORD_BITS - t);
    var z := TrailingZeros(x);
    ShiftRightBit(ws[n], t, z);
    Position(n, t + z);
    forall i: nat | pos <= i < pos + z
      ensures !BitAt(ws, i)
    {
      Position(n, i - WORD_BITS * n);
      ShiftRightBit(ws[n], t, i - pos);
    }
    OnesSkip(ws, pos, pos + z);
  }

  lemma RestOfWordIsZero(ws: seq<Word>, pos: nat)
    requires pos / WORD_BITS < |ws| && ShiftRight(ws[pos / WORD_BITS], pos % WORD_BITS) == 0
    ensures OnesFrom(ws, pos) == OnesFrom(ws, pos + (WORD_BITS - pos % WORD_BITS))
  {
    var n, t := pos / WORD_BITS, pos % WORD_BITS;
    forall i: nat | pos <= i < pos + WORD_BITS - t
      ensures !BitAt(ws, i)
    {
      Position(n, i - WORD_BITS * n);
      ShiftRightBit(ws[n], t, i - pos);
      ZeroBit(i - pos);
    }
    OnesSkip(ws, pos, pos + (WORD_BITS - t));
  }
}
