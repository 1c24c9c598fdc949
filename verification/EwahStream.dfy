/**
  Reading a compressed buffer marker by marker: the raw iterator together with the
  buffered running length word that it reloads.
 */
module EwahStream {
  import opened Words
  import opened EwahFormat
  import opened EwahBitmap

  function Drop<T>(s: seq<T>, n: nat): seq<T> {
    if n <= |s| then s[n..] else []
  }

  function Take<T>(s: seq<T>, n: nat): seq<T> {
    if n <= |s| then s[..n] else s
  }

  class RawIterator {
    const words: seq<Word>
    var pointer: nat
    var runningBit: bool
    var runningLength: nat
    var literals: nat

    /** The markers not read yet. */
    ghost predicate TailValid()
      reads this
    {
      pointer <= |words| && Parses(words[pointer..]) && OnlyLastEmpty(words[pointer..])
    }

    /** A size of zero means that nothing is left. */
    ghost predicate Valid()
      reads this
    {
      && TailValid()
      && literals <= pointer
      && (runningLength + literals == 0 ==> pointer == |words|)
    }

    /** The words not consumed yet. */
    ghost function Rest(): seq<Word>
      requires TailValid() && literals <= pointer
      reads this
    {
      Repeat(FillWord(runningBit), runningLength) + words[pointer - literals..pointer] + Expand(words[pointer..])
    }

    /** The iterator on a well-formed buffer, before the first `next`. */
    constructor (b: seq<Word>, ghost last: nat)
      requires WellFormed(b, last)
      ensures words == b && pointer == 0 && TailValid()
      ensures Parses(b) && Expand(words[pointer..]) == Expand(b)
    {
      ExpandAtLast(b, last);
      assert b[0..] == b;
      words := b;
      pointer := 0;
      runningBit := RunningBit(b[0]);
      runningLength := RunningLength(b[0]);
      literals := LiteralCount(b[0]);
    }

    predicate HasNext()
      reads this
    {
      pointer < |words|
    }

    function Size(): nat
      reads this
    {
      runningLength + literals
    }

    /** Reads the next marker. */
    method Read()
      requires TailValid() && HasNext()
      modifies this
      ensures Valid() && pointer > old(pointer)
      ensures old(TailValid()) && Rest() == Expand(words[old(pointer)..])
    {
      ghost var tail := words[pointer..];
      var m := words[pointer];
      assert m == tail[0];
      SliceOfSlice(words, pointer, Span(tail[0]));
      runningBit := RunningBit(m);
      runningLength := RunningLength(m);
      literals := LiteralCount(m);
      pointer := pointer + literals + 1;
    }

    /** Moves to the next marker, or empties the iterator at the end of the buffer. */
    method Next() returns (more: bool)
      requires TailValid()
      modifies this
      ensures Valid() && old(TailValid()) && Rest() == Expand(words[old(pointer)..])
      ensures more == old(HasNext())
      ensures !more ==> Rest() == []
    {
      if !HasNext() {
        literals := 0;
        runningLength := 0;
        assert words[pointer..] == [];
        NothingAhead(FillWord(runningBit), words, pointer, []);
        return false;
      }
      Read();
      return true;
    }

    /** Drops the rest of the run. */
    method DiscardRunningWordsWithReload()
      requires Valid()
      modifies this
      ensures Valid() && Rest() == Drop(old(Rest()), old(runningLength))
    {
      DropFromRun(runningLength);
      if literals == 0 {
        NothingAhead(FillWord(runningBit), words, pointer, Expand(words[pointer..]));
        var _ := Next();
      }
    }

    /** Drops `x` words of the run. */
    method DropFromRun(x: nat)
      requires TailValid() && literals <= pointer && x <= runningLength
      modifies this`runningLength
      ensures TailValid() && Rest() == Drop(old(Rest()), x)
      ensures runningLength == old(runningLength) - x
    {
      DropRun(FillWord(runningBit), runningLength, x, words[pointer - literals..pointer], Expand(words[pointer..]));
      runningLength := runningLength - x;
    }

    /** Drops `k` literals of a marker whose run is used up. */
    method DropLiterals(k: nat)
      requires TailValid() && k <= literals <= pointer && runningLength == 0
      modifies this`literals
      ensures TailValid() && literals <= pointer && Rest() == Drop(old(Rest()), k)
      ensures literals == old(literals) - k
    {
      hide Expand, Parses, OnlyLastEmpty, Drop, Repeat;
      DropRunAndLiterals(FillWord(runningBit), 0, words, pointer - literals, pointer, k, Expand(words[pointer..]));
      literals := literals - k;
    }

    /** Drops words of the current marker, at most `x`; returns how many are still to be dropped. */
    method DiscardWithinMarker(x: nat) returns (left: nat)
      requires Valid() && x > 0
      modifies this`runningLength, this`literals
      ensures TailValid() && literals <= pointer && left <= x
      ensures Rest() == Drop(old(Rest()), x - left)
      ensures old(Size()) > 0 ==> left < x
      ensures left > 0 ==> runningLength == 0 && literals == 0
    {
      hide Expand, Parses, OnlyLastEmpty, Drop, Repeat;
      if runningLength > x {
        DropFromRun(x);
        return 0;
      }
      left := x - runningLength;
      var toDiscard := if left > literals then literals else left;
      DropMore(Rest(), runningLength, toDiscard);
      DropFromRun(runningLength);
      DropLiterals(toDiscard);
      left := left - toDiscard;
    }

    /** Drops the first `x` words, or everything when fewer are left. */
    method DiscardFirstWordsWithReload(x: nat)
      requires Valid()
      modifies this
      ensures Valid() && Rest() == Drop(old(Rest()), x)
    {
      hide Expand, Parses, OnlyLastEmpty, Drop;
      ghost var whole := Rest();
      DropNothing(whole);
      var left: nat := x;
      while left > 0
        invariant Valid() && left <= x
        invariant Rest() == Drop(whole, x - left)
        decreases left, |words| - pointer
      {
        ghost var wanted := left;
        left := DiscardWithinMarker(left);
        DropMore(whole, x - wanted, wanted - left);
        if left > 0 || Size() == 0 {
          NothingAhead(FillWord(runningBit), words, pointer, Expand(words[pointer..]));
          var more := Next();
          if !more {
            DropPast(whole, x - left, x);
            return;
          }
        }
      }
    }

    /** Copies at most `room` words of the current marker into the container and drops them. */
    method DischargeMarker(container: EwahBoolArray, room: nat) returns (written: nat)
      requires Valid() && container.Structured()
      modifies this, container
      ensures Valid() && container.Structured()
      ensures written <= room && written <= |old(Rest())|
      ensures Rest() == Drop(old(Rest()), written)
      ensures container.Contents() == old(container.Contents()) + Take(old(Rest()), written)
      ensures container.sizeinbits == old(container.sizeinbits) + written * WORD_BITS
      ensures room > 0 && old(Size()) > 0 ==> written > 0
    {
      hide Expand, Parses, NoEmptyMarker, OnlyLastEmpty, RunningLength, LiteralCount;
      var pl := if runningLength > room then room else runningLength;
      var pd := if pl + literals > room then room - pl else literals;
      CopyMarker(container, pl, pd);
      DiscardFirstWordsWithReload(pl + pd);
      written := pl + pd;
    }

    /** Writes `pl` words of the run and `pd` of the literals that follow it. */
    method CopyMarker(container: EwahBoolArray, pl: nat, pd: nat)
      requires Valid() && container.Structured()
      requires pl <= runningLength && pd <= literals && (pd > 0 ==> pl == runningLength)
      modifies container
      ensures Valid() && container.Structured() && pl + pd <= |Rest()|
      ensures container.Contents() == old(container.Contents()) + Take(Rest(), pl + pd)
      ensures container.sizeinbits == old(container.sizeinbits) + (pl + pd) * WORD_BITS
    {
      ghost var before := container.Contents();
      var from := pointer - literals;
      TakeOfMarker(before, FillWord(runningBit), runningLength, pl, words, from, pointer, pd, Expand(words[pointer..]));
      var _ := container.AddStreamOfEmptyWords(runningBit, pl);
      var _ := container.AddStreamOfDirtyWords(words[from..from + pd]);
    }

    /** Copies up to `max` words into the container; returns how many there were. */
    method DischargeUpTo(container: EwahBoolArray, max: nat) returns (index: nat)
      requires Valid() && container.Structured()
      modifies this, container
      ensures Valid() && container.Structured()
      ensures index == if max <= |old(Rest())| then max else |old(Rest())|
      ensures Rest() == Drop(old(Rest()), max)
      ensures container.Contents() == old(container.Contents()) + Take(old(Rest()), max)
      ensures container.sizeinbits == old(container.sizeinbits) + index * WORD_BITS
    {
      hide Expand, Parses, OnlyLastEmpty, NoEmptyMarker, RunningLength, LiteralCount, WellFormed;
      ghost var whole, before := Rest(), container.Contents();
      index := 0;
      while index < max && Size() > 0
        invariant Valid() && container.Structured()
        invariant index <= max && index <= |whole|
        invariant Rest() == Drop(whole, index)
        invariant container.Contents() == before + Take(whole, index)
        invariant container.sizeinbits == old(container.sizeinbits) + index * WORD_BITS
      {
        ghost var done := index;
        var written := DischargeMarker(container, max - index);
        TakeMore(before, whole, done, written);
        DropMore(whole, done, written);
        index := index + written;
      }
      Exhausted();
    }

    /** Copies everything that is left into the container. */
    method Discharge(container: EwahBoolArray)
      requires Valid() && container.Structured()
      modifies this, container
      ensures Valid() && container.Structured() && Rest() == []
      ensures container.Contents() == old(container.Contents()) + old(Rest())
      ensures container.sizeinbits == old(container.sizeinbits) + |old(Rest())| * WORD_BITS
    {
      hide Expand, Parses, OnlyLastEmpty, NoEmptyMarker;
      ghost var whole, before, done := Rest(), container.Contents(), 0;
      while Size() > 0
        invariant Valid() && container.Structured()
        invariant done <= |whole|
        invariant Rest() == Drop(whole, done)
        invariant container.Contents() == before + Take(whole, done)
        invariant container.sizeinbits == old(container.sizeinbits) + done * WORD_BITS
        decreases |whole| - done
      {
        var written := DischargeMarker(container, Size());
        TakeMore(before, whole, done, written);
        DropMore(whole, done, written);
        done := done + written;
      }
      Exhausted();
    }

    function LiteralWordAt(k: nat): Word
      requires k < literals <= pointer <= |words|
      reads this
    {
      words[pointer - literals..][k]
    }

    lemma RunPrefix()
      requires Valid()
      ensures |Rest()| >= runningLength && Rest()[..runningLength] == Repeat(FillWord(runningBit), runningLength)
    {
    }

    lemma LiteralPrefix()
      requires Valid() && runningLength == 0
      ensures |Rest()| >= literals
      ensures forall k: nat | k < literals :: Rest()[k] == LiteralWordAt(k)
    {
    }

    /** A size of zero means that nothing is left, and only then. */
    lemma Exhausted()
      requires Valid()
      ensures Size() == 0 <==> Rest() == []
    {
      if Size() == 0 {
        assert words[pointer..] == [];
        NothingAhead(FillWord(runningBit), words, pointer, []);
      } else {
        assert |Rest()| >= Size();
      }
    }
  }

  lemma TakeOfMarker(c: seq<Word>, w: Word, n: nat, pl: nat, s: seq<Word>, a: nat, b: nat, pd: nat, t: seq<Word>)
    requires pl <= n && a + pd <= b <= |s| && (pd > 0 ==> pl == n)
    ensures |Repeat(w, n) + s[a..b] + t| >= pl + pd
    ensures c + Repeat(w, pl) + s[a..a + pd] == c + Take(Repeat(w, n) + s[a..b] + t, pl + pd)
  {
    var whole := Repeat(w, n) + s[a..b] + t;
    assert whole[..pl + pd] == Repeat(w, pl) + s[a..a + pd];
  }

  lemma TakeMore<T>(c: seq<T>, s: seq<T>, a: nat, b: nat)
    requires a + b <= |s|
    ensures c + Take(s, a) + Take(Drop(s, a), b) == c + Take(s, a + b)
    ensures |Drop(s, a)| == |s| - a
  {
  }

  lemma DropRun(w: Word, n: nat, x: nat, l: seq<Word>, t: seq<Word>)
    requires x <= n
    ensures Drop(Repeat(w, n) + l + t, x) == Repeat(w, n - x) + l + t
    ensures Repeat(w, 0) + l + t == l + t
  {
  }

  lemma DropRunAndLiterals(w: Word, n: nat, s: seq<Word>, a: nat, b: nat, k: nat, t: seq<Word>)
    requires a + k <= b <= |s|
    ensures Drop(Repeat(w, n) + s[a..b] + t, n + k) == Repeat(w, 0) + s[a + k..b] + t
  {
  }

  lemma NothingAhead(w: Word, s: seq<Word>, p: nat, t: seq<Word>)
    requires p <= |s|
    ensures Repeat(w, 0) + s[p..p] + t == t
  {
  }

  lemma DropMore<T>(s: seq<T>, a: nat, b: nat)
    ensures Drop(Drop(s, a), b) == Drop(s, a + b)
  {
  }

  lemma DropNothing<T>(s: seq<T>)
    ensures Drop(s, 0) == s
  {
  }

  lemma DropPast<T>(s: seq<T>, a: nat, b: nat)
    requires a <= b && Drop(s, a) == []
    ensures Drop(s, b) == []
  {
  }
}
