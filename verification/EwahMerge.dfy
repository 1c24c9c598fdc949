/**
  Intersection and union of compressed bitmaps: two raw iterators are consumed together,
  the one with the longer run (the predator) deciding how far the other (the prey) moves.
 */
module EwahMerge {
  import opened Words
  import opened EwahBits
  import opened EwahFormat
  import opened EwahBitmap
  import opened EwahStream

  function Max(x: nat, y: nat): nat {
    if x < y then y else x
  }

  /** The container `c` holds the combination of what both streams have consumed. */
  ghost predicate Merged(op: BitOp, c: seq<Word>, a: seq<Word>, b: seq<Word>, restA: seq<Word>, restB: seq<Word>) {
    Combined(op, c, a, b) && restA == Drop(a, |c|) && restB == Drop(b, |c|) && |c| <= Max(|a|, |b|)
  }

  lemma MergeMore(op: BitOp, c: seq<Word>, a: seq<Word>, b: seq<Word>, restA: seq<Word>, restB: seq<Word>, s: seq<Word>)
    requires Merged(op, c, a, b, restA, restB) && Combined(op, s, restA, restB)
    requires |s| <= Max(|restA|, |restB|)
    ensures Merged(op, c + s, a, b, Drop(restA, |s|), Drop(restB, |s|))
  {
    forall k: nat | k < |c + s|
      ensures (c + s)[k] == BitwiseWord(op, Word0(a, k), Word0(b, k))
    {
      if k >= |c| {
        assert (c + s)[k] == s[k - |c|];
        assert Word0(restA, k - |c|) == Word0(a, k) && Word0(restB, k - |c|) == Word0(b, k);
      } else {
        assert (c + s)[k] == c[k];
      }
    }
    DropMore(a, |c|, |s|);
    DropMore(b, |c|, |s|);
  }

  lemma MergedSwap(op: BitOp, c: seq<Word>, a: seq<Word>, b: seq<Word>, restA: seq<Word>, restB: seq<Word>)
    requires Merged(op, c, a, b, restA, restB)
    ensures Merged(op, c, b, a, restB, restA)
  {
    forall k: nat | k < |c|
      ensures c[k] == BitwiseWord(op, Word0(b, k), Word0(a, k))
    {
      BitwiseCommutes(op, Word0(a, k), Word0(b, k), WORD_BITS);
    }
  }

  lemma {:induction false} BitwiseCommutes(op: BitOp, x: nat, y: nat, n: nat)
    ensures Bitwise(op, x, y, n) == Bitwise(op, y, x, n)
  {
    if n > 0 {
      BitwiseCommutes(op, x / 2, y / 2, n - 1);
    }
  }

  /** A run that absorbs the prey: zeros in an intersection, ones in a union. */
  lemma AbsorbingRun(op: BitOp, v: bool, n: nat, prey: seq<Word>, predator: seq<Word>)
    requires (op.And? && !v) || (op.Or? && v)
    requires |predator| >= n && predator[..n] == Repeat(FillWord(v), n)
    ensures Combined(op, Repeat(FillWord(v), n), prey, predator)
  {
    forall k: nat | k < n
      ensures FillWord(v) == BitwiseWord(op, Word0(prey, k), Word0(predator, k))
    {
      assert predator[k] == predator[..n][k];
      WordIdentities(Word0(prey, k));
    }
  }

  /** A run that lets the prey through: ones in an intersection, zeros in a union. */
  lemma NeutralRun(op: BitOp, v: bool, n: nat, prey: seq<Word>, predator: seq<Word>, s: seq<Word>)
    requires (op.And? && v) || (op.Or? && !v)
    requires |predator| >= n && predator[..n] == Repeat(FillWord(v), n)
    requires s == Take(prey, n) + Repeat(0, n - |Take(prey, n)|)
    ensures Combined(op, s, prey, predator)
  {
    forall k: nat | k < |s|
      ensures s[k] == BitwiseWord(op, Word0(prey, k), Word0(predator, k))
    {
      assert predator[k] == predator[..n][k];
      WordIdentities(Word0(prey, k));
    }
  }

  method AndRuns(prey: RawIterator, predator: RawIterator, container: EwahBoolArray) returns (ghost s: seq<Word>)
    requires prey != predator && prey.Valid() && predator.Valid() && container.Structured()
    requires predator.runningLength > 0
    modifies prey, predator, container
    ensures prey.Valid() && predator.Valid() && container.Structured()
    ensures |s| == old(predator.runningLength) && container.Contents() == old(container.Contents()) + s
    ensures Combined(And, s, old(prey.Rest()), old(predator.Rest()))
    ensures prey.Rest() == Drop(old(prey.Rest()), |s|) && predator.Rest() == Drop(old(predator.Rest()), |s|)
  {
    hide Expand, Parses, OnlyLastEmpty, NoEmptyMarker, Bitwise;
    ghost var before, preyRest, predatorRest := container.Contents(), prey.Rest(), predator.Rest();
    var n := predator.runningLength;
    predator.RunPrefix();
    if !predator.runningBit {
      AbsorbingRun(And, false, n, preyRest, predatorRest);
      s := Repeat(0, n);
      container.FastAddStreamOfEmptyWords(false, n);
      prey.DiscardFirstWordsWithReload(n);
    } else {
      s := Take(preyRest, n) + Repeat(0, n - |Take(preyRest, n)|);
      NeutralRun(And, true, n, preyRest, predatorRest, s);
      var index := prey.DischargeUpTo(container, n);
      container.FastAddStreamOfEmptyWords(false, n - index);
      Associate(before, Take(preyRest, n), Repeat(0, n - index));
    }
    predator.DiscardRunningWordsWithReload();
  }

  method OrRuns(prey: RawIterator, predator: RawIterator, container: EwahBoolArray) returns (ghost s: seq<Word>)
    requires prey != predator && prey.Valid() && predator.Valid() && container.Structured()
    requires predator.runningLength > 0
    modifies prey, predator, container
    ensures prey.Valid() && predator.Valid() && container.Structured()
    ensures |s| == old(predator.runningLength) && container.Contents() == old(container.Contents()) + s
    ensures container.sizeinbits == old(container.sizeinbits) + |s| * WORD_BITS
    ensures Combined(Or, s, old(prey.Rest()), old(predator.Rest()))
    ensures prey.Rest() == Drop(old(prey.Rest()), |s|) && predator.Rest() == Drop(old(predator.Rest()), |s|)
  {
    hide Expand, Parses, OnlyLastEmpty, NoEmptyMarker, Bitwise;
    ghost var before, preyRest, predatorRest := container.Contents(), prey.Rest(), predator.Rest();
    var n := predator.runningLength;
    predator.RunPrefix();
    if predator.runningBit {
      AbsorbingRun(Or, true, n, preyRest, predatorRest);
      s := Repeat(ALL_ONES, n);
      var _ := container.AddStreamOfEmptyWords(true, n);
      prey.DiscardFirstWordsWithReload(n);
    } else {
      s := Take(preyRest, n) + Repeat(0, n - |Take(preyRest, n)|);
      NeutralRun(Or, false, n, preyRest, predatorRest, s);
      var index := prey.DischargeUpTo(container, n);
      var _ := container.AddStreamOfEmptyWords(false, n - index);
      Associate(before, Take(preyRest, n), Repeat(0, n - index));
    }
    predator.DiscardRunningWordsWithReload();
  }

  lemma Associate<T>(a: seq<T>, b: seq<T>, c: seq<T>)
    ensures a + b + c == a + (b + c)
  {
  }

  /** Combines the literals that both current markers have and drops them. */
  method CombineLiterals(op: BitOp, i: RawIterator, j: RawIterator, container: EwahBoolArray) returns (ghost s: seq<Word>)
    requires i != j && i.Valid() && j.Valid() && container.Structured()
    requires i.runningLength == 0 && j.runningLength == 0
    modifies i, j, container
    ensures i.Valid() && j.Valid() && container.Structured()
    ensures |s| == if old(i.literals) < old(j.literals) then old(i.literals) else old(j.literals)
    ensures container.Contents() == old(container.Contents()) + s
    ensures container.sizeinbits == old(container.sizeinbits) + |s| * WORD_BITS
    ensures Combined(op, s, old(i.Rest()), old(j.Rest()))
    ensures i.Rest() == Drop(old(i.Rest()), |s|) && j.Rest() == Drop(old(j.Rest()), |s|)
    ensures |s| <= |old(i.Rest())|
  {
    i.LiteralPrefix();
    var n := if i.literals < j.literals then i.literals else j.literals;
    s := AddCombined(op, i, j, n, container);
    i.DiscardFirstWordsWithReload(n);
    j.DiscardFirstWordsWithReload(n);
  }

  method AddCombined(op: BitOp, i: RawIterator, j: RawIterator, n: nat, container: EwahBoolArray) returns (ghost s: seq<Word>)
    requires i.Valid() && j.Valid() && container.Structured()
    requires i.runningLength == 0 && j.runningLength == 0 && n <= i.literals && n <= j.literals
    modifies container
    ensures container.Structured() && |s| == n
    ensures container.Contents() == old(container.Contents()) + s
    ensures container.sizeinbits == old(container.sizeinbits) + n * WORD_BITS
    ensures Combined(op, s, i.Rest(), j.Rest())
  {
    hide Expand, Parses, NoEmptyMarker, OnlyLastEmpty, Bitwise, BitwiseWord, RunningLength, LiteralCount, WellFormed, RawIterator.Rest;
    ghost var before := container.Contents();
    s := [];
    i.LiteralPrefix();
    j.LiteralPrefix();
    var k := 0;
    while k < n
      invariant 0 <= k <= n && container.Structured() && |s| == k
      invariant container.Contents() == before + s
      invariant container.sizeinbits == old(container.sizeinbits) + k * WORD_BITS
      invariant Combined(op, s, i.Rest(), j.Rest())
    {
      var w := BitwiseWord(op, i.LiteralWordAt(k), j.LiteralWordAt(k));
      var _ := container.AddWord(w);
      Associate(before, s, [w]);
      s := s + [w];
      k := k + 1;
    }
  }

  lemma StartMerge(op: BitOp, a: seq<Word>, b: seq<Word>)
    ensures Merged(op, [], a, b, a, b)
  {
  }

  /** The words and, in a union, the size of the container after merging two streams part of the way. */
  ghost predicate Merging(op: BitOp, container: EwahBoolArray, wi: seq<Word>, wj: seq<Word>, i: RawIterator, j: RawIterator)
    reads container, i, j
  {
    && i != j && i.Valid() && j.Valid() && container.Structured()
    && Merged(op, container.Contents(), wi, wj, i.Rest(), j.Rest())
    && (op.Or? ==> container.sizeinbits == WORD_BITS * |container.Contents()|)
  }

  /** One round of the inner loop: the longer run decides. */
  method MergeRuns(op: BitOp, i: RawIterator, j: RawIterator, container: EwahBoolArray, ghost wi: seq<Word>, ghost wj: seq<Word>)
    requires (op.And? || op.Or?) && Merging(op, container, wi, wj, i, j)
    requires i.runningLength > 0 || j.runningLength > 0
    modifies i, j, container
    ensures Merging(op, container, wi, wj, i, j)
    ensures |i.Rest()| + |j.Rest()| < |old(i.Rest())| + |old(j.Rest())|
  {
    var iIsPrey := i.runningLength < j.runningLength;
    if iIsPrey {
      MergePredatorRun(op, i, j, container, wi, wj);
    } else {
      MergedSwap(op, container.Contents(), wi, wj, i.Rest(), j.Rest());
      MergePredatorRun(op, j, i, container, wj, wi);
      MergedSwap(op, container.Contents(), wj, wi, j.Rest(), i.Rest());
    }
  }

  method MergePredatorRun(op: BitOp, prey: RawIterator, predator: RawIterator, container: EwahBoolArray, ghost wp: seq<Word>, ghost wq: seq<Word>)
    requires (op.And? || op.Or?) && Merging(op, container, wp, wq, prey, predator)
    requires predator.runningLength > 0
    modifies prey, predator, container
    ensures Merging(op, container, wp, wq, prey, predator)
    ensures |prey.Rest()| + |predator.Rest()| < |old(prey.Rest())| + |old(predator.Rest())|
  {
    hide Expand, Parses, OnlyLastEmpty, NoEmptyMarker, Bitwise;
    ghost var c, rp, rq := container.Contents(), prey.Rest(), predator.Rest();
    predator.RunPrefix();
    ghost var s;
    if op.And? {
      s := AndRuns(prey, predator, container);
    } else {
      s := OrRuns(prey, predator, container);
    }
    MergeMore(op, c, wp, wq, rp, rq, s);
  }

  /** One round of the outer loop: all runs, and then the literals that both streams offer. */
  method MergeRound(op: BitOp, i: RawIterator, j: RawIterator, container: EwahBoolArray, ghost wi: seq<Word>, ghost wj: seq<Word>)
    requires (op.And? || op.Or?) && Merging(op, container, wi, wj, i, j)
    requires i.Size() > 0 && j.Size() > 0
    modifies i, j, container
    ensures Merging(op, container, wi, wj, i, j)
    ensures |i.Rest()| + |j.Rest()| < |old(i.Rest())| + |old(j.Rest())|
  {
    hide Expand, Parses, OnlyLastEmpty, NoEmptyMarker, Bitwise;
    MergeAllRuns(op, i, j, container, wi, wj);
    ghost var c, ri, rj := container.Contents(), i.Rest(), j.Rest();
    ghost var s := CombineLiterals(op, i, j, container);
    MergeMore(op, c, wi, wj, ri, rj, s);
    i.Exhausted();
    j.Exhausted();
  }

  method MergeAllRuns(op: BitOp, i: RawIterator, j: RawIterator, container: EwahBoolArray, ghost wi: seq<Word>, ghost wj: seq<Word>)
    requires (op.And? || op.Or?) && Merging(op, container, wi, wj, i, j)
    requires i.Size() > 0 && j.Size() > 0
    modifies i, j, container
    ensures Merging(op, container, wi, wj, i, j) && i.runningLength == 0 && j.runningLength == 0
    ensures |i.Rest()| + |j.Rest()| < |old(i.Rest())| + |old(j.Rest())|
            || (i.literals > 0 && j.literals > 0 && |i.Rest()| + |j.Rest()| == |old(i.Rest())| + |old(j.Rest())|)
  {
    hide Expand, Parses, OnlyLastEmpty, NoEmptyMarker, Bitwise;
    ghost var total, started := |i.Rest()| + |j.Rest()|, false;
    while i.runningLength > 0 || j.runningLength > 0
      invariant Merging(op, container, wi, wj, i, j)
      invariant if started then |i.Rest()| + |j.Rest()| < total
                else |i.Rest()| + |j.Rest()| == total && i.Size() > 0 && j.Size() > 0
      decreases |i.Rest()| + |j.Rest()|
    {
      MergeRuns(op, i, j, container, wi, wj);
      started := true;
    }
  }

  /** The two-stream merge: ends when one of the streams is used up. */
  method Merge(op: BitOp, i: RawIterator, j: RawIterator, container: EwahBoolArray, ghost wi: seq<Word>, ghost wj: seq<Word>)
    requires (op.And? || op.Or?) && Merging(op, container, wi, wj, i, j)
    modifies i, j, container
    ensures Merging(op, container, wi, wj, i, j)
    ensures i.Rest() == [] || j.Rest() == []
  {
    while i.Size() > 0 && j.Size() > 0
      invariant Merging(op, container, wi, wj, i, j)
      decreases |i.Rest()| + |j.Rest()|
    {
      MergeRound(op, i, j, container, wi, wj);
    }
    i.Exhausted();
    j.Exhausted();
  }

  method OpenStreams(op: BitOp, self: EwahBoolArray, a: EwahBoolArray, container: EwahBoolArray)
    returns (i: RawIterator, j: RawIterator)
    requires self.Structured() && a.Structured() && container != self && container != a
    modifies container
    ensures fresh(i) && fresh(j) && Merging(op, container, a.Contents(), self.Contents(), i, j)
  {
    hide Expand, Parses, OnlyLastEmpty, NoEmptyMarker, Bitwise;
    container.Reset();
    i := new RawIterator(a.buffer, a.lastRLW);
    j := new RawIterator(self.buffer, self.lastRLW);
    i.Read();
    j.Read();
    StartMerge(op, a.Contents(), self.Contents());
  }

  /** Intersection: terminates, and the container stands for the common positions. */
  method LogicalAnd(self: EwahBoolArray, a: EwahBoolArray, container: EwahBoolArray)
    requires self.Structured() && a.Structured() && container != self && container != a
    modifies container
    ensures container.Structured() && container.sizeinbits == self.sizeinbits
    ensures container.Bits() == self.Bits() * a.Bits()
    ensures self.Valid() ==> container.Valid()
  {
    hide Expand, Parses, OnlyLastEmpty, NoEmptyMarker, Bitwise;
    var rlwi, rlwj := OpenStreams(And, self, a, container);
    Merge(And, rlwi, rlwj, container, a.Contents(), self.Contents());
    CombinedOnes(And, a.Contents(), self.Contents(), container.Contents());
    container.SetSizeInBits(self.sizeinbits);
  }

  /** Union: what is left of the longer stream is copied, and the size is a whole number of words. */
  method LogicalOr(self: EwahBoolArray, a: EwahBoolArray, container: EwahBoolArray)
    requires self.Structured() && a.Structured() && container != self && container != a
    modifies container
    ensures container.Appendable() && container.Bits() == self.Bits() + a.Bits()
    ensures |container.Contents()| == Max(|self.Contents()|, |a.Contents()|)
    ensures container.sizeinbits == WORD_BITS * |container.Contents()|
  {
    hide Expand, Parses, OnlyLastEmpty, NoEmptyMarker, Bitwise;
    ghost var wi, wj := a.Contents(), self.Contents();
    var rlwi, rlwj := OpenStreams(Or, self, a, container);
    Merge(Or, rlwi, rlwj, container, wi, wj);
    var iRemains := rlwi.Size() > 0;
    rlwi.Exhausted();
    if iRemains {
      CopyRemaining(rlwi, rlwj, container, wi, wj);
    } else {
      MergedSwap(Or, container.Contents(), wi, wj, rlwi.Rest(), rlwj.Rest());
      CopyRemaining(rlwj, rlwi, container, wj, wi);
    }
    BitsOfWholeWords(container.Contents());
  }

  method CopyRemaining(remaining: RawIterator, done: RawIterator, container: EwahBoolArray, ghost wi: seq<Word>, ghost wj: seq<Word>)
    requires Merging(Or, container, wi, wj, remaining, done) && done.Rest() == []
    modifies remaining, container
    ensures container.Structured() && Ones(container.Contents()) == Ones(wi) + Ones(wj)
    ensures |container.Contents()| == Max(|wi|, |wj|)
    ensures container.sizeinbits == WORD_BITS * |container.Contents()|
  {
    ghost var rest := remaining.Rest();
    Leftover(Or, rest, []);
    MergeMore(Or, container.Contents(), wi, wj, rest, [], rest);
    remaining.Discharge(container);
    CombinedOnes(Or, wi, wj, container.Contents());
  }

  lemma Leftover(op: BitOp, rest: seq<Word>, done: seq<Word>)
    requires op.Or? && done == []
    ensures Combined(op, rest, rest, done)
  {
    forall k: nat | k < |rest|
      ensures rest[k] == BitwiseWord(op, Word0(rest, k), Word0(done, k))
    {
      WordIdentities(rest[k]);
    }
  }

  lemma BitsOfWholeWords(ws: seq<Word>)
    ensures AllBelow(Ones(ws), WORD_BITS * |ws|) && WordCount(WORD_BITS * |ws|) == |ws|
    ensures (WORD_BITS * |ws|) % WORD_BITS == 0
  {
  }
}
