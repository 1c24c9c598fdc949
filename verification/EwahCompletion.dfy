/**
  What further calls of `set` make of a restored bitmap that an append to its next word has broken.
  When the bits of that word are set one after another, the word is taken out of the first marker
  again as soon as it is complete, and goes to the end as a run.
 */
module EwahCompletion {
  import opened Words
  import opened EwahBits
  import opened EwahFormat
  import opened EwahAppend
  import opened EwahRestored

  /** `set` for the bits `i` to `i + n`, one after another. */
  function SetRow(t: Tail, size: nat, i: nat, n: nat): (r: Tail)
    requires t.Hangs() && size <= i
    ensures r.Hangs()
  {
    if n == 0 then AfterSet(t, size, i) else AfterSet(SetRow(t, size, i, n - 1), i + n, i + n)
  }

  /** A word of `n` ones from the lowest bit on. */
  function Ascent(n: nat): Word
    requires n <= WORD_BITS
  {
    WordLimitIsPow2();
    Pow2Monotone(n, WORD_BITS);
    Pow2(n) - 1
  }

  /** One bit more. */
  lemma NextBit(n: nat)
    requires n < WORD_BITS
    ensures BitwiseWord(Or, Ascent(n), OneBit(n)) == Ascent(n + 1)
    ensures Ascent(n + 1) == ALL_ONES <==> n + 1 == WORD_BITS
  {
    hide Bitwise, Pow2, Bit;
    WordLimitIsPow2();
    Pow2Monotone(n + 1, WORD_BITS);
    var w := BitwiseWord(Or, Ascent(n), OneBit(n));
    forall k: nat | k < WORD_BITS
      ensures Bit(w, k) == Bit(Ascent(n + 1), k)
    {
      WordOpBit(Or, Ascent(n), OneBit(n), k);
      MaskBit(n, k);
      MaskBit(n + 1, k);
      Pow2Bit(n, k);
    }
    SameBits(w, Ascent(n + 1), WORD_BITS);
    MaskBit(n + 1, WORD_BITS - 1);
    MaskBit(WORD_BITS, WORD_BITS - 1);
  }

  /** The last literal is all that further bits of its word change. */
  lemma LastLiteral(t: Tail, w: Word, w': Word)
    requires t.Hangs()
    ensures var u := AddLiteral(t, w);
            u.buffer[|u.buffer| - 1] == w && AddLiteral(t, w') == Tail(u.buffer[|u.buffer| - 1 := w'], u.last)
  {
    hide RunningLength, LiteralCount;
  }

  /** One bit more in a word that has been begun. */
  lemma BitOfWord(t: Tail, i: nat, n: nat)
    requires t.Hangs() && i % WORD_BITS == 0 && 0 < n < WORD_BITS
    ensures var w := Ascent(n + 1);
            AfterSet(AddLiteral(t, Ascent(n)), i + n, i + n) ==
            if w == ALL_ONES then Collapse(AddLiteral(t, w)) else AddLiteral(t, w)
  {
    hide RunningLength, LiteralCount, AddLiteral, BitwiseWord, Collapse, Ascent, Pow2;
    LastLiteral(t, Ascent(n), Ascent(n + 1));
    NextBit(n);
    WordPosition(i, n);
  }

  lemma WordPosition(i: nat, n: nat)
    requires i % WORD_BITS == 0 && 0 < n < WORD_BITS
    ensures Dist(i + n, i + n) == 0 && (i + n) % WORD_BITS == n
  {
  }

  /** Part of the next word, from its first bit on. */
  lemma {:induction false} PartOfWord(t: Tail, size: nat, i: nat, n: nat)
    requires t.Hangs() && size <= i && Dist(size, i) == 1 && i % WORD_BITS == 0 && n < WORD_BITS - 1
    ensures SetRow(t, size, i, n) == AddLiteral(t, Ascent(n + 1))
  {
    hide RunningLength, LiteralCount, AddLiteral, BitwiseWord, Collapse;
    if n == 0 {
      assert OneBit(0) == Ascent(1);
    } else {
      PartOfWord(t, size, i, n - 1);
      BitOfWord(t, i, n);
      NextBit(n);
    }
  }

  /** The collapse gives back the literal that the next word took. */
  lemma TakenBack(t: Tail, w: Word)
    requires t.Hangs() && LiteralCount(t.Mark()) < LARGEST_LITERAL_COUNT
    ensures Collapse(AddLiteral(t, w)) == AddEmpty(t, true)
  {
    hide RunningLength, LiteralCount, AddEmpty;
    var m, b := t.Mark(), t.buffer;
    var c := b[t.last := WithLiteralCount(m, LiteralCount(m) + 1)];
    MarkerOfFields(m);
    assert (c + [w])[..|c|] == c;
    assert c[t.last := m] == b;
  }

  /** All bits of the next word are, whatever the position of the last marker, a word of ones given to the marker there. */
  lemma WholeWord(t: Tail, size: nat, i: nat)
    requires t.Hangs() && size <= i && Dist(size, i) == 1 && i % WORD_BITS == 0
    requires LiteralCount(t.Mark()) < LARGEST_LITERAL_COUNT
    ensures SetRow(t, size, i, WORD_BITS - 1) == AddEmpty(t, true)
  {
    hide RunningLength, LiteralCount, AddLiteral, BitwiseWord, Collapse, AddEmpty, AfterSet, Ascent, Dist;
    var n := WORD_BITS - 1;
    PartOfWord(t, size, i, n - 1);
    BitOfWord(t, i, n);
    NextBit(n);
    TakenBack(t, Ascent(n + 1));
  }

  /** The bits of the word that begins at `i`. */
  ghost function WordAt(i: nat): (s: set<nat>)
    ensures forall k: nat :: k in s <==> i <= k < i + WORD_BITS
  {
    Range(i + WORD_BITS) - Range(i)
  }

  lemma AppendOnes(ws: seq<Word>, i: nat)
    requires i == WORD_BITS * |ws|
    ensures Ones(ws + [ALL_ONES]) == Ones(ws) + WordAt(i)
  {
    hide Bit, Ones;
    var ws' := ws + [ALL_ONES];
    forall k: nat
      ensures k in Ones(ws') <==> k in Ones(ws) + WordAt(i)
    {
      InOnes(ws, k);
      InOnes(ws', k);
      FillWordBit(true, k % WORD_BITS);
    }
  }

  lemma WordStart(size: nat, i: nat)
    requires size <= i && Dist(size, i) == 1 && i % WORD_BITS == 0
    ensures i == WORD_BITS * WordCount(size) && WordCount(i + WORD_BITS) == WordCount(size) + 1
  {
  }

  /** The run is opened behind the last marker. */
  lemma CompletedAtEnd(b: seq<Word>, size: nat, ids: set<nat>, last: nat, i: nat)
    requires StoredForm(b, size, ids, last) && Size(b[last]) > 0
    requires size <= i && Dist(size, i) == 1 && i % WORD_BITS == 0
    ensures var c := b + [Marker(true, 1, 0)];
            && ReadsAs(c, ids + WordAt(i)) && WellFormed(c, |b|)
            && (LiteralCount(b[last]) > 0 ==> StoredForm(c, i + WORD_BITS, ids + WordAt(i), |b|))
  {
    hide RunningLength, LiteralCount, NoEmptyMarker, Packed, Parses, Expand, Ones, StoredForm;
    FormOf(b, size, ids, last);
    FormEnds(b, size, ids, last);
    PushGrows(Tail(b, last), true, 1);
    WordStart(size, i);
    AppendOnes(Expand(b), i);
    var m := Marker(true, 1, 0);
    assert Repeat(FillWord(true), 1) == [ALL_ONES];
    if LiteralCount(b[last]) > 0 {
      OneMarker(m, []);
      NilRight([m]);
      PackedAppend(b, last, [m]);
      FormFrom(b + [m], i + WORD_BITS, ids + WordAt(i), |b|);
    }
  }

  lemma FormFrom(b: seq<Word>, size: nat, ids: set<nat>, last: nat)
    requires WellFormed(b, last) && Parses(b) && Packed(b) && Ones(Expand(b)) == ids && |Expand(b)| == WordCount(size)
    requires size % WORD_BITS == 0 && size > 0 && size - 1 in ids && AllBelow(ids, size) && Size(b[last]) > 0
    ensures StoredForm(b, size, ids, last)
  {
  }

  /** The first marker announces ones only, and gets the completed word. */
  lemma CompletedInRun(b: seq<Word>, size: nat, ids: set<nat>, last: nat, i: nat)
    requires StoredForm(b, size, ids, last) && last > 0 && |b| < LARGEST_LITERAL_COUNT
    requires size <= i && Dist(size, i) == 1 && i % WORD_BITS == 0
    requires LiteralCount(b[0]) == 0 && RunningBit(b[0]) && RunningLength(b[0]) < LARGEST_RUNNING_LENGTH
    ensures !ReadsAs(b[0 := Marker(true, RunningLength(b[0]) + 1, 0)], ids + WordAt(i))
  {
    hide RunningLength, LiteralCount, NoEmptyMarker, Packed, Parses, Expand, Ones, StoredForm, Bit;
    FormOf(b, size, ids, last);
    WordsAroundFirst(b, size, ids, last);
    WordStart(size, i);
    var run := RunningLength(b[0]);
    var c, k := b[0 := Marker(true, run + 1, 0)], WORD_BITS * run;
    if ReadsAs(c, ids + WordAt(i)) {
      ExpandUnfold(c);
      FillWordBit(true, 0);
      FillWordBit(false, 0);
      InOnes(Expand(b), k);
      InOnes(Expand(c), k);
    }
  }

  /**
    An append to the next word breaks a restored bitmap; completing that word repairs it, if and
    only if the first marker is not one that announces nothing but ones.
   */
  lemma CompletionRepairs(b: seq<Word>, size: nat, ids: set<nat>, last: nat, i: nat)
    requires StoredForm(b, size, ids, last) && last > 0 && |b| < LARGEST_LITERAL_COUNT
    requires size <= i && Dist(size, i) == 1 && i % WORD_BITS == 0
    ensures Tail(b, 0).Hangs() && !ReadsAs(SetRow(Tail(b, 0), size, i, 0).buffer, ids + {i})
    ensures var r := SetRow(Tail(b, 0), size, i, WORD_BITS - 1);
            && (ReadsAs(r.buffer, ids + WordAt(i)) <==>
                  LiteralCount(b[0]) > 0 || !RunningBit(b[0]) || RunningLength(b[0]) == LARGEST_RUNNING_LENGTH)
            && (ReadsAs(r.buffer, ids + WordAt(i)) && LiteralCount(b[last]) > 0 ==>
                  StoredForm(r.buffer, i + WORD_BITS, ids + WordAt(i), r.last))
  {
    hide RunningLength, LiteralCount, NoEmptyMarker, Packed, Parses, Expand, Ones, StoredForm, AfterSet, ReadsAs;
    BreaksNextWord(b, size, ids, last, i);
    WordsAroundFirst(b, size, ids, last);
    WholeWord(Tail(b, 0), size, i);
    FormOf(b, size, ids, last);
    SecondMarker(b, last);
    CompletedAtEnd(b, size, ids, last, i);
    if LiteralCount(b[0]) == 0 && RunningBit(b[0]) && RunningLength(b[0]) < LARGEST_RUNNING_LENGTH {
      CompletedInRun(b, size, ids, last, i);
    }
  }
}
