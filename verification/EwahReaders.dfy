/**
  The readers of a compressed bitmap: point queries, listing, counting, and the forward
  iterator. All of them agree with one ascending enumeration of the set bits.
 */
module EwahReaders {
  import opened Words
  import opened EwahBits
  import opened EwahFormat
  import opened EwahBitmap

  /** The set positions from `i` on, in ascending order. */
  ghost function OnesFrom(ws: seq<Word>, i: nat): seq<nat>
    decreases WORD_BITS * |ws| - i
  {
    if i >= WORD_BITS * |ws| then []
    else (if BitAt(ws, i) then [i] else []) + OnesFrom(ws, i + 1)
  }

  ghost predicate Ascending(s: seq<nat>) {
    forall i, j | 0 <= i < j < |s| :: s[i] < s[j]
  }

  /** The enumeration lists exactly the set bits from `i` on. */
  lemma {:induction false} OnesFromComplete(ws: seq<Word>, i: nat)
    ensures forall k: nat :: k in OnesFrom(ws, i) <==> k >= i && k in Ones(ws)
    decreases WORD_BITS * |ws| - i
  {
    if i < WORD_BITS * |ws| {
      OnesFromComplete(ws, i + 1);
      InOnes(ws, i);
    }
  }

  /** The enumeration is strictly ascending. */
  lemma {:induction false} OnesFromAscending(ws: seq<Word>, i: nat)
    ensures Ascending(OnesFrom(ws, i))
    decreases WORD_BITS * |ws| - i
  {
    if i < WORD_BITS * |ws| {
      OnesFromAscending(ws, i + 1);
      OnesFromComplete(ws, i + 1);
      var rest := OnesFrom(ws, i + 1);
      if BitAt(ws, i) {
        forall k | 0 <= k < |rest|
          ensures i < rest[k]
        {
          assert rest[k] in rest;
        }
        assert OnesFrom(ws, i) == [i] + rest;
      } else {
        assert OnesFrom(ws, i) == rest;
      }
    }
  }

  lemma {:induction false} OnesSkip(ws: seq<Word>, i: nat, j: nat)
    requires i <= j && forall k: nat | i <= k < j :: !BitAt(ws, k)
    ensures OnesFrom(ws, i) == OnesFrom(ws, j)
    decreases j - i
  {
    if i < j {
      OnesSkip(ws, i + 1, j);
    }
  }

  /** The number of enumerated positions is the size of the set. */
  lemma {:induction false} OnesFromCount(ws: seq<Word>, i: nat)
    ensures |OnesFrom(ws, i)| == |set k | k in Ones(ws) && k >= i|
    decreases WORD_BITS * |ws| - i
  {
    var s := set k | k in Ones(ws) && k >= i;
    if i >= WORD_BITS * |ws| {
      assert s == {};
    } else {
      OnesFromCount(ws, i + 1);
      var t := set k | k in Ones(ws) && k >= i + 1;
      InOnes(ws, i);
      if BitAt(ws, i) {
        assert s == t + {i};
      } else {
        assert s == t;
      }
    }
  }

  /** Buffer position `p` is where uncompressed word `k` starts. */
  ghost predicate At(b: seq<Word>, ws: seq<Word>, p: nat, k: nat) {
    p <= |b| && k <= |ws| && Parses(b[p..]) && ws[k..] == Expand(b[p..])
  }

  /** The words from `k` on are the run of `m` followed by `literals`. */
  ghost predicate MarkerWords(ws: seq<Word>, k: nat, m: Word, literals: seq<Word>) {
    && k + Size(m) <= |ws| && |literals| == LiteralCount(m)
    && (forall t | k <= t < k + RunningLength(m) :: ws[t] == FillWord(RunningBit(m)))
    && (forall t | k + RunningLength(m) <= t < k + Size(m) :: ws[t] == literals[t - k - RunningLength(m)])
  }

  /** What the marker at `p` and its literals say about the words from `k` on. */
  lemma ReadMarker(b: seq<Word>, ws: seq<Word>, p: nat, k: nat)
    requires At(b, ws, p, k) && p < |b|
    ensures p + Span(b[p]) <= |b| && MarkerWords(ws, k, b[p], b[p + 1..p + Span(b[p])])
    ensures At(b, ws, p + Span(b[p]), k + Size(b[p]))
  {
    var c, m := b[p..], b[p];
    var n := Span(m);
    SliceOfSlice(b, p, n);
    SplitWords(ws, k, m, c[1..n], Expand(c[n..]));
  }

  lemma SplitWords(ws: seq<Word>, k: nat, m: Word, literals: seq<Word>, rest: seq<Word>)
    requires k <= |ws| && ws[k..] == Run(m) + literals + rest && |literals| == LiteralCount(m)
    ensures MarkerWords(ws, k, m, literals) && ws[k + Size(m)..] == rest
  {
    var r := RunningLength(m);
    forall t | k <= t < k + r
      ensures ws[t] == FillWord(RunningBit(m))
    {
      assert ws[t] == ws[k..][t - k] == Run(m)[t - k];
    }
    forall t | k + r <= t < k + Size(m)
      ensures ws[t] == literals[t - k - r]
    {
      assert ws[t] == ws[k..][t - k];
    }
    assert ws[k + Size(m)..] == ws[k..][Size(m)..];
  }

  lemma StartReading(b: seq<Word>, last: nat)
    requires WellFormed(b, last)
    ensures Parses(b) && At(b, Expand(b), 0, 0)
  {
    ExpandAtLast(b, last);
    assert b[0..] == b && Expand(b)[0..] == Expand(b);
  }

  lemma EndReading(b: seq<Word>, ws: seq<Word>, k: nat)
    requires At(b, ws, |b|, k)
    ensures k == |ws| && OnesFrom(ws, WORD_BITS * k) == []
  {
    assert b[|b|..] == [];
  }

  /** `get`: the value of one bit. */
  method Get(self: EwahBoolArray, pos: nat) returns (v: bool)
    requires self.Valid()
    ensures v <==> pos in self.Bits()
  {
    hide Expand, Parses, Bit;
    if pos >= self.sizeinbits {
      return false;
    }
    ghost var ws := self.Contents();
    InOnes(ws, pos);
    var wordpos := pos / WORD_BITS;
    var wordChecked: nat, pointer: nat := 0, 0;
    StartReading(self.buffer, self.lastRLW);
    while pointer < |self.buffer|
      invariant At(self.buffer, ws, pointer, wordChecked)
      invariant wordpos >= wordChecked
    {
      var rle := self.buffer[pointer];
      ReadMarker(self.buffer, ws, pointer, wordChecked);
      if wordpos < wordChecked + Size(rle) {
        v := GetWithin(ws, wordChecked, rle, self.buffer[pointer + 1..pointer + Span(rle)], pos);
        return;
      }
      wordChecked := wordChecked + Size(rle);
      pointer := pointer + Span(rle);
    }
    EndReading(self.buffer, ws, wordChecked);
    return false;
  }

  /** The bit at `pos`, which lies in the run or in the literals of `rle`. */
  method GetWithin(ghost ws: seq<Word>, wordChecked: nat, rle: Word, dirtyWords: seq<Word>, pos: nat) returns (v: bool)
    requires MarkerWords(ws, wordChecked, rle, dirtyWords)
    requires wordChecked <= pos / WORD_BITS < wordChecked + Size(rle)
    ensures v == BitAt(ws, pos)
  {
    var wordpos := pos / WORD_BITS;
    if wordpos < wordChecked + RunningLength(rle) {
      FillWordBit(RunningBit(rle), pos % WORD_BITS);
      return RunningBit(rle);
    }
    var w := dirtyWords[wordpos - wordChecked - RunningLength(rle)];
    TestBit(w, pos % WORD_BITS);
    return BitwiseWord(And, w, OneBit(pos % WORD_BITS)) != 0;
  }

  /** Pushing the set bit at `pos` moves it from what is to come to what is listed. */
  lemma PushBit(ans: seq<nat>, ws: seq<Word>, pos: nat)
    requires BitAt(ws, pos)
    ensures ans + [pos] + OnesFrom(ws, pos + 1) == ans + OnesFrom(ws, pos)
  {
    assert OnesFrom(ws, pos) == [pos] + OnesFrom(ws, pos + 1);
  }

  /** Words `k` up to `n` are filled with `v`. */
  lemma RunBits(ws: seq<Word>, k: nat, n: nat, v: bool)
    requires n <= |ws| && forall t | k <= t < n :: ws[t] == FillWord(v)
    ensures forall i: nat | WORD_BITS * k <= i < WORD_BITS * n :: BitAt(ws, i) == v
  {
    forall i: nat | WORD_BITS * k <= i < WORD_BITS * n
      ensures BitAt(ws, i) == v
    {
      FillWordBit(v, i % WORD_BITS);
    }
  }

  method ListRun(ghost ws: seq<Word>, k: nat, n: nat, out: seq<nat>) returns (ans: seq<nat>)
    requires k <= n <= |ws| && forall t | k <= t < n :: ws[t] == ALL_ONES
    ensures ans + OnesFrom(ws, WORD_BITS * n) == out + OnesFrom(ws, WORD_BITS * k)
  {
    hide OnesFrom, Bit;
    RunBits(ws, k, n, true);
    ans := out;
    var pos := WORD_BITS * k;
    while pos < WORD_BITS * n
      invariant WORD_BITS * k <= pos <= WORD_BITS * n
      invariant ans + OnesFrom(ws, pos) == out + OnesFrom(ws, WORD_BITS * k)
    {
      PushBit(ans, ws, pos);
      ans := ans + [pos];
      pos := pos + 1;
    }
  }

  /** The set bits of one literal, peeled off from the lowest. */
  method ListLiteral(ghost ws: seq<Word>, k: nat, w: Word, out: seq<nat>) returns (ans: seq<nat>)
    requires k < |ws| && ws[k] == w
    ensures ans + OnesFrom(ws, WORD_BITS * k + WORD_BITS) == out + OnesFrom(ws, WORD_BITS * k)
  {
    hide OnesFrom, Bit, Bitwise;
    ans := out;
    var pos := WORD_BITS * k;
    var myword := w;
    ghost var t := 0;
    while myword != 0
      invariant 0 <= t <= WORD_BITS
      invariant Peeled(myword, w, t)
      invariant ans + OnesFrom(ws, pos + t) == out + OnesFrom(ws, pos)
      decreases WORD_BITS - t
    {
      var ntz := LowestPeeled(ws, k, myword, t);
      PushBit(ans, ws, pos + ntz);
      PeelBit(myword, w, t, ntz);
      ans := ans + [pos + ntz];
      myword := BitwiseWord(Xor, myword, OneBit(ntz));
      t := ntz + 1;
    }
    AllPeeled(ws, k, t);
  }

  /** `r` has the bits of `w` from `t` on. */
  ghost predicate Peeled(r: Word, w: Word, t: nat) {
    forall j: nat | j < WORD_BITS :: Bit(r, j) == (j >= t && Bit(w, j))
  }

  method LowestPeeled(ghost ws: seq<Word>, ghost k: nat, r: Word, ghost t: nat) returns (ntz: nat)
    requires k < |ws| && r != 0 && Peeled(r, ws[k], t)
    ensures t <= ntz < WORD_BITS && BitAt(ws, WORD_BITS * k + ntz)
    ensures Bit(r, ntz) && forall j: nat | j < ntz :: !Bit(r, j)
    ensures OnesFrom(ws, WORD_BITS * k + t) == OnesFrom(ws, WORD_BITS * k + ntz)
  {
    hide OnesFrom, TrailingZeros, Bit, Pow2;
    WordLimitIsPow2();
    TrailingZerosLowest(r, WORD_BITS);
    ntz := TrailingZeros(r);
    Position(k, ntz);
    forall i: nat | WORD_BITS * k + t <= i < WORD_BITS * k + ntz
      ensures !BitAt(ws, i)
    {
      Position(k, i - WORD_BITS * k);
      assert !Bit(r, i - WORD_BITS * k);
    }
    OnesSkip(ws, WORD_BITS * k + t, WORD_BITS * k + ntz);
  }

  lemma PeelBit(r: Word, w: Word, t: nat, ntz: nat)
    requires Peeled(r, w, t) && t <= ntz < WORD_BITS
    requires Bit(r, ntz) && forall j: nat | j < ntz :: !Bit(r, j)
    ensures Peeled(BitwiseWord(Xor, r, OneBit(ntz)), w, ntz + 1)
  {
    forall j: nat | j < WORD_BITS
      ensures Bit(BitwiseWord(Xor, r, OneBit(ntz)), j) == (j >= ntz + 1 && Bit(w, j))
    {
      WordOpBit(Xor, r, OneBit(ntz), j);
      Pow2Bit(ntz, j);
    }
  }

  lemma AllPeeled(ws: seq<Word>, k: nat, t: nat)
    requires k < |ws| && t <= WORD_BITS && Peeled(0, ws[k], t)
    ensures OnesFrom(ws, WORD_BITS * k + t) == OnesFrom(ws, WORD_BITS * k + WORD_BITS)
  {
    hide OnesFrom, Bit;
    forall i: nat | WORD_BITS * k + t <= i < WORD_BITS * k + WORD_BITS
      ensures !BitAt(ws, i)
    {
      Position(k, i - WORD_BITS * k);
      ZeroBit(i - WORD_BITS * k);
    }
    OnesSkip(ws, WORD_BITS * k + t, WORD_BITS * k + WORD_BITS);
  }

  /** `toArray`: the set positions in ascending order. */
  method ToArray(self: EwahBoolArray) returns (ans: seq<nat>)
    requires self.Structured()
    ensures ans == OnesFrom(self.Contents(), 0)
  {
    hide OnesFrom, Bit, Expand, Parses;
    ghost var ws := self.Contents();
    ans := [];
    var pointer: nat, k: nat := 0, 0;
    StartReading(self.buffer, self.lastRLW);
    while pointer < |self.buffer|
      invariant At(self.buffer, ws, pointer, k)
      invariant ans + OnesFrom(ws, WORD_BITS * k) == OnesFrom(ws, 0)
    {
      var rlw := self.buffer[pointer];
      ReadMarker(self.buffer, ws, pointer, k);
      ans := ListMarker(ws, k, rlw, self.buffer[pointer + 1..pointer + Span(rlw)], ans);
      pointer := pointer + Span(rlw);
      k := k + Size(rlw);
    }
    EndReading(self.buffer, ws, k);
    assert ans + [] == ans;
  }

  /** The positions that one marker and its literals stand for. */
  method ListMarker(ghost ws: seq<Word>, k: nat, rlw: Word, literals: seq<Word>, out: seq<nat>) returns (ans: seq<nat>)
    requires MarkerWords(ws, k, rlw, literals)
    ensures ans + OnesFrom(ws, WORD_BITS * (k + Size(rlw))) == out + OnesFrom(ws, WORD_BITS * k)
  {
    hide OnesFrom, Bit;
    var next := k + RunningLength(rlw);
    if RunningBit(rlw) {
      ans := ListRun(ws, k, next, out);
    } else {
      RunBits(ws, k, next, false);
      OnesSkip(ws, WORD_BITS * k, WORD_BITS * next);
      ans := out;
    }
    ans := ListLiterals(ws, next, literals, ans);
  }

  method ListLiterals(ghost ws: seq<Word>, k: nat, words: seq<Word>, out: seq<nat>) returns (ans: seq<nat>)
    requires k + |words| <= |ws| && forall t | k <= t < k + |words| :: ws[t] == words[t - k]
    ensures ans + OnesFrom(ws, WORD_BITS * (k + |words|)) == out + OnesFrom(ws, WORD_BITS * k)
  {
    hide OnesFrom, Bit;
    ans := out;
    for j := 0 to |words|
      invariant ans + OnesFrom(ws, WORD_BITS * (k + j)) == out + OnesFrom(ws, WORD_BITS * k)
    {
      assert ws[k + j] == words[j];
      ans := ListLiteral(ws, k + j, words[j], ans);
    }
  }

  /** The number of ones in the rest of word `k`, and then in the words that follow. */
  lemma {:induction false} CountWord(ws: seq<Word>, k: nat, x: nat, t: nat)
    requires k < |ws| && t <= WORD_BITS
    requires forall j: nat | j < WORD_BITS - t :: Bit(x, j) == Bit(ws[k], t + j)
    ensures |OnesFrom(ws, WORD_BITS * k + t)| == CountOnes(x, WORD_BITS - t) + |OnesFrom(ws, WORD_BITS * k + WORD_BITS)|
    decreases WORD_BITS - t
  {
    if t < WORD_BITS {
      Position(k, t);
      assert Bit(x, 0) == Bit(ws[k], t);
      forall j: nat | j < WORD_BITS - t - 1
        ensures Bit(x / 2, j) == Bit(ws[k], t + 1 + j)
      {
        assert Bit(x, j + 1) == Bit(ws[k], t + (j + 1));
      }
      CountWord(ws, k, x / 2, t + 1);
    }
  }

  lemma {:induction false} CountRun(ws: seq<Word>, i: nat, j: nat)
    requires i <= j && forall k: nat | i <= k < j :: BitAt(ws, k)
    ensures |OnesFrom(ws, i)| == j - i + |OnesFrom(ws, j)|
    decreases j - i
  {
    if i < j {
      CountRun(ws, i + 1, j);
    }
  }

  /** `numberOfOnes`: the size of the set. */
  method NumberOfOnes(self: EwahBoolArray) returns (tot: nat)
    requires self.Structured()
    ensures tot == |self.Bits()|
  {
    hide OnesFrom, Bit, Expand, Parses;
    ghost var ws := self.Contents();
    tot := 0;
    var pointer: nat := 0;
    ghost var k: nat := 0;
    StartReading(self.buffer, self.lastRLW);
    while pointer < |self.buffer|
      invariant At(self.buffer, ws, pointer, k)
      invariant tot + |OnesFrom(ws, WORD_BITS * k)| == |OnesFrom(ws, 0)|
    {
      var rlw := self.buffer[pointer];
      ReadMarker(self.buffer, ws, pointer, k);
      var ones := CountMarker(ws, k, rlw, self.buffer[pointer + 1..pointer + Span(rlw)]);
      tot := tot + ones;
      pointer := pointer + Span(rlw);
      k := k + Size(rlw);
    }
    EndReading(self.buffer, ws, k);
    OnesFromCount(ws, 0);
    assert (set i | i in Ones(ws) && i >= 0) == Ones(ws);
  }

  method CountMarker(ghost ws: seq<Word>, ghost k: nat, rlw: Word, literals: seq<Word>) returns (ones: nat)
    requires MarkerWords(ws, k, rlw, literals)
    ensures ones + |OnesFrom(ws, WORD_BITS * (k + Size(rlw)))| == |OnesFrom(ws, WORD_BITS * k)|
  {
    hide OnesFrom, Bit;
    var inRun := CountRunBits(ws, k, rlw);
    var inLiterals := CountLiterals(ws, k + RunningLength(rlw), literals);
    ones := inRun + inLiterals;
  }

  method CountRunBits(ghost ws: seq<Word>, ghost k: nat, rlw: Word) returns (ones: nat)
    requires k + RunningLength(rlw) <= |ws|
    requires forall t | k <= t < k + RunningLength(rlw) :: ws[t] == FillWord(RunningBit(rlw))
    ensures ones + |OnesFrom(ws, WORD_BITS * (k + RunningLength(rlw)))| == |OnesFrom(ws, WORD_BITS * k)|
  {
    ghost var next := k + RunningLength(rlw);
    if RunningBit(rlw) {
      RunBits(ws, k, next, true);
      CountRun(ws, WORD_BITS * k, WORD_BITS * next);
      return RunningLength(rlw) * WORD_BITS;
    } else {
      RunBits(ws, k, next, false);
      OnesSkip(ws, WORD_BITS * k, WORD_BITS * next);
      return 0;
    }
  }

  method CountLiterals(ghost ws: seq<Word>, ghost k: nat, words: seq<Word>) returns (ones: nat)
    requires k + |words| <= |ws| && forall t | k <= t < k + |words| :: ws[t] == words[t - k]
    ensures ones + |OnesFrom(ws, WORD_BITS * (k + |words|))| == |OnesFrom(ws, WORD_BITS * k)|
  {
    hide OnesFrom, Bit, CountOnes;
    ones := 0;
    for j := 0 to |words|
      invariant ones + |OnesFrom(ws, WORD_BITS * (k + j))| == |OnesFrom(ws, WORD_BITS * k)|
    {
      assert ws[k + j] == words[j];
      CountWord(ws, k + j, words[j], 0);
      ones := ones + CountOnes(words[j], WORD_BITS);
    }
  }

  function Shifted(ids: seq<nat>, offset: nat): (s: seq<nat>)
    ensures |s| == |ids| && forall i | 0 <= i < |s| :: s[i] == ids[i] + offset
  {
    seq(|ids|, i requires 0 <= i < |ids| => ids[i] + offset)
  }

  /** The row ids still to be listed from position `i` on. */
  ghost function RowsFrom(ws: seq<Word>, i: nat, offset: nat): seq<nat> {
    Shifted(OnesFrom(ws, i), offset)
  }

  lemma NextOne(ws: seq<Word>, i: nat)
    requires BitAt(ws, i)
    ensures OnesFrom(ws, i) == [i] + OnesFrom(ws, i + 1)
  {
    hide Bit;
  }

  lemma ShiftMore(i: nat, ids: seq<nat>, offset: nat)
    ensures Shifted([i] + ids, offset) == [i + offset] + Shifted(ids, offset)
  {
  }

  lemma NextRow(ws: seq<Word>, i: nat, offset: nat)
    requires i < WORD_BITS * |ws|
    ensures RowsFrom(ws, i, offset) == (if BitAt(ws, i) then [i + offset] else []) + RowsFrom(ws, i + 1, offset)
  {
    hide OnesFrom, Shifted, Bit;
    if BitAt(ws, i) {
      NextOne(ws, i);
      ShiftMore(i, OnesFrom(ws, i + 1), offset);
    } else {
      OnesSkip(ws, i, i + 1);
      assert [] + RowsFrom(ws, i + 1, offset) == RowsFrom(ws, i + 1, offset);
    }
  }

  lemma SameRows(ws: seq<Word>, i: nat, j: nat, offset: nat)
    requires i <= j <= WORD_BITS * |ws| && forall k: nat | i <= k < j :: !BitAt(ws, k)
    ensures RowsFrom(ws, i, offset) == RowsFrom(ws, j, offset)
  {
    OnesSkip(ws, i, j);
  }

  /** `appendRowIDs`: the set positions, in ascending order and moved by `offset`, go to the end of `out`. */
  method AppendRowIDs(self: EwahBoolArray, out: seq<nat>, offset: nat) returns (r: seq<nat>)
    requires self.Structured()
    ensures r == out + Shifted(OnesFrom(self.Contents(), 0), offset)
  {
    hide OnesFrom, Bit, Expand, Parses, Shifted;
    ghost var ws := self.Contents();
    r := out;
    var pointer: nat, currentoffset: nat := 0, offset;
    ghost var k: nat := 0;
    StartReading(self.buffer, self.lastRLW);
    while pointer < |self.buffer|
      invariant At(self.buffer, ws, pointer, k) && currentoffset == offset + WORD_BITS * k
      invariant r + RowsFrom(ws, WORD_BITS * k, offset) == out + RowsFrom(ws, 0, offset)
    {
      var rlw := self.buffer[pointer];
      ReadMarker(self.buffer, ws, pointer, k);
      r, currentoffset := AppendRunRows(ws, k, rlw, offset, currentoffset, r);
      r, currentoffset := AppendLiteralRows(ws, k + RunningLength(rlw), self.buffer[pointer + 1..pointer + Span(rlw)],
                                            offset, currentoffset, r);
      pointer := pointer + Span(rlw);
      k := k + Size(rlw);
    }
    EndReading(self.buffer, ws, k);
    assert RowsFrom(ws, WORD_BITS * k, offset) == [];
  }

  method AppendRunRows(ghost ws: seq<Word>, ghost k: nat, rlw: Word, ghost offset: nat, currentoffset: nat, out: seq<nat>)
    returns (r: seq<nat>, next: nat)
    requires k + RunningLength(rlw) <= |ws| && currentoffset == offset + WORD_BITS * k
    requires forall t | k <= t < k + RunningLength(rlw) :: ws[t] == FillWord(RunningBit(rlw))
    ensures next == offset + WORD_BITS * (k + RunningLength(rlw))
    ensures r + RowsFrom(ws, WORD_BITS * (k + RunningLength(rlw)), offset) == out + RowsFrom(ws, WORD_BITS * k, offset)
  {
    hide OnesFrom, Bit, Shifted, RowsFrom, RunningLength;
    r := out;
    var length: nat := RunningLength(rlw) * WORD_BITS;
    RunBits(ws, k, k + RunningLength(rlw), RunningBit(rlw));
    if RunningBit(rlw) {
      for x := 0 to length
        invariant r + RowsFrom(ws, WORD_BITS * k + x, offset) == out + RowsFrom(ws, WORD_BITS * k, offset)
      {
        NextRow(ws, WORD_BITS * k + x, offset);
        r := r + [currentoffset + x];
      }
    } else {
      SameRows(ws, WORD_BITS * k, WORD_BITS * k + length, offset);
    }
    next := currentoffset + length;
  }

  method AppendLiteralRows(ghost ws: seq<Word>, ghost k: nat, words: seq<Word>, ghost offset: nat, currentoffset: nat, out: seq<nat>)
    returns (r: seq<nat>, next: nat)
    requires k + |words| <= |ws| && forall t | k <= t < k + |words| :: ws[t] == words[t - k]
    requires currentoffset == offset + WORD_BITS * k
    ensures next == offset + WORD_BITS * (k + |words|)
    ensures r + RowsFrom(ws, WORD_BITS * (k + |words|), offset) == out + RowsFrom(ws, WORD_BITS * k, offset)
  {
    hide OnesFrom, Bit, Bitwise, Shifted, RowsFrom;
    r, next := out, currentoffset;
    for j := 0 to |words|
      invariant next == offset + WORD_BITS * (k + j)
      invariant r + RowsFrom(ws, WORD_BITS * (k + j), offset) == out + RowsFrom(ws, WORD_BITS * k, offset)
    {
      var currentword := words[j];
      for kk := 0 to WORD_BITS
        invariant r + RowsFrom(ws, WORD_BITS * (k + j) + kk, offset) == out + RowsFrom(ws, WORD_BITS * k, offset)
      {
        Position(k + j, kk);
        TestBit(currentword, kk);
        NextRow(ws, WORD_BITS * (k + j) + kk, offset);
        if BitwiseWord(And, currentword, OneBit(kk)) != 0 {
          r := r + [next + kk];
        }
      }
      next := next + WORD_BITS;
    }
  }
}
