/**
  The buffer format of the compressed bitmap: marker words, each followed by its
  literal words, and the uncompressed words that such a buffer stands for.
 */
module EwahFormat {
  import opened Words

  // Marker layout: running bit, then the running length, then the literal count.
  const RUNNING_LENGTH_BITS: nat := 32
  const LITERAL_BITS: nat := 31
  const LARGEST_RUNNING_LENGTH: nat := 0xFFFF_FFFF
  const LARGEST_LITERAL_COUNT: nat := 0x7FFF_FFFF

  predicate RunningBit(m: Word) {
    m % 2 == 1
  }

  function RunningLength(m: Word): (l: nat)
    ensures l <= LARGEST_RUNNING_LENGTH
  {
    FieldLimits();
    LowBits(ShiftRight(m, 1), RUNNING_LENGTH_BITS)
  }

  function LiteralCount(m: Word): (l: nat)
    ensures l <= LARGEST_LITERAL_COUNT
  {
    FieldLimits();
    WordLimitIsPow2();
    ShiftRightBound(m, 1 + RUNNING_LENGTH_BITS, LITERAL_BITS);
    ShiftRight(m, 1 + RUNNING_LENGTH_BITS)
  }

  lemma FieldLimits()
    ensures Pow2(RUNNING_LENGTH_BITS) == LARGEST_RUNNING_LENGTH + 1
    ensures Pow2(LITERAL_BITS) == LARGEST_LITERAL_COUNT + 1
    ensures Pow2(1 + RUNNING_LENGTH_BITS) == 2 * (LARGEST_RUNNING_LENGTH + 1)
  {
    assert Pow2(8) == 0x100;
    Pow2Sum(8, 8);
    assert Pow2(16) == 0x1_0000;
    Pow2Sum(16, 16);
    assert Pow2(32) == 0x1_0000_0000;
  }

  /** The marker with the given fields; each setter of the source rewrites one of them. */
  function Marker(bit: bool, run: nat, literals: nat): (m: Word)
    requires run <= LARGEST_RUNNING_LENGTH && literals <= LARGEST_LITERAL_COUNT
    ensures RunningBit(m) == bit && RunningLength(m) == run && LiteralCount(m) == literals
  {
    var low := if bit then 1 else 0;
    FieldLimits();
    MarkerFields(low, run, literals);
    low + 2 * run + 0x2_0000_0000 * literals
  }

  /** The marker `0` is the empty one. */
  lemma ZeroMarker()
    ensures !RunningBit(0) && RunningLength(0) == 0 && LiteralCount(0) == 0
    ensures Run(0) == []
  {
    FieldLimits();
    MarkerFields(0, 0, 0);
  }

  lemma MarkerFields(low: nat, run: nat, literals: nat)
    requires low < 2 && run <= LARGEST_RUNNING_LENGTH && literals <= LARGEST_LITERAL_COUNT
    ensures var m := low + 2 * run + 0x2_0000_0000 * literals;
            && m < WORD_LIMIT && m % 2 == low
            && LowBits(ShiftRight(m, 1), RUNNING_LENGTH_BITS) == run
            && ShiftRight(m, 1 + RUNNING_LENGTH_BITS) == literals
  {
    FieldLimits();
    var m := low + 2 * run + 0x2_0000_0000 * literals;
    PackBits(run, literals, RUNNING_LENGTH_BITS);
    assert m / 2 == run + Pow2(RUNNING_LENGTH_BITS) * literals;
    assert ShiftRight(m, 1) == ShiftRight(m / 2, 0) == m / 2;
    PackBits(low + 2 * run, literals, 1 + RUNNING_LENGTH_BITS);
  }

  /** A marker is determined by its fields. */
  lemma MarkerOfFields(m: Word)
    ensures m == Marker(RunningBit(m), RunningLength(m), LiteralCount(m))
  {
    FieldLimits();
    SplitBits(m, 1 + RUNNING_LENGTH_BITS);
    SplitBits(m / 2, RUNNING_LENGTH_BITS);
    assert ShiftRight(m, 1) == ShiftRight(m / 2, 0) == m / 2;
    assert ShiftRight(m, 1 + RUNNING_LENGTH_BITS) == ShiftRight(m / 2, RUNNING_LENGTH_BITS);
  }

  /** The fields by division: one bit, then 32 bits, then 31 bits. */
  lemma FieldsByDivision(m: Word)
    ensures RunningBit(m) <==> m % 2 == 1
    ensures RunningLength(m) == m / 2 % 0x1_0000_0000
    ensures LiteralCount(m) == m / 0x2_0000_0000
  {
    hide RunningLength, LiteralCount;
    MarkerOfFields(m);
    SplitFields(if RunningBit(m) then 1 else 0, RunningLength(m), LiteralCount(m));
  }

  lemma SplitFields(low: nat, run: nat, literals: nat)
    requires low < 2 && run < 0x1_0000_0000
    ensures var m := low + 2 * run + 0x2_0000_0000 * literals;
            m / 2 % 0x1_0000_0000 == run && m / 0x2_0000_0000 == literals
  {
  }

  function WithRunningBit(m: Word, bit: bool): Word {
    Marker(bit, RunningLength(m), LiteralCount(m))
  }

  function WithRunningLength(m: Word, run: nat): Word
    requires run <= LARGEST_RUNNING_LENGTH
  {
    Marker(RunningBit(m), run, LiteralCount(m))
  }

  function WithLiteralCount(m: Word, literals: nat): Word
    requires literals <= LARGEST_LITERAL_COUNT
  {
    Marker(RunningBit(m), RunningLength(m), literals)
  }

  /** The number of uncompressed words a marker and its literals stand for. */
  function Size(m: Word): nat {
    RunningLength(m) + LiteralCount(m)
  }

  /** The number of buffer words a marker and its literals occupy. */
  function Span(m: Word): nat {
    1 + LiteralCount(m)
  }

  function Repeat(w: Word, n: nat): (s: seq<Word>)
    ensures |s| == n && forall k | 0 <= k < n :: s[k] == w
  {
    seq(n, _ => w)
  }

  /** The buffer splits into markers and their literals, ending exactly at its end. */
  predicate Parses(b: seq<Word>) {
    b == [] || (Span(b[0]) <= |b| && Parses(b[Span(b[0])..]))
  }

  /** The words of the run that a marker announces. */
  function Run(m: Word): (s: seq<Word>)
    ensures |s| == RunningLength(m)
    ensures forall k | 0 <= k < |s| :: s[k] == FillWord(RunningBit(m))
  {
    Repeat(FillWord(RunningBit(m)), RunningLength(m))
  }

  /** No marker stands for zero words. */
  predicate NoEmptyMarker(b: seq<Word>)
    requires Parses(b)
  {
    b == [] || (Size(b[0]) > 0 && NoEmptyMarker(b[Span(b[0])..]))
  }

  /** No marker other than the last stands for zero words. */
  predicate OnlyLastEmpty(b: seq<Word>)
    requires Parses(b)
  {
    b == [] || Span(b[0]) == |b| || (Size(b[0]) > 0 && OnlyLastEmpty(b[Span(b[0])..]))
  }

  /** The uncompressed words. */
  function Expand(b: seq<Word>): seq<Word>
    requires Parses(b)
  {
    if b == [] then []
    else Run(b[0]) + b[1..Span(b[0])] + Expand(b[Span(b[0])..])
  }

  /** `last` is the last marker of a buffer in which only that marker may be empty. */
  predicate WellFormed(b: seq<Word>, last: nat) {
    && last < |b|
    && Parses(b[..last])
    && NoEmptyMarker(b[..last])
    && last + Span(b[last]) == |b|
  }

  /** Position `p` starts a marker from which the markers lead to position `last`. */
  ghost predicate LeadsTo(b: seq<Word>, p: nat, last: nat) {
    p <= last < |b| && Parses(b[p..last])
  }

  lemma LeadsOn(b: seq<Word>, p: nat, last: nat)
    requires WellFormed(b, last) && LeadsTo(b, p, last)
    ensures var q := p + Span(b[p]);
            if p == last then q == |b| else q <= last && LeadsTo(b, q, last)
  {
    if p < last {
      assert b[p..last][0] == b[p];
      assert b[p..last][Span(b[p])..] == b[p + Span(b[p])..last];
    }
  }

  lemma SliceOfSlice<T>(s: seq<T>, p: nat, n: nat)
    requires 1 <= n && p + n <= |s|
    ensures s[p..][0] == s[p] && s[p..][1..n] == s[p + 1..p + n] && s[p..][n..] == s[p + n..]
  {
  }

  lemma SplitConcat<T>(a: seq<T>, c: seq<T>, n: nat)
    requires 1 <= n <= |a|
    ensures (a + c)[0] == a[0] && (a + c)[1..n] == a[1..n] && (a + c)[n..] == a[n..] + c
  {
  }

  lemma Regroup<T>(r: seq<T>, l: seq<T>, x: seq<T>, y: seq<T>)
    ensures r + l + (x + y) == (r + l + x) + y
    ensures x + (r + l) == x + r + l
    ensures x + (r + l) + [] == (x + r + []) + l
  {
  }

  lemma {:induction false} ParsesConcat(a: seq<Word>, c: seq<Word>)
    requires Parses(a) && Parses(c)
    ensures Parses(a + c)
    ensures NoEmptyMarker(a) && NoEmptyMarker(c) ==> NoEmptyMarker(a + c)
    ensures NoEmptyMarker(a) && OnlyLastEmpty(c) ==> OnlyLastEmpty(a + c)
  {
    if a == [] {
      assert a + c == c;
    } else {
      SplitConcat(a, c, Span(a[0]));
      ParsesConcat(a[Span(a[0])..], c);
    }
  }

  lemma ExpandUnfold(b: seq<Word>)
    ensures Parses([]) && Expand([]) == []
    ensures Parses(b) && b != [] ==>
              && Span(b[0]) <= |b| && Parses(b[Span(b[0])..])
              && Expand(b) == Run(b[0]) + b[1..Span(b[0])] + Expand(b[Span(b[0])..])
  {
  }

  /** Concatenated buffers stand for concatenated words. */
  lemma {:induction false} ExpandConcat(a: seq<Word>, c: seq<Word>)
    requires Parses(a) && Parses(c)
    ensures Parses(a + c) && Expand(a + c) == Expand(a) + Expand(c)
  {
    hide Expand, Parses, Run, LiteralCount, RunningLength;
    ParsesConcat(a, c);
    ExpandUnfold(a);
    if a == [] {
      assert a + c == c;
      assert Expand(a) + Expand(c) == Expand(c);
    } else {
      var n := Span(a[0]);
      SplitConcat(a, c, n);
      ExpandConcat(a[n..], c);
      ExpandUnfold(a + c);
      assert Expand(a + c) == Run(a[0]) + a[1..n] + (Expand(a[n..]) + Expand(c));
      Regroup(Run(a[0]), a[1..n], Expand(a[n..]), Expand(c));
    }
  }

  /** A single marker with its literals. */
  lemma ExpandSegment(c: seq<Word>)
    requires c != [] && Span(c[0]) == |c|
    ensures Parses(c) && OnlyLastEmpty(c)
    ensures Expand(c) == Run(c[0]) + c[1..]
    ensures Size(c[0]) > 0 ==> NoEmptyMarker(c)
  {
    assert c[Span(c[0])..] == [];
    assert c[1..Span(c[0])] == c[1..];
  }

  /** What a well-formed buffer stands for, seen from its last marker. */
  lemma ExpandAtLast(b: seq<Word>, last: nat)
    requires WellFormed(b, last)
    ensures Parses(b) && OnlyLastEmpty(b)
    ensures Expand(b) == Expand(b[..last]) + Run(b[last]) + b[last + 1..]
    ensures Size(b[last]) > 0 ==> NoEmptyMarker(b)
  {
    hide Expand, Parses, NoEmptyMarker, OnlyLastEmpty, RunningLength, LiteralCount;
    var a, c := b[..last], b[last..];
    assert b == a + c && c[0] == b[last] && c[1..] == b[last + 1..];
    ExpandSegment(c);
    ParsesConcat(a, c);
    ExpandConcat(a, c);
    assert Expand(b) == Expand(a) + (Run(c[0]) + c[1..]);
    Regroup(Run(c[0]), c[1..], Expand(a), []);
  }

  /** Appending a fresh marker without literals behind a non-empty last marker. */
  lemma PushMarker(b: seq<Word>, last: nat, m: Word)
    requires WellFormed(b, last) && Size(b[last]) > 0 && LiteralCount(m) == 0
    ensures Parses(b) && WellFormed(b + [m], |b|)
    ensures Parses(b + [m]) && Expand(b + [m]) == Expand(b) + Run(m)
  {
    hide Expand, Parses, NoEmptyMarker, OnlyLastEmpty, RunningLength, LiteralCount;
    ExpandAtLast(b, last);
    assert (b + [m])[..|b|] == b;
    ExpandSegment([m]);
    ExpandConcat(b, [m]);
    assert Run(m) + [m][1..] == Run(m);
  }

  /** Rewriting the last marker and what follows it. */
  lemma ReplaceLast(b: seq<Word>, last: nat, m: Word, literals: seq<Word>)
    requires WellFormed(b, last) && LiteralCount(m) == |literals|
    ensures var c := b[..last] + [m] + literals;
            && Parses(b) && WellFormed(c, last) && Parses(c)
            && Expand(c) == Expand(b[..last]) + Run(m) + literals
  {
    hide Expand, Parses, NoEmptyMarker, OnlyLastEmpty, RunningLength, LiteralCount;
    var c := b[..last] + [m] + literals;
    assert c[..last] == b[..last] && c[last] == m && c[last + 1..] == literals;
    ExpandAtLast(b, last);
    ExpandAtLast(c, last);
  }

  lemma UpdateAt<T>(b: seq<T>, i: nat, m: T, ws: seq<T>)
    requires i < |b|
    ensures b[i := m] + ws == b[..i] + [m] + (b[i + 1..] + ws)
  {
  }

  lemma RunConcat(m: Word, n: Word, v: bool, k: nat)
    requires RunningLength(n) == RunningLength(m) + k
    requires RunningLength(m) == 0 || RunningBit(m) == v
    requires RunningBit(n) == v
    ensures Run(n) == Run(m) + Repeat(FillWord(v), k)
  {
  }

  /** Appending literals to the last marker. */
  lemma AppendLiterals(b: seq<Word>, last: nat, ws: seq<Word>)
    requires WellFormed(b, last) && LiteralCount(b[last]) + |ws| <= LARGEST_LITERAL_COUNT
    ensures var c := b[last := WithLiteralCount(b[last], LiteralCount(b[last]) + |ws|)] + ws;
            && Parses(b) && WellFormed(c, last) && Parses(c) && Expand(c) == Expand(b) + ws
  {
    hide Expand, Parses, NoEmptyMarker, OnlyLastEmpty, RunningLength, LiteralCount;
    var m := WithLiteralCount(b[last], LiteralCount(b[last]) + |ws|);
    UpdateAt(b, last, m, ws);
    ReplaceLast(b, last, m, b[last + 1..] + ws);
    ExpandAtLast(b, last);
    assert Run(m) == Run(b[last]);
    Regroup(Expand(b[..last]), Run(m), b[last + 1..], ws);
  }

  /** Lengthening the run of a last marker without literals. */
  lemma ExtendRun(b: seq<Word>, last: nat, v: bool, n: nat)
    requires WellFormed(b, last) && LiteralCount(b[last]) == 0
    requires RunningLength(b[last]) == 0 || RunningBit(b[last]) == v
    requires RunningLength(b[last]) + n <= LARGEST_RUNNING_LENGTH
    ensures var c := b[last := Marker(v, RunningLength(b[last]) + n, 0)];
            && Parses(b) && WellFormed(c, last) && Parses(c) && Expand(c) == Expand(b) + Repeat(FillWord(v), n)
  {
    hide Expand, Parses, NoEmptyMarker, OnlyLastEmpty, RunningLength, LiteralCount;
    var m := Marker(v, RunningLength(b[last]) + n, 0);
    var c := b[last := m];
    UpdateAt(b, last, m, []);
    assert b[last + 1..] == [] && c == c + [];
    ReplaceLast(b, last, m, []);
    ExpandAtLast(b, last);
    RunConcat(b[last], m, v, n);
    Regroup(Run(b[last]), Repeat(FillWord(v), n), Expand(b[..last]), []);
  }

  /** Replacing the last literal word. */
  lemma ReplaceLastLiteral(b: seq<Word>, last: nat, w: Word)
    requires WellFormed(b, last) && LiteralCount(b[last]) > 0
    ensures var c := b[|b| - 1 := w];
            && Parses(b) && WellFormed(c, last) && Parses(c) && c[last] == b[last]
            && |Expand(b)| > 0 && Expand(c) == Expand(b)[..|Expand(b)| - 1] + [w]
            && b[|b| - 1] == Expand(b)[|Expand(b)| - 1]
  {
    hide Expand, Parses, NoEmptyMarker, OnlyLastEmpty, RunningLength, LiteralCount;
    var c := b[|b| - 1 := w];
    var literals := b[last + 1..|b| - 1] + [w];
    assert c == b[..last] + [b[last]] + literals;
    ReplaceLast(b, last, b[last], literals);
    ExpandAtLast(b, last);
    DropFromTail(Expand(b[..last]) + Run(b[last]), b[last + 1..]);
    assert b[last + 1..][..|b| - last - 2] == b[last + 1..|b| - 1];
    Regroup(Expand(b[..last]), Run(b[last]), b[last + 1..|b| - 1], [w]);
  }

  /** Dropping the last literal word. */
  lemma DropLastLiteral(b: seq<Word>, last: nat)
    requires WellFormed(b, last) && LiteralCount(b[last]) > 0
    ensures var c := b[..|b| - 1][last := WithLiteralCount(b[last], LiteralCount(b[last]) - 1)];
            && Parses(b) && WellFormed(c, last) && Parses(c)
            && |Expand(b)| > 0 && Expand(c) == Expand(b)[..|Expand(b)| - 1]
  {
    hide Expand, Parses, NoEmptyMarker, OnlyLastEmpty, RunningLength, LiteralCount;
    var m := WithLiteralCount(b[last], LiteralCount(b[last]) - 1);
    var c := b[..|b| - 1][last := m];
    var literals := b[last + 1..|b| - 1];
    assert c == b[..last] + [m] + literals;
    ReplaceLast(b, last, m, literals);
    ExpandAtLast(b, last);
    assert Run(m) == Run(b[last]);
    DropFromTail(Expand(b[..last]) + Run(b[last]), b[last + 1..]);
    assert b[last + 1..][..|b| - last - 2] == literals;
  }

  /** Taking a literal off the end, the slot cleared first. */
  lemma DetachLastLiteral(b: seq<Word>, last: nat)
    requires WellFormed(b, last) && LiteralCount(b[last]) > 0
    ensures var c := b[|b| - 1 := 0][..|b| - 1][last := WithLiteralCount(b[last], LiteralCount(b[last]) - 1)];
            && Parses(b) && WellFormed(c, last) && Parses(c) && Expand(b) == Expand(c) + [b[|b| - 1]]
  {
    hide Expand, Parses, NoEmptyMarker, OnlyLastEmpty, RunningLength, LiteralCount;
    ReplaceLastLiteral(b, last, b[|b| - 1]);
    DropLastLiteral(b, last);
    assert b[|b| - 1 := b[|b| - 1]] == b && b[|b| - 1 := 0][..|b| - 1] == b[..|b| - 1];
  }

  /** Shortening the run of a last marker without literals by one word. */
  lemma ShortenRun(b: seq<Word>, last: nat)
    requires WellFormed(b, last) && LiteralCount(b[last]) == 0 && RunningLength(b[last]) > 0
    ensures var c := b[last := WithRunningLength(b[last], RunningLength(b[last]) - 1)];
            && Parses(b) && WellFormed(c, last) && Parses(c)
            && |Expand(b)| > 0 && Expand(c) == Expand(b)[..|Expand(b)| - 1]
            && Expand(b)[|Expand(b)| - 1] == FillWord(RunningBit(b[last]))
  {
    hide Expand, Parses, NoEmptyMarker, OnlyLastEmpty, RunningLength, LiteralCount;
    var m := WithRunningLength(b[last], RunningLength(b[last]) - 1);
    var c := b[last := m];
    assert c == b[..last] + [m] + [];
    ReplaceLast(b, last, m, []);
    ExpandAtLast(b, last);
    assert b[last + 1..] == [];
    RunConcat(m, b[last], RunningBit(b[last]), 1);
    assert Run(m) == Run(b[last])[..RunningLength(m)];
    DropFromTail(Expand(b[..last]), Run(b[last]));
    NilRight(Expand(b[..last]) + Run(b[last]));
    NilRight(Expand(b[..last]) + Run(m));
  }

  lemma DropFromTail<T>(x: seq<T>, y: seq<T>)
    requires |y| > 0
    ensures (x + y)[..|x + y| - 1] == x + y[..|y| - 1]
    ensures (x + y)[|x + y| - 1] == y[|y| - 1]
  {
  }

  lemma NilRight<T>(x: seq<T>)
    ensures x + [] == x
  {
  }
}
