/**
  In-place negation of a compressed buffer, and exactly when it is a complement.
 */
module EwahNegation {
  import opened Words
  import opened EwahBits
  import opened EwahFormat

  function NotWords(ws: seq<Word>): (r: seq<Word>)
    ensures |r| == |ws| && forall k | 0 <= k < |ws| :: r[k] == NotWord(ws[k])
  {
    seq(|ws|, k requires 0 <= k < |ws| => NotWord(ws[k]))
  }

  /** Every running bit flipped and every literal negated. */
  function Flip(b: seq<Word>): (r: seq<Word>)
    requires Parses(b)
    ensures |r| == |b|
  {
    if b == [] then []
    else [WithRunningBit(b[0], !RunningBit(b[0]))] + NotWords(b[1..Span(b[0])]) + Flip(b[Span(b[0])..])
  }

  lemma FlipFirst(b: seq<Word>)
    requires Parses(b) && b != []
    ensures var n := Span(b[0]);
            && Flip(b)[0] == WithRunningBit(b[0], !RunningBit(b[0]))
            && Flip(b)[1..n] == NotWords(b[1..n])
            && Flip(b)[n..] == Flip(b[n..])
  {
    var n := Span(b[0]);
    var m, l, r := WithRunningBit(b[0], !RunningBit(b[0])), NotWords(b[1..n]), Flip(b[n..]);
    assert Flip(b) == [m] + l + r;
    assert ([m] + l + r)[1..n] == l && ([m] + l + r)[n..] == r;
  }

  /** `Flip` seen from a marker in the middle of the buffer `b`; `f` is the flipped buffer. */
  lemma FlipAt(b: seq<Word>, p: nat, f: seq<Word>)
    requires p < |b| == |f| && Parses(b[p..]) && f[p..] == Flip(b[p..])
    ensures var q := p + Span(b[p]);
            && q <= |b| && Parses(b[q..])
            && f[p] == WithRunningBit(b[p], !RunningBit(b[p]))
            && f[p + 1..q] == NotWords(b[p + 1..q])
            && f[q..] == Flip(b[q..])
  {
    var n := Span(b[p..][0]);
    FlipFirst(b[p..]);
    SliceOfSlice(b, p, n);
    SliceOfSlice(f, p, n);
  }

  /** The buffer is `f`, the negation of `b`, up to marker position `p` and still `b` from there on. */
  ghost predicate Flipping(now: seq<Word>, b: seq<Word>, f: seq<Word>, p: nat, last: nat) {
    && p <= |b| == |now| == |f|
    && Parses(b[p..]) && f[p..] == Flip(b[p..])
    && now[..p] == f[..p] && now[p..] == b[p..]
    && (p < |b| ==> LeadsTo(b, p, last))
  }

  lemma StartFlipping(b: seq<Word>, last: nat)
    requires WellFormed(b, last) && Parses(b)
    ensures Flipping(b, b, Flip(b), 0, last)
  {
    assert b[0..] == b && b[0..last] == b[..last];
    assert Flip(b)[0..] == Flip(b);
  }

  lemma NextSegment(now: seq<Word>, b: seq<Word>, f: seq<Word>, p: nat, last: nat)
    requires Flipping(now, b, f, p, last) && p < |b|
    ensures p + Span(b[p]) <= |b| && now[p] == b[p]
    ensures f[p] == WithRunningBit(b[p], !RunningBit(b[p]))
    ensures f[p + 1..p + Span(b[p])] == NotWords(b[p + 1..p + Span(b[p])])
  {
    FlipAt(b, p, f);
    assert now[p] == now[p..][0] && b[p] == b[p..][0];
  }

  lemma KeepFlipping(before: seq<Word>, b: seq<Word>, f: seq<Word>, p: nat, last: nat, now: seq<Word>, q: nat)
    requires WellFormed(b, last) && Flipping(before, b, f, p, last) && p < |b| == |now|
    requires q == p + Span(b[p]) && q <= |b| && now[..q] == f[..q] && now[q..] == b[q..]
    ensures Flipping(now, b, f, q, last)
    ensures q == |b| <==> p == last
  {
    hide Flip, Expand, NoEmptyMarker;
    FlipAt(b, p, f);
    LeadsOn(b, p, last);
  }

  lemma NotRun(m: Word)
    ensures Run(WithRunningBit(m, !RunningBit(m))) == NotWords(Run(m))
  {
  }

  lemma NotConcat(a: seq<Word>, b: seq<Word>, c: seq<Word>)
    ensures NotWords(a + b + c) == NotWords(a) + NotWords(b) + NotWords(c)
  {
  }

  /** A flipped buffer has the same markers and stands for the negated words. */
  lemma {:induction false} FlipExpands(b: seq<Word>)
    requires Parses(b)
    ensures Parses(Flip(b)) && Expand(Flip(b)) == NotWords(Expand(b))
    ensures NoEmptyMarker(b) ==> NoEmptyMarker(Flip(b))
  {
    if b != [] {
      var n := Span(b[0]);
      FlipFirst(b);
      FlipExpands(b[n..]);
      NotRun(b[0]);
      NotConcat(Run(b[0]), b[1..n], Expand(b[n..]));
    }
  }

  lemma {:induction false} FlipConcat(a: seq<Word>, c: seq<Word>)
    requires Parses(a) && Parses(c)
    ensures Parses(a + c) && Flip(a + c) == Flip(a) + Flip(c)
  {
    ParsesConcat(a, c);
    if a == [] {
      assert a + c == c;
      assert Flip(a) + Flip(c) == Flip(c);
    } else {
      var n := Span(a[0]);
      SplitConcat(a, c, n);
      FlipConcat(a[n..], c);
      var m := [WithRunningBit(a[0], !RunningBit(a[0]))];
      assert Flip(a + c) == m + NotWords(a[1..n]) + (Flip(a[n..]) + Flip(c));
      Regroup(m, NotWords(a[1..n]), Flip(a[n..]), Flip(c));
    }
  }

  lemma FlipWellFormed(b: seq<Word>, last: nat)
    requires WellFormed(b, last)
    ensures Parses(b) && WellFormed(Flip(b), last)
    ensures Flip(b)[last] == WithRunningBit(b[last], !RunningBit(b[last]))
    ensures Parses(Flip(b)) && Expand(Flip(b)) == NotWords(Expand(b))
  {
    ExpandAtLast(b, last);
    var a, c := b[..last], b[last..];
    assert b == a + c && c[0] == b[last];
    ExpandSegment(c);
    FlipConcat(a, c);
    FlipExpands(a);
    FlipExpands(b);
    FlipFirst(c);
    assert Flip(b)[..last] == Flip(a) && Flip(b)[last] == Flip(c)[0];
  }

  /**
    The end of `inplace_logicalnot`: cutting the partial last word of the flipped buffer. The
    last branch decrements a literal count of 0, which wraps to the largest count, and
    `addLiteralWord` then finds the marker full and opens a new one.
   */
  function CutLastWord(f: seq<Word>, last: nat, size: nat): seq<Word>
    requires last < |f| && last + Span(f[last]) == |f|
  {
    if size % WORD_BITS == 0 then f
    else if LiteralCount(f[last]) > 0 then f[|f| - 1 := BitwiseWord(And, f[|f| - 1], LowMask(size % WORD_BITS))]
    else if RunningBit(f[last]) then
      f[last := WithLiteralCount(f[last], LARGEST_LITERAL_COUNT)] + [Marker(false, 0, 1), LowMask(size % WORD_BITS)]
    else f
  }

  /** The buffer that `inplace_logicalnot` leaves behind. */
  function InplaceNot(b: seq<Word>, last: nat, size: nat): seq<Word>
    requires WellFormed(b, last)
  {
    FlipWellFormed(b, last);
    CutLastWord(Flip(b), last, size)
  }

  lemma {:induction false} ParsesSuffix(a: seq<Word>, c: seq<Word>)
    requires Parses(a)
    ensures Parses(a + c) <==> Parses(c)
  {
    if a == [] {
      assert a + c == c;
    } else {
      SplitConcat(a, c, Span(a[0]));
      ParsesSuffix(a[Span(a[0])..], c);
    }
  }

  /**
    On a bitmap that can be appended to, in-place negation is the complement below `size`
    exactly when the guard of the masking branches holds: the size is a multiple of the word
    size, or the last marker ends in a literal. Otherwise the buffer no longer parses.
   */
  lemma InplaceNotIsComplement(b: seq<Word>, last: nat, size: nat)
    requires WellFormed(b, last) && Parses(b)
    requires |Expand(b)| == WordCount(size)
    requires size % WORD_BITS != 0 ==>
               LiteralCount(b[last]) > 0 || (RunningLength(b[last]) > 0 && !RunningBit(b[last]))
    ensures var r := InplaceNot(b, last, size);
            if size % WORD_BITS == 0 || LiteralCount(b[last]) > 0
            then && WellFormed(r, last) && Parses(r) && LiteralCount(r[last]) == LiteralCount(b[last])
                 && |Expand(r)| == WordCount(size)
                 && Ones(Expand(r)) == Range(size) - Ones(Expand(b))
            else !Parses(r)
  {
    FlipWellFormed(b, last);
    CutIsComplement(Flip(b), last, Expand(b), size);
  }

  /** Negating twice gives the set back. */
  lemma InplaceNotTwice(b: seq<Word>, last: nat, size: nat)
    requires WellFormed(b, last) && Parses(b) && |Expand(b)| == WordCount(size)
    requires size % WORD_BITS == 0 || LiteralCount(b[last]) > 0
    requires AllBelow(Ones(Expand(b)), size)
    ensures var once := InplaceNot(b, last, size);
            && WellFormed(once, last)
            && var twice := InplaceNot(once, last, size);
               WellFormed(twice, last) && Parses(twice) && Ones(Expand(twice)) == Ones(Expand(b))
  {
    hide Expand, Parses, NoEmptyMarker, Flip, CutLastWord, InplaceNot, Ones;
    InplaceNotIsComplement(b, last, size);
    InplaceNotIsComplement(InplaceNot(b, last, size), last, size);
  }

  lemma CutIsComplement(f: seq<Word>, last: nat, ws: seq<Word>, size: nat)
    requires WellFormed(f, last) && Parses(f) && Expand(f) == NotWords(ws)
    requires |ws| == WordCount(size)
    requires size % WORD_BITS != 0 && LiteralCount(f[last]) == 0 ==> RunningLength(f[last]) > 0 && RunningBit(f[last])
    ensures var r := CutLastWord(f, last, size);
            if size % WORD_BITS == 0 || LiteralCount(f[last]) > 0
            then && WellFormed(r, last) && Parses(r) && r[last] == f[last]
                 && |Expand(r)| == WordCount(size) && Ones(Expand(r)) == Range(size) - Ones(ws)
            else !Parses(r)
  {
    if size % WORD_BITS == 0 {
      ComplementOnes(ws, size, NotWords(ws));
    } else if LiteralCount(f[last]) > 0 {
      MaskedTail(f, last, ws, size, CutLastWord(f, last, size)[|f| - 1]);
    } else {
      BrokenTail(f, last, WithLiteralCount(f[last], LARGEST_LITERAL_COUNT), LowMask(size % WORD_BITS));
    }
  }

  /** Masking the partial last literal of a negated buffer `f` for the words `ws`. */
  lemma MaskedTail(f: seq<Word>, last: nat, ws: seq<Word>, size: nat, w: Word)
    requires WellFormed(f, last) && Parses(f) && LiteralCount(f[last]) > 0 && Expand(f) == NotWords(ws)
    requires |ws| == WordCount(size) && size % WORD_BITS != 0
    requires w == BitwiseWord(And, f[|f| - 1], LowMask(size % WORD_BITS))
    ensures var r := f[|f| - 1 := w];
            && WellFormed(r, last) && Parses(r) && r[last] == f[last]
            && |Expand(r)| == |ws| && Ones(Expand(r)) == Range(size) - Ones(ws)
  {
    ReplaceLastLiteral(f, last, w);
    MaskedComplement(ws, size, w);
  }

  lemma MaskedComplement(ws: seq<Word>, size: nat, w: Word)
    requires |ws| == WordCount(size) && size % WORD_BITS != 0
    requires w == BitwiseWord(And, NotWords(ws)[|ws| - 1], LowMask(size % WORD_BITS))
    ensures Ones(NotWords(ws)[..|ws| - 1] + [w]) == Range(size) - Ones(ws)
  {
    var r := NotWords(ws)[..|ws| - 1] + [w];
    forall k | 0 <= k < |ws| && WORD_BITS * (k + 1) <= size
      ensures r[k] == NotWord(ws[k])
    {
      assert r[k] == NotWords(ws)[k];
    }
    ComplementOnes(ws, size, r);
  }

  /** A literal count that runs past the end of the buffer. */
  lemma BrokenTail(f: seq<Word>, last: nat, m: Word, mask: Word)
    requires WellFormed(f, last) && LiteralCount(f[last]) == 0 && LiteralCount(m) == LARGEST_LITERAL_COUNT
    ensures !Parses(f[last := m] + [Marker(false, 0, 1), mask])
  {
    var tail := [m, Marker(false, 0, 1), mask];
    ParsesSuffix(f[..last], tail);
    assert f[last := m] + [Marker(false, 0, 1), mask] == f[..last] + tail;
    assert Span(tail[0]) > |tail|;
  }
}
