/**
  Sequences of words as sets of bit positions.
 */
module EwahBits {
  import opened Words

  predicate BitAt(ws: seq<Word>, i: nat) {
    i / WORD_BITS < |ws| && Bit(ws[i / WORD_BITS], i % WORD_BITS)
  }

  /** The positions of the one bits. */
  ghost function Ones(ws: seq<Word>): set<nat> {
    set i: nat | i < WORD_BITS * |ws| && BitAt(ws, i)
  }

  /** The naturals below `n`. */
  ghost function Range(n: nat): (s: set<nat>)
    ensures forall i: nat :: i in s <==> i < n
  {
    if n == 0 then {} else Range(n - 1) + {n - 1}
  }

  ghost predicate AllBelow(s: set<nat>, n: nat) {
    forall i | i in s :: i < n
  }

  /** The number of words that hold `bits` bits. */
  function WordCount(bits: nat): nat {
    (bits + WORD_BITS - 1) / WORD_BITS
  }

  lemma InOnes(ws: seq<Word>, i: nat)
    ensures i in Ones(ws) <==> BitAt(ws, i)
  {
  }

  /** Every position is a word and a bit in it. */
  lemma Position(k: nat, j: nat)
    requires j < WORD_BITS
    ensures (WORD_BITS * k + j) / WORD_BITS == k && (WORD_BITS * k + j) % WORD_BITS == j
  {
  }

  /** Zero words add nothing; a one-bit word behind them adds its bit. */
  lemma AppendOneBit(ws: seq<Word>, gap: nat, i: nat, ws': seq<Word>)
    requires i / WORD_BITS == |ws| + gap
    requires |ws'| == |ws| + gap + 1 && ws'[..|ws|] == ws
    requires forall k | |ws| <= k < |ws| + gap :: ws'[k] == 0
    requires ws'[|ws| + gap] == OneBit(i % WORD_BITS)
    ensures Ones(ws') == Ones(ws) + {i}
  {
    forall j: nat
      ensures j in Ones(ws') <==> j in Ones(ws) + {i}
    {
      var k := j / WORD_BITS;
      if k < |ws| {
        assert ws'[k] == ws'[..|ws|][k];
      } else if k < |ws| + gap {
        ZeroBit(j % WORD_BITS);
      } else {
        Pow2Bit(i % WORD_BITS, j % WORD_BITS);
      }
    }
  }

  /** Setting a bit of the last word. */
  lemma OrIntoLast(ws: seq<Word>, i: nat, ws': seq<Word>)
    requires |ws| > 0 && i / WORD_BITS == |ws| - 1
    requires ws' == ws[..|ws| - 1] + [BitwiseWord(Or, ws[|ws| - 1], OneBit(i % WORD_BITS))]
    ensures Ones(ws') == Ones(ws) + {i}
  {
    forall j: nat
      ensures j in Ones(ws') <==> j in Ones(ws) + {i}
    {
      if j / WORD_BITS == |ws| - 1 {
        WordOpBit(Or, ws[|ws| - 1], OneBit(i % WORD_BITS), j % WORD_BITS);
        Pow2Bit(i % WORD_BITS, j % WORD_BITS);
      }
    }
  }

  /** Complementing every word, and keeping only the bits below `size` of the last one. */
  lemma ComplementOnes(ws: seq<Word>, size: nat, ws': seq<Word>)
    requires |ws| == WordCount(size) == |ws'|
    requires forall k | 0 <= k < |ws| && WORD_BITS * (k + 1) <= size :: ws'[k] == NotWord(ws[k])
    requires size % WORD_BITS != 0 ==>
               ws'[|ws| - 1] == BitwiseWord(And, NotWord(ws[|ws| - 1]), LowMask(size % WORD_BITS))
    ensures Ones(ws') == Range(size) - Ones(ws)
  {
    hide Bit, Bitwise, Pow2;
    forall j: nat
      ensures j in Ones(ws') <==> j < size && j !in Ones(ws)
    {
      var k, bit := j / WORD_BITS, j % WORD_BITS;
      if k < |ws| {
        NotWordBit(ws[k], bit);
        if WORD_BITS * (k + 1) > size {
          WordOpBit(And, NotWord(ws[k]), LowMask(size % WORD_BITS), bit);
          MaskBit(size % WORD_BITS, bit);
        }
      }
    }
  }

  function Word0(ws: seq<Word>, k: nat): Word {
    if k < |ws| then ws[k] else 0
  }

  /** `c` holds the words of `a` and `b` combined one by one; past its end a sequence counts as zero words. */
  ghost predicate Combined(op: BitOp, c: seq<Word>, a: seq<Word>, b: seq<Word>) {
    forall k: nat | k < |c| :: c[k] == BitwiseWord(op, Word0(a, k), Word0(b, k))
  }

  /** Combining words intersects or unites the sets, once enough words are there. */
  lemma CombinedOnes(op: BitOp, a: seq<Word>, b: seq<Word>, c: seq<Word>)
    requires Combined(op, c, a, b)
    requires (op.And? && (|c| >= |a| || |c| >= |b|)) || (op.Or? && |c| >= |a| && |c| >= |b|)
    ensures Ones(c) == if op.And? then Ones(a) * Ones(b) else Ones(a) + Ones(b)
  {
    forall j: nat
      ensures j in Ones(c) <==> Apply(op, j in Ones(a), j in Ones(b))
    {
      var k, bit := j / WORD_BITS, j % WORD_BITS;
      ZeroBit(bit);
      if k < |c| {
        WordOpBit(op, Word0(a, k), Word0(b, k), bit);
      }
    }
  }
}
