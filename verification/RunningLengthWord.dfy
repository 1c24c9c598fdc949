/**
  Marker words as the source packs them: every field is read and written by shifts and masks on
  the 64-bit word. They agree with the fields of EwahFormat, also for values that do not fit.
 */
module RunningLengthWords {
  import opened Words
  import opened EwahFormat

  /** The low `n` bits of `x << t`. */
  function ShiftLeft(x: nat, t: nat, n: nat): (r: nat)
    ensures r < Pow2(n)
  {
    if n == 0 then 0
    else if t == 0 then LowBits(x, n)
    else 2 * ShiftLeft(x, t - 1, n - 1)
  }

  function ShiftLeftWord(x: Word, t: nat): Word {
    WordLimitIsPow2();
    ShiftLeft(x, t, WORD_BITS)
  }

  function LargestRunningLengthCount(): Word { LowMask(RUNNING_LENGTH_BITS) }

  function ShiftedLargestRunningLengthCount(): Word { ShiftLeftWord(LargestRunningLengthCount(), 1) }

  function RunningLengthPlusRunningBit(): Word { LowMask(RUNNING_LENGTH_BITS + 1) }

  lemma {:induction false} LowBitsBit(x: nat, n: nat, k: nat)
    ensures Bit(LowBits(x, n), k) == (k < n && Bit(x, k))
  {
    if n == 0 {
      ZeroBit(k);
    } else if k > 0 {
      assert LowBits(x, n) / 2 == LowBits(x / 2, n - 1);
      LowBitsBit(x / 2, n - 1, k - 1);
    }
  }

  lemma {:induction false} ShiftLeftBit(x: nat, t: nat, n: nat, k: nat)
    requires k < n
    ensures Bit(ShiftLeft(x, t, n), k) == (k >= t && Bit(x, k - t))
  {
    if t == 0 {
      LowBitsBit(x, n, k);
    } else if k > 0 {
      assert ShiftLeft(x, t, n) / 2 == ShiftLeft(x, t - 1, n - 1);
      ShiftLeftBit(x, t - 1, n - 1, k - 1);
    }
  }

  /** Each bit of a marker belongs to one field. */
  lemma MarkerBit(m: Word, k: nat)
    requires k < WORD_BITS
    ensures Bit(m, k) ==
            if k == 0 then RunningBit(m)
            else if k <= RUNNING_LENGTH_BITS then Bit(RunningLength(m), k - 1)
            else Bit(LiteralCount(m), k - 1 - RUNNING_LENGTH_BITS)
  {
    if 0 < k <= RUNNING_LENGTH_BITS {
      LowBitsBit(ShiftRight(m, 1), RUNNING_LENGTH_BITS, k - 1);
      ShiftRightBit(m, 1, k - 1);
    } else if k > RUNNING_LENGTH_BITS {
      ShiftRightBit(m, 1 + RUNNING_LENGTH_BITS, k - 1 - RUNNING_LENGTH_BITS);
    }
  }

  /** The bits of the three constants that select the fields. */
  lemma FieldMaskBit(k: nat)
    requires k < WORD_BITS
    ensures Bit(LargestRunningLengthCount(), k) == (k < RUNNING_LENGTH_BITS)
    ensures Bit(ShiftedLargestRunningLengthCount(), k) == (0 < k <= RUNNING_LENGTH_BITS)
    ensures Bit(RunningLengthPlusRunningBit(), k) == (k <= RUNNING_LENGTH_BITS)
  {
    hide Bit, ShiftLeft, Pow2;
    MaskBit(RUNNING_LENGTH_BITS, k);
    MaskBit(RUNNING_LENGTH_BITS + 1, k);
    ShiftLeftBit(LargestRunningLengthCount(), 1, WORD_BITS, k);
    if k > 0 {
      MaskBit(RUNNING_LENGTH_BITS, k - 1);
    }
  }

  /** `data |= 1` and `data &= ~1` */
  function SetRunningBit(data: Word, b: bool): Word {
    if b then BitwiseWord(Or, data, 1) else BitwiseWord(And, data, NotWord(1))
  }

  function SetRunningLength(data: Word, l: Word): Word {
    BitwiseWord(And, BitwiseWord(Or, data, ShiftedLargestRunningLengthCount()),
                BitwiseWord(Or, ShiftLeftWord(l, 1), NotWord(ShiftedLargestRunningLengthCount())))
  }

  function SetNumberOfLiteralWords(data: Word, l: Word): Word {
    BitwiseWord(And, BitwiseWord(Or, data, NotWord(RunningLengthPlusRunningBit())),
                BitwiseWord(Or, ShiftLeftWord(l, RUNNING_LENGTH_BITS + 1), RunningLengthPlusRunningBit()))
  }

  /** Reading the running length with a shift and a mask. */
  lemma GetRunningLength(data: Word)
    ensures BitwiseWord(And, ShiftRight(data, 1), LargestRunningLengthCount()) == RunningLength(data)
    ensures RunningBit(data) <==> BitwiseWord(And, data, 1) != 0
  {
    hide Bit, Bitwise, LowBits, ShiftRight;
    var r := BitwiseWord(And, ShiftRight(data, 1), LargestRunningLengthCount());
    WordLimitIsPow2();
    forall k: nat | k < WORD_BITS
      ensures Bit(r, k) == Bit(RunningLength(data), k)
    {
      WordOpBit(And, ShiftRight(data, 1), LargestRunningLengthCount(), k);
      FieldMaskBit(k);
      LowBitsBit(ShiftRight(data, 1), RUNNING_LENGTH_BITS, k);
    }
    SameBits(r, RunningLength(data), WORD_BITS);
    TestBit(data, 0);
    MarkerBit(data, 0);
  }

  /** Writing the running bit keeps the other fields. */
  lemma SetRunningBitKeepsOthers(data: Word, b: bool)
    ensures SetRunningBit(data, b) == WithRunningBit(data, b)
  {
    hide Bit, Bitwise, LowBits, ShiftRight;
    var r, m := SetRunningBit(data, b), WithRunningBit(data, b);
    WordLimitIsPow2();
    forall k: nat | k < WORD_BITS
      ensures Bit(r, k) == Bit(m, k)
    {
      WordOpBit(Or, data, 1, k);
      WordOpBit(And, data, NotWord(1), k);
      NotWordBit(1, k);
      Pow2Bit(0, k);
      MarkerBit(data, k);
      MarkerBit(m, k);
    }
    SameBits(r, m, WORD_BITS);
  }

  /** Writing the running length keeps the other fields; a length that does not fit is cut to its low bits. */
  lemma SetRunningLengthKeepsOthers(data: Word, l: Word)
    ensures LowBits(l, RUNNING_LENGTH_BITS) <= LARGEST_RUNNING_LENGTH
    ensures SetRunningLength(data, l) == WithRunningLength(data, LowBits(l, RUNNING_LENGTH_BITS))
  {
    hide Bit, Bitwise, LowBits, ShiftRight;
    FieldLimits();
    var high, mask := ShiftedLargestRunningLengthCount(), ShiftLeftWord(l, 1);
    var r, m := SetRunningLength(data, l), WithRunningLength(data, LowBits(l, RUNNING_LENGTH_BITS));
    WordLimitIsPow2();
    forall k: nat | k < WORD_BITS
      ensures Bit(r, k) == Bit(m, k)
    {
      WordOpBit(And, BitwiseWord(Or, data, high), BitwiseWord(Or, mask, NotWord(high)), k);
      WordOpBit(Or, data, high, k);
      WordOpBit(Or, mask, NotWord(high), k);
      NotWordBit(high, k);
      FieldMaskBit(k);
      ShiftLeftBit(l, 1, WORD_BITS, k);
      MarkerBit(data, k);
      MarkerBit(m, k);
      if k > 0 {
        LowBitsBit(l, RUNNING_LENGTH_BITS, k - 1);
      }
    }
    SameBits(r, m, WORD_BITS);
  }

  /** Writing the literal count keeps the other fields; a count that does not fit is cut to its low bits. */
  lemma SetLiteralWordsKeepsOthers(data: Word, l: Word)
    ensures LowBits(l, LITERAL_BITS) <= LARGEST_LITERAL_COUNT
    ensures SetNumberOfLiteralWords(data, l) == WithLiteralCount(data, LowBits(l, LITERAL_BITS))
  {
    hide Bit, Bitwise, LowBits, ShiftRight;
    FieldLimits();
    var low, mask := RunningLengthPlusRunningBit(), ShiftLeftWord(l, RUNNING_LENGTH_BITS + 1);
    var r, m := SetNumberOfLiteralWords(data, l), WithLiteralCount(data, LowBits(l, LITERAL_BITS));
    WordLimitIsPow2();
    forall k: nat | k < WORD_BITS
      ensures Bit(r, k) == Bit(m, k)
    {
      WordOpBit(And, BitwiseWord(Or, data, NotWord(low)), BitwiseWord(Or, mask, low), k);
      WordOpBit(Or, data, NotWord(low), k);
      WordOpBit(Or, mask, low, k);
      NotWordBit(low, k);
      FieldMaskBit(k);
      ShiftLeftBit(l, RUNNING_LENGTH_BITS + 1, WORD_BITS, k);
      MarkerBit(data, k);
      MarkerBit(m, k);
      if k > RUNNING_LENGTH_BITS {
        LowBitsBit(l, LITERAL_BITS, k - 1 - RUNNING_LENGTH_BITS);
      }
    }
    SameBits(r, m, WORD_BITS);
  }
}
