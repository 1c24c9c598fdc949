/**
  The 64-bit words of the compressed bitmap (`uword` instantiated to `uint64_t`).

  A word is an integer below 2^64. `Bit(w, k)` is bit `k`, and the machine operators
  are defined bit by bit.
 */
module Words {

  const WORD_BITS: nat := 64
  const WORD_LIMIT: nat := 0x1_0000_0000_0000_0000

  type Word = w: int | 0 <= w < WORD_LIMIT

  const ALL_ONES: Word := WORD_LIMIT - 1

  datatype BitOp = And | Or | Xor

  predicate Apply(op: BitOp, a: bool, b: bool) {
    match op
    case And => a && b
    case Or => a || b
    case Xor => a != b
  }

  predicate Bit(w: nat, k: nat) {
    if k == 0 then w % 2 == 1 else Bit(w / 2, k - 1)
  }

  /** `1 << k`, before truncation. */
  function Pow2(k: nat): (p: nat)
    ensures p > 0
  {
    if k == 0 then 1 else 2 * Pow2(k - 1)
  }

  /** The low `n` bits of `x op y`. */
  function Bitwise(op: BitOp, x: nat, y: nat, n: nat): (r: nat)
    ensures r < Pow2(n)
  {
    if n == 0 then 0
    else (if Apply(op, x % 2 == 1, y % 2 == 1) then 1 else 0) + 2 * Bitwise(op, x / 2, y / 2, n - 1)
  }

  /** `x >> t` */
  function ShiftRight(x: nat, t: nat): (r: nat)
    ensures r <= x
  {
    if t == 0 then x else ShiftRight(x / 2, t - 1)
  }

  /** `x & ((1 << n) - 1)` */
  function LowBits(x: nat, n: nat): (r: nat)
    ensures r < Pow2(n)
  {
    if n == 0 then 0 else x % 2 + 2 * LowBits(x / 2, n - 1)
  }

  /** The number of one bits among the low `n` bits. */
  function CountOnes(x: nat, n: nat): (c: nat)
    ensures c <= n
  {
    if n == 0 then 0 else x % 2 + CountOnes(x / 2, n - 1)
  }

  /** The position of the lowest one bit. */
  function TrailingZeros(x: nat): nat
    requires x != 0
  {
    if x % 2 == 1 then 0 else 1 + TrailingZeros(x / 2)
  }

  lemma WordLimitIsPow2()
    ensures Pow2(WORD_BITS) == WORD_LIMIT
  {
    assert Pow2(8) == 0x100;
    Pow2Sum(8, 8);
    assert Pow2(16) == 0x1_0000;
    Pow2Sum(16, 16);
    assert Pow2(32) == 0x1_0000_0000;
    Pow2Sum(32, 32);
  }

  lemma {:induction false} Pow2Sum(a: nat, b: nat)
    ensures Pow2(a + b) == Pow2(a) * Pow2(b)
  {
    if a > 0 {
      Pow2Sum(a - 1, b);
    }
  }

  lemma HalfPacked(low: nat, p: nat, high: nat)
    ensures var x := low + 2 * p * high; x / 2 == low / 2 + p * high && x % 2 == low % 2
  {
    var h := p * high;
    assert 2 * p * high == 2 * h;
  }

  /** Packing a high part above `n` low bits, and reading both back. */
  lemma {:induction false} PackBits(low: nat, high: nat, n: nat)
    requires low < Pow2(n)
    ensures LowBits(low + Pow2(n) * high, n) == low
    ensures ShiftRight(low + Pow2(n) * high, n) == high
  {
    if n > 0 {
      HalfPacked(low, Pow2(n - 1), high);
      PackBits(low / 2, high, n - 1);
    }
  }

  lemma Doubled(p: nat, r: nat)
    ensures (2 * p) * r == 2 * (p * r)
  {
  }

  /** Splitting a number into its low bits and the rest loses nothing. */
  lemma {:induction false} SplitBits(x: nat, n: nat)
    ensures x == LowBits(x, n) + Pow2(n) * ShiftRight(x, n)
  {
    if n > 0 {
      SplitBits(x / 2, n - 1);
      assert ShiftRight(x, n) == ShiftRight(x / 2, n - 1) && Pow2(n) == 2 * Pow2(n - 1);
      assert LowBits(x, n) == x % 2 + 2 * LowBits(x / 2, n - 1);
      Doubled(Pow2(n - 1), ShiftRight(x / 2, n - 1));
    }
  }

  lemma {:induction false} ShiftRightBound(x: nat, a: nat, b: nat)
    requires x < Pow2(a + b)
    ensures ShiftRight(x, a) < Pow2(b)
  {
    if a > 0 {
      ShiftRightBound(x / 2, a - 1, b);
    }
  }

  lemma {:induction false} Pow2Monotone(a: nat, b: nat)
    requires a <= b
    ensures Pow2(a) <= Pow2(b)
  {
    if a < b {
      Pow2Monotone(a, b - 1);
    }
  }

  function BitwiseWord(op: BitOp, x: Word, y: Word): Word {
    WordLimitIsPow2();
    Bitwise(op, x, y, WORD_BITS)
  }

  function NotWord(x: Word): Word {
    ALL_ONES - x
  }

  /** `static_cast<uword>(1) << k` */
  function OneBit(k: nat): Word
    requires k < WORD_BITS
  {
    WordLimitIsPow2();
    Pow2Monotone(k + 1, WORD_BITS);
    Pow2(k)
  }

  /** `(static_cast<uword>(1) << n) - 1` */
  function LowMask(n: nat): Word
    requires n < WORD_BITS
  {
    OneBit(n) - 1
  }

  /** A word every bit of which is `v`. */
  function FillWord(v: bool): Word {
    if v then ALL_ONES else 0
  }

  lemma {:induction false} BitwiseBit(op: BitOp, x: nat, y: nat, n: nat, k: nat)
    requires k < n
    ensures Bit(Bitwise(op, x, y, n), k) == Apply(op, Bit(x, k), Bit(y, k))
  {
    var lower := Bitwise(op, x / 2, y / 2, n - 1);
    assert Bitwise(op, x, y, n) / 2 == lower;
    if k > 0 {
      BitwiseBit(op, x / 2, y / 2, n - 1, k - 1);
    }
  }

  lemma {:induction false} ComplementBit(x: nat, n: nat, k: nat)
    requires k < n && x < Pow2(n)
    ensures Bit(Pow2(n) - 1 - x, k) == !Bit(x, k)
  {
    assert (Pow2(n) - 1 - x) / 2 == Pow2(n - 1) - 1 - x / 2;
    if k > 0 {
      ComplementBit(x / 2, n - 1, k - 1);
    }
  }

  lemma {:induction false} ZeroBit(k: nat)
    ensures !Bit(0, k)
  {
    if k > 0 {
      ZeroBit(k - 1);
    }
  }

  lemma {:induction false} Pow2Bit(n: nat, k: nat)
    ensures Bit(Pow2(n), k) == (k == n)
  {
    if n == 0 {
      if k > 0 {
        ZeroBit(k - 1);
      }
    } else if k > 0 {
      assert Pow2(n) / 2 == Pow2(n - 1);
      Pow2Bit(n - 1, k - 1);
    }
  }

  lemma {:induction false} MaskBit(n: nat, k: nat)
    ensures Bit(Pow2(n) - 1, k) == (k < n)
  {
    if n == 0 {
      ZeroBit(k);
    } else if k > 0 {
      assert (Pow2(n) - 1) / 2 == Pow2(n - 1) - 1;
      MaskBit(n - 1, k - 1);
    }
  }

  lemma {:induction false} HighBitsZero(x: nat, n: nat, k: nat)
    requires x < Pow2(n) && n <= k
    ensures !Bit(x, k)
  {
    if n == 0 {
      ZeroBit(k);
    } else {
      HighBitsZero(x / 2, n - 1, k - 1);
    }
  }

  /** Two words with the same bits are the same word. */
  lemma {:induction false} SameBits(x: nat, y: nat, n: nat)
    requires x < Pow2(n) && y < Pow2(n)
    requires forall k: nat | k < n :: Bit(x, k) == Bit(y, k)
    ensures x == y
  {
    if n > 0 {
      assert Bit(x, 0) == Bit(y, 0);
      forall k: nat | k < n - 1
        ensures Bit(x / 2, k) == Bit(y / 2, k)
      {
        assert Bit(x, k + 1) == Bit(y, k + 1);
      }
      SameBits(x / 2, y / 2, n - 1);
    }
  }

  lemma {:induction false} ShiftRightBit(x: nat, t: nat, k: nat)
    ensures Bit(ShiftRight(x, t), k) == Bit(x, k + t)
  {
    if t > 0 {
      ShiftRightBit(x / 2, t - 1, k);
    }
  }

  /** `numberOfTrailingZeros` finds the lowest set bit. */
  lemma {:induction false} TrailingZerosLowest(x: nat, n: nat)
    requires 0 < x < Pow2(n)
    ensures TrailingZeros(x) < n && Bit(x, TrailingZeros(x))
    ensures forall k: nat | k < TrailingZeros(x) :: !Bit(x, k)
  {
    if x % 2 == 0 {
      TrailingZerosLowest(x / 2, n - 1);
      forall k: nat | k < TrailingZeros(x)
        ensures !Bit(x, k)
      {
        if k > 0 {
          assert !Bit(x / 2, k - 1);
        }
      }
    }
  }

  lemma WordOpBit(op: BitOp, x: Word, y: Word, k: nat)
    requires k < WORD_BITS
    ensures Bit(BitwiseWord(op, x, y), k) == Apply(op, Bit(x, k), Bit(y, k))
  {
    BitwiseBit(op, x, y, WORD_BITS, k);
  }

  lemma NotWordBit(x: Word, k: nat)
    requires k < WORD_BITS
    ensures Bit(NotWord(x), k) == !Bit(x, k)
  {
    WordLimitIsPow2();
    ComplementBit(x, WORD_BITS, k);
  }

  lemma FillWordBit(v: bool, k: nat)
    requires k < WORD_BITS
    ensures Bit(FillWord(v), k) == v
  {
    WordLimitIsPow2();
    ZeroBit(k);
    MaskBit(WORD_BITS, k);
  }

  /** 0 and all ones are the neutral and absorbing words of `&` and `|`, on either side. */
  lemma WordIdentities(x: Word)
    ensures BitwiseWord(And, x, 0) == 0 && BitwiseWord(And, 0, x) == 0
    ensures BitwiseWord(And, x, ALL_ONES) == x && BitwiseWord(And, ALL_ONES, x) == x
    ensures BitwiseWord(Or, x, 0) == x && BitwiseWord(Or, 0, x) == x
    ensures BitwiseWord(Or, x, ALL_ONES) == ALL_ONES && BitwiseWord(Or, ALL_ONES, x) == ALL_ONES
  {
    WordLimitIsPow2();
    AbsorbZero(x, WORD_BITS);
    AbsorbOnes(x, WORD_BITS);
  }

  lemma {:induction false} AbsorbZero(x: nat, n: nat)
    requires x < Pow2(n)
    ensures Bitwise(And, x, 0, n) == 0 && Bitwise(And, 0, x, n) == 0
    ensures Bitwise(Or, x, 0, n) == x && Bitwise(Or, 0, x, n) == x
  {
    if n > 0 {
      AbsorbZero(x / 2, n - 1);
    }
  }

  lemma BitwiseUnfold(op: BitOp, x: nat, y: nat, n: nat)
    requires n > 0
    ensures Bitwise(op, x, y, n) ==
            (if Apply(op, x % 2 == 1, y % 2 == 1) then 1 else 0) + 2 * Bitwise(op, x / 2, y / 2, n - 1)
  {
  }

  lemma {:induction false} AbsorbOnes(x: nat, n: nat)
    requires x < Pow2(n)
    ensures Bitwise(And, x, Pow2(n) - 1, n) == x && Bitwise(And, Pow2(n) - 1, x, n) == x
    ensures Bitwise(Or, x, Pow2(n) - 1, n) == Pow2(n) - 1 && Bitwise(Or, Pow2(n) - 1, x, n) == Pow2(n) - 1
  {
    hide Bitwise;
    if n > 0 {
      var ones := Pow2(n) - 1;
      assert ones / 2 == Pow2(n - 1) - 1 && ones % 2 == 1;
      AbsorbOnes(x / 2, n - 1);
      BitwiseUnfold(And, x, ones, n);
      BitwiseUnfold(And, ones, x, n);
      BitwiseUnfold(Or, x, ones, n);
      BitwiseUnfold(Or, ones, x, n);
    }
  }

  /** `(w & (1 << k)) != 0` tests bit `k`. */
  lemma TestBit(w: Word, k: nat)
    requires k < WORD_BITS
    ensures BitwiseWord(And, w, OneBit(k)) != 0 <==> Bit(w, k)
  {
    var r := BitwiseWord(And, w, OneBit(k));
    WordOpBit(And, w, OneBit(k), k);
    Pow2Bit(k, k);
    if Bit(w, k) {
      ZeroBit(k);
    } else {
      WordLimitIsPow2();
      forall j: nat | j < WORD_BITS
        ensures Bit(r, j) == Bit(0, j)
      {
        WordOpBit(And, w, OneBit(k), j);
        Pow2Bit(k, j);
        ZeroBit(j);
      }
      SameBits(r, 0, WORD_BITS);
    }
  }
}
