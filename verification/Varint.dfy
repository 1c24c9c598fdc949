/**
  Variable-length integers: seven bits a byte, lowest first, the high bit set on all but the
  last byte (unsigned LEB128, section 7.6 of DWARF Version 4), in at most ten bytes.
 */
module Varint {
  import opened Bytes

  const MAX_VARINT_BYTES: nat := 10
  const UINT64_LIMIT: nat := 0x1_0000_0000_0000_0000

  type UInt64 = x: int | 0 <= x < UINT64_LIMIT

  function Pow128(n: nat): (p: nat)
    ensures p > 0
  {
    if n == 0 then 1 else 128 * Pow128(n - 1)
  }

  function Encode(value: nat): (s: seq<Byte>)
    ensures |s| > 0
  {
    if value < 0x80 then [value] else [value % 0x80 + 0x80] + Encode(value / 0x80)
  }

  datatype Decoded = Decoded(value: UInt64, count: nat) | TooLong

  /** A varint can be read here: a last byte comes, or ten bytes do. */
  predicate Readable(s: seq<Byte>) {
    |s| >= MAX_VARINT_BYTES || exists k :: 0 <= k < |s| && s[k] < 0x80
  }

  /** The value of the groups up to the first last byte, reduced to 64 bits; at most ten bytes are read. */
  function Decode(s: seq<Byte>): Decoded
    requires Readable(s)
  {
    DecodeFrom(s, 0, 0)
  }

  /** Adding the seven bits of one byte at their place, in 64-bit arithmetic. */
  function AddGroup(result: UInt64, b: nat, place: nat): UInt64 {
    (result + (b % 0x80) * place) % UINT64_LIMIT
  }

  function DecodeFrom(s: seq<Byte>, count: nat, result: UInt64): Decoded
    requires |s| >= MAX_VARINT_BYTES || exists k :: count <= k < |s| && s[k] < 0x80
    decreases MAX_VARINT_BYTES - count
  {
    if count >= MAX_VARINT_BYTES then TooLong
    else
      var next := AddGroup(result, s[count], Pow128(count));
      if s[count] < 0x80 then Decoded(next, count + 1) else DecodeFrom(s, count + 1, next)
  }

  /** The seven bits of a number at place `k`. */
  function Group(value: nat, k: nat): nat {
    value / Pow128(k) % 0x80
  }

  /** The bytes of a varint, place by place, and as few as will do. */
  ghost predicate IsVarint(s: seq<Byte>, value: nat) {
    && s != [] && value < Pow128(|s|) && (|s| > 1 ==> value >= Pow128(|s| - 1))
    && forall k | 0 <= k < |s| :: s[k] == Group(value, k) + if k == |s| - 1 then 0 else 0x80
  }

  lemma HigherGroup(value: nat, k: nat)
    ensures Group(value, 0) == value % 0x80
    ensures Group(value, k + 1) == Group(value / 0x80, k)
  {
    var p := Pow128(k);
    DivideTwice(value, 0x80, p);
    assert Pow128(k + 1) == 0x80 * p;
  }

  /** What is written. */
  lemma EncodeBytes(value: nat)
    ensures IsVarint(Encode(value), value)
  {
    hide Encode, Group, Pow128;
    var s, n := Encode(value), |Encode(value)|;
    EncodedLength(value, n);
    if n > 1 {
      EncodedLength(value, n - 1);
    }
    forall k | 0 <= k < n
      ensures s[k] == Group(value, k) + if k == n - 1 then 0 else 0x80
    {
      EncodeAt(value, k);
    }
  }

  lemma {:induction false} EncodeAt(value: nat, k: nat)
    requires k < |Encode(value)|
    ensures Encode(value)[k] == Group(value, k) + if k == |Encode(value)| - 1 then 0 else 0x80
  {
    hide Encode, Group, Pow128;
    EncodeUnfold(value);
    HigherGroup(value, if k > 0 then k - 1 else 0);
    if k > 0 {
      EncodeAt(value / 0x80, k - 1);
    } else if value >= 0x80 {
      assert |Encode(value / 0x80)| > 0;
    }
  }

  /** The number that the lowest seven bits of the first `n` bytes make. */
  ghost function Groups(s: seq<Byte>, n: nat): nat
    requires n <= |s|
  {
    if n == 0 then 0 else Groups(s, n - 1) + (s[n - 1] % 0x80) * Pow128(n - 1)
  }

  /** The bytes count up to the first without its high bit, unless that is not among the first ten. */
  ghost predicate IsValueOf(d: Decoded, s: seq<Byte>) {
    if d.TooLong? then |s| >= MAX_VARINT_BYTES && forall k | 0 <= k < MAX_VARINT_BYTES :: s[k] >= 0x80
    else
      && 0 < d.count <= |s| && d.count <= MAX_VARINT_BYTES
      && s[d.count - 1] < 0x80 && (forall k | 0 <= k < d.count - 1 :: s[k] >= 0x80)
      && d.value == Groups(s, d.count) % UINT64_LIMIT
  }

  /** What is read from any bytes. */
  lemma DecodeMeans(s: seq<Byte>)
    requires Readable(s)
    ensures IsValueOf(Decode(s), s)
  {
    DecodeFromMeans(s, 0, 0);
  }

  lemma {:induction false} DecodeFromMeans(s: seq<Byte>, count: nat, result: UInt64)
    requires |s| >= MAX_VARINT_BYTES || exists k :: count <= k < |s| && s[k] < 0x80
    requires count <= |s| && count <= MAX_VARINT_BYTES && (forall k | 0 <= k < count :: s[k] >= 0x80)
    requires result == Groups(s, count) % UINT64_LIMIT
    ensures IsValueOf(DecodeFrom(s, count, result), s)
    decreases MAX_VARINT_BYTES - count
  {
    hide Pow128, AddGroup;
    if count < MAX_VARINT_BYTES {
      var next := AddGroup(result, s[count], Pow128(count));
      AddGroupMeans(Groups(s, count), s[count], Pow128(count));
      if s[count] >= 0x80 {
        DecodeFromMeans(s, count + 1, next);
      }
    }
  }

  lemma AddGroupMeans(sum: nat, b: nat, place: nat)
    ensures AddGroup(sum % UINT64_LIMIT, b, place) == (sum + (b % 0x80) * place) % UINT64_LIMIT
  {
    ReduceSum(sum, (b % 0x80) * place);
  }

  lemma ReduceSum(a: nat, b: int)
    ensures (a % UINT64_LIMIT + b) % UINT64_LIMIT == (a + b) % UINT64_LIMIT
  {
  }

  method EncodeVarint(value: UInt64) returns (target: seq<Byte>)
    ensures target == Encode(value)
  {
    target := [];
    var left: nat := value;
    while left >= 0x80
      invariant target + Encode(left) == Encode(value)
    {
      ghost var tail := Encode(left / 0x80);
      assert target + ([left % 0x80 + 0x80] + tail) == target + [left % 0x80 + 0x80] + tail;
      target := target + [left % 0x80 + 0x80];
      left := left / 0x80;
    }
    target := target + [left];
  }

  /** The number of bytes read, or -1 when the tenth byte is not a last one. */
  method DecodeVarint(input: seq<Byte>) returns (count: int, result: UInt64)
    requires Readable(input)
    ensures count == -1 || 1 <= count <= MAX_VARINT_BYTES
    ensures if count == -1 then Decode(input).TooLong? else Decode(input) == Decoded(result, count)
  {
    hide AddGroup, Pow128;
    FirstGroups(input[0], if |input| > 1 then input[1] else 0);
    var b: int := input[0];
    result := b % 0x80;
    count := 1;
    if b < 0x80 {
      return;
    }
    b := input[1];
    result := (result + (b % 0x80) * 0x80) % UINT64_LIMIT;
    count := 2;
    if b < 0x80 {
      return;
    }
    while true
      invariant 2 <= count <= MAX_VARINT_BYTES
      invariant |input| >= MAX_VARINT_BYTES || exists k :: count <= k < |input| && input[k] < 0x80
      invariant Decode(input) == DecodeFrom(input, count, result)
      decreases MAX_VARINT_BYTES - count
    {
      if count == MAX_VARINT_BYTES {
        return -1, result;
      }
      b := input[count];
      result := AddGroup(result, b, Pow128(count));
      count := count + 1;
      if b < 0x80 {
        return;
      }
    }
  }

  lemma FirstGroups(b0: Byte, b1: Byte)
    ensures AddGroup(0, b0, Pow128(0)) == b0 % 0x80
    ensures AddGroup(b0 % 0x80, b1, Pow128(1)) == (b0 % 0x80 + (b1 % 0x80) * 0x80) % UINT64_LIMIT
  {
    assert Pow128(0) == 1 && Pow128(1) == 128;
  }

  lemma Pow128Values()
    ensures Pow128(1) == 128 && Pow128(2) == 16384 && Pow128(3) == 2097152
    ensures Pow128(4) == 268435456 && Pow128(5) == 34359738368 && Pow128(6) == 4398046511104
    ensures Pow128(7) == 562949953421312 && Pow128(8) == 72057594037927936
    ensures Pow128(9) == 9223372036854775808 && Pow128(10) > UINT64_LIMIT
  {
    assert Pow128(3) == 2097152;
    assert Pow128(6) == 4398046511104;
  }

  /** `n` bytes suffice exactly for the values below 128 to the `n`. */
  lemma {:induction false} EncodedLength(value: nat, n: nat)
    requires n > 0
    ensures |Encode(value)| <= n <==> value < Pow128(n)
  {
    if n == 1 {
      assert Pow128(1) == 128;
    } else if value >= 0x80 {
      EncodedLength(value / 0x80, n - 1);
    }
  }

  /** The length of an encoding, by thresholds, as the header code computes it. */
  function GetVarintSize(num: UInt64): nat {
    if num < 128 then 1
    else if num < 16384 then 2
    else if num < 2097152 then 3
    else if num < 268435456 then 4
    else if num < 34359738368 then 5
    else if num < 4398046511104 then 6
    else if num < 562949953421312 then 7
    else if num < 72057594037927936 then 8
    else if num < 9223372036854775808 then 9
    else 10
  }

  /** `GetVarintSize` is the encoded length, which never exceeds ten. */
  lemma VarintSizeIsLength(num: UInt64)
    ensures |Encode(num)| == GetVarintSize(num) <= MAX_VARINT_BYTES
  {
    Pow128Values();
    var n := GetVarintSize(num);
    EncodedLength(num, n);
    if n > 1 {
      EncodedLength(num, n - 1);
    }
  }

  lemma Encodable(value: nat, rest: seq<Byte>)
    ensures var s := Encode(value) + rest; exists k :: 0 <= k < |Encode(value)| && s[k] < 0x80
  {
    if value < 0x80 {
      assert (Encode(value) + rest)[0] == value;
    } else {
      Encodable(value / 0x80, rest);
      var t := Encode(value / 0x80) + rest;
      var k :| 0 <= k < |Encode(value / 0x80)| && t[k] < 0x80;
      assert (Encode(value) + rest)[k + 1] == t[k];
    }
  }

  /** Decoding inverts encoding, whatever bytes follow. */
  lemma VarintRoundTrip(value: UInt64, rest: seq<Byte>)
    ensures Readable(Encode(value) + rest)
    ensures Decode(Encode(value) + rest) == Decoded(value, |Encode(value)|)
  {
    Encodable(value, rest);
    VarintSizeIsLength(value);
    var s := Encode(value) + rest;
    assert s[0..] == s;
    DecodeTail(s, 0, value, 0, rest);
  }

  /** The number whose groups below place `n` are `result` and whose groups from there on are `tail`. */
  function Compose(result: nat, tail: nat, n: nat): nat {
    result + tail * Pow128(n)
  }

  lemma SplitGroup(tail: nat, p: nat)
    ensures tail * p == (tail % 0x80) * p + (tail / 0x80) * (128 * p)
    ensures (tail % 0x80) * p >= 0 && (tail / 0x80) * (128 * p) >= 0
  {
    var q, r := tail / 0x80, tail % 0x80;
    assert tail == 0x80 * q + r;
    assert (0x80 * q + r) * p == r * p + q * (128 * p);
  }

  /** The lowest group of `tail`, added at place `n`, leaves the rest for the places above. */
  lemma NextGroup(tail: nat, n: nat, b: nat, result: UInt64)
    requires Compose(result, tail, n) < UINT64_LIMIT && b % 0x80 == tail % 0x80
    ensures Compose(result, tail, n) == Compose(AddGroup(result, b, Pow128(n)), tail / 0x80, n + 1)
    ensures tail < 0x80 ==> Compose(result, tail, n) == AddGroup(result, b, Pow128(n))
  {
    SplitGroup(tail, Pow128(n));
    var next := result + (tail % 0x80) * Pow128(n);
    assert AddGroup(result, b, Pow128(n)) == next;
  }

  lemma EncodeUnfold(tail: nat)
    ensures Encode(tail) == if tail < 0x80 then [tail] else [tail % 0x80 + 0x80] + Encode(tail / 0x80)
  {
  }

  /** Reading the encoding of `tail` at position `n`, after groups whose value is `result`, completes the number. */
  lemma {:induction false} DecodeTail(s: seq<Byte>, n: nat, tail: nat, result: UInt64, rest: seq<Byte>)
    requires n + |Encode(tail)| <= |s| && n + |Encode(tail)| <= MAX_VARINT_BYTES && s[n..] == Encode(tail) + rest
    requires Compose(result, tail, n) < UINT64_LIMIT
    decreases tail
    ensures exists k :: n <= k < |s| && s[k] < 0x80
    ensures DecodeFrom(s, n, result) == Decoded(Compose(result, tail, n), n + |Encode(tail)|)
  {
    hide AddGroup, Pow128, Compose, Encode;
    EncodeUnfold(tail);
    assert s[n] == s[n..][0];
    if tail < 0x80 {
      NextGroup(tail, n, tail, result);
    } else {
      var b := tail % 0x80 + 0x80;
      NextGroup(tail, n, b, result);
      assert s[n + 1..] == s[n..][1..] == Encode(tail / 0x80) + rest;
      DecodeTail(s, n + 1, tail / 0x80, AddGroup(result, b, Pow128(n)), rest);
    }
  }
}
