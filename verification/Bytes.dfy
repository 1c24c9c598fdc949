/**
  Bytes and little-endian numbers.
 */
module Bytes {

  type Byte = x: int | 0 <= x < 256

  function Pow256(n: nat): (p: nat)
    ensures p > 0
  {
    if n == 0 then 1 else 256 * Pow256(n - 1)
  }

  /** The low `n` bytes of `x`, lowest first. */
  function LittleEndian(x: nat, n: nat): (s: seq<Byte>)
    ensures |s| == n
  {
    if n == 0 then [] else [x % 256] + LittleEndian(x / 256, n - 1)
  }

  function FromLittleEndian(s: seq<Byte>): nat {
    if s == [] then 0 else s[0] + 256 * FromLittleEndian(s[1..])
  }

  /** Byte `k` of a number, counted from the lowest. */
  function ByteOf(x: nat, k: nat): Byte {
    x / Pow256(k) % 256
  }

  /** One place higher in the number is one place lower in the number without its lowest byte. */
  lemma NextByte(x: nat, k: nat)
    ensures ByteOf(x, 0) == x % 256
    ensures ByteOf(x, k + 1) == ByteOf(x / 256, k)
  {
    var p := Pow256(k);
    DivideTwice(x, 256, p);
    assert Pow256(k + 1) == 256 * p;
  }

  lemma DivideTwice(x: nat, a: nat, p: nat)
    requires a > 0 && p > 0
    ensures a * p > 0 && x / (a * p) == x / a / p
  {
    var y := x / a;
    var q, r := y / p, y % p;
    Quotient(x, a);
    Quotient(y, p);
    Distribute(a, q, p, r);
    QuotientIs(x, a * p, q, a * r + x % a);
  }

  lemma Distribute(a: nat, q: nat, p: nat, r: nat)
    requires a > 0 && r < p
    ensures a * (p * q + r) == q * (a * p) + a * r
    ensures a * r + a <= a * p && a * p > 0
  {
    assert a * r + a == a * (r + 1);
    assert a * (r + 1) <= a * p;
    assert a * (p * q) == q * (a * p);
  }

  lemma Quotient(x: nat, d: nat)
    requires d > 0
    ensures x == d * (x / d) + x % d && 0 <= x % d < d
  {
  }

  lemma QuotientIs(x: nat, d: nat, q: nat, r: nat)
    requires x == q * d + r && r < d
    ensures x / d == q
  {
    var e := x / d - q;
    assert d * (x / d) == d * q + d * e;
    NoSmallMultiple(d, e);
  }

  lemma NoSmallMultiple(d: nat, e: int)
    ensures e == 0 || d * e >= d || d * e + d <= 0
  {
    if e > 0 {
      assert d * (e - 1) >= 0;
    } else if e < 0 {
      assert (-e - 1) * d >= 0;
    }
  }

  /** The lowest byte comes first. */
  lemma {:induction false} LittleEndianAt(x: nat, n: nat, k: nat)
    requires k < n
    ensures LittleEndian(x, n)[k] == ByteOf(x, k)
  {
    hide ByteOf, Pow256;
    NextByte(x, if k > 0 then k - 1 else 0);
    if k > 0 {
      LittleEndianAt(x / 256, n - 1, k - 1);
    }
  }

  /** Reading any bytes gives the number that has them, and no others. */
  lemma {:induction false} FromLittleEndianAt(s: seq<Byte>, k: nat)
    ensures ByteOf(FromLittleEndian(s), k) == if k < |s| then s[k] else 0
  {
    hide ByteOf, Pow256;
    var x := FromLittleEndian(s);
    if s == [] {
      assert x == 0;
      ZeroByte(k);
    } else {
      NextByte(x, if k > 0 then k - 1 else 0);
      if k > 0 {
        FromLittleEndianAt(s[1..], k - 1);
      }
    }
  }

  lemma ZeroByte(k: nat)
    ensures ByteOf(0, k) == 0
  {
  }

  lemma {:induction false} LittleEndianRoundTrip(x: nat, n: nat)
    requires x < Pow256(n)
    ensures FromLittleEndian(LittleEndian(x, n)) == x
  {
    if n > 0 {
      LittleEndianRoundTrip(x / 256, n - 1);
      assert LittleEndian(x, n)[1..] == LittleEndian(x / 256, n - 1);
    }
  }
}
