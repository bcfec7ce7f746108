/** The column descriptor `XSQLVAR` as far as the text-BLOB field uses it: the `sqldata`
    slot that a write fills, and the codec between a 64-bit BLOB id and the 8 bytes that
    stand for it in a row. XSQLVAR itself is not part of this model; the id is encoded
    big-endian in two's complement, and all the field relies on is that decoding undoes
    encoding. */
module Sqlvar {
  import opened Types

  const MinLong: int := -0x8000_0000_0000_0000
  const MaxLong: int := 0x7FFF_FFFF_FFFF_FFFF
  const TwoTo64: int := 0x1_0000_0000_0000_0000

  /** The column's outgoing data slot (`field.sqldata`). */
  class XSqlVar {
    var sqldata: Option<Bytes>

    constructor ()
      ensures sqldata == None
    {
      sqldata := None;
    }
  }

  function Pow256(n: nat): (p: nat)
    ensures p >= 1
  {
    if n == 0 then 1 else 256 * Pow256(n - 1)
  }

  /** The `n` low-order base-256 digits of `u`, most significant first. */
  function BigEndian(u: nat, n: nat): (r: Bytes)
    ensures |r| == n
  {
    if n == 0 then [] else BigEndian(u / 256, n - 1) + [(u % 256) as byte]
  }

  /** The unsigned number whose base-256 digits, most significant first, are `s`. */
  function Unsigned(s: Bytes): (u: nat)
    ensures u < Pow256(|s|)
  {
    if s == [] then 0
    else
      var high := Unsigned(s[..|s| - 1]);
      assert high + 1 <= Pow256(|s| - 1);
      assert (high + 1) * 256 <= Pow256(|s|);
      high * 256 + s[|s| - 1] as int
  }

  /** `XSQLVAR.encodeLong`: a Java long as 8 bytes. */
  function EncodeLong(v: int): (r: Bytes)
    requires MinLong <= v <= MaxLong
    ensures |r| == 8
  {
    BigEndian(v % TwoTo64, 8)
  }

  /** `XSQLVAR.decodeLong`: 8 bytes read back as a Java long. */
  function DecodeLong(s: Bytes): (v: int)
    requires |s| == 8
    ensures MinLong <= v <= MaxLong
  {
    assert Pow256(8) == TwoTo64;
    var u := Unsigned(s);
    if u > MaxLong then u - TwoTo64 else u
  }

  lemma MulAwayFromZero(m: int, d: int)
    requires m > 0
    ensures d >= 1 ==> m * d >= m
    ensures d <= -1 ==> m * d <= -m
  {
  }

  lemma ModUnique(u: int, m: int, a: int, c: int)
    requires m > 0 && 0 <= c < m && u == m * a + c
    ensures u % m == c && u / m == a
  {
    var q, r := u / m, u % m;
    assert m * (a - q) == r - c;
    MulAwayFromZero(m, a - q);
  }

  lemma DigitStep(u: nat, p: nat)
    requires p > 0
    ensures (u / 256 % p) * 256 + u % 256 == u % (256 * p)
  {
    var q := u / 256;
    var a, b := q / p, q % p;
    assert q == p * a + b;
    assert u == 256 * q + u % 256;
    assert u == (256 * p) * a + (b * 256 + u % 256);
    ModUnique(u, 256 * p, a, b * 256 + u % 256);
  }

  /** Reading back the `n` digits written by BigEndian gives `u` modulo 256^n. */
  lemma {:induction false} UnsignedBigEndian(u: nat, n: nat)
    ensures Unsigned(BigEndian(u, n)) == u % Pow256(n)
  {
    if n > 0 {
      var r := BigEndian(u, n);
      var high := BigEndian(u / 256, n - 1);
      var low := (u % 256) as byte;
      assert r == high + [low];
      assert r[..n - 1] == high && r[n - 1] == low;
      assert Unsigned(r) == Unsigned(high) * 256 + low as int;
      UnsignedBigEndian(u / 256, n - 1);
      DigitStep(u, Pow256(n - 1));
    }
  }

  /** Every Java long survives the trip through the 8-byte slot. */
  lemma LongRoundTrip(v: int)
    requires MinLong <= v <= MaxLong
    ensures DecodeLong(EncodeLong(v)) == v
  {
    assert Pow256(8) == TwoTo64;
    UnsignedBigEndian(v % TwoTo64, 8);
    if v < 0 {
      ModUnique(v, TwoTo64, -1, v + TwoTo64);
    } else {
      ModUnique(v, TwoTo64, 0, v);
    }
  }

  /** Distinct ids never share a slot value. */
  lemma EncodeLongInjective(a: int, b: int)
    requires MinLong <= a <= MaxLong && MinLong <= b <= MaxLong
    ensures EncodeLong(a) == EncodeLong(b) ==> a == b
  {
    LongRoundTrip(a);
    LongRoundTrip(b);
  }
}
