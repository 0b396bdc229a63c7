/**
 * Fixed-width and decimal integers: Go's int64 with its wrap-around, the
 * big-endian eight-byte form of encoding/binary, and strconv's decimal text.
 */
module Integers {
  import opened Bytes

  const TWO_63: int := 0x8000_0000_0000_0000
  const TWO_64: int := 0x1_0000_0000_0000_0000

  type int64 = x: int | -0x8000_0000_0000_0000 <= x < 0x8000_0000_0000_0000
  type uint64 = x: int | 0 <= x < 0x1_0000_0000_0000_0000

  // Two's-complement wrap-around of int64 arithmetic.
  function Wrap(x: int): int64 {
    (x + TWO_63) % TWO_64 - TWO_63
  }

  lemma WrapIsIdentityInRange(x: int)
    requires -TWO_63 <= x < TWO_63
    ensures Wrap(x) == x
  {
  }

  // Go's conversion uint64(v).
  function ToUint64(v: int64): uint64 {
    if v < 0 then v + TWO_64 else v
  }

  // Go's conversion int64(u).
  function ToInt64(u: uint64): int64 {
    if u < TWO_63 then u else u - TWO_64
  }

  /* ---- big-endian ---- */

  // The value of a byte string read most significant byte first.
  function BigEndian(b: Bytes): nat {
    if b == [] then 0 else 256 * BigEndian(b[..|b| - 1]) + b[|b| - 1]
  }

  // The width-byte big-endian form of n: each byte is the quotient by a power of 256.
  function ToBigEndian(n: nat, width: nat): (b: Bytes)
    ensures |b| == width
  {
    if width == 0 then [] else ToBigEndian(n / 256, width - 1) + [n % 256]
  }

  function Pow256(k: nat): (p: nat)
    ensures p > 0
  {
    if k == 0 then 1 else 256 * Pow256(k - 1)
  }

  lemma {:induction false} BigEndianRoundTrip(n: nat, width: nat)
    ensures BigEndian(ToBigEndian(n, width)) == n % Pow256(width)
  {
    if width > 0 {
      var b := ToBigEndian(n, width);
      assert b[..|b| - 1] == ToBigEndian(n / 256, width - 1);
      BigEndianRoundTrip(n / 256, width - 1);
      ModSplit(n, Pow256(width - 1));
    }
  }

  lemma ModSplit(n: nat, m: nat)
    requires m > 0
    ensures n % (256 * m) == 256 * ((n / 256) % m) + n % 256
  {
    var q, r := n / 256, n % 256;
    var q', r' := q / m, q % m;
    assert n == (256 * m) * q' + (256 * r' + r) by {
      assert q == m * q' + r';
      assert n == 256 * (m * q' + r') + r;
      assert 256 * (m * q') == (256 * m) * q';
    }
    assert 0 <= 256 * r' + r < 256 * m;
    DivModUnique(n, 256 * m, q', 256 * r' + r);
  }

  lemma DivModUnique(n: int, d: nat, q: int, r: nat)
    requires d > 0 && r < d
    requires n == d * q + r
    ensures n / d == q && n % d == r
  {
    var q', r' := n / d, n % d;
    assert n == d * q' + r' && r' < d;
    MulStrictlyIncreases(d, q, q');
    MulStrictlyIncreases(d, q', q);
  }

  lemma MulStrictlyIncreases(d: nat, a: int, b: int)
    ensures a < b ==> d * a + d <= d * b
  {
    if a < b {
      var k: nat := b - a - 1;
      MulNonNegative(d, k);
      assert d * b == d * (a + 1 + k) == d * a + d + d * k;
    }
  }

  lemma MulNonNegative(a: nat, b: nat)
    ensures a * b >= 0
  {
  }

  lemma Uint64RoundTrip(u: uint64)
    ensures BigEndian(ToBigEndian(u, 8)) == u
  {
    BigEndianRoundTrip(u, 8);
    assert Pow256(8) == TWO_64;
  }

  // A reader of eight-byte unsigned integers: value and remaining bytes.
  function ReadUint64(b: Bytes): Option<(uint64, Bytes)> {
    if |b| < 8 then None
    else
      BigEndianBound(b[..8]);
      Some((BigEndian(b[..8]), b[8..]))
  }

  lemma {:induction false} BigEndianBound(b: Bytes)
    ensures BigEndian(b) < Pow256(|b|)
    ensures |b| == 8 ==> BigEndian(b) < TWO_64
  {
    if b != [] {
      BigEndianBound(b[..|b| - 1]);
    }
    if |b| == 8 {
      assert Pow256(8) == TWO_64;
    }
  }

  lemma ReadUint64Inverts(u: uint64, rest: Bytes)
    ensures ReadUint64(ToBigEndian(u, 8) + rest) == Some((u, rest))
  {
    Uint64RoundTrip(u);
    TakeAppend(ToBigEndian(u, 8), rest);
  }

  /* ---- decimal ---- */

  const DIGIT_0: byte := 48
  const MINUS: byte := 45

  predicate IsDigit(c: byte) { 48 <= c <= 57 }

  predicate AllDigits(s: Bytes) {
    forall i :: 0 <= i < |s| ==> IsDigit(s[i])
  }

  // strconv's decimal text of a natural number: no leading zeros.
  function PrintNat(n: nat): (s: Bytes)
    ensures s != [] && AllDigits(s)
    ensures s[0] == DIGIT_0 ==> n == 0
  {
    if n < 10 then [DIGIT_0 + n] else PrintNat(n / 10) + [DIGIT_0 + n % 10]
  }

  function DecimalValue(s: Bytes): nat
    requires AllDigits(s)
  {
    if s == [] then 0 else 10 * DecimalValue(s[..|s| - 1]) + (s[|s| - 1] - DIGIT_0)
  }

  lemma {:induction false} PrintNatRoundTrip(n: nat)
    ensures DecimalValue(PrintNat(n)) == n
    ensures n == 0 ==> PrintNat(n) == [DIGIT_0]
  {
    if n >= 10 {
      PrintNatRoundTrip(n / 10);
      var s := PrintNat(n);
      assert s[..|s| - 1] == PrintNat(n / 10);
    } else {
      assert PrintNat(n)[..0] == [];
    }
  }

  function PrintInt(v: int): (s: Bytes)
    ensures s != []
  {
    if v < 0 then [MINUS] + PrintNat(-v) else PrintNat(v)
  }

  // strconv.ParseInt(s, 10, 64) on text that is a JSON number.
  function ParseInt64(s: Bytes): Option<int64> {
    var negative := s != [] && s[0] == MINUS;
    var digits := if negative then s[1..] else s;
    if digits == [] || !AllDigits(digits) then None
    else
      var magnitude: int := DecimalValue(digits);
      var v := if negative then -magnitude else magnitude;
      if -TWO_63 <= v < TWO_63 then Some(v) else None
  }

  lemma ParseInt64Inverts(v: int64)
    ensures ParseInt64(PrintInt(v)) == Some(v)
  {
    var magnitude: nat := if v < 0 then -(v as int) else v;
    var digits := PrintNat(magnitude);
    PrintNatRoundTrip(magnitude);
    if v < 0 {
      assert PrintInt(v) == [MINUS] + digits;
      assert ([MINUS] + digits)[1..] == digits;
    } else {
      assert PrintInt(v) == digits;
      assert IsDigit(digits[0]);
    }
  }

  // Decimal text of n with at least width digits.
  function Pad(n: nat, width: nat): (s: Bytes)
    ensures AllDigits(s) && |s| >= width
  {
    var s := PrintNat(n);
    Zeros(width - |s|) + s
  }

  function Zeros(k: int): (s: Bytes)
    ensures AllDigits(s) && |s| == if k < 0 then 0 else k
    ensures forall i :: 0 <= i < |s| ==> s[i] == DIGIT_0
  {
    if k <= 0 then [] else seq(k, _ => DIGIT_0)
  }

  lemma {:induction false} LeadingZerosAreIgnored(k: nat, s: Bytes)
    requires AllDigits(s)
    ensures AllDigits(Zeros(k) + s) && DecimalValue(Zeros(k) + s) == DecimalValue(s)
    decreases k, |s|
  {
    var z := Zeros(k) + s;
    if s != [] {
      assert z[..|z| - 1] == Zeros(k) + s[..|s| - 1];
      LeadingZerosAreIgnored(k, s[..|s| - 1]);
    } else if k > 0 {
      assert z[..|z| - 1] == Zeros(k - 1) + [];
      LeadingZerosAreIgnored(k - 1, []);
    }
  }

  lemma PadRoundTrip(n: nat, width: nat)
    ensures DecimalValue(Pad(n, width)) == n
  {
    var s := PrintNat(n);
    PrintNatRoundTrip(n);
    if width >= |s| {
      LeadingZerosAreIgnored(width - |s|, s);
    } else {
      assert Pad(n, width) == s;
    }
  }

  // Length of the leading run of digits.
  function SpanDigits(s: Bytes): (n: nat)
    ensures n <= |s| && AllDigits(s[..n])
    ensures n < |s| ==> !IsDigit(s[n])
  {
    if s == [] || !IsDigit(s[0]) then 0
    else
      var n := 1 + SpanDigits(s[1..]);
      assert s[..n] == [s[0]] + s[1..][..n - 1];
      n
  }

  lemma {:induction false} SpanDigitsStops(digits: Bytes, rest: Bytes)
    requires AllDigits(digits)
    requires rest == [] || !IsDigit(rest[0])
    ensures SpanDigits(digits + rest) == |digits|
  {
    if digits != [] {
      assert (digits + rest)[1..] == digits[1..] + rest;
      SpanDigitsStops(digits[1..], rest);
    } else {
      assert digits + rest == rest;
    }
  }
}
