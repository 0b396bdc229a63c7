/**
 * The length-prefixed digests of authority.go: the bytes that are hashed, a
 * parser that recovers every field from them, and the imperative encoder that
 * feeds them to a running hash.
 *
 * SHA-256 is any function from byte strings to 32 bytes. Nothing here assumes
 * it injective: where two inputs must be equal, the theorem says they are
 * equal or names the two different inputs that hash alike.
 */
module Digests {
  import opened Bytes
  import opened Integers

  type Sum256 = b: Bytes | |b| == 32 witness seq(32, _ => 0)
  type Sha256 = Bytes -> Sum256

  // x and y are a collision: different inputs, one hash value.
  ghost predicate Collide(sha: Sha256, x: Bytes, y: Bytes) {
    x != y && sha(x) == sha(y)
  }

  /* ---- hexadecimal text ---- */

  function HexDigit(n: int): byte
    requires 0 <= n < 16
  {
    if n < 10 then 48 + n else 87 + n
  }

  function Hex(b: Bytes): (s: Bytes)
    ensures |s| == 2 * |b|
  {
    if b == [] then [] else [HexDigit(b[0] / 16), HexDigit(b[0] % 16)] + Hex(b[1..])
  }

  lemma {:induction false} HexInjective(a: Bytes, b: Bytes)
    requires Hex(a) == Hex(b)
    ensures a == b
  {
    assert |a| == |b|;
    if a != [] {
      var x, y := Hex(a), Hex(b);
      assert x[0] == HexDigit(a[0] / 16) && x[1] == HexDigit(a[0] % 16);
      assert y[0] == HexDigit(b[0] / 16) && y[1] == HexDigit(b[0] % 16);
      assert a[0] == b[0];
      assert x[2..] == Hex(a[1..]) && y[2..] == Hex(b[1..]);
      HexInjective(a[1..], b[1..]);
    }
  }

  // Two lower-case digits a byte, the high half first.
  predicate IsHexDigit(c: byte, n: int) {
    (48 <= c <= 57 && n == c - 48) || (97 <= c <= 102 && n == c - 87)
  }

  lemma {:induction false} HexDigits(b: Bytes, i: nat)
    requires i < |b|
    ensures IsHexDigit(Hex(b)[2 * i], b[i] / 16) && IsHexDigit(Hex(b)[2 * i + 1], b[i] % 16)
  {
    if i > 0 {
      HexDigits(b[1..], i - 1);
    }
  }

  // hex.EncodeToString of a hash.
  function HexSum(sha: Sha256, preimage: Bytes): (s: Bytes)
    ensures |s| == 64
  {
    Hex(sha(preimage))
  }

  lemma EqualSums(sha: Sha256, x: Bytes, y: Bytes)
    requires HexSum(sha, x) == HexSum(sha, y)
    ensures x == y || Collide(sha, x, y)
  {
    HexInjective(sha(x), sha(y));
  }

  /* ---- fields ---- */

  function Field(b: GoString): Bytes {
    ToBigEndian(|b|, 8) + b
  }

  function IntField(v: int64): Bytes {
    ToBigEndian(ToUint64(v), 8)
  }

  function ReadField(b: Bytes): Option<(GoString, Bytes)> {
    var (n, rest) :- ReadUint64(b);
    if n >= MAX_LEN || n > |rest| then None else Some((rest[..n], rest[n..]))
  }

  function ReadIntField(b: Bytes): Option<(int64, Bytes)> {
    var (n, rest) :- ReadUint64(b);
    Some((ToInt64(n), rest))
  }

  lemma ReadFieldInverts(f: GoString, rest: Bytes)
    ensures ReadField(Field(f) + rest) == Some((f, rest))
  {
    assert Field(f) + rest == ToBigEndian(|f|, 8) + (f + rest);
    ReadUint64Inverts(|f|, f + rest);
    TakeAppend(f, rest);
  }

  lemma ReadIntFieldInverts(v: int64, rest: Bytes)
    ensures ReadIntField(IntField(v) + rest) == Some((v, rest))
  {
    ReadUint64Inverts(ToUint64(v), rest);
  }

  /* ---- the binding ---- */

  const VERSION: GoString := Ascii("bounded-authority/1")

  datatype Binding = Binding(
    payer: GoString, payee: GoString, amountMinor: int64, feeMinor: int64,
    currency: GoString, reference: GoString, context: GoString)

  // The bytes Binding.Digest feeds to the hash.
  function BindingPreimage(b: Binding): Bytes {
    Field(VERSION) + (Field(b.payer) + (Field(b.payee) + (IntField(b.amountMinor) + (IntField(b.feeMinor) +
      (Field(b.currency) + (Field(b.reference) + (Field(b.context) + [])))))))
  }

  function Digest(sha: Sha256, b: Binding): (d: Bytes)
    ensures |d| == 64
  {
    HexSum(sha, BindingPreimage(b))
  }

  function ParseBinding(s: Bytes): Option<Binding> {
    var (version, s) :- ReadField(s);
    var (payer, s) :- ReadField(s);
    var (payee, s) :- ReadField(s);
    var (amount, s) :- ReadIntField(s);
    var (fee, s) :- ReadIntField(s);
    var (currency, s) :- ReadField(s);
    var (reference, s) :- ReadField(s);
    var (context, s) :- ReadField(s);
    if version != VERSION || s != [] then None
    else Some(Binding(payer, payee, amount, fee, currency, reference, context))
  }

  // Every field is recovered from the preimage, whatever the lengths and signs.
  lemma BindingPreimageParses(b: Binding)
    ensures ParseBinding(BindingPreimage(b)) == Some(b)
  {
    var s7 := Field(b.context) + [];
    var s6 := Field(b.reference) + s7;
    var s5 := Field(b.currency) + s6;
    var s4 := IntField(b.feeMinor) + s5;
    var s3 := IntField(b.amountMinor) + s4;
    var s2 := Field(b.payee) + s3;
    var s1 := Field(b.payer) + s2;
    ReadFieldInverts(VERSION, s1);
    ReadFieldInverts(b.payer, s2);
    ReadFieldInverts(b.payee, s3);
    ReadIntFieldInverts(b.amountMinor, s4);
    ReadIntFieldInverts(b.feeMinor, s5);
    ReadFieldInverts(b.currency, s6);
    ReadFieldInverts(b.reference, s7);
    ReadFieldInverts(b.context, []);
  }

  // Equal digests mean the same transaction, or exhibit a collision.
  lemma DigestDeterminesBinding(sha: Sha256, a: Binding, b: Binding)
    ensures Digest(sha, a) == Digest(sha, b) <==>
            a == b || Collide(sha, BindingPreimage(a), BindingPreimage(b))
  {
    BindingPreimageParses(a);
    BindingPreimageParses(b);
    if Digest(sha, a) == Digest(sha, b) {
      EqualSums(sha, BindingPreimage(a), BindingPreimage(b));
    }
  }

  /* ---- the encoder ---- */

  // hash.Hash: everything written so far is what will be hashed.
  class RunningHash {
    var written: Bytes

    constructor ()
      ensures written == []
    {
      written := [];
    }

    method Write(p: Bytes)
      modifies this
      ensures written == old(written) + p
    {
      written := written + p;
    }

    method HexDigest(sha: Sha256) returns (s: Bytes)
      ensures s == HexSum(sha, written)
    {
      s := Hex(sha(written));
    }
  }

  // The shift-and-truncate form of binary.BigEndian.PutUint64.
  function Shifted(v: uint64): Bytes {
    [v / 0x100_0000_0000_0000, v / 0x1_0000_0000_0000 % 256, v / 0x100_0000_0000 % 256, v / 0x1_0000_0000 % 256,
     v / 0x100_0000 % 256, v / 0x1_0000 % 256, v / 0x100 % 256, v % 256]
  }

  lemma ShiftedIsBigEndian(v: uint64)
    ensures Shifted(v) == ToBigEndian(v, 8)
  {
    DivDiv(v, 0x100, 256);
    DivDiv(v, 0x1_0000, 256);
    DivDiv(v, 0x100_0000, 256);
    DivDiv(v, 0x1_0000_0000, 256);
    DivDiv(v, 0x100_0000_0000, 256);
    DivDiv(v, 0x1_0000_0000_0000, 256);
    var v1 := v / 256;
    var v2 := v1 / 256;
    var v3 := v2 / 256;
    var v4 := v3 / 256;
    var v5 := v4 / 256;
    var v6 := v5 / 256;
    var v7 := v6 / 256;
    assert ToBigEndian(v7, 1) == [v7 % 256];
    assert ToBigEndian(v6, 2) == [v7 % 256, v6 % 256];
    assert ToBigEndian(v5, 3) == [v7 % 256, v6 % 256, v5 % 256];
    assert ToBigEndian(v4, 4) == [v7 % 256, v6 % 256, v5 % 256, v4 % 256];
    assert ToBigEndian(v3, 5) == [v7 % 256, v6 % 256, v5 % 256, v4 % 256, v3 % 256];
    assert ToBigEndian(v2, 6) == [v7 % 256, v6 % 256, v5 % 256, v4 % 256, v3 % 256, v2 % 256];
    assert ToBigEndian(v1, 7) == [v7 % 256, v6 % 256, v5 % 256, v4 % 256, v3 % 256, v2 % 256, v1 % 256];
  }

  lemma DivDiv(n: nat, a: nat, b: nat)
    requires a > 0 && b > 0
    ensures a * b > 0 && n / (a * b) == n / a / b
  {
    MulNonNegative(a - 1, b - 1);
    assert (a - 1) * (b - 1) == a * b - a - b + 1;
    var q, r := n / a, n % a;
    var q', r' := q / b, q % b;
    assert n == a * (b * q' + r') + r;
    assert a * (b * q' + r') == (a * b) * q' + a * r';
    MulStrictlyIncreases(a, r', b);
    MulNonNegative(a, r');
    DivModUnique(n, a * b, q', a * r' + r);
  }

  method PutUint64(n: array<byte>, v: uint64)
    requires n.Length == 8
    modifies n
    ensures n[..] == ToBigEndian(v, 8)
  {
    n[0] := v / 0x100_0000_0000_0000;
    n[1] := v / 0x1_0000_0000_0000 % 256;
    n[2] := v / 0x100_0000_0000 % 256;
    n[3] := v / 0x1_0000_0000 % 256;
    n[4] := v / 0x100_0000 % 256;
    n[5] := v / 0x1_0000 % 256;
    n[6] := v / 0x100 % 256;
    n[7] := v % 256;
    assert n[..] == Shifted(v);
    ShiftedIsBigEndian(v);
  }

  method WriteField(h: RunningHash, b: GoString)
    modifies h
    ensures h.written == old(h.written) + Field(b)
  {
    var n := new byte[8](_ => 0);
    PutUint64(n, |b|);
    h.Write(n[..]);
    h.Write(b);
    assert old(h.written) + n[..] + b == old(h.written) + (n[..] + b);
  }

  method WriteInt(h: RunningHash, v: int64)
    modifies h
    ensures h.written == old(h.written) + IntField(v)
  {
    var n := new byte[8](_ => 0);
    PutUint64(n, ToUint64(v));
    h.Write(n[..]);
  }

  // Writing one part after another gives the parts in order.
  lemma EightParts(a: Bytes, b: Bytes, c: Bytes, d: Bytes, e: Bytes, f: Bytes, g: Bytes, h: Bytes)
    ensures [] + a + b + c + d + e + f + g + h == a + (b + (c + (d + (e + (f + (g + (h + [])))))))
  {
    assert e + f + g + h == e + (f + (g + (h + [])));
    assert [] + a + b + c + d == a + (b + (c + d));
  }

  method BindingDigest(sha: Sha256, b: Binding) returns (d: Bytes)
    ensures d == Digest(sha, b)
  {
    var h := new RunningHash();
    WriteField(h, VERSION);
    WriteField(h, b.payer);
    WriteField(h, b.payee);
    WriteInt(h, b.amountMinor);
    WriteInt(h, b.feeMinor);
    WriteField(h, b.currency);
    WriteField(h, b.reference);
    WriteField(h, b.context);
    EightParts(Field(VERSION), Field(b.payer), Field(b.payee), IntField(b.amountMinor), IntField(b.feeMinor),
               Field(b.currency), Field(b.reference), Field(b.context));
    d := h.HexDigest(sha);
  }

  /* ---- layout ---- */

  // The bytes of a field of fewer than 256 bytes.
  lemma ShortField(b: GoString)
    requires |b| < 256
    ensures Field(b) == [0, 0, 0, 0, 0, 0, 0, |b|] + b
  {
    ShiftedIsBigEndian(|b|);
    assert Shifted(|b|) == [0, 0, 0, 0, 0, 0, 0, |b|];
  }

  lemma VersionField()
    ensures Field(VERSION)
            == [0, 0, 0, 0, 0, 0, 0, 19]
               + [98, 111, 117, 110, 100, 101, 100, 45, 97, 117, 116, 104, 111, 114, 105, 116, 121, 47, 49]
  {
    ShortField(VERSION);
  }

  // An amount as Go shifts it: negative numbers count down from 2^64.
  lemma IntFieldBytes(v: int64)
    ensures IntField(v) == Shifted(if v < 0 then v + 0x1_0000_0000_0000_0000 else v)
  {
    ShiftedIsBigEndian(ToUint64(v));
  }

  lemma LeastAmount(v: int64)
    requires v == -0x8000_0000_0000_0000
    ensures IntField(v) == [128, 0, 0, 0, 0, 0, 0, 0]
  {
    IntFieldBytes(v);
    LeastShifted();
  }

  lemma LeastShifted()
    ensures Shifted(0x8000_0000_0000_0000) == [128, 0, 0, 0, 0, 0, 0, 0]
  {
  }

  lemma MinusOne(v: int64)
    requires v == -1
    ensures IntField(v) == [255, 255, 255, 255, 255, 255, 255, 255]
  {
    IntFieldBytes(v);
  }

  // The published vector with the extreme amounts: what is hashed, byte for byte.
  lemma NegativeAmountVector(b: Binding)
    requires b == Binding([97], [98], -0x8000_0000_0000_0000, -1, [71, 72, 83], [114], [])
    ensures BindingPreimage(b)
            == ([0, 0, 0, 0, 0, 0, 0, 19]
                + [98, 111, 117, 110, 100, 101, 100, 45, 97, 117, 116, 104, 111, 114, 105, 116, 121, 47, 49])
               + (([0, 0, 0, 0, 0, 0, 0, 1] + [97]) + (([0, 0, 0, 0, 0, 0, 0, 1] + [98])
               + ([128, 0, 0, 0, 0, 0, 0, 0] + ([255, 255, 255, 255, 255, 255, 255, 255]
               + (([0, 0, 0, 0, 0, 0, 0, 3] + [71, 72, 83]) + (([0, 0, 0, 0, 0, 0, 0, 1] + [114])
               + (([0, 0, 0, 0, 0, 0, 0, 0] + []) + [])))))))
  {
    VersionField();
    LeastAmount(b.amountMinor);
    MinusOne(b.feeMinor);
    ShortField(b.payer);
    ShortField(b.payee);
    ShortField(b.currency);
    ShortField(b.reference);
    ShortField(b.context);
  }
}
