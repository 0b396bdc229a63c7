/**
 * The second encoder, testdata/verify_vectors.py: arbitrary-precision integers
 * masked to 64 bits and int.to_bytes, in place of Go's conversions and shifts.
 */
module VectorScript {
  import opened Bytes
  import opened Integers
  import opened Digests

  // The width base-256 digits of n, least significant first.
  function LittleEndian(n: nat, width: nat): (b: Bytes)
    ensures |b| == width
  {
    if width == 0 then [] else [n % 256] + LittleEndian(n / 256, width - 1)
  }

  function Reverse(b: Bytes): (r: Bytes)
    ensures |r| == |b|
    ensures forall i :: 0 <= i < |b| ==> r[i] == b[|b| - 1 - i]
  {
    seq(|b|, i requires 0 <= i < |b| => b[|b| - 1 - i])
  }

  // int.to_bytes(width, "big"): little-endian digits, then reversed.
  function ToBytes(n: nat, width: nat): Bytes {
    Reverse(LittleEndian(n, width))
  }

  // Python's v & 0xFFFFFFFFFFFFFFFF on an unbounded integer.
  function Mask64(v: int): uint64 {
    v % TWO_64
  }

  function PyField(data: GoString): Bytes {
    ToBytes(|data|, 8) + data
  }

  function PyInteger(v: int): Bytes {
    ToBytes(Mask64(v), 8)
  }

  function PyBindingPreimage(b: Binding): Bytes {
    PyField(VERSION) + (PyField(b.payer) + (PyField(b.payee) + (PyInteger(b.amountMinor) + (PyInteger(b.feeMinor) +
      (PyField(b.currency) + (PyField(b.reference) + (PyField(b.context) + [])))))))
  }

  lemma {:induction false} ToBytesIsBigEndian(n: nat, width: nat)
    ensures ToBytes(n, width) == ToBigEndian(n, width)
  {
    if width > 0 {
      ToBytesIsBigEndian(n / 256, width - 1);
      assert Reverse([n % 256] + LittleEndian(n / 256, width - 1)) == ToBytes(n / 256, width - 1) + [n % 256];
    }
  }

  lemma EncodersAgreeOnFields(data: GoString, v: int64)
    ensures PyField(data) == Field(data)
    ensures PyInteger(v) == IntField(v)
  {
    ToBytesIsBigEndian(|data|, 8);
    ToBytesIsBigEndian(Mask64(v), 8);
    assert Mask64(v) == ToUint64(v);
  }

  // The two implementations hash the same bytes for every binding, negative amounts included.
  lemma EncodersAgree(b: Binding)
    ensures PyBindingPreimage(b) == BindingPreimage(b)
  {
    EncodersAgreeOnFields(VERSION, b.amountMinor);
    EncodersAgreeOnFields(b.payer, b.feeMinor);
    EncodersAgreeOnFields(b.payee, 0);
    EncodersAgreeOnFields(b.currency, 0);
    EncodersAgreeOnFields(b.reference, 0);
    EncodersAgreeOnFields(b.context, 0);
  }

  method BindingDigest(sha: Sha256, b: Binding) returns (d: Bytes)
    ensures d == Digest(sha, b)
  {
    var h := new RunningHash();
    h.Write(PyField(VERSION));
    h.Write(PyField(b.payer));
    h.Write(PyField(b.payee));
    h.Write(PyInteger(b.amountMinor));
    h.Write(PyInteger(b.feeMinor));
    h.Write(PyField(b.currency));
    h.Write(PyField(b.reference));
    h.Write(PyField(b.context));
    EightParts(PyField(VERSION), PyField(b.payer), PyField(b.payee), PyInteger(b.amountMinor), PyInteger(b.feeMinor),
               PyField(b.currency), PyField(b.reference), PyField(b.context));
    d := h.HexDigest(sha);
    EncodersAgree(b);
  }
}
