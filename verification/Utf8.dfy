/** UTF-8 as Go's unicode/utf8 reads and writes it (section 4 of RFC 3629). */
module Utf8 {
  import opened Bytes

  predicate Within(s: Bytes, i: nat, lo: int, hi: int) {
    i < |s| && lo <= s[i] <= hi
  }

  // Length of the encoded code point s starts with; 0 when there is none.
  function RuneLen(s: Bytes): (n: nat)
    ensures n <= 4 && n <= |s|
  {
    if s == [] then 0
    else
      var c := s[0];
      if c < 0x80 then 1
      else if 0xC2 <= c <= 0xDF then
        if Within(s, 1, 0x80, 0xBF) then 2 else 0
      else if 0xE0 <= c <= 0xEF then
        var lo := if c == 0xE0 then 0xA0 else 0x80;
        var hi := if c == 0xED then 0x9F else 0xBF;
        if Within(s, 1, lo, hi) && Within(s, 2, 0x80, 0xBF) then 3 else 0
      else if 0xF0 <= c <= 0xF4 then
        var lo := if c == 0xF0 then 0x90 else 0x80;
        var hi := if c == 0xF4 then 0x8F else 0xBF;
        if Within(s, 1, lo, hi) && Within(s, 2, 0x80, 0xBF) && Within(s, 3, 0x80, 0xBF) then 4 else 0
      else 0
  }

  // What follows an encoded code point does not change how it reads.
  lemma RuneLenLocal(s: Bytes, rest: Bytes)
    requires RuneLen(s) > 0
    ensures RuneLen(s[..RuneLen(s)] + rest) == RuneLen(s)
  {
  }

  predicate Valid(s: Bytes) {
    s == [] || (RuneLen(s) > 0 && Valid(s[RuneLen(s)..]))
  }

  // The replacement character U+FFFD.
  const REPLACEMENT: Bytes := [0xEF, 0xBF, 0xBD]

  // Each byte that starts no code point becomes a replacement character.
  function Sanitize(s: Bytes): (t: Bytes)
    ensures |t| >= |s|
    ensures |t| == |s| <==> Valid(s)
  {
    if s == [] then []
    else if RuneLen(s) == 0 then REPLACEMENT + Sanitize(s[1..])
    else s[..RuneLen(s)] + Sanitize(s[RuneLen(s)..])
  }

  lemma {:induction false} SanitizeKeepsValid(s: Bytes)
    ensures Sanitize(s) == s <==> Valid(s)
  {
    if s != [] && RuneLen(s) > 0 {
      SanitizeKeepsValid(s[RuneLen(s)..]);
    }
  }

  // utf8.AppendRune for a code point that is not a surrogate.
  function EncodeRune(r: int): (s: Bytes)
    requires 0 <= r < 0x110000
  {
    if r < 0x80 then [r]
    else if r < 0x800 then [0xC0 + r / 64, 0x80 + r % 64]
    else if r < 0x10000 then [0xE0 + r / 4096, 0x80 + r / 64 % 64, 0x80 + r % 64]
    else [0xF0 + r / 262144, 0x80 + r / 4096 % 64, 0x80 + r / 64 % 64, 0x80 + r % 64]
  }

  predicate IsScalar(r: int) {
    0 <= r < 0x110000 && !(0xD800 <= r < 0xE000)
  }

  // Every code point but a surrogate encodes to one valid sequence of its own length.
  lemma EncodedIsValid(r: int)
    requires IsScalar(r)
    ensures RuneLen(EncodeRune(r)) == |EncodeRune(r)| && Valid(EncodeRune(r))
  {
    var s := EncodeRune(r);
    assert s[|s|..] == [];
  }

  // Payload bits put together come apart again.
  lemma TwoBytes(a: int, b: int)
    requires 2 <= a < 32 && 0 <= b < 64
    ensures var r := a * 64 + b; 0x80 <= r < 0x800 && r / 64 == a && r % 64 == b
  {
  }

  lemma ThreeBytes(a: int, b: int, c: int)
    requires 0 <= a < 16 && 0 <= b < 64 && 0 <= c < 64
    ensures var r := a * 4096 + b * 64 + c;
            0 <= r < 0x10000 && r / 4096 == a && r / 64 == a * 64 + b && r / 64 % 64 == b && r % 64 == c
  {
    var r := a * 4096 + b * 64 + c;
    assert r == (a * 64 + b) * 64 + c;
    assert r / 64 == a * 64 + b;
  }

  lemma FourBytes(a: int, b: int, c: int, d: int)
    requires 0 <= a < 5 && 0 <= b < 64 && 0 <= c < 64 && 0 <= d < 64
    ensures var r := a * 262144 + b * 4096 + c * 64 + d;
            r / 262144 == a && r / 4096 % 64 == b && r / 64 % 64 == c && r % 64 == d
  {
    var r, h := a * 262144 + b * 4096 + c * 64 + d, a * 64 + b;
    assert r == h * 4096 + (c * 64 + d);
    assert r / 4096 == h;
    assert r == (h * 64 + c) * 64 + d;
    assert r / 64 == h * 64 + c;
  }

  // And every sequence that starts a text is the encoding of one.
  lemma FirstRune(s: Bytes) returns (r: int)
    requires RuneLen(s) > 0
    ensures IsScalar(r) && EncodeRune(r) == s[..RuneLen(s)]
  {
    var n := RuneLen(s);
    var a: int := s[0];
    if n == 1 {
      r := a;
    } else if n == 2 {
      var b: int := s[1] as int - 0x80;
      r := (a - 0xC0) * 64 + b;
      TwoBytes(a - 0xC0, b);
    } else if n == 3 {
      var b: int, c: int := s[1] as int - 0x80, s[2] as int - 0x80;
      r := (a - 0xE0) * 4096 + b * 64 + c;
      ThreeBytes(a - 0xE0, b, c);
      assert r >= 0x800 && IsScalar(r);
    } else {
      var b: int, c: int, d: int := s[1] as int - 0x80, s[2] as int - 0x80, s[3] as int - 0x80;
      r := (a - 0xF0) * 262144 + b * 4096 + c * 64 + d;
      FourBytes(a - 0xF0, b, c, d);
      assert r >= 0x10000 && IsScalar(r);
    }
  }

  // A text starts with an encoded code point exactly when it starts with some
  // code point's encoding, and then that encoding is the only one.
  lemma RuneLenExactly(s: Bytes, r: int)
    requires IsScalar(r) && EncodeRune(r) <= s
    ensures RuneLen(s) == |EncodeRune(r)|
  {
    EncodedIsValid(r);
    RuneLenLocal(EncodeRune(r), s[|EncodeRune(r)|..]);
    assert EncodeRune(r) + s[|EncodeRune(r)|..] == s;
    assert EncodeRune(r)[..RuneLen(EncodeRune(r))] == EncodeRune(r);
  }

  lemma ReplacementIsRune()
    ensures REPLACEMENT == EncodeRune(0xFFFD)
  {
  }

  // What replacement produces is always valid.
  lemma {:induction false} SanitizeIsValid(s: Bytes)
    ensures Valid(Sanitize(s))
  {
    if s != [] {
      var n := RuneLen(s);
      var head := if n == 0 then REPLACEMENT else s[..n];
      var tail := Sanitize(if n == 0 then s[1..] else s[n..]);
      SanitizeIsValid(if n == 0 then s[1..] else s[n..]);
      if n > 0 {
        RuneLenLocal(s, tail);
      }
      assert Sanitize(s) == head + tail;
      assert RuneLen(head + tail) == |head|;
      assert (head + tail)[|head|..] == tail;
    }
  }
}
