/**
 * The JSON text of a payload: encoding/json's string and integer printing, and
 * its scanner and string decoder (sections 6 and 7 of RFC 8259).
 */
module Json {
  import opened Bytes
  import opened Integers
  import opened Utf8

  const QUOTE: byte := 34
  const COMMA: byte := 44
  const COLON: byte := 58
  const BACKSLASH: byte := 92
  const LOWER_U: byte := 117

  /* ---- printing strings ---- */

  function LowerHex(n: int): byte
    requires 0 <= n < 16
  {
    if n < 10 then 48 + n else 87 + n
  }

  // One ASCII byte inside a string, with the HTML characters escaped too.
  function EscapeAscii(c: byte): Bytes
    requires c < 128
  {
    if c == QUOTE || c == BACKSLASH then [BACKSLASH, c]
    else if c == 8 then [BACKSLASH, 98]
    else if c == 12 then [BACKSLASH, 102]
    else if c == 10 then [BACKSLASH, 110]
    else if c == 13 then [BACKSLASH, 114]
    else if c == 9 then [BACKSLASH, 116]
    else if c < 32 || c == 38 || c == 60 || c == 62 then
      [BACKSLASH, LOWER_U, 48, 48, LowerHex(c / 16), LowerHex(c % 16)]
    else [c]
  }

  // The first code point of s, or its first byte when that is not UTF-8.
  function EscapeFirst(s: Bytes): Bytes
    requires s != []
  {
    var n := RuneLen(s);
    if n == 0 then [BACKSLASH, LOWER_U, 102, 102, 102, 100]
    else if n == 1 then EscapeAscii(s[0])
    else if s[..n] == [0xE2, 0x80, 0xA8] then [BACKSLASH, LOWER_U, 50, 48, 50, 56]
    else if s[..n] == [0xE2, 0x80, 0xA9] then [BACKSLASH, LOWER_U, 50, 48, 50, 57]
    else s[..n]
  }

  function FirstLen(s: Bytes): (n: nat)
    requires s != []
    ensures 1 <= n <= |s|
  {
    if RuneLen(s) == 0 then 1 else RuneLen(s)
  }

  function Escape(s: Bytes): Bytes {
    if s == [] then [] else EscapeFirst(s) + Escape(s[FirstLen(s)..])
  }

  function Quote(s: Bytes): Bytes {
    [QUOTE] + Escape(s) + [QUOTE]
  }

  // What may stand in a printed string: no control character and none that HTML
  // gives a meaning, whatever the text.
  predicate Harmless(c: byte) {
    c >= 32 && c != '<' as int && c != '>' as int && c != '&' as int
  }

  lemma FirstIsHarmless(s: Bytes)
    requires s != []
    ensures forall i :: 0 <= i < |EscapeFirst(s)| ==> Harmless(EscapeFirst(s)[i])
  {
    var n := RuneLen(s);
    if n > 1 {
      LongRunesAreHigh(s);
    }
  }

  lemma LongRunesAreHigh(s: Bytes)
    requires RuneLen(s) > 1
    ensures forall i :: 0 <= i < RuneLen(s) ==> s[i] >= 0x80
  {
  }

  lemma {:induction false} EscapedIsHarmless(s: Bytes)
    ensures forall i :: 0 <= i < |Escape(s)| ==> Harmless(Escape(s)[i])
  {
    if s != [] {
      FirstIsHarmless(s);
      EscapedIsHarmless(s[FirstLen(s)..]);
    }
  }

  // The escapes Go chooses, where JSON leaves a choice.
  lemma ShortEscapes()
    ensures EscapeAscii(8) == Ascii("\\b") && EscapeAscii(9) == Ascii("\\t") && EscapeAscii(10) == Ascii("\\n")
    ensures EscapeAscii(12) == Ascii("\\f") && EscapeAscii(13) == Ascii("\\r")
    ensures EscapeAscii('"' as int) == Ascii("\\\"") && EscapeAscii('\\' as int) == Ascii("\\\\")
  {
  }

  lemma LongEscapes()
    ensures EscapeAscii('<' as int) == Ascii("\\u003c") && EscapeAscii('>' as int) == Ascii("\\u003e")
    ensures EscapeAscii('&' as int) == Ascii("\\u0026") && EscapeAscii(31) == Ascii("\\u001f")
  {
  }

  // Line and paragraph separators, and bytes that are not UTF-8.
  lemma RuneEscapes(s: Bytes)
    requires s != []
    ensures EncodeRune(0x2028) <= s ==> EscapeFirst(s) == Ascii("\\u2028")
    ensures EncodeRune(0x2029) <= s ==> EscapeFirst(s) == Ascii("\\u2029")
    ensures RuneLen(s) == 0 ==> EscapeFirst(s) == Ascii("\\ufffd")
  {
    if EncodeRune(0x2028) <= s {
      assert EncodeRune(0x2028) == [0xE2, 0x80, 0xA8];
      RuneLenExactly(s, 0x2028);
    } else if EncodeRune(0x2029) <= s {
      assert EncodeRune(0x2029) == [0xE2, 0x80, 0xA9];
      RuneLenExactly(s, 0x2029);
    }
  }

  /* ---- reading strings ---- */

  function HexValue(c: byte): (v: Option<int>)
    ensures v.Some? ==> 0 <= v.value < 16
  {
    if 48 <= c <= 57 then Some(c - 48)
    else if 97 <= c <= 102 then Some(c - 87)
    else if 65 <= c <= 70 then Some(c - 55)
    else None
  }

  // The code unit of a \uXXXX escape at the head of s.
  function CodeUnit(s: Bytes): (v: Option<int>)
    ensures v.Some? ==> 0 <= v.value < 0x10000 && |s| >= 6
  {
    if |s| < 6 || s[0] != BACKSLASH || s[1] != LOWER_U then None
    else
      var a :- HexValue(s[2]);
      var b :- HexValue(s[3]);
      var c :- HexValue(s[4]);
      var d :- HexValue(s[5]);
      Some(a * 4096 + b * 256 + c * 16 + d)
  }

  // An escape sequence: its UTF-8 bytes and the input after it. A surrogate
  // that is not followed by its other half reads as the replacement character.
  function ReadEscape(s: Bytes): (r: Option<(Bytes, Bytes)>)
    requires s != [] && s[0] == BACKSLASH
    ensures r.Some? ==> |r.value.1| < |s|
  {
    if |s| < 2 then None
    else
      var c := s[1];
      if c == QUOTE || c == BACKSLASH || c == 47 then Some(([c], s[2..]))
      else if c == 98 then Some(([8], s[2..]))
      else if c == 102 then Some(([12], s[2..]))
      else if c == 110 then Some(([10], s[2..]))
      else if c == 114 then Some(([13], s[2..]))
      else if c == 116 then Some(([9], s[2..]))
      else
        var unit :- CodeUnit(s);
        if !(0xD800 <= unit < 0xE000) then Some((EncodeRune(unit), s[6..]))
        else
          var low := CodeUnit(s[6..]);
          if unit < 0xDC00 && low.Some? && 0xDC00 <= low.value < 0xE000
          then Some((EncodeRune(0x10000 + (unit - 0xD800) * 1024 + (low.value - 0xDC00)), s[12..]))
          else Some((REPLACEMENT, s[6..]))
  }

  // The next piece of a string's content.
  function ReadPiece(s: Bytes): (r: Option<(Bytes, Bytes)>)
    requires s != []
    ensures r.Some? ==> |r.value.1| < |s|
  {
    if s[0] < 32 then None
    else if s[0] == BACKSLASH then ReadEscape(s)
    else if RuneLen(s) == 0 then Some((REPLACEMENT, s[1..]))
    else Some((s[..RuneLen(s)], s[RuneLen(s)..]))
  }

  // A string's content up to and including the closing quote.
  function ReadText(s: Bytes): (r: Option<(Bytes, Bytes)>)
    ensures r.Some? ==> |r.value.1| < |s|
  {
    if s == [] then None
    else if s[0] == QUOTE then Some(([], s[1..]))
    else
      var (piece, s) :- ReadPiece(s);
      var (text, s) :- ReadText(s);
      Some((piece + text, s))
  }

  lemma AsciiPiece(c: byte, rest: Bytes)
    requires c < 128
    ensures EscapeAscii(c) != [] && EscapeAscii(c)[0] != QUOTE
    ensures ReadPiece(EscapeAscii(c) + rest) == Some(([c], rest))
  {
    var s := EscapeAscii(c) + rest;
    assert s[|EscapeAscii(c)|..] == rest;
    if |EscapeAscii(c)| == 6 {
      assert HexValue(s[4]) == Some(c / 16) && HexValue(s[5]) == Some(c % 16);
      assert CodeUnit(s) == Some(c);
    } else if |EscapeAscii(c)| == 1 {
      assert RuneLen(s) == 1 && s[..1] == [c];
    }
  }

  // Whatever is printed for the first code point reads back as that code point.
  lemma PieceRoundTrip(s: Bytes, rest: Bytes)
    requires s != []
    ensures EscapeFirst(s) != [] && EscapeFirst(s)[0] != QUOTE
    ensures ReadPiece(EscapeFirst(s) + rest)
            == Some((if RuneLen(s) == 0 then REPLACEMENT else s[..RuneLen(s)], rest))
  {
    var n := RuneLen(s);
    var t := EscapeFirst(s) + rest;
    if n == 1 {
      AsciiPiece(s[0], rest);
      assert s[..1] == [s[0]];
    } else if n == 0 || s[..n] == [0xE2, 0x80, 0xA8] || s[..n] == [0xE2, 0x80, 0xA9] {
      assert t[6..] == rest;
      assert CodeUnit(t) == Some(if n == 0 then 0xFFFD else if s[2] == 0xA8 then 0x2028 else 0x2029);
      assert EncodeRune(0xFFFD) == REPLACEMENT;
    } else {
      RuneLenLocal(s, rest);
      assert t[..n] == s[..n] && t[n..] == rest;
    }
  }

  // A printed string reads back as itself with every byte that is not UTF-8 replaced.
  lemma {:induction false} TextRoundTrip(s: Bytes, rest: Bytes)
    ensures ReadText(Escape(s) + [QUOTE] + rest) == Some((Sanitize(s), rest))
    decreases |s|
  {
    if s == [] {
      assert Escape(s) + [QUOTE] + rest == [QUOTE] + rest;
    } else {
      var tail := s[FirstLen(s)..];
      TextRoundTrip(tail, rest);
      assert Escape(s) + [QUOTE] + rest == EscapeFirst(s) + (Escape(tail) + [QUOTE] + rest);
      PieceRoundTrip(s, Escape(tail) + [QUOTE] + rest);
    }
  }

  /* ---- values ---- */

  // A number keeps its text, as encoding/json's scanner does.
  datatype Value =
    | Null
    | Bool(b: bool)
    | Number(digits: Bytes)
    | Text(text: Bytes)
    | Array(elements: seq<Value>)
    | Object(members: seq<(Bytes, Value)>)

  function SkipSpace(s: Bytes): (t: Bytes)
    ensures |t| <= |s|
  {
    if s != [] && (s[0] == 32 || s[0] == 9 || s[0] == 10 || s[0] == 13) then SkipSpace(s[1..]) else s
  }

  predicate StartsWith(s: Bytes, c: byte) {
    s != [] && s[0] == c
  }

  // Length of a fraction at the head of s: 0 when there is none.
  function FractionLen(s: Bytes): Option<nat> {
    if !StartsWith(s, 46) then Some(0)
    else if SpanDigits(s[1..]) == 0 then None
    else Some(1 + SpanDigits(s[1..]))
  }

  function ExponentLen(s: Bytes): Option<nat> {
    if !StartsWith(s, 101) && !StartsWith(s, 69) then Some(0)
    else
      var sign := if StartsWith(s[1..], 43) || StartsWith(s[1..], 45) then 1 else 0;
      var n := SpanDigits(s[1 + sign..]);
      if n == 0 then None else Some(1 + sign + n)
  }

  function ReadNumber(s: Bytes): (r: Option<(Bytes, Bytes)>)
    ensures r.Some? ==> |r.value.1| < |s|
  {
    var sign := if StartsWith(s, MINUS) then 1 else 0;
    var n := SpanDigits(s[sign..]);
    if n == 0 then None
    else
      var i := sign + (if s[sign] == DIGIT_0 then 1 else n);
      var f :- FractionLen(s[i..]);
      if i + f > |s| then None
      else
        var e :- ExponentLen(s[i + f..]);
        if i + f + e > |s| then None else Some((s[..i + f + e], s[i + f + e..]))
  }

  const TRUE: Bytes := [116, 114, 117, 101]
  const FALSE: Bytes := [102, 97, 108, 115, 101]
  const NULL: Bytes := [110, 117, 108, 108]

  function ReadValue(s: Bytes): (r: Option<(Value, Bytes)>)
    ensures r.Some? ==> |r.value.1| < |s|
    decreases |s|, 0
  {
    var s := SkipSpace(s);
    if StartsWith(s, QUOTE) then
      var (text, s) :- ReadText(s[1..]);
      Some((Text(text), s))
    else if StartsWith(s, 123) then
      var s := SkipSpace(s[1..]);
      if StartsWith(s, 125) then Some((Object([]), s[1..]))
      else
        var (members, s) :- ReadMembers(s);
        Some((Object(members), s))
    else if StartsWith(s, 91) then
      var s := SkipSpace(s[1..]);
      if StartsWith(s, 93) then Some((Array([]), s[1..]))
      else
        var (elements, s) :- ReadElements(s);
        Some((Array(elements), s))
    else if StartsWith(s, 116) then
      if TRUE <= s then Some((Bool(true), s[4..])) else None
    else if StartsWith(s, 102) then
      if FALSE <= s then Some((Bool(false), s[5..])) else None
    else if StartsWith(s, 110) then
      if NULL <= s then Some((Null, s[4..])) else None
    else
      var (digits, s) :- ReadNumber(s);
      Some((Number(digits), s))
  }

  // The members of an object, up to and including the closing brace.
  function ReadMembers(s: Bytes): (r: Option<(seq<(Bytes, Value)>, Bytes)>)
    ensures r.Some? ==> |r.value.1| < |s|
    decreases |s|, 0
  {
    var s := SkipSpace(s);
    if !StartsWith(s, QUOTE) then None
    else
      var (key, s) :- ReadText(s[1..]);
      var s := SkipSpace(s);
      if !StartsWith(s, COLON) then None
      else
        var (value, s) :- ReadValue(s[1..]);
        var s := SkipSpace(s);
        if StartsWith(s, 125) then Some(([(key, value)], s[1..]))
        else if StartsWith(s, COMMA) then
          var (others, s) :- ReadMembers(s[1..]);
          Some(([(key, value)] + others, s))
        else None
  }

  function ReadElements(s: Bytes): (r: Option<(seq<Value>, Bytes)>)
    ensures r.Some? ==> |r.value.1| < |s|
    decreases |s|, 1
  {
    var (value, s) :- ReadValue(s);
    var s := SkipSpace(s);
    if StartsWith(s, 93) then Some(([value], s[1..]))
    else if StartsWith(s, COMMA) then
      var (others, s) :- ReadElements(s[1..]);
      Some(([value] + others, s))
    else None
  }

  /* ---- printing flat objects ---- */

  datatype Scalar = Str(text: Bytes) | Int(n: int64)

  function PrintScalar(v: Scalar): Bytes {
    match v
    case Str(text) => Quote(text)
    case Int(n) => PrintInt(n)
  }

  function PrintMember(key: Bytes, v: Scalar): Bytes {
    Quote(key) + ([COLON] + PrintScalar(v))
  }

  // Members and the closing brace.
  function PrintMembers(ms: seq<(Bytes, Scalar)>): Bytes
    requires ms != []
  {
    PrintMember(ms[0].0, ms[0].1) + (if |ms| == 1 then [125] else [COMMA] + PrintMembers(ms[1..]))
  }

  function PrintObject(ms: seq<(Bytes, Scalar)>): Bytes
    requires ms != []
  {
    [123] + PrintMembers(ms)
  }

  // What a reader sees of a printed scalar.
  function Seen(v: Scalar): Value {
    match v
    case Str(text) => Text(Sanitize(text))
    case Int(n) => Number(PrintInt(n))
  }

  function SeenAll(ms: seq<(Bytes, Scalar)>): (r: seq<(Bytes, Value)>)
    ensures |r| == |ms|
  {
    if ms == [] then [] else [(Sanitize(ms[0].0), Seen(ms[0].1))] + SeenAll(ms[1..])
  }

  // A number ends here: what follows a printed integer inside an object.
  predicate EndsNumber(rest: Bytes) {
    rest != [] && (rest[0] == COMMA || rest[0] == 125)
  }

  lemma NothingAfterDigits(rest: Bytes)
    requires EndsNumber(rest)
    ensures FractionLen(rest) == Some(0) && ExponentLen(rest) == Some(0)
  {
  }

  lemma DigitsRead(sign: Bytes, digits: Bytes, rest: Bytes)
    requires sign == [] || sign == [MINUS]
    requires digits != [] && AllDigits(digits) && (digits[0] == DIGIT_0 ==> |digits| == 1)
    requires EndsNumber(rest)
    ensures ReadNumber(sign + digits + rest) == Some((sign + digits, rest))
  {
    var s := sign + digits + rest;
    SpanDigitsStops(digits, rest);
    NothingAfterDigits(rest);
    TakeAppend(sign + digits, rest);
    if sign == [] {
      assert s == digits + rest && s[0..] == s && IsDigit(s[0]);
    } else {
      assert s[1..] == digits + rest && s[0] == MINUS;
    }
    assert s[|sign|] == digits[0];
  }

  lemma NumberRoundTrip(v: int64, rest: Bytes)
    requires EndsNumber(rest)
    ensures ReadNumber(PrintInt(v) + rest) == Some((PrintInt(v), rest))
  {
    var magnitude: nat := if v < 0 then -(v as int) else v;
    var sign := if v < 0 then [MINUS] else [];
    PrintNatRoundTrip(magnitude);
    DigitsRead(sign, PrintNat(magnitude), rest);
    assert PrintInt(v) == sign + PrintNat(magnitude);
  }

  lemma ReadsText(s: Bytes)
    ensures var t := ReadText(s);
            ReadValue([QUOTE] + s) == if t.None? then None else Some((Text(t.value.0), t.value.1))
  {
    assert SkipSpace([QUOTE] + s) == [QUOTE] + s;
    assert ([QUOTE] + s)[1..] == s;
  }

  lemma ReadsNumber(s: Bytes)
    requires s != [] && (s[0] == MINUS || IsDigit(s[0]))
    ensures var t := ReadNumber(s);
            ReadValue(s) == if t.None? then None else Some((Number(t.value.0), t.value.1))
  {
    var t := SkipSpace(s);
    assert t == s;
    assert !StartsWith(t, QUOTE) && !StartsWith(t, 123) && !StartsWith(t, 91);
    assert !StartsWith(t, 116) && !StartsWith(t, 102) && !StartsWith(t, 110);
  }

  lemma ScalarRoundTrip(v: Scalar, rest: Bytes)
    requires EndsNumber(rest)
    ensures ReadValue(PrintScalar(v) + rest) == Some((Seen(v), rest))
  {
    match v {
      case Str(text) =>
        var s := Escape(text) + [QUOTE] + rest;
        assert PrintScalar(v) + rest == [QUOTE] + s;
        TextRoundTrip(text, rest);
        ReadsText(s);
      case Int(n) =>
        NumberRoundTrip(n, rest);
        ReadsNumber(PrintInt(n) + rest);
    }
  }

  // One member and what follows its value.
  lemma ReadsMember(s: Bytes, key: Bytes, s1: Bytes, value: Value, s2: Bytes)
    requires ReadText(s) == Some((key, [COLON] + s1))
    requires ReadValue(s1) == Some((value, s2))
    ensures StartsWith(s2, 125) ==> ReadMembers([QUOTE] + s) == Some(([(key, value)], s2[1..]))
    ensures StartsWith(s2, COMMA) && ReadMembers(s2[1..]).Some? ==>
              var others := ReadMembers(s2[1..]).value;
              ReadMembers([QUOTE] + s) == Some(([(key, value)] + others.0, others.1))
  {
    var t := [QUOTE] + s;
    assert SkipSpace(t) == t && t[1..] == s;
    var c := [COLON] + s1;
    assert SkipSpace(c) == c && c[1..] == s1;
    if StartsWith(s2, 125) || StartsWith(s2, COMMA) {
      assert SkipSpace(s2) == s2;
    }
  }

  lemma MemberConcat(key: Bytes, v: Bytes, tail: Bytes)
    ensures [QUOTE] + key + [QUOTE] + ([COLON] + v) + tail
            == [QUOTE] + (key + [QUOTE] + ([COLON] + (v + tail)))
  {
  }

  lemma MemberRoundTrip(key: Bytes, v: Scalar, tail: Bytes)
    requires EndsNumber(tail)
    ensures tail[0] == 125 ==>
              ReadMembers(PrintMember(key, v) + tail) == Some(([(Sanitize(key), Seen(v))], tail[1..]))
    ensures tail[0] == COMMA && ReadMembers(tail[1..]).Some? ==>
              var others := ReadMembers(tail[1..]).value;
              ReadMembers(PrintMember(key, v) + tail) == Some(([(Sanitize(key), Seen(v))] + others.0, others.1))
  {
    var s1 := PrintScalar(v) + tail;
    var s := Escape(key) + [QUOTE] + ([COLON] + s1);
    TextRoundTrip(key, [COLON] + s1);
    ScalarRoundTrip(v, tail);
    ReadsMember(s, Sanitize(key), s1, Seen(v), tail);
    MemberConcat(Escape(key), PrintScalar(v), tail);
  }

  lemma LastMember(key: Bytes, v: Scalar, rest: Bytes)
    ensures ReadMembers(PrintMember(key, v) + [125] + rest) == Some(([(Sanitize(key), Seen(v))], rest))
  {
    var tail := [125] + rest;
    assert tail[1..] == rest;
    MemberRoundTrip(key, v, tail);
    Concat3(PrintMember(key, v), [125], rest);
  }

  lemma MoreMembers(key: Bytes, v: Scalar, more: Bytes, rest: Bytes)
    requires ReadMembers(more + rest).Some?
    ensures var others := ReadMembers(more + rest).value;
            ReadMembers(PrintMember(key, v) + ([COMMA] + more) + rest)
            == Some(([(Sanitize(key), Seen(v))] + others.0, others.1))
  {
    var tail := [COMMA] + (more + rest);
    assert tail[1..] == more + rest;
    MemberRoundTrip(key, v, tail);
    Concat3([COMMA], more, rest);
    Concat3(PrintMember(key, v), [COMMA] + more, rest);
  }

  lemma {:induction false} MembersRoundTrip(ms: seq<(Bytes, Scalar)>, rest: Bytes)
    requires ms != []
    ensures ReadMembers(PrintMembers(ms) + rest) == Some((SeenAll(ms), rest))
  {
    if |ms| == 1 {
      LastMember(ms[0].0, ms[0].1, rest);
      assert SeenAll(ms[1..]) == [];
      assert SeenAll(ms) == [(Sanitize(ms[0].0), Seen(ms[0].1))];
    } else {
      MembersRoundTrip(ms[1..], rest);
      MoreMembers(ms[0].0, ms[0].1, PrintMembers(ms[1..]), rest);
    }
  }

  lemma ReadsObject(s: Bytes)
    requires StartsWith(s, QUOTE)
    ensures var t := ReadMembers(s);
            ReadValue([123] + s) == if t.None? then None else Some((Object(t.value.0), t.value.1))
  {
    var t := [123] + s;
    assert SkipSpace(t) == t && t[1..] == s && SkipSpace(s) == s;
  }

  // Any flat object reads back as printed, strings made valid UTF-8.
  lemma ObjectRoundTrip(ms: seq<(Bytes, Scalar)>, rest: Bytes)
    requires ms != []
    ensures ReadValue(PrintObject(ms) + rest) == Some((Object(SeenAll(ms)), rest))
  {
    var s := PrintMembers(ms) + rest;
    assert PrintObject(ms) + rest == [123] + s;
    MembersRoundTrip(ms, rest);
    ReadsObject(s);
  }
}
