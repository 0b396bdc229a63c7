/**
 * The payload of a credential and its two readings: json.Unmarshal for the
 * untrusted first look, a strict decoder for the bytes whose signature verified.
 */
module Payloads {
  import opened Bytes
  import opened Integers
  import opened Json
  import Utf8

  /* ---- payloads ---- */

  datatype Payload = Payload(
    version: Bytes, id: Bytes, issuer: Bytes, subject: Bytes, authMethod: Bytes, binding: Bytes,
    issuedAt: int64, expiresAt: int64)

  const NO_PAYLOAD: Payload := Payload([], [], [], [], [], [], 0, 0)

  // The members of the JSON object, in the order of the struct's fields.
  datatype Name = Version | Jti | Iss | Sub | Method | Bound | Iat | Exp

  function NameBytes(n: Name): Bytes {
    match n
    case Version => [118]
    case Jti => [106, 116, 105]
    case Iss => [105, 115, 115]
    case Sub => [115, 117, 98]
    case Method => [109, 101, 116, 104, 111, 100]
    case Bound => [98, 105, 110, 100, 105, 110, 103]
    case Iat => [105, 97, 116]
    case Exp => [101, 120, 112]
  }

  function Times(p: Payload): seq<(Name, Scalar)> {
    [(Iat, Int(p.issuedAt))] + ([(Exp, Int(p.expiresAt))] + [])
  }

  function Claims(p: Payload): seq<(Name, Scalar)> {
    [(Sub, Str(p.subject))] + ([(Method, Str(p.authMethod))] + ([(Bound, Str(p.binding))] + Times(p)))
  }

  function FieldsOf(p: Payload): seq<(Name, Scalar)> {
    [(Version, Str(p.version))] + ([(Jti, Str(p.id))] + ([(Iss, Str(p.issuer))] + Claims(p)))
  }

  function Named(fields: seq<(Name, Scalar)>): (ms: seq<(Bytes, Scalar)>)
    ensures |ms| == |fields|
  {
    if fields == [] then [] else [(NameBytes(fields[0].0), fields[0].1)] + Named(fields[1..])
  }

  // json.Marshal.
  function Print(p: Payload): Bytes {
    PrintObject(Named(FieldsOf(p)))
  }

  // encoding/json matches member names regardless of case; the only character
  // outside ASCII that folds to a letter of these names is the long s, U+017F.
  function FoldName(s: Bytes): Bytes {
    if s == [] then []
    else if [0xC5, 0xBF] <= s then [115] + FoldName(s[2..])
    else [if 65 <= s[0] <= 90 then s[0] + 32 else s[0]] + FoldName(s[1..])
  }

  // A JSON null leaves the field as it was.
  function TextOr(value: Value, current: Bytes): Option<Bytes> {
    match value
    case Text(t) => Some(t)
    case Null => Some(current)
    case _ => None
  }

  function IntOr(value: Value, current: int64): Option<int64> {
    match value
    case Number(digits) => ParseInt64(digits)
    case Null => Some(current)
    case _ => None
  }

  function NameOf(s: Bytes): Option<Name> {
    var t := FoldName(s);
    if t == NameBytes(Version) then Some(Version)
    else if t == NameBytes(Jti) then Some(Jti)
    else if t == NameBytes(Iss) then Some(Iss)
    else if t == NameBytes(Sub) then Some(Sub)
    else if t == NameBytes(Method) then Some(Method)
    else if t == NameBytes(Bound) then Some(Bound)
    else if t == NameBytes(Iat) then Some(Iat)
    else if t == NameBytes(Exp) then Some(Exp)
    else None
  }

  function SetNamed(p: Payload, n: Name, value: Value): Option<Payload> {
    match n
    case Version => var t :- TextOr(value, p.version); Some(p.(version := t))
    case Jti => var t :- TextOr(value, p.id); Some(p.(id := t))
    case Iss => var t :- TextOr(value, p.issuer); Some(p.(issuer := t))
    case Sub => var t :- TextOr(value, p.subject); Some(p.(subject := t))
    case Method => var t :- TextOr(value, p.authMethod); Some(p.(authMethod := t))
    case Bound => var t :- TextOr(value, p.binding); Some(p.(binding := t))
    case Iat => var i :- IntOr(value, p.issuedAt); Some(p.(issuedAt := i))
    case Exp => var i :- IntOr(value, p.expiresAt); Some(p.(expiresAt := i))
  }

  function SetField(p: Payload, name: Bytes, value: Value, strict: bool): Option<Payload> {
    match NameOf(name)
    case Some(n) => SetNamed(p, n, value)
    case None => if strict then None else Some(p)
  }

  // Members are stored in order, so the last of a repeated name wins.
  function Fill(p: Payload, members: seq<(Bytes, Value)>, strict: bool): Option<Payload>
    decreases |members|
  {
    if members == [] then Some(p)
    else
      var p :- SetField(p, members[0].0, members[0].1, strict);
      Fill(p, members[1..], strict)
  }

  function FromValue(v: Value, strict: bool): Option<Payload> {
    match v
    case Null => Some(NO_PAYLOAD)
    case Object(members) => Fill(NO_PAYLOAD, members, strict)
    case _ => None
  }

  // json.Unmarshal: the whole text is one value, and unknown members are skipped.
  function Unmarshal(body: Bytes): Option<Payload> {
    var (v, rest) :- ReadValue(body);
    if SkipSpace(rest) != [] then None else FromValue(v, false)
  }

  // Decoder.Decode with DisallowUnknownFields: the first value of the text.
  function DecodeStrict(body: Bytes): Option<Payload> {
    var (v, _) :- ReadValue(body);
    FromValue(v, true)
  }

  lemma {:induction false} FillStrictIsFill(p: Payload, members: seq<(Bytes, Value)>)
    requires Fill(p, members, true).Some?
    ensures Fill(p, members, false) == Fill(p, members, true)
    decreases |members|
  {
    if members != [] {
      FillStrictIsFill(SetField(p, members[0].0, members[0].1, true).value, members[1..]);
    }
  }

  // The two reads of one body never disagree, whatever bytes were presented.
  lemma ReadsAgree(body: Bytes)
    requires Unmarshal(body).Some? && DecodeStrict(body).Some?
    ensures Unmarshal(body) == DecodeStrict(body)
  {
    var v := ReadValue(body).value.0;
    if v.Object? {
      FillStrictIsFill(NO_PAYLOAD, v.members);
    }
  }

  /* ---- printing and reading back ---- */

  // What survives printing: each byte that is not UTF-8 becomes U+FFFD.
  function Sanitized(p: Payload): Payload {
    Payload(Utf8.Sanitize(p.version), Utf8.Sanitize(p.id), Utf8.Sanitize(p.issuer), Utf8.Sanitize(p.subject),
            Utf8.Sanitize(p.authMethod), Utf8.Sanitize(p.binding), p.issuedAt, p.expiresAt)
  }

  predicate ValidText(p: Payload) {
    && Utf8.Valid(p.version) && Utf8.Valid(p.id) && Utf8.Valid(p.issuer)
    && Utf8.Valid(p.subject) && Utf8.Valid(p.authMethod) && Utf8.Valid(p.binding)
  }

  lemma SanitizedIsIdentity(p: Payload)
    ensures Sanitized(p) == p <==> ValidText(p)
  {
    Utf8.SanitizeKeepsValid(p.version);
    Utf8.SanitizeKeepsValid(p.id);
    Utf8.SanitizeKeepsValid(p.issuer);
    Utf8.SanitizeKeepsValid(p.subject);
    Utf8.SanitizeKeepsValid(p.authMethod);
    Utf8.SanitizeKeepsValid(p.binding);
  }

  lemma {:induction false} AsciiIsPlain(s: Bytes)
    requires forall i :: 0 <= i < |s| ==> s[i] < 128
    ensures Utf8.Sanitize(s) == s
    ensures (forall i :: 0 <= i < |s| ==> 97 <= s[i]) ==> FoldName(s) == s
  {
    if s != [] {
      assert Utf8.RuneLen(s) == 1;
      AsciiIsPlain(s[1..]);
    }
  }

  lemma NamesDiffer(a: Name, b: Name)
    ensures NameBytes(a) == NameBytes(b) ==> a == b
  {
    if NameBytes(a) == NameBytes(b) {
      assert NameBytes(a)[0] == NameBytes(b)[0] && |NameBytes(a)| == |NameBytes(b)|;
      if |NameBytes(a)| == 3 {
        assert NameBytes(a)[1] == NameBytes(b)[1];
      }
    }
  }

  lemma NameRoundTrip(n: Name)
    ensures NameOf(NameBytes(n)) == Some(n)
    ensures Utf8.Sanitize(NameBytes(n)) == NameBytes(n)
  {
    NameIsPlain(n);
    NamesDiffer(n, Version);
    NamesDiffer(n, Jti);
    NamesDiffer(n, Iss);
    NamesDiffer(n, Sub);
    NamesDiffer(n, Method);
    NamesDiffer(n, Bound);
    NamesDiffer(n, Iat);
    NamesDiffer(n, Exp);
  }

  lemma NameIsPlain(n: Name)
    ensures FoldName(NameBytes(n)) == NameBytes(n) && Utf8.Sanitize(NameBytes(n)) == NameBytes(n)
  {
    var s := NameBytes(n);
    assert forall i :: 0 <= i < |s| ==> 97 <= s[i] < 128;
    AsciiIsPlain(s);
  }

  // What a payload looks like after reading fields, the rest being as it was.
  function SetAll(p: Payload, fields: seq<(Name, Scalar)>): Option<Payload>
    decreases |fields|
  {
    if fields == [] then Some(p)
    else
      var p :- SetNamed(p, fields[0].0, Seen(fields[0].1));
      SetAll(p, fields[1..])
  }

  lemma {:induction false} FillNamed(p: Payload, fields: seq<(Name, Scalar)>, strict: bool)
    ensures Fill(p, SeenAll(Named(fields)), strict) == SetAll(p, fields)
    decreases |fields|
  {
    if fields != [] {
      var ms := Named(fields);
      NameRoundTrip(fields[0].0);
      assert ms[1..] == Named(fields[1..]);
      assert SeenAll(ms)[1..] == SeenAll(Named(fields[1..]));
      var q := SetNamed(p, fields[0].0, Seen(fields[0].1));
      if q.Some? {
        FillNamed(q.value, fields[1..], strict);
      }
    }
  }

  lemma SetOne(p: Payload, f: (Name, Scalar), fields: seq<(Name, Scalar)>)
    requires SetNamed(p, f.0, Seen(f.1)).Some?
    ensures SetAll(p, [f] + fields) == SetAll(SetNamed(p, f.0, Seen(f.1)).value, fields)
  {
    assert ([f] + fields)[1..] == fields;
  }

  lemma IntIsRead(v: int64, current: int64)
    ensures IntOr(Seen(Int(v)), current) == Some(v)
  {
    ParseInt64Inverts(v);
  }

  lemma SetTimes(q: Payload, p: Payload)
    ensures SetAll(q, Times(p)) == Some(q.(issuedAt := p.issuedAt, expiresAt := p.expiresAt))
  {
    var f8 := [(Exp, Int(p.expiresAt))] + [];
    IntIsRead(p.issuedAt, q.issuedAt);
    IntIsRead(p.expiresAt, q.expiresAt);
    SetOne(q, (Iat, Int(p.issuedAt)), f8);
    SetOne(q.(issuedAt := p.issuedAt), (Exp, Int(p.expiresAt)), []);
  }

  lemma SetClaims(q: Payload, p: Payload)
    ensures SetAll(q, Claims(p))
            == Some(q.(subject := Utf8.Sanitize(p.subject), authMethod := Utf8.Sanitize(p.authMethod),
                       binding := Utf8.Sanitize(p.binding), issuedAt := p.issuedAt, expiresAt := p.expiresAt))
  {
    var f6 := [(Bound, Str(p.binding))] + Times(p);
    var f5 := [(Method, Str(p.authMethod))] + f6;
    var q4 := q.(subject := Utf8.Sanitize(p.subject));
    var q5 := q4.(authMethod := Utf8.Sanitize(p.authMethod));
    SetOne(q, (Sub, Str(p.subject)), f5);
    SetOne(q4, (Method, Str(p.authMethod)), f6);
    SetOne(q5, (Bound, Str(p.binding)), Times(p));
    SetTimes(q5.(binding := Utf8.Sanitize(p.binding)), p);
  }

  lemma SetFields(p: Payload)
    ensures SetAll(NO_PAYLOAD, FieldsOf(p)) == Some(Sanitized(p))
  {
    var f3 := [(Iss, Str(p.issuer))] + Claims(p);
    var f2 := [(Jti, Str(p.id))] + f3;
    var q1 := NO_PAYLOAD.(version := Utf8.Sanitize(p.version));
    var q2 := q1.(id := Utf8.Sanitize(p.id));
    SetOne(NO_PAYLOAD, (Version, Str(p.version)), f2);
    SetOne(q1, (Jti, Str(p.id)), f3);
    SetOne(q2, (Iss, Str(p.issuer)), Claims(p));
    SetClaims(q2.(issuer := Utf8.Sanitize(p.issuer)), p);
  }

  // Both reads of a printed payload return it, sanitized.
  lemma PayloadRoundTrip(p: Payload)
    ensures Unmarshal(Print(p)) == Some(Sanitized(p))
    ensures DecodeStrict(Print(p)) == Some(Sanitized(p))
  {
    var ms := Named(FieldsOf(p));
    ObjectRoundTrip(ms, []);
    assert Print(p) + [] == Print(p);
    SetFields(p);
    FillNamed(NO_PAYLOAD, FieldsOf(p), true);
    FillNamed(NO_PAYLOAD, FieldsOf(p), false);
  }

  // What may follow: the first reading takes white space only, the second anything.
  lemma TrailingExactly(p: Payload, rest: Bytes)
    ensures Unmarshal(Print(p) + rest) == if SkipSpace(rest) == [] then Some(Sanitized(p)) else None
    ensures DecodeStrict(Print(p) + rest) == Some(Sanitized(p))
  {
    ObjectRoundTrip(Named(FieldsOf(p)), rest);
    SetFields(p);
    FillNamed(NO_PAYLOAD, FieldsOf(p), true);
    FillNamed(NO_PAYLOAD, FieldsOf(p), false);
  }

  /* ---- layout ---- */

  // Text json.Marshal prints as it stands.
  predicate Plain(s: Bytes) {
    forall i :: 0 <= i < |s| ==>
      32 <= s[i] < 128 && s[i] != '"' as int && s[i] != '\\' as int
      && s[i] != '&' as int && s[i] != '<' as int && s[i] != '>' as int
  }

  lemma {:induction false} PlainIsPrintedAsIs(s: Bytes)
    requires Plain(s)
    ensures Escape(s) == s
  {
    if s != [] {
      assert Utf8.RuneLen(s) == 1 && EscapeFirst(s) == [s[0]];
      PlainIsPrintedAsIs(s[1..]);
    }
  }

  lemma NameIsPlainText(n: Name)
    ensures Plain(NameBytes(n))
  {
  }

  lemma NameInQuotes(n: Name)
    ensures [QUOTE] + NameBytes(n) + [QUOTE] + [COLON]
            == match n
               case Version => Ascii("\"v\":")
               case Jti => Ascii("\"jti\":")
               case Iss => Ascii("\"iss\":")
               case Sub => Ascii("\"sub\":")
               case Method => Ascii("\"method\":")
               case Bound => Ascii("\"binding\":")
               case Iat => Ascii("\"iat\":")
               case Exp => Ascii("\"exp\":")
  {
    match n {
      case Version => assert [QUOTE] + [118] + [QUOTE] + [COLON] == Ascii("\"v\":");
      case Jti => assert [QUOTE] + [106, 116, 105] + [QUOTE] + [COLON] == Ascii("\"jti\":");
      case Iss => assert [QUOTE] + [105, 115, 115] + [QUOTE] + [COLON] == Ascii("\"iss\":");
      case Sub => assert [QUOTE] + [115, 117, 98] + [QUOTE] + [COLON] == Ascii("\"sub\":");
      case Method => assert [QUOTE] + [109, 101, 116, 104, 111, 100] + [QUOTE] + [COLON] == Ascii("\"method\":");
      case Bound => assert [QUOTE] + [98, 105, 110, 100, 105, 110, 103] + [QUOTE] + [COLON] == Ascii("\"binding\":");
      case Iat => assert [QUOTE] + [105, 97, 116] + [QUOTE] + [COLON] == Ascii("\"iat\":");
      case Exp => assert [QUOTE] + [101, 120, 112] + [QUOTE] + [COLON] == Ascii("\"exp\":");
    }
  }

  lemma NameIsPrinted(n: Name)
    ensures Quote(NameBytes(n)) + [COLON]
            == match n
               case Version => Ascii("\"v\":")
               case Jti => Ascii("\"jti\":")
               case Iss => Ascii("\"iss\":")
               case Sub => Ascii("\"sub\":")
               case Method => Ascii("\"method\":")
               case Bound => Ascii("\"binding\":")
               case Iat => Ascii("\"iat\":")
               case Exp => Ascii("\"exp\":")
  {
    NameIsPlainText(n);
    PlainIsPrintedAsIs(NameBytes(n));
    NameInQuotes(n);
  }

  lemma NamedFirst(f: (Name, Scalar), fields: seq<(Name, Scalar)>)
    ensures var ms := Named([f] + fields);
            ms[0] == (NameBytes(f.0), f.1) && ms[1..] == Named(fields)
  {
    assert ([f] + fields)[1..] == fields;
  }

  lemma PrintFirst(f: (Name, Scalar), fields: seq<(Name, Scalar)>)
    ensures PrintMembers(Named([f] + fields))
            == Quote(NameBytes(f.0)) + [COLON]
               + (PrintScalar(f.1) + (if fields == [] then [125] else [COMMA] + PrintMembers(Named(fields))))
  {
    NamedFirst(f, fields);
    var q, v := Quote(NameBytes(f.0)), PrintScalar(f.1);
    var rest := if fields == [] then [125] else [COMMA] + PrintMembers(Named(fields));
    assert PrintMembers(Named([f] + fields)) == PrintMember(NameBytes(f.0), f.1) + rest;
    FourParts(q, [COLON], v, rest);
  }

  lemma FourParts(a: Bytes, b: Bytes, c: Bytes, d: Bytes)
    ensures a + (b + c) + d == a + b + (c + d)
  {
  }

  // The printed object of any payload of plain texts: the members' names, their
  // order and the punctuation.
  lemma PrintedExactly(p: Payload)
    requires Plain(p.version) && Plain(p.id) && Plain(p.issuer)
    requires Plain(p.subject) && Plain(p.authMethod) && Plain(p.binding)
    ensures Print(p) ==
            [123] + (Ascii("\"v\":") + ([QUOTE] + p.version + [QUOTE] + ([COMMA]
            + (Ascii("\"jti\":") + ([QUOTE] + p.id + [QUOTE] + ([COMMA]
            + (Ascii("\"iss\":") + ([QUOTE] + p.issuer + [QUOTE] + ([COMMA]
            + (Ascii("\"sub\":") + ([QUOTE] + p.subject + [QUOTE] + ([COMMA]
            + (Ascii("\"method\":") + ([QUOTE] + p.authMethod + [QUOTE] + ([COMMA]
            + (Ascii("\"binding\":") + ([QUOTE] + p.binding + [QUOTE] + ([COMMA]
            + (Ascii("\"iat\":") + (PrintInt(p.issuedAt) + ([COMMA]
            + (Ascii("\"exp\":") + (PrintInt(p.expiresAt) + [125])))))))))))))))))))))))
  {
    PrintedHead(p);
    PrintedClaims(p);
    PrintedTimes(p);
  }

  lemma PrintedTimes(p: Payload)
    ensures PrintMembers(Named(Times(p)))
            == Ascii("\"iat\":") + (PrintInt(p.issuedAt) + ([COMMA]
               + (Ascii("\"exp\":") + (PrintInt(p.expiresAt) + [125]))))
  {
    NameIsPrinted(Iat);
    NameIsPrinted(Exp);
    PrintFirst((Iat, Int(p.issuedAt)), [(Exp, Int(p.expiresAt))] + []);
    PrintFirst((Exp, Int(p.expiresAt)), []);
  }

  lemma PrintedClaims(p: Payload)
    requires Plain(p.subject) && Plain(p.authMethod) && Plain(p.binding)
    ensures PrintMembers(Named(Claims(p)))
            == Ascii("\"sub\":") + ([QUOTE] + p.subject + [QUOTE] + ([COMMA]
               + (Ascii("\"method\":") + ([QUOTE] + p.authMethod + [QUOTE] + ([COMMA]
               + (Ascii("\"binding\":") + ([QUOTE] + p.binding + [QUOTE] + ([COMMA]
               + PrintMembers(Named(Times(p)))))))))))
  {
    NameIsPrinted(Sub);
    NameIsPrinted(Method);
    NameIsPrinted(Bound);
    PlainIsPrintedAsIs(p.subject);
    PlainIsPrintedAsIs(p.authMethod);
    PlainIsPrintedAsIs(p.binding);
    var f6 := [(Bound, Str(p.binding))] + Times(p);
    var f5 := [(Method, Str(p.authMethod))] + f6;
    PrintFirst((Sub, Str(p.subject)), f5);
    PrintFirst((Method, Str(p.authMethod)), f6);
    PrintFirst((Bound, Str(p.binding)), Times(p));
  }

  lemma PrintedHead(p: Payload)
    requires Plain(p.version) && Plain(p.id) && Plain(p.issuer)
    ensures Print(p)
            == [123] + (Ascii("\"v\":") + ([QUOTE] + p.version + [QUOTE] + ([COMMA]
               + (Ascii("\"jti\":") + ([QUOTE] + p.id + [QUOTE] + ([COMMA]
               + (Ascii("\"iss\":") + ([QUOTE] + p.issuer + [QUOTE] + ([COMMA]
               + PrintMembers(Named(Claims(p))))))))))))
  {
    NameIsPrinted(Version);
    NameIsPrinted(Jti);
    NameIsPrinted(Iss);
    PlainIsPrintedAsIs(p.version);
    PlainIsPrintedAsIs(p.id);
    PlainIsPrintedAsIs(p.issuer);
    var f3 := [(Iss, Str(p.issuer))] + Claims(p);
    var f2 := [(Jti, Str(p.id))] + f3;
    PrintFirst((Version, Str(p.version)), f2);
    PrintFirst((Jti, Str(p.id)), f3);
    PrintFirst((Iss, Str(p.issuer)), Claims(p));
  }

  /* ---- what a reading ignores ---- */

  // A member says something when its name is one of the payload's and its value is not null.
  function Telling(members: seq<(Bytes, Value)>): seq<(Bytes, Value)> {
    if members == [] then []
    else
      (if NameOf(members[0].0).Some? && !members[0].1.Null? then [members[0]] else []) + Telling(members[1..])
  }

  predicate AllKnown(members: seq<(Bytes, Value)>) {
    forall i :: 0 <= i < |members| ==> NameOf(members[i].0).Some?
  }

  lemma AllKnownFirst(m: (Bytes, Value), rest: seq<(Bytes, Value)>)
    ensures AllKnown([m] + rest) <==> NameOf(m.0).Some? && AllKnown(rest)
  {
    var ms := [m] + rest;
    assert ms[0] == m && forall i :: 0 <= i < |rest| ==> ms[i + 1] == rest[i];
  }

  lemma NullSaysNothing(p: Payload, name: Bytes, strict: bool)
    requires NameOf(name).Some? || !strict
    ensures SetField(p, name, Null, strict) == Some(p)
  {
  }

  // A member whose name is known is stored alike by both readings.
  lemma KnownIsStored(p: Payload, name: Bytes, value: Value)
    requires NameOf(name).Some?
    ensures SetField(p, name, value, true) == SetField(p, name, value, false)
  {
  }

  lemma FillFirst(p: Payload, m: (Bytes, Value), rest: seq<(Bytes, Value)>, strict: bool)
    ensures Fill(p, [m] + rest, strict)
            == var q := SetField(p, m.0, m.1, strict); if q.None? then None else Fill(q.value, rest, strict)
  {
    assert ([m] + rest)[1..] == rest;
  }

  // The first reading skips unknown members and nulls; the strict one differs
  // only in refusing unknown members.
  lemma {:induction false} ReadingsExactly(p: Payload, members: seq<(Bytes, Value)>)
    ensures Fill(p, members, false) == Fill(p, Telling(members), true)
    ensures Fill(p, members, true).Some? <==> Fill(p, members, false).Some? && AllKnown(members)
    decreases |members|
  {
    if members != [] {
      var m, rest := members[0], members[1..];
      assert members == [m] + rest;
      AllKnownFirst(m, rest);
      FillFirst(p, m, rest, true);
      FillFirst(p, m, rest, false);
      ReadingsStep(p, m, rest);
      var q := SetField(p, m.0, m.1, false);
      if q.Some? {
        ReadingsExactly(q.value, rest);
      }
    }
  }

  lemma ReadingsStep(p: Payload, m: (Bytes, Value), rest: seq<(Bytes, Value)>)
    ensures var q := SetField(p, m.0, m.1, false);
            && Fill(p, Telling([m] + rest), true) == (if q.None? then None else Fill(q.value, Telling(rest), true))
            && (NameOf(m.0).Some? ==> SetField(p, m.0, m.1, true) == q)
            && (NameOf(m.0).None? ==> SetField(p, m.0, m.1, true) == None && q == Some(p))
  {
    assert ([m] + rest)[1..] == rest;
    if NameOf(m.0).Some? && !m.1.Null? {
      assert Telling([m] + rest) == [m] + Telling(rest);
      FillFirst(p, m, Telling(rest), true);
      KnownIsStored(p, m.0, m.1);
    } else {
      assert Telling([m] + rest) == Telling(rest);
      if m.1.Null? {
        NullSaysNothing(p, m.0, false);
      }
      if NameOf(m.0).Some? {
        KnownIsStored(p, m.0, m.1);
      }
    }
  }

  lemma {:induction false} FoldLowers(s: Bytes, t: Bytes)
    requires |s| == |t| && forall i :: 0 <= i < |t| ==> 97 <= t[i] <= 122 && (s[i] == t[i] || s[i] == t[i] - 32)
    ensures FoldName(s) == t
  {
    if s != [] {
      FoldLowers(s[1..], t[1..]);
      assert t == [t[0]] + t[1..];
    }
  }

  lemma NameLetters(n: Name)
    ensures forall i :: 0 <= i < |NameBytes(n)| ==> 97 <= NameBytes(n)[i] <= 122
  {
  }

  lemma FoldedIsNamed(s: Bytes, n: Name)
    requires FoldName(s) == NameBytes(n)
    ensures NameOf(s) == Some(n)
  {
    NameRoundTrip(n);
    NameIsPlain(n);
  }

  // A member is recognised in any mixture of small letters and capitals.
  lemma CaseIsIgnored(s: Bytes, n: Name)
    requires |s| == |NameBytes(n)|
    requires forall i :: 0 <= i < |s| ==> s[i] == NameBytes(n)[i] || s[i] == NameBytes(n)[i] - 32
    ensures NameOf(s) == Some(n)
  {
    NameLetters(n);
    FoldLowers(s, NameBytes(n));
    FoldedIsNamed(s, n);
  }
}
