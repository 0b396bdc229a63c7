/**
 * Receipts: receipt.go. The hashed bytes parse back to every hashed field, so
 * an altered receipt is either not intact or exhibits a hash collision.
 */
module Receipts {
  import opened Bytes
  import opened Integers
  import opened Digests
  import opened Calendar

  datatype Receipt = Receipt(
    id: GoString, reference: GoString, issuedAt: Instant, effectId: GoString,
    payer: GoString, payee: GoString, amountMinor: int64, feeMinor: int64,
    currency: GoString, description: GoString, context: GoString,
    grantId: GoString, authMethod: GoString, binding: GoString, contentHash: Bytes)

  function TimeText(t: Instant): GoString {
    FormatLength(t);
    Format(t)
  }

  // The text fields in the order they are hashed; the timestamp is the last.
  function TextFields(r: Receipt): seq<GoString> {
    [r.id, r.reference, r.effectId, r.payer, r.payee, r.currency, r.description, r.grantId, r.authMethod, r.binding,
     TimeText(r.issuedAt)]
  }

  function FieldList(fields: seq<GoString>): Bytes {
    if fields == [] then [] else Field(fields[0]) + FieldList(fields[1..])
  }

  function Framed(fields: seq<GoString>, amount: int64, fee: int64, context: GoString): Bytes {
    Field(VERSION) + (FieldList(fields) + (IntField(amount) + (IntField(fee) + (Field(context) + []))))
  }

  // The bytes Receipt.hash feeds to the hash.
  function Preimage(r: Receipt): Bytes {
    Framed(TextFields(r), r.amountMinor, r.feeMinor, r.context)
  }

  function Hash(sha: Sha256, r: Receipt): (h: Bytes)
    ensures |h| == 64
  {
    HexSum(sha, Preimage(r))
  }

  // time.Truncate to a microsecond.
  function Truncate(t: Instant): Instant {
    t - t % 1000
  }

  function Issue(sha: Sha256, r: Receipt): Receipt {
    var r := r.(issuedAt := Truncate(r.issuedAt));
    r.(contentHash := Hash(sha, r))
  }

  predicate Intact(sha: Sha256, r: Receipt) {
    r.contentHash != [] && r.contentHash == Hash(sha, r)
  }

  function SelfBinding(r: Receipt): Binding {
    Binding(r.payer, r.payee, r.amountMinor, r.feeMinor, r.currency, r.reference, r.context)
  }

  predicate MatchesAuthority(sha: Sha256, r: Receipt, b: Binding) {
    if r.binding == [] then false
    else if Digest(sha, SelfBinding(r)) != r.binding then false
    else r.binding == Digest(sha, b)
  }

  /* ---- the parser ---- */

  function ReadFields(n: nat, s: Bytes): (r: Option<(seq<GoString>, Bytes)>)
    ensures r.Some? ==> |r.value.0| == n
  {
    if n == 0 then Some(([], s))
    else
      var (first, s) :- ReadField(s);
      var (others, s) :- ReadFields(n - 1, s);
      Some(([first] + others, s))
  }

  lemma {:induction false} ReadFieldsInverts(fields: seq<GoString>, rest: Bytes)
    ensures ReadFields(|fields|, FieldList(fields) + rest) == Some((fields, rest))
  {
    if fields == [] {
      assert FieldList(fields) + rest == rest;
    } else {
      var tail := FieldList(fields[1..]) + rest;
      Concat3(Field(fields[0]), FieldList(fields[1..]), rest);
      ReadFieldInverts(fields[0], tail);
      ReadFieldsInverts(fields[1..], rest);
      assert [fields[0]] + fields[1..] == fields;
    }
  }

  // A receipt without its content hash, recovered from the bytes that were hashed.
  function ParsePreimage(s: Bytes): Option<Receipt> {
    var (version, s) :- ReadField(s);
    var (f, s) :- ReadFields(11, s);
    var (amount, s) :- ReadIntField(s);
    var (fee, s) :- ReadIntField(s);
    var (context, s) :- ReadField(s);
    var issuedAt :- ParseTime(f[10]);
    if version != VERSION || s != [] || !(-TWO_63 * 1_000_000_000 <= issuedAt < TWO_63 * 1_000_000_000) then None
    else Some(Receipt(f[0], f[1], issuedAt, f[2], f[3], f[4], amount, fee, f[5], f[6], context, f[7], f[8], f[9], []))
  }

  function Unsealed(r: Receipt): Receipt {
    r.(contentHash := [])
  }

  // All fourteen hashed fields are recovered from the preimage.
  lemma PreimageParses(r: Receipt)
    ensures ParsePreimage(Preimage(r)) == Some(Unsealed(r))
  {
    var s4 := Field(r.context) + [];
    var s3 := IntField(r.feeMinor) + s4;
    var s2 := IntField(r.amountMinor) + s3;
    var s1 := FieldList(TextFields(r)) + s2;
    ReadFieldInverts(VERSION, s1);
    ReadFieldsInverts(TextFields(r), s2);
    ReadIntFieldInverts(r.amountMinor, s3);
    ReadIntFieldInverts(r.feeMinor, s4);
    ReadFieldInverts(r.context, []);
    FormatParses(r.issuedAt);
  }

  lemma HashDeterminesReceipt(sha: Sha256, a: Receipt, b: Receipt)
    ensures Hash(sha, a) == Hash(sha, b) <==>
            Unsealed(a) == Unsealed(b) || Collide(sha, Preimage(a), Preimage(b))
  {
    PreimageParses(a);
    PreimageParses(b);
    if Hash(sha, a) == Hash(sha, b) {
      EqualSums(sha, Preimage(a), Preimage(b));
    }
    if Unsealed(a) == Unsealed(b) {
      assert Preimage(a) == Preimage(Unsealed(a)) == Preimage(b);
    }
  }

  lemma SealIsNotHashed(r: Receipt, h: Bytes)
    ensures Preimage(r.(contentHash := h)) == Preimage(r)
  {
  }

  lemma TruncateIsIdempotent(t: Instant)
    ensures Truncate(t) % 1000 == 0 && Truncate(Truncate(t)) == Truncate(t)
  {
  }

  lemma IssuedIsIntact(sha: Sha256, r: Receipt)
    ensures Intact(sha, Issue(sha, r))
    ensures Issue(sha, Issue(sha, r)) == Issue(sha, r)
  {
    var t := r.(issuedAt := Truncate(r.issuedAt));
    var h := Hash(sha, t);
    var issued := t.(contentHash := h);
    assert Issue(sha, r) == issued;
    SealIsNotHashed(t, h);
    assert Hash(sha, issued) == h;
    TruncateIsIdempotent(r.issuedAt);
    assert issued.(issuedAt := Truncate(issued.issuedAt)) == issued;
  }

  // Issuing changes nothing a receipt says: the time loses less than a
  // microsecond, and every other field but the seal is as it was.
  lemma IssueKeepsContent(sha: Sha256, r: Receipt)
    ensures var issued := Issue(sha, r);
            && issued.id == r.id && issued.reference == r.reference && issued.effectId == r.effectId
            && issued.payer == r.payer && issued.payee == r.payee
            && issued.amountMinor == r.amountMinor && issued.feeMinor == r.feeMinor
            && issued.currency == r.currency && issued.description == r.description && issued.context == r.context
            && issued.grantId == r.grantId && issued.authMethod == r.authMethod && issued.binding == r.binding
            && issued.issuedAt % 1000 == 0 && 0 <= r.issuedAt - issued.issuedAt < 1000
  {
    var t := r.(issuedAt := Truncate(r.issuedAt));
    assert Issue(sha, r) == t.(contentHash := Hash(sha, t));
    TruncateIsIdempotent(r.issuedAt);
  }

  // A receipt that carries the content hash of an issued one is intact only if
  // every hashed field is as issued, or the two preimages collide.
  lemma AlterationIsDetected(sha: Sha256, r: Receipt, altered: Receipt)
    requires altered.contentHash == Issue(sha, r).contentHash
    ensures Intact(sha, altered) <==>
            altered == Issue(sha, r) || Collide(sha, Preimage(altered), Preimage(Issue(sha, r)))
  {
    var issued := Issue(sha, r);
    IssuedIsIntact(sha, r);
    HashDeterminesReceipt(sha, altered, issued);
    assert Unsealed(altered) == Unsealed(issued) <==> altered == issued;
  }

  // What a database with microsecond timestamps gives back.
  function Stored(r: Receipt): Receipt {
    r.(issuedAt := Truncate(r.issuedAt))
  }

  // A hash taken over r as it stands survives storage exactly when the time was
  // already a whole microsecond; an issued receipt therefore always does.
  lemma StorageKeepsIntact(sha: Sha256, r: Receipt)
    requires Intact(sha, r)
    ensures Intact(sha, Stored(r)) <==>
            r.issuedAt % 1000 == 0 || Collide(sha, Preimage(Stored(r)), Preimage(r))
  {
    HashDeterminesReceipt(sha, Stored(r), r);
    assert Unsealed(Stored(r)) == Unsealed(r) <==> Truncate(r.issuedAt) == r.issuedAt;
  }

  lemma IssuedSurvivesStorage(sha: Sha256, r: Receipt)
    ensures Intact(sha, Stored(Issue(sha, r)))
  {
    IssuedIsIntact(sha, r);
    StorageKeepsIntact(sha, Issue(sha, r));
  }

  // Both halves of MatchesAuthority: the receipt cites b's digest, and its seven
  // displayed fields are b's, unless their preimages collide.
  lemma MatchesAuthorityExactly(sha: Sha256, r: Receipt, b: Binding)
    ensures MatchesAuthority(sha, r, b) <==>
            && r.binding == Digest(sha, b)
            && (|| (&& r.payer == b.payer && r.payee == b.payee
                    && r.amountMinor == b.amountMinor && r.feeMinor == b.feeMinor
                    && r.currency == b.currency && r.reference == b.reference && r.context == b.context)
                || Collide(sha, BindingPreimage(SelfBinding(r)), BindingPreimage(b)))
  {
    DigestDeterminesBinding(sha, SelfBinding(r), b);
  }

  /* ---- the encoder ---- */

  lemma {:induction false} FieldListAppend(fields: seq<GoString>, f: GoString)
    ensures FieldList(fields + [f]) == FieldList(fields) + Field(f)
  {
    if fields != [] {
      assert (fields + [f])[1..] == fields[1..] + [f];
      FieldListAppend(fields[1..], f);
    } else {
      assert FieldList([f]) == Field(f) + FieldList([f][1..]) && [f][1..] == [];
      assert fields + [f] == [f];
    }
  }

  lemma FiveParts(a: Bytes, b: Bytes, c: Bytes, d: Bytes, e: Bytes)
    ensures a + b + c + d + e == a + (b + (c + (d + (e + []))))
  {
    assert c + d + e == c + (d + (e + []));
  }

  method HashFields(sha: Sha256, fields: seq<GoString>, amount: int64, fee: int64, context: GoString)
    returns (d: Bytes)
    ensures d == HexSum(sha, Framed(fields, amount, fee, context))
  {
    var h := new RunningHash();
    WriteField(h, VERSION);
    for i := 0 to |fields|
      invariant h.written == Field(VERSION) + FieldList(fields[..i])
    {
      WriteField(h, fields[i]);
      FieldListAppend(fields[..i], fields[i]);
      assert fields[..i + 1] == fields[..i] + [fields[i]];
    }
    assert fields[..|fields|] == fields;
    WriteInt(h, amount);
    WriteInt(h, fee);
    WriteField(h, context);
    FiveParts(Field(VERSION), FieldList(fields), IntField(amount), IntField(fee), Field(context));
    d := h.HexDigest(sha);
  }

  method ReceiptHash(sha: Sha256, r: Receipt) returns (d: Bytes)
    ensures d == Hash(sha, r)
  {
    d := HashFields(sha, TextFields(r), r.amountMinor, r.feeMinor, r.context);
  }
}
