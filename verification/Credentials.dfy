/**
 * Credentials: authority.go. Mint prints and signs a payload; Verify reads it
 * back, twice, and decides.
 *
 * Ed25519 (section 5.1 of RFC 8032) is ideal: a log holds every (public key,
 * text) pair that was signed, and a signature verifies only for logged text.
 */
module Credentials {
  import opened Bytes
  import opened Integers
  import opened Digests
  import opened Validity
  import opened Payloads
  import Utf8
  import Base64

  datatype Error =
    | Malformed | BadSignature | UntrustedIssuer | WrongVersion | Expired | NotYetValid
    | LifetimeTooLong | TestMethodRefused | BindingMismatch

  datatype Result<+T> = Ok(value: T) | Err(error: Error) {
    predicate IsFailure() { Err? }

    function PropagateFailure<U>(): Result<U>
      requires Err?
    {
      Err(error)
    }

    function Extract(): T
      requires Ok?
    {
      value
    }
  }

  /* ---- signatures ---- */

  type Key32 = b: Bytes | |b| == 32 witness seq(32, _ => 0)
  type Sig64 = b: Bytes | |b| == 64 witness seq(64, _ => 0)

  datatype Crypto = Crypto(
    sha: Sha256,
    publicOf: Bytes -> Key32,
    sign: (Bytes, Bytes) -> Sig64,
    accepts: (Bytes, Bytes, Bytes) -> bool)

  // What a signer produces is accepted under its own public key.
  ghost predicate SignaturesWork(c: Crypto) {
    forall key: Bytes, text: Bytes :: c.accepts(c.publicOf(key), text, c.sign(key, text))
  }

  type Log = set<(Bytes, Bytes)>

  predicate SignatureVerifies(c: Crypto, log: Log, pub: Bytes, text: Bytes, sig: Bytes) {
    (pub, text) in log && c.accepts(pub, text, sig)
  }

  /* ---- minting ---- */

  const PASSKEY: Bytes := Ascii("passkey")
  const HARDWARE_TOKEN: Bytes := Ascii("hardware_token")
  const DELEGATED_MANDATE: Bytes := Ascii("delegated_mandate")
  const TEST: Bytes := Ascii("test_authenticator")

  predicate KnownMethod(m: Bytes) {
    m == PASSKEY || m == HARDWARE_TOKEN || m == DELEGATED_MANDATE || m == TEST
  }

  datatype Issuer = Issuer(name: Bytes, key: Bytes)

  function Stamped(p: Payload, name: Bytes): Payload {
    p.(version := VERSION, issuer := name)
  }

  // The text the signature covers.
  function Encoded(p: Payload): Bytes {
    Base64.Encode(Print(p))
  }

  const DOT: byte := 46

  function Mint(c: Crypto, i: Issuer, p: Payload): Result<Bytes> {
    if |i.key| != 64 then Err(Malformed)
    else if i.name == [] then Err(Malformed)
    else
      var p := Stamped(p, i.name);
      if p.id == [] || p.subject == [] || p.binding == [] then Err(Malformed)
      else if p.authMethod == [] then Err(Malformed)
      else if !KnownMethod(p.authMethod) then Err(Malformed)
      else if p.expiresAt <= p.issuedAt then Err(Malformed)
      else if !LifetimeAllowed(p.issuedAt, p.expiresAt) then Err(LifetimeTooLong)
      else Ok(Encoded(p) + [DOT] + Base64.Encode(c.sign(i.key, Encoded(p))))
  }

  /* ---- reading ---- */

  // strings.Cut at the first dot.
  function Cut(s: Bytes): Option<(Bytes, Bytes)> {
    if s == [] then None
    else if s[0] == DOT then Some(([], s[1..]))
    else
      var (before, after) :- Cut(s[1..]);
      Some(([s[0]] + before, after))
  }

  function ParseUnverified(text: Bytes): Result<Payload> {
    match Cut(text)
    case None => Err(Malformed)
    case Some((encoded, _)) =>
      if encoded == [] then Err(Malformed)
      else
        match Base64.Decode(encoded)
        case None => Err(Malformed)
        case Some(body) =>
          match Unmarshal(body)
          case None => Err(Malformed)
          case Some(p) => Ok(p)
  }

  datatype Verifier = Verifier(trusted: map<Bytes, Bytes>, allowTest: bool)

  // The checks on a payload whose signature has verified.
  function Judge(sha: Sha256, v: Verifier, claimed: Payload, p: Payload, now: int, want: Binding): Result<Payload> {
    if p.version != VERSION then Err(WrongVersion)
    else if p.issuer != claimed.issuer then Err(Malformed)
    else if p.id == [] then Err(Malformed)
    else if !KnownMethod(p.authMethod) then Err(Malformed)
    else if p.authMethod == TEST && !v.allowTest then Err(TestMethodRefused)
    else if p.expiresAt <= p.issuedAt then Err(Malformed)
    else if !LifetimeAllowed(p.issuedAt, p.expiresAt) then Err(LifetimeTooLong)
    else if Validity.NotYetValid(p.issuedAt, now) then Err(Error.NotYetValid)
    else if Validity.Expired(p.expiresAt, now) then Err(Error.Expired)
    else if p.binding != Digest(sha, want) then Err(BindingMismatch)
    else Ok(p)
  }

  function Verify(c: Crypto, log: Log, v: Verifier, text: Bytes, now: int, want: Binding): Result<Payload> {
    match Cut(text)
    case None => Err(Malformed)
    case Some((encoded, sigPart)) =>
      if encoded == [] || sigPart == [] then Err(Malformed)
      else
        match Base64.Decode(sigPart)
        case None => Err(Malformed)
        case Some(sig) =>
          var claimed :- ParseUnverified(text);
          if claimed.issuer !in v.trusted then Err(UntrustedIssuer)
          else if |v.trusted[claimed.issuer]| != 32 then Err(Malformed)
          else if !SignatureVerifies(c, log, v.trusted[claimed.issuer], encoded, sig) then Err(BadSignature)
          else
            match Base64.Decode(encoded)
            case None => Err(Malformed)
            case Some(body) =>
              match DecodeStrict(body)
              case None => Err(Malformed)
              case Some(p) => Judge(c.sha, v, claimed, p, now, want)
  }

  // The signed part of a credential.
  function SignedText(text: Bytes): Bytes {
    match Cut(text)
    case None => []
    case Some((encoded, _)) => encoded
  }

  // The signature a credential carries; empty when it carries none that decodes.
  function SignatureOf(text: Bytes): Bytes {
    match Cut(text)
    case None => []
    case Some((_, sigPart)) => Base64.Decode(sigPart).GetOr([])
  }

  /* ---- what an accepted credential is ---- */

  // The refusal "issuer changed between reads" is never reached: whenever the
  // strict read succeeds on what the untrusted read accepted, they are equal.
  lemma TwoReadsAgree(text: Bytes, claimed: Payload, p: Payload)
    requires ParseUnverified(text) == Ok(claimed)
    requires Base64.Decode(SignedText(text)).Some?
    requires DecodeStrict(Base64.Decode(SignedText(text)).value) == Some(p)
    ensures p == claimed
  {
    ReadsAgree(Base64.Decode(SignedText(text)).value);
  }

  // Everything acceptance implies about the text, the signer, the clock and the transaction.
  lemma AcceptedMeans(c: Crypto, log: Log, v: Verifier, text: Bytes, now: int, want: Binding, p: Payload)
    requires Verify(c, log, v, text, now, want) == Ok(p)
    ensures ParseUnverified(text) == Ok(p)
    ensures p.issuer in v.trusted
    ensures SignatureVerifies(c, log, v.trusted[p.issuer], SignedText(text), SignatureOf(text))
    ensures Base64.Decode(SignedText(text)).Some? && DecodeStrict(Base64.Decode(SignedText(text)).value) == Some(p)
    ensures p.version == VERSION && p.id != [] && KnownMethod(p.authMethod) && (p.authMethod == TEST ==> v.allowTest)
    ensures Accepted(p.issuedAt, p.expiresAt, now)
    ensures p.binding == Digest(c.sha, want)
  {
    TwoReadsAgree(text, ParseUnverified(text).value, p);
  }

  // What each refusal tells the operator. A binding mismatch in particular means
  // a genuine credential, valid now, for another transaction.
  lemma RefusalMeans(c: Crypto, log: Log, v: Verifier, text: Bytes, now: int, want: Binding, e: Error)
    requires Verify(c, log, v, text, now, want) == Err(e) && e != Malformed
    ensures ParseUnverified(text).Ok?
    ensures var p := ParseUnverified(text).value;
            match e
            case UntrustedIssuer => p.issuer !in v.trusted
            case BadSignature =>
              p.issuer in v.trusted
              && !SignatureVerifies(c, log, v.trusted[p.issuer], SignedText(text), SignatureOf(text))
            case WrongVersion => p.version != VERSION
            case TestMethodRefused => p.authMethod == TEST && !v.allowTest
            case LifetimeTooLong => p.issuedAt < p.expiresAt && Wrap(p.expiresAt - p.issuedAt) > MAX_LIFETIME
            case NotYetValid => now < p.issuedAt * SECOND - SKEW
            case Expired => now >= (p.expiresAt + 1) * SECOND + SKEW && now >= p.issuedAt * SECOND - SKEW
            case BindingMismatch =>
              p.binding != Digest(c.sha, want)
              && forall other :: p.binding == Digest(c.sha, other) ==> Verify(c, log, v, text, now, other) == Ok(p)
            case Malformed => true
  {
    var claimed := ParseUnverified(text).value;
    if claimed.issuer in v.trusted
       && SignatureVerifies(c, log, v.trusted[claimed.issuer], SignedText(text), SignatureOf(text)) {
      JudgedAsClaimed(c, log, v, text, now, want);
      JudgeRefuses(c.sha, v, claimed, now, want, e);
      forall other | claimed.binding == Digest(c.sha, other)
        ensures e == BindingMismatch ==> Verify(c, log, v, text, now, other) == Ok(claimed)
      {
        JudgedAsClaimed(c, log, v, text, now, other);
      }
    }
  }

  // Past the signature, the verdict is a judgement of the payload first read.
  lemma JudgedAsClaimed(c: Crypto, log: Log, v: Verifier, text: Bytes, now: int, want: Binding)
    requires ParseUnverified(text).Ok?
    requires var p := ParseUnverified(text).value;
             p.issuer in v.trusted
             && SignatureVerifies(c, log, v.trusted[p.issuer], SignedText(text), SignatureOf(text))
    ensures var p := ParseUnverified(text).value;
            || (forall other :: Verify(c, log, v, text, now, other) == Err(Malformed))
            || (forall other :: Verify(c, log, v, text, now, other) == Judge(c.sha, v, p, p, now, other))
  {
    var claimed := ParseUnverified(text).value;
    var strict := DecodeStrict(Base64.Decode(SignedText(text)).value);
    if strict.Some? {
      TwoReadsAgree(text, claimed, strict.value);
    }
  }

  lemma JudgeRefuses(sha: Sha256, v: Verifier, p: Payload, now: int, want: Binding, e: Error)
    ensures Judge(sha, v, p, p, now, want) == Err(e) && e != Malformed ==>
              match e
              case WrongVersion => p.version != VERSION
              case TestMethodRefused => p.authMethod == TEST && !v.allowTest
              case LifetimeTooLong => p.issuedAt < p.expiresAt && Wrap(p.expiresAt - p.issuedAt) > MAX_LIFETIME
              case NotYetValid => now < p.issuedAt * SECOND - SKEW
              case Expired => now >= (p.expiresAt + 1) * SECOND + SKEW && now >= p.issuedAt * SECOND - SKEW
              case BindingMismatch =>
                p.binding != Digest(sha, want)
                && forall other :: p.binding == Digest(sha, other) ==> Judge(sha, v, p, p, now, other) == Ok(p)
              case _ => false
  {
  }

  /* ---- every verdict ---- */

  // Two non-empty parts around the first dot that both decode, and a payload in the first.
  predicate Readable(text: Bytes) {
    ParseUnverified(text).Ok? &&
    var sigPart := Cut(text).value.1;
    sigPart != [] && Base64.Decode(sigPart).Some?
  }

  lemma {:induction false} CutNeedsDot(s: Bytes)
    ensures Cut(s).None? <==> DOT !in s
    ensures Cut(s).Some? ==> var (a, b) := Cut(s).value; DOT !in a && s == a + [DOT] + b
  {
    if s != [] && s[0] != DOT {
      CutNeedsDot(s[1..]);
    } else if s != [] {
      assert [] + [DOT] + s[1..] == s;
    }
  }

  // A text is readable exactly when it is two such parts joined by a dot.
  lemma ReadableExactly(text: Bytes)
    ensures Readable(text) <==>
            exists encoded, sigPart ::
              && text == encoded + [DOT] + sigPart && DOT !in encoded && encoded != [] && sigPart != []
              && Base64.Decode(sigPart).Some?
              && Base64.Decode(encoded).Some? && Unmarshal(Base64.Decode(encoded).value).Some?
  {
    CutNeedsDot(text);
    forall encoded, sigPart | text == encoded + [DOT] + sigPart && DOT !in encoded
      ensures Cut(text) == Some((encoded, sigPart))
    {
      CutAtFirstDot(encoded, sigPart);
    }
    if Readable(text) {
      var (encoded, sigPart) := Cut(text).value;
      assert text == encoded + [DOT] + sigPart && DOT !in encoded;
    }
  }

  // Which errors concern the text and the signer, for any text at all.
  lemma VerdictOnSigner(c: Crypto, log: Log, v: Verifier, text: Bytes, now: int, want: Binding)
    ensures !Readable(text) ==> Verify(c, log, v, text, now, want) == Err(Malformed)
    ensures Readable(text) ==>
              var verdict, issuer := Verify(c, log, v, text, now, want), ParseUnverified(text).value.issuer;
              && (verdict == Err(UntrustedIssuer) <==> issuer !in v.trusted)
              && (issuer in v.trusted && |v.trusted[issuer]| != 32 ==> verdict == Err(Malformed))
              && (verdict == Err(BadSignature) <==>
                  && issuer in v.trusted && |v.trusted[issuer]| == 32
                  && !SignatureVerifies(c, log, v.trusted[issuer], SignedText(text), SignatureOf(text)))
  {
  }

  // Readable, and signed under a well-formed trusted key.
  predicate Genuine(c: Crypto, log: Log, v: Verifier, text: Bytes) {
    Readable(text) &&
    var issuer := ParseUnverified(text).value.issuer;
    && issuer in v.trusted && |v.trusted[issuer]| == 32
    && SignatureVerifies(c, log, v.trusted[issuer], SignedText(text), SignatureOf(text))
  }

  predicate ReadsStrictly(text: Bytes) {
    Base64.Decode(SignedText(text)).Some? && DecodeStrict(Base64.Decode(SignedText(text)).value).Some?
  }

  // The verdict on a genuine credential is the judgement of its payload.
  lemma GenuineIsJudged(c: Crypto, log: Log, v: Verifier, text: Bytes, now: int, want: Binding)
    requires Genuine(c, log, v, text)
    ensures var p := ParseUnverified(text).value;
            Verify(c, log, v, text, now, want)
            == if ReadsStrictly(text) then Judge(c.sha, v, p, p, now, want) else Err(Malformed)
  {
    if ReadsStrictly(text) {
      TwoReadsAgree(text, ParseUnverified(text).value, DecodeStrict(Base64.Decode(SignedText(text)).value).value);
    }
  }

  predicate WellFormed(p: Payload) {
    p.version == VERSION && p.id != [] && KnownMethod(p.authMethod)
  }

  predicate MethodAllowed(v: Verifier, p: Payload) {
    p.authMethod == TEST ==> v.allowTest
  }

  // What the lifetime check lets through: the ceiling, and differences that wrap.
  predicate LifetimePasses(p: Payload) {
    0 < p.expiresAt - p.issuedAt <= 300 || p.expiresAt - p.issuedAt >= TWO_63
  }

  predicate TooEarly(p: Payload, now: int) {
    now < p.issuedAt * SECOND - 30 * SECOND
  }

  predicate TooLate(p: Payload, now: int) {
    now >= (p.expiresAt + 1) * SECOND + 30 * SECOND
  }

  lemma TimesExactly(p: Payload, now: int)
    ensures Validity.NotYetValid(p.issuedAt, now) <==> TooEarly(p, now)
    ensures Validity.Expired(p.expiresAt, now) <==> TooLate(p, now)
    ensures p.issuedAt < p.expiresAt && LifetimeAllowed(p.issuedAt, p.expiresAt) <==> LifetimePasses(p)
  {
    if p.issuedAt < p.expiresAt {
      WrappedLifetime(p.issuedAt, p.expiresAt);
    }
  }

  // Which error judgement gives, in order of precedence, with exact conditions.
  lemma JudgeExactly(sha: Sha256, v: Verifier, p: Payload, now: int, want: Binding)
    ensures var verdict := Judge(sha, v, p, p, now, want);
            var sound := WellFormed(p) && MethodAllowed(v, p);
            && (verdict == Err(WrongVersion) <==> p.version != VERSION)
            && (verdict == Err(TestMethodRefused) <==> WellFormed(p) && !MethodAllowed(v, p))
            && (verdict == Err(LifetimeTooLong) <==> sound && 300 < p.expiresAt - p.issuedAt < TWO_63)
            && (verdict == Err(Error.NotYetValid) <==> sound && LifetimePasses(p) && TooEarly(p, now))
            && (verdict == Err(Error.Expired) <==>
                sound && LifetimePasses(p) && !TooEarly(p, now) && TooLate(p, now))
            && (verdict == Err(BindingMismatch) <==>
                sound && LifetimePasses(p) && !TooEarly(p, now) && !TooLate(p, now) && p.binding != Digest(sha, want))
            && (verdict == Ok(p) <==>
                sound && LifetimePasses(p) && !TooEarly(p, now) && !TooLate(p, now) && p.binding == Digest(sha, want))
            && (verdict == Err(Malformed) <==>
                p.version == VERSION && (!WellFormed(p) || (sound && p.expiresAt <= p.issuedAt)))
  {
    TimesExactly(p, now);
  }

  // Which errors concern the payload, for any genuine credential, whoever wrote it.
  lemma VerdictOnPayload(c: Crypto, log: Log, v: Verifier, text: Bytes, now: int, want: Binding)
    requires Genuine(c, log, v, text)
    ensures !ReadsStrictly(text) ==> Verify(c, log, v, text, now, want) == Err(Malformed)
    ensures ReadsStrictly(text) ==>
              var verdict, p := Verify(c, log, v, text, now, want), ParseUnverified(text).value;
              var sound := WellFormed(p) && MethodAllowed(v, p);
              && (verdict == Err(WrongVersion) <==> p.version != VERSION)
              && (verdict == Err(TestMethodRefused) <==> WellFormed(p) && !MethodAllowed(v, p))
              && (verdict == Err(LifetimeTooLong) <==> sound && 300 < p.expiresAt - p.issuedAt < TWO_63)
              && (verdict == Err(Error.NotYetValid) <==> sound && LifetimePasses(p) && TooEarly(p, now))
              && (verdict == Err(Error.Expired) <==>
                  sound && LifetimePasses(p) && !TooEarly(p, now) && TooLate(p, now))
              && (verdict == Err(BindingMismatch) <==>
                  && sound && LifetimePasses(p) && !TooEarly(p, now) && !TooLate(p, now)
                  && p.binding != Digest(c.sha, want))
              && (verdict == Ok(p) <==>
                  && sound && LifetimePasses(p) && !TooEarly(p, now) && !TooLate(p, now)
                  && p.binding == Digest(c.sha, want))
              && (verdict == Err(Malformed) <==>
                  p.version == VERSION && (!WellFormed(p) || (sound && p.expiresAt <= p.issuedAt)))
  {
    GenuineIsJudged(c, log, v, text, now, want);
    JudgeExactly(c.sha, v, ParseUnverified(text).value, now, want);
  }

  // Minting, exactly: what is refused as malformed, what for its lifetime, and
  // what is signed.
  lemma MintExactly(c: Crypto, i: Issuer, p: Payload)
    ensures var verdict := Mint(c, i, p);
            var complete := && |i.key| == 64 && i.name != [] && p.id != [] && p.subject != [] && p.binding != []
                            && KnownMethod(p.authMethod) && p.issuedAt < p.expiresAt;
            && (verdict == Err(Malformed) <==> !complete)
            && (verdict == Err(LifetimeTooLong) <==> complete && 300 < p.expiresAt - p.issuedAt < TWO_63)
            && (verdict.Ok? <==> complete && LifetimePasses(p))
  {
    TimesExactly(p, 0);
  }

  // Verify enforces at least what Mint does: a payload it accepts is one its
  // issuer could have minted, the subject aside, which only Mint checks.
  lemma AcceptedIsMintable(c: Crypto, log: Log, v: Verifier, text: Bytes, now: int, want: Binding, p: Payload, key: Bytes)
    requires Verify(c, log, v, text, now, want) == Ok(p) && |key| == 64
    ensures Mint(c, Issuer(p.issuer, key), p).Ok? <==> p.issuer != [] && p.subject != []
  {
    AcceptedMeans(c, log, v, text, now, want, p);
  }

  // The two ends enforce the same rules: Mint signs, given a name and a key, what
  // the most willing verifier accepts at the moment of issue. Only the subject,
  // which no verifier looks at, is checked at one end alone.
  lemma BothEndsAgree(c: Crypto, i: Issuer, p: Payload, want: Binding, trusted: map<Bytes, Bytes>)
    requires |i.key| == 64 && i.name != [] && p.subject != [] && p.binding == Digest(c.sha, want)
    ensures var q, verdict := Stamped(p, i.name), Mint(c, i, p);
            var judged := Judge(c.sha, Verifier(trusted, true), q, q, p.issuedAt * SECOND, want);
            && (verdict.Ok? <==> judged == Ok(q))
            && (verdict.Err? ==> judged == Err(verdict.error))
  {
  }

  // One text, two clocks, two transactions: the same payload, less than 361
  // seconds apart unless its lifetime wraps, and one transaction unless a
  // collision is exhibited.
  lemma AcceptedTwice(c: Crypto, log1: Log, log2: Log, v1: Verifier, v2: Verifier, text: Bytes,
                      t1: int, t2: int, want1: Binding, want2: Binding, p1: Payload, p2: Payload)
    requires Verify(c, log1, v1, text, t1, want1) == Ok(p1) && Verify(c, log2, v2, text, t2, want2) == Ok(p2)
    ensures p1 == p2
    ensures p1.expiresAt - p1.issuedAt < TWO_63 ==> -361 * SECOND < t2 - t1 < 361 * SECOND
    ensures want1 == want2 || Collide(c.sha, BindingPreimage(want1), BindingPreimage(want2))
  {
    AcceptedMeans(c, log1, v1, text, t1, want1, p1);
    AcceptedMeans(c, log2, v2, text, t2, want2, p2);
    AcceptedSpan(p1.issuedAt, p1.expiresAt);
    DigestDeterminesBinding(c.sha, want1, want2);
  }

  // Adding or replacing the key of one issuer changes no verdict on a
  // credential that names another.
  lemma IssuersAreIndependent(c: Crypto, log: Log, v: Verifier, name: Bytes, pub: Bytes,
                              text: Bytes, now: int, want: Binding)
    requires ParseUnverified(text).Ok? ==> ParseUnverified(text).value.issuer != name
    ensures Verify(c, log, v.(trusted := v.trusted[name := pub]), text, now, want)
            == Verify(c, log, v, text, now, want)
  {
  }

  // Signing more never withdraws an acceptance.
  lemma AcceptanceIsMonotone(c: Crypto, log: Log, more: Log, v: Verifier, text: Bytes, now: int, want: Binding)
    requires log <= more && Verify(c, log, v, text, now, want).Ok?
    ensures Verify(c, more, v, text, now, want) == Verify(c, log, v, text, now, want)
  {
  }

  /* ---- round trip ---- */

  lemma {:induction false} CutAtFirstDot(a: Bytes, b: Bytes)
    requires DOT !in a
    ensures Cut(a + [DOT] + b) == Some((a, b))
  {
    var s := a + [DOT] + b;
    if a == [] {
      assert s[1..] == b;
    } else {
      assert s[1..] == a[1..] + [DOT] + b;
      CutAtFirstDot(a[1..], b);
      assert a == [a[0]] + a[1..];
    }
  }

  lemma AlphabetHasNoDot(s: Bytes)
    requires Base64.InAlphabet(s)
    ensures DOT !in s
  {
    assert Base64.SymbolValue(DOT) == None;
  }

  // The parts of a minted credential are recovered exactly.
  lemma MintedParts(c: Crypto, i: Issuer, p: Payload)
    requires Mint(c, i, p).Ok?
    ensures var encoded := Encoded(Stamped(p, i.name));
            && Cut(Mint(c, i, p).value) == Some((encoded, Base64.Encode(c.sign(i.key, encoded))))
            && encoded != []
            && Base64.Decode(encoded) == Some(Print(Stamped(p, i.name)))
            && Base64.Decode(Base64.Encode(c.sign(i.key, encoded))) == Some(c.sign(i.key, encoded))
  {
    var encoded := Encoded(Stamped(p, i.name));
    AlphabetHasNoDot(encoded);
    CutAtFirstDot(encoded, Base64.Encode(c.sign(i.key, encoded)));
    Base64.RoundTrip(Print(Stamped(p, i.name)));
    Base64.RoundTrip(c.sign(i.key, encoded));
  }

  lemma MintedParses(c: Crypto, i: Issuer, p: Payload)
    requires Mint(c, i, p).Ok?
    ensures ParseUnverified(Mint(c, i, p).value) == Ok(Sanitized(Stamped(p, i.name)))
  {
    MintedParts(c, i, p);
    PayloadRoundTrip(Stamped(p, i.name));
  }

  // Verify, once its parts are known and the signature holds, is Judge.
  lemma VerifyReachesJudge(c: Crypto, log: Log, v: Verifier, text: Bytes, now: int, want: Binding,
                           encoded: Bytes, sigPart: Bytes, sig: Bytes, body: Bytes, p: Payload)
    requires Cut(text) == Some((encoded, sigPart)) && encoded != [] && sigPart != []
    requires Base64.Decode(sigPart) == Some(sig) && Base64.Decode(encoded) == Some(body)
    requires Unmarshal(body) == Some(p) && DecodeStrict(body) == Some(p)
    requires p.issuer in v.trusted && |v.trusted[p.issuer]| == 32
    requires SignatureVerifies(c, log, v.trusted[p.issuer], encoded, sig)
    ensures Verify(c, log, v, text, now, want) == Judge(c.sha, v, p, p, now, want)
  {
    assert ParseUnverified(text) == Ok(p);
  }

  // Under the issuer's key the verdict on a minted credential is the verdict on its payload.
  lemma MintedIsJudged(c: Crypto, log: Log, v: Verifier, i: Issuer, p: Payload, now: int, want: Binding)
    requires Mint(c, i, p).Ok? && SignaturesWork(c)
    requires (c.publicOf(i.key), Encoded(Stamped(p, i.name))) in log
    requires Utf8.Sanitize(i.name) in v.trusted && v.trusted[Utf8.Sanitize(i.name)] == c.publicOf(i.key)
    ensures var q := Sanitized(Stamped(p, i.name));
            Verify(c, log, v, Mint(c, i, p).value, now, want) == Judge(c.sha, v, q, q, now, want)
  {
    var q := Stamped(p, i.name);
    var encoded := Encoded(q);
    var sig := c.sign(i.key, encoded);
    MintedParts(c, i, p);
    PayloadRoundTrip(q);
    assert c.accepts(c.publicOf(i.key), encoded, sig);
    assert Base64.Encode(sig) != [];
    VerifyReachesJudge(c, log, v, Mint(c, i, p).value, now, want, encoded, Base64.Encode(sig), sig, Print(q),
                       Sanitized(q));
  }

  lemma AsciiIsValid(m: Bytes)
    requires forall i :: 0 <= i < |m| ==> m[i] < 128
    ensures Utf8.Valid(m)
  {
    AsciiIsPlain(m);
    Utf8.SanitizeKeepsValid(m);
  }

  lemma KnownMethodIsAscii(m: Bytes)
    requires KnownMethod(m)
    ensures forall i :: 0 <= i < |m| ==> m[i] < 128
  {
  }

  // The closed set of methods; only the last needs a verifier's leave.
  lemma MethodsExactly(m: Bytes, v: Verifier, p: Payload)
    ensures KnownMethod(m) <==>
            || m == Ascii("passkey") || m == Ascii("hardware_token")
            || m == Ascii("delegated_mandate") || m == Ascii("test_authenticator")
    ensures MethodAllowed(v, p) <==> p.authMethod != Ascii("test_authenticator") || v.allowTest
  {
  }

  lemma VersionIsAscii()
    ensures forall i :: 0 <= i < |VERSION| ==> VERSION[i] < 128
  {
  }

  lemma KnownMethodIsValid(m: Bytes)
    requires KnownMethod(m)
    ensures Utf8.Valid(m)
  {
    KnownMethodIsAscii(m);
    AsciiIsValid(m);
  }

  lemma MintChecks(c: Crypto, i: Issuer, p: Payload)
    requires Mint(c, i, p).Ok?
    ensures p.id != [] && KnownMethod(p.authMethod)
    ensures p.issuedAt < p.expiresAt && LifetimeAllowed(p.issuedAt, p.expiresAt)
  {
  }

  // The payload a caller asked for, as the issuer signs it.
  lemma StampedExactly(p: Payload, name: Bytes)
    ensures Stamped(p, name)
            == Payload(VERSION, p.id, name, p.subject, p.authMethod, p.binding, p.issuedAt, p.expiresAt)
  {
  }

  // The full round trip: for valid UTF-8 text a minted credential is accepted,
  // and returns its payload, exactly under the conditions it was minted for.
  lemma MintedVerifies(c: Crypto, log: Log, v: Verifier, i: Issuer, p: Payload, now: int, want: Binding)
    requires Mint(c, i, p).Ok? && SignaturesWork(c)
    requires (c.publicOf(i.key), Encoded(Stamped(p, i.name))) in log
    requires i.name in v.trusted && v.trusted[i.name] == c.publicOf(i.key)
    requires ValidText(Stamped(p, i.name))
    ensures Verify(c, log, v, Mint(c, i, p).value, now, want)
            == Ok(Payload(VERSION, p.id, i.name, p.subject, p.authMethod, p.binding, p.issuedAt, p.expiresAt)) <==>
            && (p.authMethod == TEST ==> v.allowTest)
            && !Validity.NotYetValid(p.issuedAt, now) && !Validity.Expired(p.expiresAt, now)
            && p.binding == Digest(c.sha, want)
  {
    MintedVerdict(c, log, v, i, p, now, want);
    TimesExactly(p, now);
  }

  // And under all other conditions, which error it is refused with. Presented
  // for another transaction it is a binding mismatch, unless its method is not
  // allowed or the clock is outside its window.
  lemma MintedVerdict(c: Crypto, log: Log, v: Verifier, i: Issuer, p: Payload, now: int, want: Binding)
    requires Mint(c, i, p).Ok? && SignaturesWork(c)
    requires (c.publicOf(i.key), Encoded(Stamped(p, i.name))) in log
    requires i.name in v.trusted && v.trusted[i.name] == c.publicOf(i.key)
    requires ValidText(Stamped(p, i.name))
    ensures var verdict := Verify(c, log, v, Mint(c, i, p).value, now, want);
            var q := Payload(VERSION, p.id, i.name, p.subject, p.authMethod, p.binding, p.issuedAt, p.expiresAt);
            var allowed := p.authMethod == TEST ==> v.allowTest;
            && (verdict == Err(TestMethodRefused) <==> !allowed)
            && (verdict == Err(Error.NotYetValid) <==> allowed && TooEarly(p, now))
            && (verdict == Err(Error.Expired) <==> allowed && !TooEarly(p, now) && TooLate(p, now))
            && (verdict == Err(BindingMismatch) <==>
                allowed && !TooEarly(p, now) && !TooLate(p, now) && p.binding != Digest(c.sha, want))
            && (verdict == Ok(q) <==>
                allowed && !TooEarly(p, now) && !TooLate(p, now) && p.binding == Digest(c.sha, want))
  {
    var q := Stamped(p, i.name);
    StampedExactly(p, i.name);
    SanitizedIsIdentity(q);
    Utf8.SanitizeKeepsValid(i.name);
    MintedIsJudged(c, log, v, i, p, now, want);
    MintChecks(c, i, p);
    TimesExactly(p, now);
    JudgeExactly(c.sha, v, q, now, want);
  }

  lemma StampedIsValid(p: Payload, name: Bytes)
    requires KnownMethod(p.authMethod)
    ensures ValidText(Stamped(p, name)) <==>
            Utf8.Valid(name) && Utf8.Valid(p.id) && Utf8.Valid(p.subject) && Utf8.Valid(p.binding)
  {
    VersionIsAscii();
    AsciiIsValid(VERSION);
    KnownMethodIsValid(p.authMethod);
  }

  // Valid UTF-8 is exactly what the first read needs to return the payload as minted.
  lemma MintedParsesExactly(c: Crypto, i: Issuer, p: Payload)
    requires Mint(c, i, p).Ok?
    ensures ParseUnverified(Mint(c, i, p).value)
            == Ok(Payload(VERSION, p.id, i.name, p.subject, p.authMethod, p.binding, p.issuedAt, p.expiresAt)) <==>
            && Utf8.Valid(i.name) && Utf8.Valid(p.id) && Utf8.Valid(p.subject) && Utf8.Valid(p.binding)
  {
    StampedExactly(p, i.name);
    MintedParses(c, i, p);
    SanitizedIsIdentity(Stamped(p, i.name));
    MintChecks(c, i, p);
    StampedIsValid(p, i.name);
  }

  // Beyond that nothing bounds a credential's life: every payload whose lifetime
  // wraps is minted, and accepted throughout its window, at readings at least
  // 2^63 seconds apart.
  lemma WrappedLifetimeIsAccepted(c: Crypto, log: Log, v: Verifier, i: Issuer, p: Payload, want: Binding)
    requires p.expiresAt - p.issuedAt >= TWO_63
    requires |i.key| == 64 && i.name != [] && p.id != [] && p.subject != [] && KnownMethod(p.authMethod)
    requires p.binding == Digest(c.sha, want) && ValidText(Stamped(p, i.name))
    requires SignaturesWork(c) && (c.publicOf(i.key), Encoded(Stamped(p, i.name))) in log
    requires i.name in v.trusted && v.trusted[i.name] == c.publicOf(i.key) && (p.authMethod == TEST ==> v.allowTest)
    ensures Mint(c, i, p).Ok?
    ensures var text, q := Mint(c, i, p).value, Stamped(p, i.name);
            var t1, t2 := p.issuedAt * SECOND - SKEW, (p.expiresAt + 1) * SECOND + SKEW - 1;
            && Verify(c, log, v, text, t1, want) == Verify(c, log, v, text, t2, want) == Ok(q)
            && t2 - t1 > TWO_63 * SECOND
  {
    var t1, t2 := p.issuedAt * SECOND - SKEW, (p.expiresAt + 1) * SECOND + SKEW - 1;
    WrappedLifetime(p.issuedAt, p.expiresAt);
    WindowExactly(p.issuedAt, p.expiresAt, t1);
    WindowExactly(p.issuedAt, p.expiresAt, t2);
    MintedVerifies(c, log, v, i, p, t1, want);
    MintedVerifies(c, log, v, i, p, t2, want);
  }

  /* ---- one credential, many texts ---- */

  // A credential's text is not canonical: line breaks put into the signature
  // change nothing that any verifier decides.
  lemma LineBreaksInSignature(c: Crypto, log: Log, v: Verifier, encoded: Bytes, s: Bytes, t: Bytes,
                              lineBreak: byte, now: int, want: Binding)
    requires DOT !in encoded && s + t != [] && (lineBreak == Base64.CR || lineBreak == Base64.LF)
    ensures Verify(c, log, v, encoded + [DOT] + (s + [lineBreak] + t), now, want)
            == Verify(c, log, v, encoded + [DOT] + (s + t), now, want)
  {
    CutAtFirstDot(encoded, s + [lineBreak] + t);
    CutAtFirstDot(encoded, s + t);
    Base64.LineBreaksAreInvisible(s, t, lineBreak);
  }
}
