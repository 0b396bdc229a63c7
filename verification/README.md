# Bounded authority: a verified model

A bounded authority is a signed credential for one exact transaction, spent once,
atomically with the effect it authorises. This project models how such a
credential is encoded, minted, verified, spent and receipted, and proves what the
design promises: the worst anyone achieves is the payments that were signed.

Verify with `dafny verify dfyconfig.toml`.

## The model, file by file

| file | what it holds |
|---|---|
| `Bytes`, `Integers` | byte strings; wrapping `int64` and `uint64`, big-endian and decimal text |
| `Digests` | the binding preimage, a parser for it, and the step-by-step encoder over a running hash |
| `VectorScript` | the second encoder, in Python, with its own integer masking and digit order |
| `Calendar`, `Receipts` | RFC 3339 timestamps (section 5.6) and the receipt preimage, hash and checks |
| `Base64`, `Utf8`, `Json`, `Payloads` | the credential's text: base64url (section 5 of RFC 4648), JSON (sections 6 and 7 of RFC 8259), its two readings |
| `Validity`, `Credentials` | the clock window; minting and verification |
| `Stores`, `Memory`, `Obligations` | the store contract as one atomic step, the memory store as a class, and the sequential conformance checks run on it |
| `Postgres`, `Schedules` | the PostgreSQL store as interleaved steps of any number of calls, its refinement of the memory store, and what follows |
| `Authority`, `System`, `Deployment` | `Authorise`; the whole system as a state machine; presentations raced through the PostgreSQL store |
| `Races`, `RaceOutcomes` | the concurrency check with its barrier and timer, the three broken stores, and how each fares |

## What is assumed, and how it is stated

- SHA-256 is an arbitrary function to 32 bytes. No theorem assumes it injective:
  a conclusion reads "equal, or these two different preimages collide", naming
  the two preimages.
- Ed25519 (section 5.1 of RFC 8032) is ideal: a log holds every (public key,
  text) pair signed, and a signature verifies only for logged text that an
  arbitrary acceptance predicate also accepts. Where a theorem needs a genuine
  signature to be accepted it asks for `SignaturesWork`.
- An effect is any finite script of blind writes that ends by returning nil,
  returning an error, or panicking.
- In the system state machine issuers mint for the digest of a confirmed
  transaction, and nobody else signs under a trusted public key. Everything else
  is free: any text under other keys, any credential text, any transaction, any
  clock readings, in any order. The verifier's configuration is fixed in a run.
- PostgreSQL contributes four rules and no more: the primary key refuses a
  committed id and makes an insert wait for another transaction's uncommitted row
  of the same id; a commit makes the row and the effect's writes durable
  together; a rollback or lost connection discards both; the trigger refuses
  every update and delete of a consumption row. Any call may fail at begin, at
  the insert, or at commit, may learn nothing of a commit that succeeded, and may
  crash at any point. A connection lost with the commit sent leaves the row held
  after the call is over, until the server carries the commit out or drops it.

## Where code and documentation differ

The model follows the code.

- `conformance/conformance_test.go:82-86` says the store that invokes the effect
  twice holds its lock across the effect. Its code (`:94-112`) releases the lock,
  so under concurrency it also spends twice: `RaceOutcomes.AllSucceed` and
  `RaceOutcomes.DoubleSpendExists` cover it together with check-then-act.
- `authority.go:71-79` calls the five-minute lifetime a ceiling. The check
  subtracts `int64` values, which wrap: it is the ceiling exactly when
  `exp - iat < 2^63` (`Validity.WrappedLifetime`), and
  `Validity.CeilingCanBeEscaped` gives a payload, with a negative issue time, that
  gets past it. Every such payload is minted and accepted
  (`Credentials.WrappedLifetimeIsAccepted`).
- `authority.go:71-75` says the ceiling bounds how long a credential remains
  usable. With thirty seconds of tolerance at each end, and whole-second rounding,
  the readings that accept a credential span just under 361 seconds, exactly when
  the lifetime does not wrap (`Validity.AcceptedSpan`), and that bound is attained (`Validity.SpanIsTight`).
- `Mint` returns credentials for names and identifiers that are not UTF-8, and
  `json.Marshal` replaces their invalid bytes. A minted credential reads back as
  minted exactly when these texts are valid UTF-8 (`Credentials.MintedParsesExactly`).
- The strict second decoding ignores bytes after the first JSON value; the first,
  untrusted one refuses them. They still never disagree on a payload
  (`Payloads.ReadsAgree`).
- The subject is required by `Mint` and never looked at by `Verify`
  (`Credentials.BothEndsAgree`, `Credentials.AcceptedIsMintable`).

## Model

| member | source | states |
|---|---|---|
| System.WorstCaseIsWhatWasSigned | authority.go:18-28 | in every reachable state records and postings match one to one by id; each spend is backed by its own grant, signed under the trusted key of the issuer it names, with the id, subject, method and digest asked of that issuer; unless a named pair of preimages collides, what was posted is a sub-multiset of what was signed |
| System.TotalsAgree | authority.go:18-28 | what was posted is, transaction by transaction, what was signed in the grants that were spent, and so are the totals, or some posting and its grant exhibit a collision |
| System.EveryRunIsAccounted | store.go:62-97 | the invariant of every run: signed texts belong to grants, the store is that of the spends, no grant is spent twice |
| System.StoreIsOneToOne | store.go:46-60 | every record and posting is that of one spend, and every spend has its record and posting |
| System.AcceptedWasGranted | authority.go:283-369 | a text that verifies in a reachable state was minted: it names the grant it came from, field by field |
| System.PresentStep | store.go:75-97 | a presentation changes the world only when it verifies, its id is unspent and its effect returns nil, and then by exactly one posting and one record, given field by field |
| System.GenuinePaymentSucceeds | store.go:70-74 | a credential minted at any point of any run, and presented since in whatever ways, goes through in its window for its transaction as long as its id is unspent, adding one posting and one record, given field by field from what was minted, and nothing else |
| System.LogGrows | authority.go:241-247 | what was signed stays signed: the log of any prefix of a run is contained in the log of the run |
| Deployment.ConcurrentPostingsWereSigned | authority.go:25-28 | presentations verified at any moments of the minting and raced through the PostgreSQL store on any schedule, with any failures, leave rows and postings that match, one to one, the spends of a run taken one presentation at a time, each backed by its own grant; unless a named pair of preimages collides the postings are a sub-multiset of what was signed |
| Postgres.EveryScheduleRefines | postgres/postgres.go:80-113 | every schedule of any calls keeps the refinement relation to a one-at-a-time run of the memory store: durable state, every report, and how often each effect ran |
| Postgres.StepKeeps | postgres/postgres.go:80-113 | each step of begin, insert, effect, commit, rollback, failure and crash keeps that relation |
| Postgres.TableIsAppendOnly | postgres/schema.sql:29-39 | no update or delete changes the consumption table; one succeeds only if it touches no row |
| Schedules.EveryScheduleSerialises | postgres/postgres.go:80-113 | some order of the calls on the memory store gives the same records, the same writes and the same results |
| Schedules.BothOrNeither | store.go:27-34 | at every moment of every schedule each row is the whole record of a call that was done, each such call has its row, and the durable writes are the fold of the writes of those calls |
| Schedules.NilMeansDurable | store.go:27-34 | a call that returned nil has committed |
| Schedules.AtMostOnce | store.go:40-41 | in every schedule of any calls with any failures, two calls of one id never both commit, whatever they reported, so never both return nil |
| Schedules.ReplayExactly | postgres/postgres.go:89-102 | an answered call whose effect succeeds is refused as a replay if and only if another call of its id has committed, and returns nil if and only if it has itself |
| Schedules.RetrySettles | postgres/postgres.go:109-113 | after a commit error or a crash, when no other call of the id commits, a retry is a replay if and only if the first commit was durable, even one carried out after its caller had gone |
| Schedules.ReportsExactly | postgres/postgres.go:80-113 | which events give which report: a call that is over returned nil if and only if its commit was acknowledged and it did not crash, and likewise, both ways, for errors of begin, insert, effect and commit, for panics and for crashes |
| Schedules.CallsFollowTheCode | postgres/postgres.go:80-113 | on any schedule the steps of each call are one begin, one insert, the whole effect, one commit and the deferred rollback, in that order, cut short only where its report says |
| Schedules.RecordsAreImmutable | postgres/schema.sql:8-18 | a record once in the table is unchanged in every continuation of commits, rollbacks, crashes, updates and deletes |
| Schedules.History | postgres/postgres.go:80-113 | over any continuation the order only grows, committed rows stay as they are and finished calls stay finished |
| Schedules.RealTimeOrder | store.go:40-41 | the serial order respects real time: a call that was over before another began comes before it, whatever either reported |
| Schedules.EffectsExclude | postgres/postgres.go:17-22 | two effects of one credential are never in progress together |
| Schedules.Progress | postgres/postgres.go:17-22 | no deadlock: while any call is unfinished some call has a step that needs no failure |
| Schedules.EveryScheduleCompletes | postgres/postgres.go:80-113 | however a schedule went, it extends without further failures until every call has finished |
| Schedules.StepsTerminate | postgres/postgres.go:80-113 | every step of a call, failures included, lowers a non-negative measure |
| Schedules.SchedulesAreBounded | postgres/postgres.go:80-113 | the number of steps the calls take is bounded by their number and the lengths of their effects |
| Schedules.RaceSpendsOnce | conformance/conformance.go:254-334 | for every N and every complete schedule without outside failures, one call of N returns nil, the others are replays whose effect never ran, and one effect is durable |
| Authority.AuthoriseOn | store.go:75-97 | the imperative `Authorise` on the memory store gives the state and the verdict of its specification |
| Authority.VerdictExactly | store.go:83-96 | one presentation: the verifier's own error, a replay, the effect's own error or panic, or the record, field by field with the second clock reading; only the last changes the store, by that record and the effect's writes |
| Authority.VerdictsExactly | store.go:83-96 | every verdict of a run from the presentations alone: a verified one is a replay if and only if its id was spent before or some earlier presentation spends it |
| Authority.SpentAfter | store.go:87-96 | the ids spent after a run are those spent before it and those of presentations that verify and whose effect returns nil |
| Authority.RefusalsLeaveNoTrace | store.go:70-74 | dropping any presentations that were not authorised changes neither the store nor any other verdict |
| Authority.SpentAtMostOnce | store.go:29-41 | two authorised presentations of one run never have the same id, whatever texts they were |
| Authority.AuthorisedIsRecorded | store.go:87-96 | the record returned for an authorised presentation is in the store, unchanged, ever after |
| Authority.RekeyingIsInvisible | authority.go:254-258 | adding or replacing one issuer's key changes no state and no verdict of a run made of other issuers' credentials |
| Credentials.AcceptedMeans | authority.go:283-369 | acceptance implies every promised fact: signed under the trusted key of the issuer it names, version, id, method, window, binding digest, and both reads equal |
| Credentials.RefusalMeans | authority.go:283-369 | what each refusal other than malformed implies; a binding mismatch means the credential is accepted now for every transaction of its own digest |
| Credentials.ReadableExactly | authority.go:283-299 | which texts get past the first read: two non-empty parts around the first dot that both decode, the first to a payload |
| Credentials.VerdictOnSigner | authority.go:283-309 | for any text whatever: malformed if not readable, otherwise untrusted issuer and bad signature under exactly these conditions |
| Credentials.VerdictOnPayload | authority.go:311-368 | for any text signed under a trusted key, the exact condition of every other verdict, in order of precedence, with the bounds in seconds |
| Credentials.TwoReadsAgree | authority.go:293-331 | the strict read returns the untrusted read's payload, so the refusal for an issuer that changed between reads is never reached |
| Credentials.AcceptedTwice | authority.go:283-369 | one text accepted by two verifiers gives one payload, for one transaction or a named collision, at clock readings less than 361 seconds apart when `exp - iat < 2^63`, as it always is from the epoch on |
| Credentials.AcceptedIsMintable | authority.go:216-248 | an accepted payload is one its issuer could have minted, if and only if it has an issuer and a subject |
| Credentials.MintExactly | authority.go:216-248 | which payloads are malformed, which have too long a lifetime and which are signed |
| Credentials.BothEndsAgree | authority.go:212-248 | given a key, a name and a subject, `Mint` accepts exactly what the most willing verifier accepts at the moment of issue, and refuses with the same error |
| Credentials.IssuersAreIndependent | authority.go:254-258 | one issuer's key has no influence on a credential that names another |
| Credentials.AcceptanceIsMonotone | authority.go:283-369 | signing more never withdraws or changes an acceptance |
| Credentials.MintedParts | authority.go:241-247 | the cut at the first dot and both base64 decodings recover the printed payload and the signature exactly |
| Credentials.MintedParses | authority.go:377-391 | the untrusted read of any minted credential returns its payload, invalid UTF-8 replaced |
| Credentials.MintedParsesExactly | authority.go:216-248 | it returns exactly the payload asked for, field by field, with version and issuer filled in, if and only if the caller's texts are valid UTF-8 |
| Credentials.MintedIsJudged | authority.go:283-369 | under its issuer's key the verdict on a minted credential is the verdict on its payload |
| Credentials.MintedVerifies | authority.go:283-369 | a minted credential in valid UTF-8 is accepted, with the payload asked for field by field, if and only if the method is allowed, the clock is in the window and the transaction has its digest |
| Credentials.MintedVerdict | authority.go:341-368 | and otherwise which error it is refused with: presented for another transaction it is a binding mismatch, if and only if its method is allowed and the clock is in its window |
| Credentials.MethodsExactly | authority.go:96-128 | the closed set of methods, and the one that needs a verifier's leave |
| Credentials.WrappedLifetimeIsAccepted | authority.go:234-248 | every payload whose lifetime wraps is minted and is accepted at both ends of its window, more than 2^63 seconds apart |
| Credentials.LineBreaksInSignature | authority.go:283-321 | a credential text is not canonical: a line break put into the signature changes no verdict of any verifier |
| Validity.WindowExactly | authority.go:358-364 | the accepted clock readings are one half-open interval of nanoseconds |
| Validity.WrappedLifetime | authority.go:351-356 | the wrapping lifetime check equals the mathematical ceiling if and only if `exp - iat < 2^63` |
| Validity.CeilingCanBeEscaped | authority.go:351-356 | a concrete payload on which the wrapped check passes and the ceiling is exceeded |
| Validity.AcceptedSpan | authority.go:71-83 | given the checks on its two times, all clock readings that accept a credential are less than 361 seconds apart if and only if `exp - iat < 2^63`, which a non-negative issue time guarantees |
| Validity.SpanIsTight | authority.go:71-83 | for every issue time the bound is attained to the nanosecond |
| Stores.OutcomesExactly | store.go:27-41 | every result from the calls alone: the first call of an id whose effect returns nil is done, later ones are replays, the others report their effect |
| Stores.ConsumedIds | store.go:27-41 | the recorded ids are exactly those of calls whose effect returned nil |
| Stores.CommittedExactly | memory/memory.go:61-95 | each key holds the last value a successful call wrote to it; failed and panicking effects contribute nothing |
| Stores.CommittedIsFold | memory/memory.go:61-84 | the committed map is the ordered fold of the successful calls' writes |
| Stores.RecordsAreKept | store.go:46-60 | a spent record never changes |
| Stores.DoneIsRecorded | store.go:27-60 | the row of a call that was done is its record, whatever calls came later |
| Stores.RecordedWasDone | store.go:27-60 | every row is that of a call that was done |
| Stores.DoneOnce | store.go:27-41 | no id is done twice |
| Memory.Store.constructor | memory/memory.go:48-53 | a new store is the empty state |
| Memory.Store.Consume | memory/memory.go:61-84 | staging under the lock and merging on success is one atomic step of the contract; the effect runs once, or not at all on a replay |
| Memory.Store.Merge | memory/memory.go:79-83 | the merge gives the same map whatever order the keys are visited in |
| Memory.Store.Put | memory/memory.go:88-95 | a write is staged in the context's transaction, refused outside one, and never touches the store |
| Memory.Store.RunEffect | memory/memory.go:71-77 | an effect stages the fold of its writes |
| Memory.Store.Get | memory/memory.go:100-105 | reads the committed value |
| Memory.Store.Record | memory/memory.go:108-113 | reads the record of a spent credential |
| Memory.Store.LateWrite | memory/memory.go:88-95 | a write through a context kept after its effect contributes nothing |
| Memory.PendingMerges | memory/memory.go:71-83 | staging a script and merging it equals applying it in place |
| Obligations.SpendsOnce | conformance/conformance.go:126-140 | for every credential, value and history: done, with one invocation of the effect as lines 336-350 ask, and exactly the record and the write added |
| Obligations.RefusesReplay | conformance/conformance.go:142-165 | the second presentation is a replay, its effect does not run, and the store is as after the first |
| Obligations.FailedEffect | conformance/conformance.go:187-220 | the effect's error reaches the caller and the store is as it was, whatever the effect had written |
| Obligations.RetryAfterFailure | conformance/conformance.go:222-236 | after any failed or panicking effect the credential can still be spent, once, with exactly its record and write added |
| Obligations.Distinct | conformance/conformance.go:167-181 | two different credentials both spend, and exactly their records and writes are added |
| Races.BarrierClosesOnce | conformance/conformance.go:272-288 | the barrier is closed at most once and never when closed, even for a store that calls the effect again and again |
| Races.CountersHold | conformance/conformance.go:261-300 | the count of entries is the total of all invocations of the effect, each other counter is the number of attempts that reported its result, and exactly the Nth entry closes the barrier |
| Races.EffectRuns | conformance/conformance_test.go:94-112 | the third store invokes the effect exactly twice for every nil it returns, the others once; nothing runs for a replay |
| Races.FailedWrites | conformance/conformance_test.go:127-133 | a broken store keeps the write of a failed effect; a store that holds its lock keeps exactly those of successful attempts |
| Races.ResultsArePermanent | conformance/conformance.go:289-299 | an attempt's result never changes |
| RaceOutcomes.AllSucceed | conformance/conformance_test.go:37-53 | with no timer firing, a store that releases its lock marks nothing before all N attempts have entered, a complete run has N successes, and the check refuses it for every N above one |
| RaceOutcomes.Completes | conformance/conformance.go:238-253 | any schedule in which no timer fires extends, again without a timeout, until every attempt has reported |
| RaceOutcomes.DoubleSpendExists | conformance/conformance_test.go:37-53 | for every N there is a schedule on which all N presentations succeed |
| RaceOutcomes.MarkFirstSpendsAtMostOnce | conformance/conformance_test.go:68-78 | marking first spends an id at most once in every interleaving |
| RaceOutcomes.MarkFirstLosesTheCredential | conformance/conformance_test.go:55-78 | once an effect has failed, no continuation of any length returns nil for its id, and the failed write stays |
| RaceOutcomes.LockedPasses | conformance/conformance.go:254-334 | a store that holds its lock never admits a second attempt, whenever the timer fires, and passes for every N |
| RaceOutcomes.LockedCompletes | conformance/conformance.go:244-253 | any schedule of such a store extends to a complete one, which passes |
| RaceOutcomes.StepsTerminate | conformance/conformance.go:254-334 | every step of the check lowers a measure |
| Digests.BindingPreimageParses | authority.go:160-175 | all seven fields are recovered from the preimage, whatever their lengths and signs |
| Digests.DigestDeterminesBinding | authority.go:160-175 | two digests are equal if and only if the bindings are equal or their preimages collide |
| Digests.BindingDigest | authority.go:164-175 | the step-by-step encoder hashes that preimage |
| Digests.WriteField | authority.go:177-182 | appends the eight-byte length and the bytes |
| Digests.WriteInt | authority.go:184-188 | appends the two's-complement value in eight bytes |
| Digests.PutUint64 | authority.go:184-188 | the shifts and truncations write the base-256 digits |
| Digests.ReadFieldInverts | authority.go:177-182 | a field is read back exactly, whatever follows it |
| Digests.ReadIntFieldInverts | authority.go:184-188 | every `int64`, negative or not, is read back exactly |
| Digests.EqualSums | authority.go:174 | equal hexadecimal sums mean equal inputs or a collision |
| Digests.HexDigits | authority.go:174 | a hash is printed as two lower-case digits a byte, the high half first |
| Digests.NegativeAmountVector | testdata/vectors.json:110-123 | the published vector with the extreme amounts: the hashed bytes, one by one |
| VectorScript.EncodersAgree | testdata/verify_vectors.py:21-41 | masking and reversing little-endian digits gives Go's preimage for every binding, negative amounts included |
| VectorScript.BindingDigest | testdata/verify_vectors.py:31-41 | the Python routine computes the Go digest |
| Calendar.FormatParses | receipt.go:83 | the timestamp text determines the instant to the nanosecond, trailing zeros of the fraction dropped |
| Calendar.DateRoundTrip | receipt.go:83 | the calendar date determines the day, over the whole proleptic Gregorian calendar |
| Calendar.NextDay | receipt.go:83 | dates follow one another by the lengths of the months and the Gregorian leap rule |
| Calendar.EpochDate | receipt.go:83 | the anchor: 1970-01-01 is day 719,528 |
| Calendar.DateOfDay | receipt.go:83 | every date of the calendar is that of its day |
| Calendar.TextLayout | receipt.go:83 | the text of an instant in the years 0 to 9999, byte by byte |
| Calendar.FractionLayout | receipt.go:83 | no fraction for a whole second, otherwise a dot and one to nine digits that do not end in zero |
| Receipts.PreimageParses | receipt.go:77-91 | all fourteen hashed fields are recovered from the preimage |
| Receipts.HashDeterminesReceipt | receipt.go:77-91 | two hashes are equal if and only if the receipts agree in all hashed fields or their preimages collide |
| Receipts.IssuedIsIntact | receipt.go:65-75 | an issued receipt is intact, and issuing it again changes nothing |
| Receipts.IssueKeepsContent | receipt.go:71-75 | issuing keeps thirteen fields as they are and takes less than a microsecond off the time |
| Receipts.AlterationIsDetected | receipt.go:105-109 | a receipt that carries an issued one's hash is intact if and only if it is that receipt or the preimages collide |
| Receipts.StorageKeepsIntact | receipt.go:65-75 | truncating the time to microseconds keeps an intact receipt intact if and only if nothing was truncated, or the preimages collide |
| Receipts.IssuedSurvivesStorage | receipt.go:65-75 | an issued receipt is intact after storage |
| Receipts.MatchesAuthorityExactly | receipt.go:97-135 | it holds if and only if the receipt cites the binding's digest and its payer, payee, amount, fee, currency, reference and context are the binding's, or their preimages collide |
| Receipts.HashFields | receipt.go:77-91 | the field loop hashes the framed preimage |
| Receipts.ReceiptHash | receipt.go:77-91 | the step-by-step hash is that of the receipt's preimage |
| Base64.RoundTrip | authority.go:241-247 | decoding inverts encoding for every length |
| Base64.DecodesExactly | authority.go:288-312 | which texts decode: line breaks apart, those in the alphabet whose last group is not a single symbol |
| Base64.AlphabetExactly | authority.go:241-247 | the sixty-four symbols and their values |
| Base64.LineBreaksAreInvisible | authority.go:288-312 | a line feed or carriage return anywhere in a text changes nothing that is decoded from it |
| Json.TextRoundTrip | authority.go:241 | an escaped string reads back as itself, invalid UTF-8 replaced, whatever follows it |
| Json.ObjectRoundTrip | authority.go:241 | a printed object reads back member by member, whatever follows it |
| Json.EscapedIsHarmless | authority.go:241 | no printed string contains a control character, an ampersand or an angle bracket |
| Json.ShortEscapes | authority.go:241 | the escapes chosen for quotes and common control characters |
| Json.LongEscapes | authority.go:241 | the escapes chosen for HTML characters and other control characters |
| Json.RuneEscapes | authority.go:241 | line and paragraph separators and invalid bytes are escaped, wherever they stand |
| Payloads.PayloadRoundTrip | authority.go:190-200 | both readings of a printed payload return it, invalid UTF-8 replaced |
| Payloads.PrintedExactly | authority.go:190-200 | the printed object of any payload of plain texts: member names, order and punctuation |
| Payloads.ReadsAgree | authority.go:311-321 | for any bytes at all, when both readings succeed they return the same payload |
| Payloads.TrailingExactly | authority.go:311-321 | after a printed payload the first read accepts white space only, the strict read anything |
| Payloads.ReadingsExactly | authority.go:311-321 | the first read skips unknown members and nulls; the strict read differs only in refusing unknown members |
| Payloads.CaseIsIgnored | authority.go:190-200 | a member is recognised in any mixture of small letters and capitals |
| Payloads.SanitizedIsIdentity | authority.go:241 | printing preserves a payload if and only if its texts are valid UTF-8 |
| Utf8.SanitizeIsValid | authority.go:241 | replacing invalid bytes always leaves valid UTF-8 |
| Utf8.EncodedIsValid | authority.go:241 | every code point but a surrogate encodes to one valid sequence of its own length |
| Utf8.FirstRune | authority.go:241 | every sequence accepted at the head of a text is the encoding of a code point that is not a surrogate |

## Left out

- SHA-256, Ed25519 and key generation: library code, present only through the assumptions above.
- PostgreSQL beyond its four rules: SQL text, `TRUNCATE` (no row trigger covers it), locks an effect takes on other tables, isolation of an effect's reads. Effects here only write.
- A commit that reports an error: only both-or-neither is claimed, since the row and the writes may be durable all the same.
- Scheduling inside the memory store: a call holds the lock throughout, so its methods are atomic steps. Calling `Consume` or `Get` inside an effect, which would block, and aliasing of the byte slices passed to `Put` are not modelled.
- The timer of the concurrency check: a step that may happen at any time, or never; its duration is not modelled.
- Time zones: an instant is a count of nanoseconds from the epoch with seconds in 64 bits, already in UTC. Clock readings have no upper bound.
- Lengths: hashed fields are shorter than 2^63 bytes, as every Go string is.
- JSON nesting: Go's limit of 10,000 levels is not modelled. Escapes, replacement of invalid UTF-8, case-insensitive member names, repeated and unknown members and nulls are.
- The Python receipt hash: a receipt's context is base64 text in its JSON, so only the binding encoder is claimed equal.
- Disjointness of receipt and binding preimages from each other: both begin with the version, and nothing is claimed.
- One spend per reference, or per binding: two credentials with different ids may share either, and both spend.
- Separate id spaces per issuer: the store is keyed by id alone.
- Other effects in the system state machine: there an effect posts the transaction it was called for, under the credential's id, and may fail; arbitrary scripts of writes are covered by `Stores`, `Postgres` and `Schedules`.
- Changes of verifier configuration during a run of the system state machine: `Authority.RekeyingIsInvisible` compares two fixed configurations.
- `bench/`, the notebook and the results file, the text of `errors.go`, and the conformance suite's own reporting.
