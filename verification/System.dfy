/**
 * The whole system: trusted issuers mint for transactions a human confirmed,
 * anyone signs anything under other keys, and anyone presents any text against
 * any transaction at any time. The effect posts the transaction it was called
 * for, and may fail. In every reachable state what was posted is among what
 * was signed.
 */
module System {
  import opened Bytes
  import opened Digests
  import opened Payloads
  import opened Credentials
  import opened Authority
  import Utf8
  import Stores
  import Base64
  import Validity

  // One minting: the issuer, the payload asked of it, and the transaction confirmed.
  datatype Grant = Grant(issuer: Issuer, payload: Payload, binding: Binding)

  datatype Spend = Spend(rec: Stores.Consumption, want: Binding)

  // spends is history: the authorised presentations, in order.
  datatype World = World(log: Log, grants: seq<Grant>, state: Stores.State<Binding>, spends: seq<Spend>)

  datatype Event =
    | MintFor(issuer: Issuer, payload: Payload, binding: Binding)
    | ForeignSign(pub: Bytes, text: Bytes)
    | Present(text: Bytes, want: Binding, now: int, later: int, ending: Stores.Ending)

  const START: World := World({}, [], Stores.Empty(), [])

  // The effect posts the transaction under the credential's id.
  function Posting(want: Binding, ending: Stores.Ending): Stores.Consumption -> Stores.Effect<Binding> {
    (rec: Stores.Consumption) => Stores.Effect([(rec.id, want)], ending)
  }

  function Attempt(text: Bytes, want: Binding, now: int, later: int, ending: Stores.Ending): Presentation<Binding> {
    Presentation(text, want, now, later, Posting(want, ending))
  }

  // An issuer mints for the digest of the confirmed transaction; nobody else
  // signs under a trusted key.
  predicate Enabled(c: Crypto, v: Verifier, e: Event) {
    match e
    case MintFor(issuer, payload, binding) => Mint(c, issuer, payload).Ok? && payload.binding == Digest(c.sha, binding)
    case ForeignSign(pub, text) => pub !in v.trusted.Values
    case Present(_, _, _, _, _) => true
  }

  function Next(c: Crypto, v: Verifier, w: World, e: Event): World {
    match e
    case MintFor(issuer, payload, binding) =>
      w.(log := w.log + {(c.publicOf(issuer.key), Encoded(Stamped(payload, issuer.name)))},
         grants := w.grants + [Grant(issuer, payload, binding)])
    case ForeignSign(pub, text) => w.(log := w.log + {(pub, text)})
    case Present(text, want, now, later, ending) =>
      var (state, verdict) := Authorise(c, w.log, v, w.state, Attempt(text, want, now, later, ending));
      if verdict.Authorised? then w.(state := state, spends := w.spends + [Spend(verdict.rec, want)])
      else w.(state := state)
  }

  function Play(c: Crypto, v: Verifier, run: seq<Event>): Option<World> {
    if run == [] then Some(START)
    else
      var w :- Play(c, v, run[..|run| - 1]);
      if Enabled(c, v, run[|run| - 1]) then Some(Next(c, v, w, run[|run| - 1])) else None
  }

  lemma PlayOneMore(c: Crypto, v: Verifier, run: seq<Event>, e: Event)
    requires Play(c, v, run).Some? && Enabled(c, v, e)
    ensures Play(c, v, run + [e]) == Some(Next(c, v, Play(c, v, run).value, e))
  {
    assert (run + [e])[..|run + [e]| - 1] == run;
  }

  // What was signed stays signed.
  lemma {:induction false} LogGrows(c: Crypto, v: Verifier, run: seq<Event>, k: nat)
    requires Play(c, v, run).Some? && k <= |run|
    ensures Play(c, v, run[..k]).Some?
    ensures Play(c, v, run[..k]).value.log <= Play(c, v, run).value.log
    decreases |run|
  {
    var n := |run| - 1;
    if k <= n {
      LogGrows(c, v, run[..n], k);
      assert run[..n][..k] == run[..k];
    } else {
      assert run[..k] == run;
    }
  }

  /* ---- the invariant ---- */

  // The record of a spend is the payload of a grant signed under the trusted
  // key of the issuer it names, for a transaction of the same digest.
  predicate Justified(c: Crypto, v: Verifier, spend: Spend, g: Grant) {
    && spend.rec.id == Utf8.Sanitize(g.payload.id)
    && spend.rec.issuer == Utf8.Sanitize(g.issuer.name)
    && spend.rec.subject == Utf8.Sanitize(g.payload.subject)
    && spend.rec.authMethod == Utf8.Sanitize(g.payload.authMethod)
    && spend.rec.binding == g.payload.binding == Digest(c.sha, g.binding) == Digest(c.sha, spend.want)
    && spend.rec.reference == spend.want.reference
    && spend.rec.issuer in v.trusted && v.trusted[spend.rec.issuer] == c.publicOf(g.issuer.key)
  }

  // The grant a signature under a trusted key belongs to.
  predicate Granted(c: Crypto, g: Grant, pub: Bytes, text: Bytes) {
    c.publicOf(g.issuer.key) == pub && Encoded(Stamped(g.payload, g.issuer.name)) == text
  }

  ghost predicate LogAccounted(c: Crypto, v: Verifier, w: World) {
    forall pub, text :: (pub, text) in w.log && pub in v.trusted.Values ==>
      exists k :: 0 <= k < |w.grants| && Granted(c, w.grants[k], pub, text)
  }

  predicate GrantsAccounted(c: Crypto, w: World) {
    forall k :: 0 <= k < |w.grants| ==>
      w.grants[k].payload.binding == Digest(c.sha, w.grants[k].binding)
  }

  function Records(spends: seq<Spend>): map<Bytes, Stores.Consumption> {
    if spends == [] then map[]
    else
      var last := spends[|spends| - 1];
      Records(spends[..|spends| - 1])[last.rec.id := last.rec]
  }

  function Postings(spends: seq<Spend>): map<Bytes, Binding> {
    if spends == [] then map[]
    else
      var last := spends[|spends| - 1];
      Postings(spends[..|spends| - 1])[last.rec.id := last.want]
  }

  predicate DistinctIds(spends: seq<Spend>) {
    forall i, j :: 0 <= i < j < |spends| ==> spends[i].rec.id != spends[j].rec.id
  }

  // The durable records and postings are those of the spends, one to one by id.
  predicate StoreAccounted(w: World) {
    && DistinctIds(w.spends)
    && w.state.consumed == Records(w.spends)
    && w.state.committed == Postings(w.spends)
  }

  lemma {:induction false} SpendsAreDurable(spends: seq<Spend>)
    requires DistinctIds(spends)
    ensures forall k :: 0 <= k < |spends| ==>
              && spends[k].rec.id in Records(spends) && Records(spends)[spends[k].rec.id] == spends[k].rec
              && spends[k].rec.id in Postings(spends) && Postings(spends)[spends[k].rec.id] == spends[k].want
  {
    if spends != [] {
      SpendsAreDurable(spends[..|spends| - 1]);
    }
  }

  lemma {:induction false} OnePostingPerRecord(spends: seq<Spend>)
    requires DistinctIds(spends)
    ensures Records(spends).Keys == Postings(spends).Keys && |Records(spends)| == |spends|
  {
    if spends != [] {
      var n := |spends| - 1;
      OnePostingPerRecord(spends[..n]);
      FreshId(spends[..n], spends[n].rec.id);
    }
  }

  lemma {:induction false} FreshId(spends: seq<Spend>, id: Bytes)
    requires forall k :: 0 <= k < |spends| ==> spends[k].rec.id != id
    ensures id !in Records(spends)
  {
    if spends != [] {
      FreshId(spends[..|spends| - 1], id);
    }
  }

  // sources[k] is the grant spent by the k-th spend; no grant is spent twice.
  ghost predicate SpendsAccounted(c: Crypto, v: Verifier, w: World, sources: seq<nat>) {
    && |sources| == |w.spends|
    && (forall k :: 0 <= k < |sources| ==> sources[k] < |w.grants|)
    && (forall k :: 0 <= k < |sources| ==> Justified(c, v, w.spends[k], w.grants[sources[k]]))
    && (forall i, j :: 0 <= i < j < |sources| ==> sources[i] != sources[j])
  }

  ghost predicate Accounted(c: Crypto, v: Verifier, w: World, sources: seq<nat>) {
    LogAccounted(c, v, w) && GrantsAccounted(c, w) && StoreAccounted(w) && SpendsAccounted(c, v, w, sources)
  }

  lemma {:induction false} HexIsAscii(b: Bytes)
    ensures forall i :: 0 <= i < |Hex(b)| ==> Hex(b)[i] < 128
  {
    if b != [] {
      HexIsAscii(b[1..]);
    }
  }

  lemma DigestSurvivesPrinting(sha: Sha256, b: Binding)
    ensures Utf8.Sanitize(Digest(sha, b)) == Digest(sha, b)
  {
    HexIsAscii(sha(BindingPreimage(b)));
    AsciiIsPlain(Digest(sha, b));
  }

  // An accepted text was minted: the grant it came from.
  lemma AcceptedWasGranted(c: Crypto, v: Verifier, w: World, text: Bytes, now: int, later: int, want: Binding, p: Payload)
    returns (k: nat)
    requires LogAccounted(c, v, w) && GrantsAccounted(c, w)
    requires Verify(c, w.log, v, text, now, want) == Ok(p)
    ensures k < |w.grants| && Justified(c, v, Spend(RecordFor(p, want, later), want), w.grants[k])
  {
    AcceptedMeans(c, w.log, v, text, now, want, p);
    var pub := v.trusted[p.issuer];
    assert pub in v.trusted.Values;
    k :| 0 <= k < |w.grants| && Granted(c, w.grants[k], pub, SignedText(text));
    var signed := Stamped(w.grants[k].payload, w.grants[k].issuer.name);
    Base64RoundTrip(signed);
    PayloadRoundTrip(signed);
    assert p == Sanitized(signed);
    StampedExactly(w.grants[k].payload, w.grants[k].issuer.name);
    DigestSurvivesPrinting(c.sha, w.grants[k].binding);
  }

  lemma Base64RoundTrip(p: Payload)
    ensures Base64.Decode(Encoded(p)) == Some(Print(p))
  {
    Base64.RoundTrip(Print(p));
  }

  lemma MintKeepsLog(c: Crypto, v: Verifier, w: World, e: Event)
    requires LogAccounted(c, v, w) && e.MintFor? && Enabled(c, v, e)
    ensures LogAccounted(c, v, Next(c, v, w, e))
  {
    var w', n := Next(c, v, w, e), |w.grants|;
    forall pub, text | (pub, text) in w'.log && pub in v.trusted.Values
      ensures exists k :: 0 <= k < |w'.grants| && Granted(c, w'.grants[k], pub, text)
    {
      if (pub, text) in w.log {
        var k :| 0 <= k < n && Granted(c, w.grants[k], pub, text);
        assert Granted(c, w'.grants[k], pub, text);
      } else {
        assert Granted(c, w'.grants[n], pub, text);
      }
    }
  }

  lemma MintKeeps(c: Crypto, v: Verifier, w: World, sources: seq<nat>, e: Event)
    requires Accounted(c, v, w, sources) && e.MintFor? && Enabled(c, v, e)
    ensures Accounted(c, v, Next(c, v, w, e), sources)
  {
    MintKeepsLog(c, v, w, e);
    MintKeepsGrants(c, v, w, e);
    MoreGrants(c, v, w, Next(c, v, w, e), sources);
  }

  lemma MintKeepsGrants(c: Crypto, v: Verifier, w: World, e: Event)
    requires GrantsAccounted(c, w) && e.MintFor? && Enabled(c, v, e)
    ensures var w' := Next(c, v, w, e);
            && GrantsAccounted(c, w') && w'.spends == w.spends && w'.state == w.state
            && |w'.grants| == |w.grants| + 1 && w'.grants[..|w.grants|] == w.grants
  {
  }

  lemma MoreGrants(c: Crypto, v: Verifier, w: World, w': World, sources: seq<nat>)
    requires SpendsAccounted(c, v, w, sources) && w'.spends == w.spends
    requires |w.grants| <= |w'.grants| && w'.grants[..|w.grants|] == w.grants
    ensures SpendsAccounted(c, v, w', sources)
  {
    assert forall k :: 0 <= k < |w.grants| ==> w'.grants[k] == w.grants[k];
  }

  lemma OnePosting(m: map<Bytes, Binding>, id: Bytes, want: Binding)
    ensures Stores.ApplyPuts(m, [(id, want)]) == m[id := want]
  {
    assert [(id, want)][..0] == [];
  }

  // What a presentation does to the world.
  lemma PresentStep(c: Crypto, v: Verifier, w: World, e: Event)
    requires e.Present?
    ensures var w', verified := Next(c, v, w, e), Verify(c, w.log, v, e.text, e.now, e.want);
            if verified.Ok? && e.ending.Nil? && verified.value.id !in w.state.consumed then
              var p := verified.value;
              var rec := Stores.Consumption(p.id, p.issuer, p.subject, p.authMethod, p.binding,
                                            e.want.reference, e.later);
              w' == World(w.log, w.grants,
                          Stores.State(w.state.consumed[rec.id := rec], w.state.committed[rec.id := e.want]),
                          w.spends + [Spend(rec, e.want)])
            else w' == w
  {
    var verified := Verify(c, w.log, v, e.text, e.now, e.want);
    if verified.Ok? {
      OnePosting(w.state.committed, verified.value.id, e.want);
    }
  }

  lemma StoreStaysAccounted(w: World, w': World, spend: Spend)
    requires StoreAccounted(w) && spend.rec.id !in w.state.consumed
    requires w'.spends == w.spends + [spend]
    requires w'.state.consumed == w.state.consumed[spend.rec.id := spend.rec]
    requires w'.state.committed == w.state.committed[spend.rec.id := spend.want]
    ensures StoreAccounted(w')
  {
    SpendsAreDurable(w.spends);
    assert w'.spends[..|w'.spends| - 1] == w.spends;
  }

  lemma SpendsStayAccounted(c: Crypto, v: Verifier, w: World, w': World, sources: seq<nat>, spend: Spend, k: nat)
    requires SpendsAccounted(c, v, w, sources) && StoreAccounted(w)
    requires spend.rec.id !in w.state.consumed
    requires w'.spends == w.spends + [spend] && w'.grants == w.grants
    requires k < |w.grants| && Justified(c, v, spend, w.grants[k])
    ensures SpendsAccounted(c, v, w', sources + [k])
  {
    SpendsAreDurable(w.spends);
    forall i | 0 <= i < |sources|
      ensures sources[i] != k && w'.spends[i] == w.spends[i]
    {
      assert Justified(c, v, w.spends[i], w.grants[sources[i]]);
      assert w.spends[i].rec.id in w.state.consumed;
    }
  }

  lemma PresentKeeps(c: Crypto, v: Verifier, w: World, sources: seq<nat>, e: Event) returns (sources': seq<nat>)
    requires Accounted(c, v, w, sources) && e.Present?
    ensures Accounted(c, v, Next(c, v, w, e), sources')
  {
    var w', verified := Next(c, v, w, e), Verify(c, w.log, v, e.text, e.now, e.want);
    PresentStep(c, v, w, e);
    if verified.Ok? && e.ending.Nil? && verified.value.id !in w.state.consumed {
      var k := AcceptedWasGranted(c, v, w, e.text, e.now, e.later, e.want, verified.value);
      var spend := Spend(RecordFor(verified.value, e.want, e.later), e.want);
      sources' := sources + [k];
      StoreStaysAccounted(w, w', spend);
      SpendsStayAccounted(c, v, w, w', sources, spend, k);
    } else {
      sources' := sources;
    }
  }

  // Every reachable state is accounted for.
  lemma {:induction false} EveryRunIsAccounted(c: Crypto, v: Verifier, run: seq<Event>) returns (sources: seq<nat>)
    requires Play(c, v, run).Some?
    ensures Accounted(c, v, Play(c, v, run).value, sources)
  {
    if run == [] {
      sources := [];
    } else {
      var prefix, e := run[..|run| - 1], run[|run| - 1];
      var w := Play(c, v, prefix).value;
      sources := EveryRunIsAccounted(c, v, prefix);
      match e {
        case MintFor(_, _, _) => MintKeeps(c, v, w, sources, e);
        case ForeignSign(_, _) =>
        case Present(_, _, _, _, _) => sources := PresentKeeps(c, v, w, sources, e);
      }
    }
  }

  /* ---- the headline ---- */

  function Posted(spends: seq<Spend>): (r: seq<Binding>)
    ensures |r| == |spends| && forall k :: 0 <= k < |r| ==> r[k] == spends[k].want
  {
    seq(|spends|, k requires 0 <= k < |spends| => spends[k].want)
  }

  function Signed(grants: seq<Grant>): (r: seq<Binding>)
    ensures |r| == |grants| && forall k :: 0 <= k < |r| ==> r[k] == grants[k].binding
  {
    seq(|grants|, k requires 0 <= k < |grants| => grants[k].binding)
  }

  function Total(bindings: seq<Binding>): int {
    if bindings == [] then 0 else Total(bindings[..|bindings| - 1]) + bindings[|bindings| - 1].amountMinor
  }

  ghost predicate Draws<T>(all: seq<T>, at: seq<nat>, drawn: seq<T>) {
    && |drawn| == |at|
    && (forall k :: 0 <= k < |at| ==> at[k] < |all| && drawn[k] == all[at[k]])
    && (forall i, j :: 0 <= i < j < |at| ==> at[i] != at[j])
  }

  ghost function Without<T>(xs: seq<T>, k: nat): (r: seq<T>)
    requires k < |xs|
    ensures |r| == |xs| - 1
    ensures forall i :: 0 <= i < |r| ==> r[i] == xs[if i < k then i else i + 1]
    ensures multiset(xs) == multiset(r) + multiset{xs[k]}
  {
    assert xs == xs[..k] + [xs[k]] + xs[k + 1..];
    xs[..k] + xs[k + 1..]
  }

  // Positions after position p is taken out.
  function PositionsWithout(at: seq<nat>, p: nat): (r: seq<nat>)
    requires forall k :: 0 <= k < |at| ==> at[k] != p
    ensures |r| == |at|
    ensures forall k :: 0 <= k < |at| ==> r[k] == if at[k] < p then at[k] else at[k] - 1
  {
    seq(|at|, k requires 0 <= k < |at| => if at[k] < p then at[k] else at[k] - 1)
  }

  lemma DrawsOneFewer<T>(all: seq<T>, at: seq<nat>, drawn: seq<T>)
    requires Draws(all, at, drawn) && at != []
    ensures var n := |at| - 1;
            (forall k :: 0 <= k < n ==> at[..n][k] != at[n])
            && Draws(Without(all, at[n]), PositionsWithout(at[..n], at[n]), drawn[..n])
  {
    var n := |at| - 1;
    assert forall k :: 0 <= k < n ==> at[..n][k] == at[k];
    var at' := PositionsWithout(at[..n], at[n]);
    forall k | 0 <= k < n
      ensures at'[k] < |all| - 1 && drawn[..n][k] == Without(all, at[n])[at'[k]]
    {
      assert at[k] < |all| && drawn[k] == all[at[k]];
    }
  }

  // Items drawn from distinct positions are a sub-multiset.
  lemma {:induction false} DistinctPositions<T>(all: seq<T>, at: seq<nat>, drawn: seq<T>)
    requires Draws(all, at, drawn)
    ensures multiset(drawn) <= multiset(all)
    decreases |at|
  {
    if at != [] {
      var n := |at| - 1;
      DrawsOneFewer(all, at, drawn);
      DistinctPositions(Without(all, at[n]), PositionsWithout(at[..n], at[n]), drawn[..n]);
      assert drawn == drawn[..n] + [all[at[n]]];
    }
  }

  // Records, postings and spends correspond one to one by id.
  ghost predicate DurableOneToOne(w: World) {
    && DistinctIds(w.spends)
    && w.state.consumed.Keys == w.state.committed.Keys && |w.state.consumed| == |w.spends|
    && (forall k :: 0 <= k < |w.spends| ==>
          var Spend(rec, want) := w.spends[k];
          && rec.id in w.state.consumed && w.state.consumed[rec.id] == rec
          && rec.id in w.state.committed && w.state.committed[rec.id] == want)
    && (forall id :: id in w.state.consumed ==> exists k :: 0 <= k < |w.spends| && w.spends[k].rec.id == id)
  }

  lemma StoreIsOneToOne(w: World)
    requires StoreAccounted(w)
    ensures DurableOneToOne(w)
  {
    SpendsAreDurable(w.spends);
    OnePostingPerRecord(w.spends);
    forall id | id in w.state.consumed
      ensures exists k :: 0 <= k < |w.spends| && w.spends[k].rec.id == id
    {
      if forall k :: 0 <= k < |w.spends| ==> w.spends[k].rec.id != id {
        FreshId(w.spends, id);
      }
    }
  }

  // The worst anyone achieves is the payments actually signed. Every posting is
  // backed by its own grant, with that grant's id, issuer, method and digest;
  // records and postings correspond one to one; and unless some posting and its
  // grant exhibit a hash collision, the postings are among the signed
  // transactions, each at most as often as it was signed.
  lemma WorstCaseIsWhatWasSigned(c: Crypto, v: Verifier, run: seq<Event>) returns (sources: seq<nat>)
    requires Play(c, v, run).Some?
    ensures var w := Play(c, v, run).value;
            && SpendsAccounted(c, v, w, sources)
            && DurableOneToOne(w)
            && (forall k :: 0 <= k < |w.spends| ==>
                  || w.spends[k].want == w.grants[sources[k]].binding
                  || Collide(c.sha, BindingPreimage(w.spends[k].want), BindingPreimage(w.grants[sources[k]].binding)))
            && ((forall k :: 0 <= k < |w.spends| ==>
                   !Collide(c.sha, BindingPreimage(w.spends[k].want), BindingPreimage(w.grants[sources[k]].binding)))
                ==> multiset(Posted(w.spends)) <= multiset(Signed(w.grants)))
  {
    var w := Play(c, v, run).value;
    sources := EveryRunIsAccounted(c, v, run);
    StoreIsOneToOne(w);
    forall k | 0 <= k < |w.spends|
      ensures w.spends[k].want == w.grants[sources[k]].binding
              || Collide(c.sha, BindingPreimage(w.spends[k].want), BindingPreimage(w.grants[sources[k]].binding))
    {
      assert Justified(c, v, w.spends[k], w.grants[sources[k]]);
      DigestDeterminesBinding(c.sha, w.spends[k].want, w.grants[sources[k]].binding);
    }
    if forall k :: 0 <= k < |w.spends| ==> w.spends[k].want == w.grants[sources[k]].binding {
      DistinctPositions(Signed(w.grants), sources, Posted(w.spends));
    }
  }

  // The grants a run spent.
  function Spent(grants: seq<Grant>, sources: seq<nat>): (r: seq<Binding>)
    requires forall k :: 0 <= k < |sources| ==> sources[k] < |grants|
    ensures |r| == |sources| && forall k :: 0 <= k < |r| ==> r[k] == grants[sources[k]].binding
  {
    seq(|sources|, k requires 0 <= k < |sources| => grants[sources[k]].binding)
  }

  // The total posted is the total of the signed amounts of the credentials spent.
  lemma TotalsAgree(c: Crypto, v: Verifier, run: seq<Event>) returns (sources: seq<nat>)
    requires Play(c, v, run).Some?
    ensures var w := Play(c, v, run).value;
            && SpendsAccounted(c, v, w, sources)
            && (|| (Posted(w.spends) == Spent(w.grants, sources)
                    && Total(Posted(w.spends)) == Total(Spent(w.grants, sources)))
                || exists k :: 0 <= k < |w.spends|
                     && Collide(c.sha, BindingPreimage(w.spends[k].want), BindingPreimage(w.grants[sources[k]].binding)))
  {
    sources := WorstCaseIsWhatWasSigned(c, v, run);
    var w := Play(c, v, run).value;
    if forall k :: 0 <= k < |w.spends| ==> w.spends[k].want == w.grants[sources[k]].binding {
      PostedIsSpent(w.spends, w.grants, sources);
    }
  }

  lemma PostedIsSpent(spends: seq<Spend>, grants: seq<Grant>, sources: seq<nat>)
    requires |sources| == |spends| && forall k :: 0 <= k < |sources| ==> sources[k] < |grants|
    requires forall k :: 0 <= k < |spends| ==> spends[k].want == grants[sources[k]].binding
    ensures Posted(spends) == Spent(grants, sources)
  {
  }

  // Whatever was minted in a run has its signed text in the log at the end.
  lemma MintedIsLogged(c: Crypto, v: Verifier, run: seq<Event>, k: nat)
    requires Play(c, v, run).Some? && k < |run| && run[k].MintFor?
    ensures var MintFor(i, p, b) := run[k];
            && Mint(c, i, p).Ok? && p.binding == Digest(c.sha, b)
            && (c.publicOf(i.key), Encoded(Stamped(p, i.name))) in Play(c, v, run).value.log
  {
    LogGrows(c, v, run, k + 1);
    assert run[..k + 1][..k] == run[..k];
  }

  // A credential nobody has spent can still be spent. Minted at any point of any
  // run, and presented since in whatever ways, for other transactions, with
  // failing effects, at other times: while its id is unspent, the payment it was
  // minted for goes through in its window.
  lemma GenuinePaymentSucceeds(c: Crypto, v: Verifier, run: seq<Event>, k: nat, now: int, later: int)
    requires SignaturesWork(c) && Play(c, v, run).Some? && k < |run| && run[k].MintFor?
    requires var MintFor(i, p, b) := run[k];
             && i.name in v.trusted && v.trusted[i.name] == c.publicOf(i.key)
             && ValidText(Stamped(p, i.name)) && (p.authMethod == TEST ==> v.allowTest)
             && !Validity.NotYetValid(p.issuedAt, now) && !Validity.Expired(p.expiresAt, now)
             && p.id !in Play(c, v, run).value.state.consumed
    ensures var MintFor(i, p, b) := run[k];
            Mint(c, i, p).Ok? &&
            var w := Play(c, v, run).value;
            var w' := Next(c, v, w, Present(Mint(c, i, p).value, b, now, later, Stores.Nil));
            var rec := Stores.Consumption(p.id, i.name, p.subject, p.authMethod, Digest(c.sha, b), b.reference, later);
            && w'.state.consumed == w.state.consumed[p.id := rec]
            && w'.state.committed == w.state.committed[p.id := b]
  {
    var MintFor(i, p, b) := run[k];
    var w := Play(c, v, run).value;
    MintedIsLogged(c, v, run, k);
    MintedVerifies(c, w.log, v, i, p, now, b);
    PresentStep(c, v, w, Present(Mint(c, i, p).value, b, now, later, Stores.Nil));
  }
}
