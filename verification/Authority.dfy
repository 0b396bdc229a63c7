/**
 * Authorise, store.go: verify against the exact transaction, then spend
 * atomically with the effect, and what it means for runs of presentations.
 */
module Authority {
  import opened Bytes
  import opened Digests
  import opened Payloads
  import opened Credentials
  import Stores
  import Memory

  // The clock is read twice: at verification, and for the record.
  datatype Presentation<V> = Presentation(
    text: Bytes, want: Binding, now: int, later: int, effect: Stores.Consumption -> Stores.Effect<V>)

  datatype Verdict =
    | Authorised(rec: Stores.Consumption)
    | Refused(error: Error)
    | NotSpent(outcome: Stores.Outcome)

  function RecordFor(p: Payload, want: Binding, at: int): Stores.Consumption {
    Stores.Consumption(p.id, p.issuer, p.subject, p.authMethod, p.binding, want.reference, at)
  }

  function Authorise<V>(c: Crypto, log: Log, v: Verifier, s: Stores.State<V>, a: Presentation<V>)
    : (Stores.State<V>, Verdict)
  {
    match Verify(c, log, v, a.text, a.now, a.want)
    case Err(e) => (s, Refused(e))
    case Ok(p) =>
      var rec := RecordFor(p, a.want, a.later);
      var (s', outcome) := Stores.Consume(s, Stores.Call(rec, a.effect(rec)));
      (s', if outcome.Done? then Authorised(rec) else NotSpent(outcome))
  }

  method AuthoriseOn<V>(c: Crypto, log: Log, v: Verifier, store: Memory.Store<V>, a: Presentation<V>)
    returns (verdict: Verdict)
    modifies store
    ensures (store.Abstract(), verdict) == Authorise(c, log, v, old(store.Abstract()), a)
  {
    var verified := Verify(c, log, v, a.text, a.now, a.want);
    if verified.Err? {
      return Refused(verified.error);
    }
    var rec := RecordFor(verified.value, a.want, a.later);
    var outcome, runs, ctx := store.Consume(rec, a.effect(rec));
    if !outcome.Done? {
      return NotSpent(outcome);
    }
    return Authorised(rec);
  }

  // Whether the presentation, made while its id is unspent, spends id.
  predicate Spends<V>(c: Crypto, log: Log, v: Verifier, a: Presentation<V>, id: Bytes) {
    var verified := Verify(c, log, v, a.text, a.now, a.want);
    verified.Ok? &&
    var p := verified.value;
    p.id == id && a.effect(RecordFor(p, a.want, a.later)).ending.Nil?
  }

  // What a verified presentation is told: whether the id was spent comes before
  // anything its effect might do.
  function Answer(spent: bool, rec: Stores.Consumption, ending: Stores.Ending): Verdict {
    if spent then NotSpent(Stores.AlreadyConsumed)
    else
      match ending
      case Nil => Authorised(rec)
      case Error(code) => NotSpent(Stores.EffectFailed(code))
      case Panic => NotSpent(Stores.EffectPanicked)
  }

  // The verdict on one presentation: the verifier's own error, a replay, how the
  // effect ended, or the record, field by field, stamped with the second reading
  // of the clock. Only the last changes the store.
  lemma VerdictExactly<V>(c: Crypto, log: Log, v: Verifier, s: Stores.State<V>, a: Presentation<V>)
    ensures var (t, verdict) := Authorise(c, log, v, s, a);
            var verified := Verify(c, log, v, a.text, a.now, a.want);
            && (verified.Err? ==> verdict == Refused(verified.error) && t == s)
            && (verified.Ok? ==>
                  var p := verified.value;
                  var rec := Stores.Consumption(p.id, p.issuer, p.subject, p.authMethod, p.binding,
                                                a.want.reference, a.later);
                  && verdict == Answer(p.id in s.consumed, rec, a.effect(rec).ending)
                  && t == if verdict.Authorised? then
                            Stores.State(s.consumed[p.id := rec], Stores.ApplyPuts(s.committed, a.effect(rec).puts))
                          else s)
  {
  }

  /* ---- runs ---- */

  function After<V>(c: Crypto, log: Log, v: Verifier, s: Stores.State<V>, run: seq<Presentation<V>>): Stores.State<V> {
    if run == [] then s
    else Authorise(c, log, v, After(c, log, v, s, run[..|run| - 1]), run[|run| - 1]).0
  }

  function Verdicts<V>(c: Crypto, log: Log, v: Verifier, s: Stores.State<V>, run: seq<Presentation<V>>)
    : (r: seq<Verdict>)
    ensures |r| == |run|
  {
    if run == [] then []
    else
      var prefix := run[..|run| - 1];
      Verdicts(c, log, v, s, prefix) + [Authorise(c, log, v, After(c, log, v, s, prefix), run[|run| - 1]).1]
  }

  function Select<T>(xs: seq<T>, keep: seq<bool>): seq<T>
    requires |keep| == |xs|
  {
    if xs == [] then []
    else
      var n := |xs| - 1;
      Select(xs[..n], keep[..n]) + if keep[n] then [xs[n]] else []
  }

  lemma SelectOneMore<T>(xs: seq<T>, x: T, keep: seq<bool>, k: bool)
    requires |keep| == |xs|
    ensures Select(xs + [x], keep + [k]) == Select(xs, keep) + if k then [x] else []
  {
    assert (xs + [x])[..|xs|] == xs && (keep + [k])[..|xs|] == keep;
  }

  // One more presentation, kept or, when it was not authorised, dropped.
  lemma RefusalStep<V>(c: Crypto, log: Log, v: Verifier, s: Stores.State<V>, run: seq<Presentation<V>>,
                       keep: seq<bool>, a: Presentation<V>, k: bool)
    requires |keep| == |run|
    requires After(c, log, v, s, Select(run, keep)) == After(c, log, v, s, run)
    requires Verdicts(c, log, v, s, Select(run, keep)) == Select(Verdicts(c, log, v, s, run), keep)
    requires k || !Authorise(c, log, v, After(c, log, v, s, run), a).1.Authorised?
    ensures After(c, log, v, s, Select(run + [a], keep + [k])) == After(c, log, v, s, run + [a])
    ensures Verdicts(c, log, v, s, Select(run + [a], keep + [k]))
            == Select(Verdicts(c, log, v, s, run + [a]), keep + [k])
  {
    var verdict := Authorise(c, log, v, After(c, log, v, s, run), a).1;
    OneMore(c, log, v, s, run, a);
    SelectOneMore(run, a, keep, k);
    SelectOneMore(Verdicts(c, log, v, s, run), verdict, keep, k);
    if k {
      OneMore(c, log, v, s, Select(run, keep), a);
    } else {
      RefusedKeepsStore(c, log, v, After(c, log, v, s, run), a);
      assert Select(run, keep) + [] == Select(run, keep);
    }
  }

  // Dropping presentations that were not authorised, any of them, changes
  // neither the store nor any verdict on what remains: a credential cannot be
  // burnt by presenting it for another transaction, replaying it, or failing.
  lemma {:induction false} RefusalsLeaveNoTrace<V>(
    c: Crypto, log: Log, v: Verifier, s: Stores.State<V>, run: seq<Presentation<V>>, keep: seq<bool>)
    requires |keep| == |run|
    requires forall i :: 0 <= i < |run| && !keep[i] ==> !Verdicts(c, log, v, s, run)[i].Authorised?
    ensures After(c, log, v, s, Select(run, keep)) == After(c, log, v, s, run)
    ensures Verdicts(c, log, v, s, Select(run, keep)) == Select(Verdicts(c, log, v, s, run), keep)
    decreases |run|
  {
    if run != [] {
      var n := |run| - 1;
      var prefix, a := run[..n], run[n];
      assert run == prefix + [a] && keep == keep[..n] + [keep[n]];
      OneMore(c, log, v, s, prefix, a);
      var verdicts := Verdicts(c, log, v, s, prefix);
      forall i | 0 <= i < n && !keep[..n][i]
        ensures !verdicts[i].Authorised?
      {
        assert !keep[i] && Verdicts(c, log, v, s, run)[i] == verdicts[i];
      }
      RefusalsLeaveNoTrace(c, log, v, s, prefix, keep[..n]);
      RefusalStep(c, log, v, s, prefix, keep[..n], a, keep[n]);
    }
  }

  lemma RefusedKeepsStore<V>(c: Crypto, log: Log, v: Verifier, s: Stores.State<V>, a: Presentation<V>)
    requires !Authorise(c, log, v, s, a).1.Authorised?
    ensures Authorise(c, log, v, s, a).0 == s
  {
  }

  lemma OneMore<V>(c: Crypto, log: Log, v: Verifier, s: Stores.State<V>, run: seq<Presentation<V>>, a: Presentation<V>)
    ensures After(c, log, v, s, run + [a]) == Authorise(c, log, v, After(c, log, v, s, run), a).0
    ensures Verdicts(c, log, v, s, run + [a])
            == Verdicts(c, log, v, s, run) + [Authorise(c, log, v, After(c, log, v, s, run), a).1]
  {
    assert (run + [a])[..|run + [a]| - 1] == run;
  }

  // Whatever texts verified to an id, it is spent at most once between them.
  lemma {:induction false} SpentAtMostOnce<V>(
    c: Crypto, log: Log, v: Verifier, s: Stores.State<V>, run: seq<Presentation<V>>, i: nat, j: nat)
    requires i < j < |run|
    requires Verdicts(c, log, v, s, run)[i].Authorised? && Verdicts(c, log, v, s, run)[j].Authorised?
    ensures Verdicts(c, log, v, s, run)[i].rec.id != Verdicts(c, log, v, s, run)[j].rec.id
    decreases |run|
  {
    var n := |run| - 1;
    OneMore(c, log, v, s, run[..n], run[n]);
    assert run[..n] + [run[n]] == run;
    if j < n {
      SpentAtMostOnce(c, log, v, s, run[..n], i, j);
    } else {
      AuthorisedIsRecorded(c, log, v, s, run[..n], i);
      AuthorisedRecords(c, log, v, After(c, log, v, s, run[..n]), run[n]);
    }
  }

  lemma {:induction false} AuthorisedIsRecorded<V>(
    c: Crypto, log: Log, v: Verifier, s: Stores.State<V>, run: seq<Presentation<V>>, i: nat)
    requires i < |run| && Verdicts(c, log, v, s, run)[i].Authorised?
    ensures var rec := Verdicts(c, log, v, s, run)[i].rec;
            rec.id in After(c, log, v, s, run).consumed && After(c, log, v, s, run).consumed[rec.id] == rec
    decreases |run|
  {
    var n := |run| - 1;
    OneMore(c, log, v, s, run[..n], run[n]);
    assert run[..n] + [run[n]] == run;
    if i < n {
      AuthorisedIsRecorded(c, log, v, s, run[..n], i);
      RecordsStay(c, log, v, After(c, log, v, s, run[..n]), run[n], Verdicts(c, log, v, s, run)[i].rec.id);
    } else {
      AuthorisedRecords(c, log, v, After(c, log, v, s, run[..n]), run[n]);
    }
  }

  lemma RecordsStay<V>(c: Crypto, log: Log, v: Verifier, s: Stores.State<V>, a: Presentation<V>, id: Bytes)
    requires id in s.consumed
    ensures var t := Authorise(c, log, v, s, a).0;
            id in t.consumed && t.consumed[id] == s.consumed[id]
  {
  }

  lemma AuthorisedRecords<V>(c: Crypto, log: Log, v: Verifier, s: Stores.State<V>, a: Presentation<V>)
    requires Authorise(c, log, v, s, a).1.Authorised?
    ensures var (t, verdict) := Authorise(c, log, v, s, a);
            verdict.rec.id !in s.consumed && verdict.rec.id in t.consumed && t.consumed[verdict.rec.id] == verdict.rec
  {
  }

  predicate SomeoneSpends<V>(c: Crypto, log: Log, v: Verifier, run: seq<Presentation<V>>, id: Bytes) {
    exists j :: 0 <= j < |run| && Spends(c, log, v, run[j], id)
  }

  lemma SomeoneSpendsOneMore<V>(c: Crypto, log: Log, v: Verifier, run: seq<Presentation<V>>, a: Presentation<V>, id: Bytes)
    ensures SomeoneSpends(c, log, v, run + [a], id) <==> SomeoneSpends(c, log, v, run, id) || Spends(c, log, v, a, id)
  {
    var longer := run + [a];
    assert longer[|run|] == a && forall j :: 0 <= j < |run| ==> longer[j] == run[j];
    if j :| 0 <= j < |run| && Spends(c, log, v, run[j], id) {
      assert Spends(c, log, v, longer[j], id);
    }
  }

  // The ids spent after a run are those spent before it and those some
  // presentation of it would spend.
  lemma {:induction false} SpentAfter<V>(
    c: Crypto, log: Log, v: Verifier, s: Stores.State<V>, run: seq<Presentation<V>>, id: Bytes)
    ensures id in After(c, log, v, s, run).consumed <==> id in s.consumed || SomeoneSpends(c, log, v, run, id)
    decreases |run|
  {
    if run != [] {
      var n := |run| - 1;
      assert run == run[..n] + [run[n]];
      SpentAfter(c, log, v, s, run[..n], id);
      OneMore(c, log, v, s, run[..n], run[n]);
      SpendStep(c, log, v, After(c, log, v, s, run[..n]), run[n], id);
      SomeoneSpendsOneMore(c, log, v, run[..n], run[n], id);
    }
  }

  lemma SpendStep<V>(c: Crypto, log: Log, v: Verifier, s: Stores.State<V>, a: Presentation<V>, id: Bytes)
    ensures id in Authorise(c, log, v, s, a).0.consumed <==> id in s.consumed || Spends(c, log, v, a, id)
  {
  }

  // Every verdict of a run, from the presentations alone.
  lemma {:induction false} VerdictsExactly<V>(
    c: Crypto, log: Log, v: Verifier, s: Stores.State<V>, run: seq<Presentation<V>>, i: nat)
    requires i < |run|
    ensures var a, verdict := run[i], Verdicts(c, log, v, s, run)[i];
            var verified := Verify(c, log, v, a.text, a.now, a.want);
            && (verified.Err? ==> verdict == Refused(verified.error))
            && (verified.Ok? ==>
                  var p := verified.value;
                  var rec := Stores.Consumption(p.id, p.issuer, p.subject, p.authMethod, p.binding,
                                                a.want.reference, a.later);
                  verdict == Answer(p.id in s.consumed || SomeoneSpends(c, log, v, run[..i], p.id),
                                    rec, a.effect(rec).ending))
    decreases |run|
  {
    var n := |run| - 1;
    var prefix := run[..n];
    assert run == prefix + [run[n]];
    OneMore(c, log, v, s, prefix, run[n]);
    if i < n {
      VerdictsExactly(c, log, v, s, prefix, i);
      assert prefix[..i] == run[..i];
    } else {
      LastVerdict(c, log, v, s, prefix, run[n]);
    }
  }

  lemma LastVerdict<V>(
    c: Crypto, log: Log, v: Verifier, s: Stores.State<V>, prefix: seq<Presentation<V>>, a: Presentation<V>)
    ensures var verdict := Authorise(c, log, v, After(c, log, v, s, prefix), a).1;
            var verified := Verify(c, log, v, a.text, a.now, a.want);
            && (verified.Err? ==> verdict == Refused(verified.error))
            && (verified.Ok? ==>
                  var p := verified.value;
                  var rec := Stores.Consumption(p.id, p.issuer, p.subject, p.authMethod, p.binding,
                                                a.want.reference, a.later);
                  verdict == Answer(p.id in s.consumed || SomeoneSpends(c, log, v, prefix, p.id),
                                    rec, a.effect(rec).ending))
  {
    VerdictExactly(c, log, v, After(c, log, v, s, prefix), a);
    var verified := Verify(c, log, v, a.text, a.now, a.want);
    if verified.Ok? {
      SpentAfter(c, log, v, s, prefix, verified.value.id);
    }
  }

  // The presentation names some issuer other than name, or none at all.
  predicate NamesAnother<V>(a: Presentation<V>, name: Bytes) {
    ParseUnverified(a.text).Ok? ==> ParseUnverified(a.text).value.issuer != name
  }

  // A run made of credentials of other issuers is the same run, state by state
  // and verdict by verdict, whatever key one issuer is given.
  lemma {:induction false} RekeyingIsInvisible<V>(
    c: Crypto, log: Log, v: Verifier, s: Stores.State<V>, run: seq<Presentation<V>>, name: Bytes, pub: Bytes)
    requires forall i :: 0 <= i < |run| ==> NamesAnother(run[i], name)
    ensures var v' := v.(trusted := v.trusted[name := pub]);
            && After(c, log, v', s, run) == After(c, log, v, s, run)
            && Verdicts(c, log, v', s, run) == Verdicts(c, log, v, s, run)
    decreases |run|
  {
    if run != [] {
      var a := run[|run| - 1];
      RekeyingIsInvisible(c, log, v, s, run[..|run| - 1], name, pub);
      assert NamesAnother(a, name);
      IssuersAreIndependent(c, log, v, name, pub, a.text, a.now, a.want);
    }
  }
}
