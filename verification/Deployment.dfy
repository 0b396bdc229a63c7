/**
 * The two halves together: authority decides which calls reach the PostgreSQL
 * store, the store interleaves them, and what becomes durable is still among
 * what was signed.
 */
module Deployment {
  import opened Bytes
  import opened Digests
  import opened Credentials
  import opened Authority
  import opened System
  import Stores
  import Postgres

  // The call Authorise makes for a presentation that verifies.
  predicate Makes(c: Crypto, log: Log, v: Verifier, e: Event, call: Stores.Call<Binding>) {
    e.Present? &&
    var verified := Verify(c, log, v, e.text, e.now, e.want);
    verified.Ok? &&
    var rec := RecordFor(verified.value, e.want, e.later);
    call == Stores.Call(rec, Stores.Effect([(rec.id, e.want)], e.ending))
  }

  // It was verified when k of the mintings had happened.
  predicate MakesAfter(c: Crypto, v: Verifier, minting: seq<Event>, k: nat, e: Event, call: Stores.Call<Binding>)
    requires k <= |minting|
  {
    var w := System.Play(c, v, minting[..k]);
    w.Some? && Makes(c, w.value.log, v, e, call)
  }

  // Minting and foreign signing leave the store alone.
  lemma {:induction false} MintingSpendsNothing(c: Crypto, v: Verifier, minting: seq<Event>)
    requires System.Play(c, v, minting).Some? && forall k :: 0 <= k < |minting| ==> !minting[k].Present?
    ensures System.Play(c, v, minting).value.state == Stores.Empty()
  {
    if minting != [] {
      var prefix := minting[..|minting| - 1];
      MintingSpendsNothing(c, v, prefix);
      assert !minting[|minting| - 1].Present?;
    }
  }

  lemma MadeEarlier(c: Crypto, v: Verifier, minting: seq<Event>, k: nat, e: Event, call: Stores.Call<Binding>)
    requires System.Play(c, v, minting).Some? && k <= |minting|
    requires MakesAfter(c, v, minting, k, e, call)
    ensures Makes(c, System.Play(c, v, minting).value.log, v, e, call)
  {
    LogGrows(c, v, minting, k);
    AcceptanceIsMonotone(c, System.Play(c, v, minting[..k]).value.log, System.Play(c, v, minting).value.log,
                         v, e.text, e.now, e.want);
  }

  lemma OnePresentation(c: Crypto, v: Verifier, w: World, e: Event, call: Stores.Call<Binding>)
    requires Makes(c, w.log, v, e, call)
    ensures var w' := System.Next(c, v, w, e);
            w'.log == w.log && w'.grants == w.grants && w'.state == Stores.Consume(w.state, call).0
  {
    PresentStep(c, v, w, e);
    OnePosting(w.state.committed, call.rec.id, e.want);
  }

  // The world after presentations, one at a time.
  function Advance(c: Crypto, v: Verifier, w: World, presents: seq<Event>): World {
    if presents == [] then w
    else System.Next(c, v, Advance(c, v, w, presents[..|presents| - 1]), presents[|presents| - 1])
  }

  lemma {:induction false} PlayAdvances(c: Crypto, v: Verifier, run: seq<Event>, presents: seq<Event>)
    requires System.Play(c, v, run).Some? && forall k :: 0 <= k < |presents| ==> presents[k].Present?
    ensures System.Play(c, v, run + presents) == Some(Advance(c, v, System.Play(c, v, run).value, presents))
    decreases |presents|
  {
    if presents == [] {
      assert run + presents == run;
    } else {
      var n := |presents| - 1;
      PlayAdvances(c, v, run, presents[..n]);
      PlayOneMore(c, v, run + presents[..n], presents[n]);
      assert run + presents[..n] + [presents[n]] == run + presents;
    }
  }

  // Presentations act on the world as their calls act on the memory store.
  lemma {:induction false} PresentationsFollowCalls(
    c: Crypto, v: Verifier, w: World, presents: seq<Event>, calls: seq<Stores.Call<Binding>>)
    requires |presents| == |calls|
    requires forall k :: 0 <= k < |calls| ==> Makes(c, w.log, v, presents[k], calls[k])
    ensures var w' := Advance(c, v, w, presents);
            w'.log == w.log && w'.grants == w.grants && w'.state == Stores.After(w.state, calls)
    decreases |calls|
  {
    if calls != [] {
      var n := |calls| - 1;
      PresentationsFollowCalls(c, v, w, presents[..n], calls[..n]);
      OnePresentation(c, v, Advance(c, v, w, presents[..n]), presents[n], calls[n]);
    }
  }

  function Reordered(presents: seq<Event>, order: seq<nat>): (r: seq<Event>)
    requires forall k :: 0 <= k < |order| ==> order[k] < |presents|
    ensures |r| == |order| && forall k :: 0 <= k < |order| ==> r[k] == presents[order[k]]
  {
    seq(|order|, k requires 0 <= k < |order| => presents[order[k]])
  }

  // Any number of presentations, each verified at some moment of the minting and
  // raced through the PostgreSQL store on any schedule with any failures, leave
  // the database in a state the system reaches one presentation at a time. So
  // every durable posting is backed by its own signed grant, and short of an
  // exhibited collision the postings are among the signed transactions.
  lemma ConcurrentPostingsWereSigned(
    c: Crypto, v: Verifier, minting: seq<Event>, presents: seq<Event>, at: seq<nat>,
    calls: seq<Stores.Call<Binding>>, trace: seq<Postgres.Event>)
    returns (run: seq<Event>, sources: seq<nat>)
    requires System.Play(c, v, minting).Some? && forall k :: 0 <= k < |minting| ==> !minting[k].Present?
    requires |presents| == |at| == |calls|
    requires forall k :: 0 <= k < |calls| ==>
               at[k] <= |minting| && MakesAfter(c, v, minting, at[k], presents[k], calls[k])
    requires Postgres.Play(calls, trace).Some?
    ensures System.Play(c, v, run).Some?
    ensures var s, w, w' :=
              Postgres.Play(calls, trace).value, System.Play(c, v, minting).value, System.Play(c, v, run).value;
            && w'.state == Stores.State(s.table, s.data) && w'.grants == w.grants
            && SpendsAccounted(c, v, w', sources)
            && DurableOneToOne(w')
            && ((forall k :: 0 <= k < |w'.spends| ==>
                   !Collide(c.sha, BindingPreimage(w'.spends[k].want), BindingPreimage(w.grants[sources[k]].binding)))
                ==> multiset(Posted(w'.spends)) <= multiset(Signed(w.grants)))
  {
    var s := Postgres.Play(calls, trace).value;
    Postgres.EveryScheduleRefines(calls, trace);
    MintingSpendsNothing(c, v, minting);
    var chosen, picked := Reordered(presents, s.order), Postgres.Picked(calls, s.order);
    var w := System.Play(c, v, minting).value;
    forall k | 0 <= k < |picked|
      ensures Makes(c, w.log, v, chosen[k], picked[k])
    {
      var i := s.order[k];
      MadeEarlier(c, v, minting, at[i], presents[i], calls[i]);
    }
    PresentationsFollowCalls(c, v, w, chosen, picked);
    PlayAdvances(c, v, minting, chosen);
    run := minting + chosen;
    sources := WorstCaseIsWhatWasSigned(c, v, run);
  }
}
