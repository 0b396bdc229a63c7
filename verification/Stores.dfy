/**
 * The contract of Store.Consume, store.go, as one atomic step on a value, and
 * what it implies for any sequence of calls.
 *
 * An effect is a finite script of blind writes with an ending: it returns nil,
 * returns an error, or panics.
 */
module Stores {
  import opened Bytes

  datatype Consumption = Consumption(
    id: Bytes, issuer: Bytes, subject: Bytes, authMethod: Bytes, binding: Bytes, reference: Bytes, consumedAt: int)

  datatype Ending = Nil | Error(code: int) | Panic

  datatype Effect<V> = Effect(puts: seq<(Bytes, V)>, ending: Ending)

  datatype Call<V> = Call(rec: Consumption, effect: Effect<V>)

  // What one call reports.
  datatype Outcome = Done | AlreadyConsumed | EffectFailed(code: int) | EffectPanicked

  datatype State<V> = State(consumed: map<Bytes, Consumption>, committed: map<Bytes, V>)

  function ApplyPuts<V>(m: map<Bytes, V>, puts: seq<(Bytes, V)>): map<Bytes, V> {
    if puts == [] then m
    else
      var last := puts[|puts| - 1];
      ApplyPuts(m, puts[..|puts| - 1])[last.0 := last.1]
  }

  // Record, run, commit both or neither; refused before the effect when spent.
  function Consume<V>(s: State<V>, call: Call<V>): (State<V>, Outcome) {
    if call.rec.id in s.consumed then (s, AlreadyConsumed)
    else
      match call.effect.ending
      case Error(code) => (s, EffectFailed(code))
      case Panic => (s, EffectPanicked)
      case Nil =>
        (State(s.consumed[call.rec.id := call.rec], ApplyPuts(s.committed, call.effect.puts)), Done)
  }

  /* ---- sequences of calls ---- */

  function After<V>(s: State<V>, calls: seq<Call<V>>): State<V> {
    if calls == [] then s
    else Consume(After(s, calls[..|calls| - 1]), calls[|calls| - 1]).0
  }

  function OutcomeOf<V>(s: State<V>, calls: seq<Call<V>>, i: nat): Outcome
    requires i < |calls|
  {
    Consume(After(s, calls[..i]), calls[i]).1
  }

  function Empty<V>(): State<V> {
    State(map[], map[])
  }

  // An earlier call spent the same id.
  predicate SpentBefore<V>(calls: seq<Call<V>>, i: nat)
    requires i <= |calls|
  {
    i < |calls| && exists j :: 0 <= j < i && calls[j].rec.id == calls[i].rec.id && calls[j].effect.ending.Nil?
  }

  // The ids recorded are exactly those of calls whose effect returned nil.
  lemma {:induction false} ConsumedIds<V>(calls: seq<Call<V>>, id: Bytes)
    ensures id in After(Empty(), calls).consumed <==>
            exists j :: 0 <= j < |calls| && calls[j].rec.id == id && calls[j].effect.ending.Nil?
  {
    if calls != [] {
      var prefix, last := calls[..|calls| - 1], calls[|calls| - 1];
      ConsumedIds(prefix, id);
      if last.rec.id == id && last.effect.ending.Nil? {
        assert calls[|calls| - 1].rec.id == id && calls[|calls| - 1].effect.ending.Nil?;
      }
      if j :| 0 <= j < |prefix| && prefix[j].rec.id == id && prefix[j].effect.ending.Nil? {
        assert calls[j].rec.id == id && calls[j].effect.ending.Nil?;
      }
      if j :| 0 <= j < |calls| && calls[j].rec.id == id && calls[j].effect.ending.Nil? {
        assert j == |calls| - 1 || (prefix[j].rec.id == id && prefix[j].effect.ending.Nil?);
      }
    }
  }

  // Every result, from the calls alone: the first call of an id whose effect
  // returns nil is done; later ones are replays; the others report their effect.
  lemma OutcomesExactly<V>(calls: seq<Call<V>>, i: nat)
    requires i < |calls|
    ensures OutcomeOf(Empty(), calls, i) ==
            if SpentBefore(calls, i) then AlreadyConsumed
            else match calls[i].effect.ending
              case Nil => Done
              case Error(code) => EffectFailed(code)
              case Panic => EffectPanicked
  {
    var prefix, id := calls[..i], calls[i].rec.id;
    ConsumedIds(prefix, id);
    assert forall j :: 0 <= j < i ==> calls[j] == prefix[j];
  }

  // The writes of the calls that were done, in order.
  function DoneWrites<V>(calls: seq<Call<V>>): seq<(Bytes, V)> {
    if calls == [] then []
    else
      var prefix := calls[..|calls| - 1];
      DoneWrites(prefix)
      + if OutcomeOf(Empty(), calls, |calls| - 1).Done? then calls[|calls| - 1].effect.puts else []
  }

  // Position i holds the last write of key.
  predicate LastWrite<V>(puts: seq<(Bytes, V)>, key: Bytes, i: int) {
    0 <= i < |puts| && puts[i].0 == key && forall j :: i < j < |puts| ==> puts[j].0 != key
  }

  lemma {:induction false} ApplyPutsLookup<V>(m: map<Bytes, V>, puts: seq<(Bytes, V)>, key: Bytes)
    ensures forall i :: LastWrite(puts, key, i) ==> key in ApplyPuts(m, puts) && ApplyPuts(m, puts)[key] == puts[i].1
    ensures (forall i :: 0 <= i < |puts| ==> puts[i].0 != key) ==>
              (key in ApplyPuts(m, puts) <==> key in m) && (key in m ==> ApplyPuts(m, puts)[key] == m[key])
    ensures key in ApplyPuts(m, puts) <==> key in m || exists i :: LastWrite(puts, key, i)
  {
    if puts != [] {
      var prefix, n := puts[..|puts| - 1], |puts| - 1;
      ApplyPutsLookup(m, prefix, key);
      if puts[n].0 == key {
        assert LastWrite(puts, key, n);
      } else {
        assert forall i :: LastWrite(puts, key, i) <==> LastWrite(prefix, key, i);
      }
    }
  }

  lemma {:induction false} ApplyPutsConcat<V>(m: map<Bytes, V>, a: seq<(Bytes, V)>, b: seq<(Bytes, V)>)
    ensures ApplyPuts(m, a + b) == ApplyPuts(ApplyPuts(m, a), b)
  {
    if b == [] {
      assert a + b == a;
    } else {
      assert (a + b)[..|a + b| - 1] == a + b[..|b| - 1];
      ApplyPutsConcat(m, a, b[..|b| - 1]);
    }
  }

  lemma {:induction false} CommittedIsFold<V>(calls: seq<Call<V>>)
    ensures After(Empty(), calls).committed == ApplyPuts(map[], DoneWrites(calls))
  {
    if calls != [] {
      var prefix := calls[..|calls| - 1];
      CommittedIsFold(prefix);
      ApplyPutsConcat(map[], DoneWrites(prefix), calls[|calls| - 1].effect.puts);
      assert DoneWrites(prefix) + [] == DoneWrites(prefix);
    }
  }

  // The committed map after any calls: each key holds the last value a done
  // call wrote to it; failed and panicking effects contribute nothing.
  lemma CommittedExactly<V>(calls: seq<Call<V>>, key: Bytes)
    ensures var committed := After(Empty(), calls).committed;
            && (key in committed <==> exists i :: LastWrite(DoneWrites(calls), key, i))
            && forall i :: LastWrite(DoneWrites(calls), key, i) ==>
                 key in committed && committed[key] == DoneWrites(calls)[i].1
  {
    CommittedIsFold(calls);
    ApplyPutsLookup(map[], DoneWrites(calls), key);
  }

  lemma {:induction false} AfterConcat<V>(s: State<V>, a: seq<Call<V>>, b: seq<Call<V>>)
    ensures After(s, a + b) == After(After(s, a), b)
  {
    if b == [] {
      assert a + b == a;
    } else {
      assert (a + b)[..|a + b| - 1] == a + b[..|b| - 1];
      AfterConcat(s, a, b[..|b| - 1]);
    }
  }

  // A spent record never changes.
  lemma {:induction false} RecordsAreKept<V>(s: State<V>, calls: seq<Call<V>>, id: Bytes)
    requires id in s.consumed
    ensures id in After(s, calls).consumed && After(s, calls).consumed[id] == s.consumed[id]
  {
    if calls != [] {
      RecordsAreKept(s, calls[..|calls| - 1], id);
    }
  }

  // The row of an id is the record of the call that was done, whatever came later.
  lemma DoneIsRecorded<V>(calls: seq<Call<V>>, k: nat)
    requires k < |calls| && OutcomeOf(Empty(), calls, k).Done?
    ensures var consumed := After(Empty(), calls).consumed;
            calls[k].rec.id in consumed && consumed[calls[k].rec.id] == calls[k].rec
  {
    var a, b := calls[..k + 1], calls[k + 1..];
    assert a[..|a| - 1] == calls[..k] && a[|a| - 1] == calls[k];
    assert a + b == calls;
    AfterConcat(Empty(), a, b);
    RecordsAreKept(After(Empty(), a), b, calls[k].rec.id);
  }

  // And every row is one.
  lemma {:induction false} RecordedWasDone<V>(calls: seq<Call<V>>, id: Bytes) returns (k: nat)
    requires id in After(Empty(), calls).consumed
    ensures k < |calls| && calls[k].rec.id == id && OutcomeOf(Empty(), calls, k).Done?
  {
    var n := |calls| - 1;
    if id in After(Empty(), calls[..n]).consumed {
      k := RecordedWasDone(calls[..n], id);
      assert calls[..n][..k] == calls[..k];
    } else {
      k := n;
    }
  }

  // No id is done twice.
  lemma DoneOnce<V>(calls: seq<Call<V>>, k: nat, l: nat)
    requires k < |calls| && l < |calls| && calls[k].rec.id == calls[l].rec.id
    requires OutcomeOf(Empty(), calls, k).Done? && OutcomeOf(Empty(), calls, l).Done?
    ensures k == l
  {
    OutcomesExactly(calls, k);
    OutcomesExactly(calls, l);
  }
}
