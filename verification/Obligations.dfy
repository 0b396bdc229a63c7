/**
 * The sequential checks of the conformance suite, conformance/conformance.go,
 * run on the reference store for every credential, value and prior history
 * rather than for one fixed id. Each returns what the store answered and whether
 * the check passes, and leaves exactly the state it should.
 */
module Obligations {
  import opened Bytes
  import opened Stores
  import opened Memory

  function Write<V>(key: Bytes, v: V): Effect<V> {
    Effect([(key, v)], Nil)
  }

  lemma OnePut<V>(m: map<Bytes, V>, key: Bytes, v: V)
    ensures ApplyPuts(m, [(key, v)]) == m[key := v]
  {
    assert [(key, v)][..0] == [];
  }

  // One successful presentation: the effect runs once, and exactly its record
  // and its write are added.
  method SpendsOnce<V>(s: Store<V>, r: Consumption, v: V) returns (outcome: Outcome, runs: nat, passed: bool)
    requires r.id !in s.consumed
    modifies s
    ensures outcome.Done? && runs == 1 && passed
    ensures s.consumed == old(s.consumed)[r.id := r] && s.committed == old(s.committed)[r.id := v]
  {
    OnePut(s.committed, r.id, v);
    var ctx;
    outcome, runs, ctx := s.Consume(r, Write(r.id, v));
    var record := s.Record(r.id);
    var value := s.Get(r.id);
    passed := outcome.Done? && record == Some(r) && value.Some? && runs == 1;
  }

  method RefusesReplay<V>(s: Store<V>, r: Consumption, v: V, second: Bytes)
    returns (first: Outcome, replay: Outcome, runs: nat, passed: bool)
    requires r.id !in s.consumed && second !in s.committed && second != r.id
    modifies s
    ensures first.Done? && replay.AlreadyConsumed? && runs == 0 && passed
    ensures s.consumed == old(s.consumed)[r.id := r] && s.committed == old(s.committed)[r.id := v]
  {
    OnePut(s.committed, r.id, v);
    var firstRuns, ctx;
    first, firstRuns, ctx := s.Consume(r, Write(r.id, v));
    replay, runs, ctx := s.Consume(r, Write(second, v));
    var value := s.Get(second);
    passed := first.Done? && replay.AlreadyConsumed? && runs == 0 && value.None?;
  }

  method FailedEffect<V>(s: Store<V>, r: Consumption, puts: seq<(Bytes, V)>, code: int)
    returns (outcome: Outcome, runs: nat, passed: bool)
    requires r.id !in s.consumed
    modifies s
    ensures outcome == EffectFailed(code) && runs == 1 && passed
    ensures s.consumed == old(s.consumed) && s.committed == old(s.committed)
  {
    var ctx;
    outcome, runs, ctx := s.Consume(r, Effect(puts, Error(code)));
    var record := s.Record(r.id);
    passed := outcome == EffectFailed(code) && record.None?;
  }

  method RetryAfterFailure<V>(s: Store<V>, r: Consumption, v: V, failed: Effect<V>)
    returns (first: Outcome, retry: Outcome, runs: nat, passed: bool)
    requires r.id !in s.consumed && !failed.ending.Nil?
    modifies s
    ensures first == (if failed.ending.Panic? then EffectPanicked else EffectFailed(failed.ending.code))
    ensures retry.Done? && runs == 1 && passed
    ensures s.consumed == old(s.consumed)[r.id := r] && s.committed == old(s.committed)[r.id := v]
  {
    var firstRuns, ctx;
    first, firstRuns, ctx := s.Consume(r, failed);
    retry, runs, passed := SpendsOnce(s, r, v);
  }

  method Distinct<V>(s: Store<V>, a: Consumption, b: Consumption, v: V)
    returns (first: Outcome, second: Outcome, passed: bool)
    requires a.id !in s.consumed && b.id !in s.consumed && a.id != b.id
    modifies s
    ensures first.Done? && second.Done? && passed
    ensures s.consumed == old(s.consumed)[a.id := a][b.id := b]
    ensures s.committed == old(s.committed)[a.id := v][b.id := v]
  {
    OnePut(s.committed, a.id, v);
    OnePut(s.committed[a.id := v], b.id, v);
    var runs, ctx;
    first, runs, ctx := s.Consume(a, Write(a.id, v));
    second, runs, ctx := s.Consume(b, Write(b.id, v));
    var recordA := s.Record(a.id);
    var recordB := s.Record(b.id);
    var valueA := s.Get(a.id);
    var valueB := s.Get(b.id);
    passed := first.Done? && second.Done? && recordA == Some(a) && recordB == Some(b) && valueA.Some? && valueB.Some?;
  }
}
