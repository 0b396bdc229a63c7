/**
 * What the refinement gives a host of the PostgreSQL store: serialisability in
 * real-time order, an append-only table, mutual exclusion, progress,
 * termination, and exactly one success of N simultaneous presentations.
 */
module Schedules {
  import opened Bytes
  import opened Stores
  import opened Postgres

  // Some one-at-a-time order of calls on the memory store gives the same
  // records, the same writes and the same reports.
  ghost predicate Serialisable<V>(calls: seq<Call<V>>, s: Db<V>, order: seq<nat>) {
    && |s.phases| == |calls|
    && Indices(calls, order)
    && s.table == After(Empty(), Picked(calls, order)).consumed
    && s.data == After(Empty(), Picked(calls, order)).committed
    && forall i :: 0 <= i < |calls| && s.phases[i].Finished? ==> ReportAgrees(calls, order, i, s.phases[i].report)
  }

  lemma EveryScheduleSerialises<V>(calls: seq<Call<V>>, trace: seq<Event>)
    requires Play(calls, trace).Some?
    ensures exists order :: Serialisable(calls, Play(calls, trace).value, order)
  {
    var s := Play(calls, trace).value;
    EveryScheduleRefines(calls, trace);
    forall i | 0 <= i < |calls| && s.phases[i].Finished?
      ensures ReportAgrees(calls, s.order, i, s.phases[i].report)
    {
      assert PhaseAgrees(calls, s, i);
    }
    assert Serialisable(calls, s, s.order);
  }

  // Call i has taken effect and was done: its commit happened, acknowledged or not.
  ghost predicate Durable<V>(calls: seq<Call<V>>, order: seq<nat>, i: nat)
    requires Indices(calls, order)
  {
    exists k :: 0 <= k < |order| && order[k] == i && SerialOutcome(calls, order, k).Done?
  }

  // Row and writes are durable together: every row is the whole record of a
  // call that was done, every call that was done has its row, and the data is
  // the fold of the writes of just those calls.
  lemma BothOrNeither<V>(calls: seq<Call<V>>, trace: seq<Event>)
    requires Play(calls, trace).Some?
    ensures var s := Play(calls, trace).value;
            && Indices(calls, s.order)
            && s.data == ApplyPuts(map[], DoneWrites(Picked(calls, s.order)))
            && (forall i :: 0 <= i < |calls| && Durable(calls, s.order, i) ==>
                  calls[i].rec.id in s.table && s.table[calls[i].rec.id] == calls[i].rec)
            && (forall id :: id in s.table ==>
                  exists i :: 0 <= i < |calls| && Durable(calls, s.order, i) && s.table[id] == calls[i].rec)
  {
    var s := Play(calls, trace).value;
    EveryScheduleRefines(calls, trace);
    var picked := Picked(calls, s.order);
    CommittedIsFold(picked);
    forall i | 0 <= i < |calls| && Durable(calls, s.order, i)
      ensures calls[i].rec.id in s.table && s.table[calls[i].rec.id] == calls[i].rec
    {
      DurableIsRecorded(calls, s, i);
    }
    forall id | id in s.table
      ensures exists i :: 0 <= i < |calls| && Durable(calls, s.order, i) && s.table[id] == calls[i].rec
    {
      var i := RecordedIsDurable(calls, s, id);
    }
  }

  lemma DurableIsRecorded<V>(calls: seq<Call<V>>, s: Db<V>, i: nat)
    requires Refines(calls, s) && i < |calls| && Durable(calls, s.order, i)
    ensures calls[i].rec.id in s.table && s.table[calls[i].rec.id] == calls[i].rec
  {
    var k :| 0 <= k < |s.order| && s.order[k] == i && SerialOutcome(calls, s.order, k).Done?;
    DoneIsRecorded(Picked(calls, s.order), k);
  }

  lemma RecordedIsDurable<V>(calls: seq<Call<V>>, s: Db<V>, id: Bytes) returns (i: nat)
    requires Refines(calls, s) && id in s.table
    ensures i < |calls| && Durable(calls, s.order, i) && calls[i].rec.id == id && s.table[id] == calls[i].rec
  {
    var k := RecordedWasDone(Picked(calls, s.order), id);
    i := s.order[k];
    DurableIsRecorded(calls, s, i);
  }

  // A nil result means the call's own record is durable, with its own writes.
  lemma NilMeansDurable<V>(calls: seq<Call<V>>, s: Db<V>, i: nat)
    requires Refines(calls, s) && i < |calls| && s.phases[i] == Finished(Returned(Done))
    ensures Durable(calls, s.order, i)
  {
    assert PhaseAgrees(calls, s, i);
    var k :| 0 <= k < |s.order| && s.order[k] == i;
    assert SerialOutcome(calls, s.order, k) == Done;
  }

  // Exactly-once at its most general: any ids, any failures, any schedule. Two
  // calls of one id never both commit, whatever they reported, so two of them
  // never both return nil.
  lemma AtMostOnce<V>(calls: seq<Call<V>>, trace: seq<Event>, i: nat, j: nat)
    requires Play(calls, trace).Some? && i < |calls| && j < |calls| && calls[i].rec.id == calls[j].rec.id
    ensures var s := Play(calls, trace).value;
            && Indices(calls, s.order)
            && (Durable(calls, s.order, i) && Durable(calls, s.order, j) ==> i == j)
            && (s.phases[i] == s.phases[j] == Finished(Returned(Done)) ==> i == j)
  {
    var s := Play(calls, trace).value;
    EveryScheduleRefines(calls, trace);
    if s.phases[i] == s.phases[j] == Finished(Returned(Done)) {
      NilMeansDurable(calls, s, i);
      NilMeansDurable(calls, s, j);
    }
    if Durable(calls, s.order, i) && Durable(calls, s.order, j) {
      var k :| 0 <= k < |s.order| && s.order[k] == i && SerialOutcome(calls, s.order, k).Done?;
      var l :| 0 <= l < |s.order| && s.order[l] == j && SerialOutcome(calls, s.order, l).Done?;
      DoneOnce(Picked(calls, s.order), k, l);
    }
  }

  // A call that was answered is refused as a replay exactly when another call
  // of its id has committed, its own commit being what nil means.
  lemma ReplayExactly<V>(calls: seq<Call<V>>, trace: seq<Event>, j: nat)
    requires Play(calls, trace).Some? && j < |calls| && calls[j].effect.ending.Nil?
    requires var p := Play(calls, trace).value.phases[j]; p.Finished? && p.report.Returned?
    ensures var s := Play(calls, trace).value;
            && Indices(calls, s.order)
            && (s.phases[j].report.outcome.Done? <==> Durable(calls, s.order, j))
            && (s.phases[j].report.outcome.AlreadyConsumed? <==>
                exists i :: 0 <= i < |calls| && i != j && calls[i].rec.id == calls[j].rec.id && Durable(calls, s.order, i))
  {
    var s := Play(calls, trace).value;
    EveryScheduleRefines(calls, trace);
    assert PhaseAgrees(calls, s, j);
    var l :| 0 <= l < |s.order| && s.order[l] == j;
    OutcomesExactly(Picked(calls, s.order), l);
    if s.phases[j].report.outcome.Done? {
      NilMeansDurable(calls, s, j);
      forall i | 0 <= i < |calls| && i != j && calls[i].rec.id == calls[j].rec.id
        ensures !Durable(calls, s.order, i)
      {
        AtMostOnce(calls, trace, i, j);
      }
    } else {
      var i := SpentByAnother(calls, s, l);
      assert Durable(calls, s.order, i);
    }
  }

  lemma SpentByAnother<V>(calls: seq<Call<V>>, s: Db<V>, l: nat) returns (i: nat)
    requires Refines(calls, s) && l < |s.order| && SerialOutcome(calls, s.order, l).AlreadyConsumed?
    ensures i < |calls| && i != s.order[l] && Durable(calls, s.order, i)
    ensures calls[i].rec.id == calls[s.order[l]].rec.id
  {
    var picked := Picked(calls, s.order);
    var k := RecordedWasDone(picked[..l], picked[l].rec.id);
    assert picked[..l][..k] == picked[..k];
    i := s.order[k];
    assert SerialOutcome(calls, s.order, k).Done?;
  }

  // After a commit error, or a crash, a retry settles the question. When no
  // other call of the id commits, the retry is refused as a replay exactly when
  // the first commit was durable. Results being permanent, the answer is final.
  lemma RetrySettles<V>(calls: seq<Call<V>>, trace: seq<Event>, i: nat, j: nat)
    requires Play(calls, trace).Some? && i < |calls| && j < |calls| && i != j
    requires calls[i].rec.id == calls[j].rec.id && calls[j].effect.ending.Nil?
    requires var p := Play(calls, trace).value.phases[j]; p.Finished? && p.report.Returned?
    requires var s := Play(calls, trace).value;
             Indices(calls, s.order) &&
             forall m :: 0 <= m < |calls| && m != i && m != j && calls[m].rec.id == calls[i].rec.id ==>
                           !Durable(calls, s.order, m)
    ensures var s := Play(calls, trace).value;
            && (s.phases[j].report.outcome.AlreadyConsumed? <==> Durable(calls, s.order, i))
            && (s.phases[j].report.outcome.Done? <==> !Durable(calls, s.order, i))
  {
    var s := Play(calls, trace).value;
    ReplayExactly(calls, trace, j);
    EveryScheduleRefines(calls, trace);
    assert PhaseAgrees(calls, s, j);
    var l :| 0 <= l < |s.order| && s.order[l] == j;
    OutcomesExactly(Picked(calls, s.order), l);
  }

  /* ---- reports ---- */

  // The steps that decide what a call reports.
  predicate Decides(step: Step) {
    match step
    case Begin => false
    case Insert => false
    case Put => false
    case Rollback => false
    case Settle(_) => false
    case _ => true
  }

  // The report of a deciding step.
  function ReportOf<V>(call: Call<V>, step: Step): Report
    requires Decides(step)
  {
    match step
    case BeginError => BeginFailed
    case InsertError => RecordFailed
    case EffectEnds =>
      Returned(match call.effect.ending case Error(code) => EffectFailed(code) case Panic => EffectPanicked case Nil => Done)
    case Commit(acknowledged) => if acknowledged then Returned(Done) else CommitFailed
    case CommitError => CommitFailed
    case LoseCommit(report) => report
    case Crash => Crashed
  }

  // The deciding steps call i has taken, in order.
  function Decisions(trace: seq<Event>, i: nat): (r: seq<Step>)
    ensures forall k :: 0 <= k < |r| ==> Decides(r[k])
  {
    if trace == [] then []
    else
      var e := trace[|trace| - 1];
      Decisions(trace[..|trace| - 1], i) + if e.Of? && e.call == i && Decides(e.step) then [e.step] else []
  }

  lemma {:induction false} DecisionsAreEvents(trace: seq<Event>, i: nat, step: Step)
    requires Decides(step)
    ensures step in Decisions(trace, i) <==> Of(i, step) in trace
  {
    if trace != [] {
      var n := |trace| - 1;
      DecisionsAreEvents(trace[..n], i, step);
      assert trace == trace[..n] + [trace[n]];
    }
  }

  // An effect that returns nil ends in a commit; a lost commit is an error or a crash.
  predicate Possible<V>(call: Call<V>, step: Step) {
    match step
    case EffectEnds => !call.effect.ending.Nil?
    case LoseCommit(report) => report.CommitFailed? || report.Crashed?
    case _ => true
  }

  // At most one step decides; only a crash can come after it.
  predicate Decided<V>(call: Call<V>, steps: seq<Step>, report: Report)
    requires forall k :: 0 <= k < |steps| ==> Decides(steps[k])
  {
    if steps == [] then report == Returned(AlreadyConsumed)
    else
      && (forall k :: 0 <= k < |steps| ==> Possible(call, steps[k]))
      && report == ReportOf(call, steps[|steps| - 1])
      && (|steps| == 1 || (|steps| == 2 && steps[1].Crash? && !steps[0].Crash?))
  }

  predicate PhaseDecided<V>(call: Call<V>, steps: seq<Step>, p: Phase)
    requires forall k :: 0 <= k < |steps| ==> Decides(steps[k])
  {
    match p
    case Ready => steps == []
    case Open => steps == []
    case Running(_) => steps == []
    case Unwinding(report, _) => Decided(call, steps, report) && Crash !in steps
    case Lingering(report) => Decided(call, steps, report) && Crash !in steps
    case Finished(report) => Decided(call, steps, report)
  }

  lemma {:induction false} PhasesDecided<V>(calls: seq<Call<V>>, trace: seq<Event>, i: nat)
    requires Play(calls, trace).Some? && i < |calls|
    ensures PhaseDecided(calls[i], Decisions(trace, i), Play(calls, trace).value.phases[i])
  {
    if trace != [] {
      var n := |trace| - 1;
      PhasesDecided(calls, trace[..n], i);
      PhaseDecidedStep(calls, Play(calls, trace[..n]).value, trace[n], i, Decisions(trace[..n], i));
    }
  }

  lemma PhaseDecidedStep<V>(calls: seq<Call<V>>, s: Db<V>, e: Event, i: nat, steps: seq<Step>)
    requires |s.phases| == |s.runs| == |calls| && Enabled(calls, s, e) && i < |calls|
    requires forall k :: 0 <= k < |steps| ==> Decides(steps[k])
    requires PhaseDecided(calls[i], steps, s.phases[i])
    ensures PhaseDecided(calls[i], steps + (if e.Of? && e.call == i && Decides(e.step) then [e.step] else []),
                         Next(calls, s, e).phases[i])
  {
    if e.Of? && e.call == i {
      if !Decides(e.step) {
        assert steps + [] == steps;
      }
    } else {
      assert steps + [] == steps;
    }
  }

  lemma ReportMeans<V>(call: Call<V>, step: Step)
    requires Decides(step) && Possible(call, step)
    ensures var report, ending := ReportOf(call, step), call.effect.ending;
            && (report == Crashed <==> step == Crash || step == LoseCommit(Crashed))
            && (report == BeginFailed <==> step == BeginError)
            && (report == RecordFailed <==> step == InsertError)
            && (report == CommitFailed <==>
                step == Commit(false) || step == CommitError || step == LoseCommit(CommitFailed))
            && (report == Returned(Done) <==> step == Commit(true))
            && (report.Returned? && report.outcome.EffectFailed? <==> step == EffectEnds && ending.Error?)
            && (report.Returned? && report.outcome.EffectFailed? ==> report.outcome.code == ending.code)
            && (report == Returned(EffectPanicked) <==> step == EffectEnds && ending.Panic?)
            && report != Returned(AlreadyConsumed)
  {
  }

  lemma LastDecides<V>(call: Call<V>, steps: seq<Step>, report: Report, step: Step)
    requires forall k :: 0 <= k < |steps| ==> Decides(steps[k])
    requires Decided(call, steps, report) && Decides(step) && (step.Crash? || Crash !in steps)
    ensures step in steps <==> steps != [] && steps[|steps| - 1] == step
  {
  }

  // What each report means, from the events of the schedule alone. In
  // particular a call that is over returned nil exactly when its commit was
  // acknowledged and it did not crash, and every commit that errs is reported.
  lemma ReportsExactly<V>(calls: seq<Call<V>>, trace: seq<Event>, i: nat)
    requires Play(calls, trace).Some? && i < |calls| && Play(calls, trace).value.phases[i].Finished?
    ensures var report, ending := Play(calls, trace).value.phases[i].report, calls[i].effect.ending;
            var lived := Of(i, Crash) !in trace;
            && (report == Crashed <==> !lived || Of(i, LoseCommit(Crashed)) in trace)
            && (report == BeginFailed <==> lived && Of(i, BeginError) in trace)
            && (report == RecordFailed <==> lived && Of(i, InsertError) in trace)
            && (report == CommitFailed <==>
                lived && (Of(i, Commit(false)) in trace || Of(i, CommitError) in trace
                          || Of(i, LoseCommit(CommitFailed)) in trace))
            && (report == Returned(Done) <==> lived && Of(i, Commit(true)) in trace)
            && (report.Returned? && report.outcome.EffectFailed? <==> lived && Of(i, EffectEnds) in trace && ending.Error?)
            && (report.Returned? && report.outcome.EffectFailed? ==> report.outcome.code == ending.code)
            && (report == Returned(EffectPanicked) <==> lived && Of(i, EffectEnds) in trace && ending.Panic?)
  {
    PhasesDecided(calls, trace, i);
    var steps, report := Decisions(trace, i), Play(calls, trace).value.phases[i].report;
    DecisionsAreEvents(trace, i, Crash);
    LastDecides(calls[i], steps, report, Crash);
    forall step | Decides(step) && Of(i, Crash) !in trace
      ensures Of(i, step) in trace <==> steps != [] && steps[|steps| - 1] == step
    {
      DecisionsAreEvents(trace, i, step);
      LastDecides(calls[i], steps, report, step);
    }
    if steps != [] {
      ReportMeans(calls[i], steps[|steps| - 1]);
    }
  }

  /* ---- what a call does ---- */

  // The steps of call i, in order.
  function StepsOf(trace: seq<Event>, i: nat): seq<Step> {
    if trace == [] then []
    else
      var e := trace[|trace| - 1];
      StepsOf(trace[..|trace| - 1], i) + if e.Of? && e.call == i then [e.step] else []
  }

  // The transaction up to and including n writes of the effect.
  function UpTo(n: nat): (r: seq<Step>)
    ensures |r| == n + 2
  {
    [Begin, Insert] + seq(n, _ => Put)
  }

  // The steps of a call about to roll back with this report.
  predicate Reached<V>(call: Call<V>, steps: seq<Step>, report: Report) {
    var all := UpTo(|call.effect.puts|);
    match report
    case BeginFailed => false
    case RecordFailed => steps == [Begin, InsertError]
    case CommitFailed => steps == all + [Commit(false)] || steps == all + [CommitError]
    case Crashed => false
    case Returned(outcome) =>
      match outcome
      case AlreadyConsumed => steps == UpTo(0)
      case Done => steps == all + [Commit(true)]
      case EffectFailed(code) => steps == all + [EffectEnds] && call.effect.ending == Error(code)
      case EffectPanicked => steps == all + [EffectEnds] && call.effect.ending == Panic
  }

  // All the steps of a call that is over: the deferred rollback ends every path
  // but a failed begin, a lost commit and a crash.
  predicate Ran<V>(call: Call<V>, steps: seq<Step>, report: Report) {
    || (steps == [BeginError] && report == BeginFailed)
    || (|steps| > 0 && steps[|steps| - 1] == Rollback && Reached(call, steps[..|steps| - 1], report))
    || (|steps| > 1 && steps[..|steps| - 1] == UpTo(|call.effect.puts|) + [LoseCommit(report)] && steps[|steps| - 1].Settle?)
    || (|steps| > 0 && steps[|steps| - 1] == Crash && report == Crashed)
  }

  predicate Along<V>(call: Call<V>, steps: seq<Step>, p: Phase) {
    match p
    case Ready => steps == []
    case Open => steps == [Begin]
    case Running(at) => at <= |call.effect.puts| && steps == UpTo(at)
    case Unwinding(report, _) => Reached(call, steps, report)
    case Lingering(report) => steps == UpTo(|call.effect.puts|) + [LoseCommit(report)]
    case Finished(report) => Ran(call, steps, report)
  }

  // Whatever the schedule, the steps of each call are the statements of the code
  // in its order: one begin, one insert, the whole effect, one commit, one
  // rollback, cut short only where its report says.
  lemma {:induction false} CallsFollowTheCode<V>(calls: seq<Call<V>>, trace: seq<Event>, i: nat)
    requires Play(calls, trace).Some? && i < |calls|
    ensures Along(calls[i], StepsOf(trace, i), Play(calls, trace).value.phases[i])
  {
    if trace != [] {
      var n := |trace| - 1;
      CallsFollowTheCode(calls, trace[..n], i);
      AlongEvent(calls, Play(calls, trace[..n]).value, trace[n], i, StepsOf(trace[..n], i));
    }
  }

  lemma AlongEvent<V>(calls: seq<Call<V>>, s: Db<V>, e: Event, i: nat, steps: seq<Step>)
    requires |s.phases| == |s.runs| == |calls| && Enabled(calls, s, e) && i < |calls|
    requires Along(calls[i], steps, s.phases[i])
    ensures Along(calls[i], steps + (if e.Of? && e.call == i then [e.step] else []), Next(calls, s, e).phases[i])
  {
    if e.Of? && e.call == i {
      AlongStep(calls, s, i, e.step, steps);
    } else {
      assert steps + [] == steps;
      OnlyItsOwnMove(calls, s, e, i);
    }
  }

  lemma OnlyItsOwnMove<V>(calls: seq<Call<V>>, s: Db<V>, e: Event, i: nat)
    requires |s.phases| == |s.runs| == |calls| && Enabled(calls, s, e) && i < |calls| && !(e.Of? && e.call == i)
    ensures Next(calls, s, e).phases[i] == s.phases[i]
  {
  }

  lemma AlongStep<V>(calls: seq<Call<V>>, s: Db<V>, i: nat, step: Step, steps: seq<Step>)
    requires |s.phases| == |s.runs| == |calls| && Enabled(calls, s, Of(i, step))
    requires Along(calls[i], steps, s.phases[i])
    ensures Along(calls[i], steps + [step], Next(calls, s, Of(i, step)).phases[i])
  {
    assert (steps + [step])[..|steps|] == steps && (steps + [step])[|steps|] == step;
    if step.Put? {
      assert UpTo(s.phases[i].at) + [Put] == UpTo(s.phases[i].at + 1);
    }
  }

  /* ---- continuations ---- */

  // a is the schedule so far, b any continuation of it.
  // Rows once committed stay as they are; the order only grows; a call that
  // has finished stays finished.
  lemma {:induction false} History<V>(calls: seq<Call<V>>, a: seq<Event>, b: seq<Event>)
    requires Play(calls, a + b).Some?
    ensures Play(calls, a).Some?
    ensures var s, t := Play(calls, a).value, Play(calls, a + b).value;
            && s.order <= t.order
            && (forall id :: id in s.table ==> id in t.table && t.table[id] == s.table[id])
            && (forall i :: 0 <= i < |calls| && s.phases[i].Finished? ==> t.phases[i] == s.phases[i])
    decreases |b|
  {
    if b == [] {
      assert a + b == a;
    } else {
      var b' := b[..|b| - 1];
      assert (a + b)[..|a + b| - 1] == a + b';
      History(calls, a, b');
      var t', e := Play(calls, a + b').value, b[|b| - 1];
      assert (a + b)[|a + b| - 1] == e;
      EveryScheduleRefines(calls, a + b');
      StepHistory(calls, t', e);
    }
  }

  lemma StepHistory<V>(calls: seq<Call<V>>, s: Db<V>, e: Event)
    requires Refines(calls, s) && Enabled(calls, s, e)
    ensures var t := Next(calls, s, e);
            && s.order <= t.order
            && (forall id :: id in s.table ==> id in t.table && t.table[id] == s.table[id])
            && (forall i :: 0 <= i < |calls| && s.phases[i].Finished? ==> t.phases[i] == s.phases[i])
  {
    if e.Sql? {
      TableIsAppendOnly(s.table, e.statement);
    } else {
      assert PhaseAgrees(calls, s, e.call);
      assert Holds(s.phases[e.call]) ==> calls[e.call].rec.id !in s.table;
    }
  }

  // A consumption record is never changed or removed, by any call or any
  // statement, in any continuation.
  lemma RecordsAreImmutable<V>(calls: seq<Call<V>>, a: seq<Event>, b: seq<Event>, id: Bytes)
    requires Play(calls, a + b).Some?
    requires Play(calls, a).Some? && id in Play(calls, a).value.table
    ensures id in Play(calls, a + b).value.table
    ensures Play(calls, a + b).value.table[id] == Play(calls, a).value.table[id]
  {
    History(calls, a, b);
  }

  // A call that is over takes no later place in the order.
  lemma {:induction false} FinishedKeepsPlace<V>(calls: seq<Call<V>>, a: seq<Event>, b: seq<Event>, i: nat)
    requires Play(calls, a + b).Some? && i < |calls|
    requires Play(calls, a).Some? && Play(calls, a).value.phases[i].Finished?
    ensures i in Play(calls, a + b).value.order ==> i in Play(calls, a).value.order
    decreases |b|
  {
    if b == [] {
      assert a + b == a;
    } else {
      var b' := b[..|b| - 1];
      assert (a + b)[..|a + b| - 1] == a + b' && (a + b)[|a + b| - 1] == b[|b| - 1];
      History(calls, a, b');
      FinishedKeepsPlace(calls, a, b', i);
      OnlyItsOwnStep(calls, Play(calls, a + b').value, b[|b| - 1], i);
    }
  }

  lemma OnlyItsOwnStep<V>(calls: seq<Call<V>>, s: Db<V>, e: Event, i: nat)
    requires |s.phases| == |s.runs| == |calls| && Enabled(calls, s, e) && i < |calls| && s.phases[i].Finished?
    ensures i in Next(calls, s, e).order ==> i in s.order
  {
  }

  // The order respects real time: a call that was over before another began
  // comes before it, whatever either reported.
  lemma RealTimeOrder<V>(calls: seq<Call<V>>, a: seq<Event>, b: seq<Event>, i: nat, j: nat, k: nat, l: nat)
    requires Play(calls, a + b).Some? && Play(calls, a).Some? && i < |calls| && j < |calls|
    requires Play(calls, a).value.phases[j] == Ready && Play(calls, a).value.phases[i].Finished?
    requires var order := Play(calls, a + b).value.order;
             k < |order| && l < |order| && order[k] == i && order[l] == j
    ensures k < l
  {
    var s, t := Play(calls, a).value, Play(calls, a + b).value;
    FinishedKeepsPlace(calls, a, b, i);
    History(calls, a, b);
    EveryScheduleRefines(calls, a);
    EveryScheduleRefines(calls, a + b);
    assert PhaseAgrees(calls, s, j);
    PlacesKept(calls, s.order, t.order, k, l);
  }

  lemma PlacesKept<V>(calls: seq<Call<V>>, shorter: seq<nat>, longer: seq<nat>, k: nat, l: nat)
    requires Indices(calls, longer) && shorter <= longer && k < |longer| && l < |longer|
    requires longer[k] in shorter && longer[l] !in shorter
    ensures k < l
  {
    var m :| 0 <= m < |shorter| && shorter[m] == longer[k];
    assert longer[m] == longer[k];
    assert forall x :: 0 <= x < |shorter| ==> shorter[x] == longer[x];
  }

  // Two effects of one credential are never in progress together.
  lemma EffectsExclude<V>(calls: seq<Call<V>>, trace: seq<Event>, i: nat, j: nat)
    requires Play(calls, trace).Some? && i < |calls| && j < |calls| && i != j
    requires calls[i].rec.id == calls[j].rec.id
    ensures !(Play(calls, trace).value.phases[i].Running? && Play(calls, trace).value.phases[j].Running?)
  {
    EveryScheduleRefines(calls, trace);
    var s := Play(calls, trace).value;
    assert RowsExclusive(calls, s);
  }

  /* ---- progress and termination ---- */

  // Steps of a call when nothing fails from outside.
  predicate Healthy(e: Event) {
    match e
    case Sql(_) => true
    case Of(_, step) => step == Begin || step == Insert || step == Put || step == EffectEnds || step == Rollback
                        || step == Commit(true) || step.Settle?
  }

  // The step a call that is not blocked takes next.
  function NextStep<V>(call: Call<V>, p: Phase): Step
    requires !p.Finished? && (p.Running? ==> p.at <= |call.effect.puts|)
  {
    match p
    case Ready => Begin
    case Open => Insert
    case Running(at) =>
      if at < |call.effect.puts| then Put else if call.effect.ending.Nil? then Commit(true) else EffectEnds
    case Unwinding(_, _) => Rollback
    case Lingering(_) => Settle(false)
  }

  // No deadlock: until every call has finished, some call can take a healthy
  // step, for a call waiting in its insert holds no row itself.
  lemma Progress<V>(calls: seq<Call<V>>, s: Db<V>, i: nat) returns (e: Event)
    requires Refines(calls, s) && i < |calls| && !s.phases[i].Finished?
    ensures Enabled(calls, s, e) && Healthy(e) && e.Of?
  {
    assert PhaseAgrees(calls, s, i);
    if s.phases[i].Open? && Blocked(calls, s, i) {
      var j :| 0 <= j < |calls| && j != i && Holds(s.phases[j]) && calls[j].rec.id == calls[i].rec.id;
      assert PhaseAgrees(calls, s, j);
      e := Of(j, NextStep(calls[j], s.phases[j]));
    } else {
      e := Of(i, NextStep(calls[i], s.phases[i]));
    }
  }

  function Rank<V>(call: Call<V>, p: Phase): int {
    match p
    case Ready => |call.effect.puts| + 4
    case Open => |call.effect.puts| + 3
    case Running(at) => |call.effect.puts| - at + 2
    case Unwinding(_, _) => 1
    case Lingering(_) => 1
    case Finished(_) => 0
  }

  // Steps that can still be taken.
  function Remaining<V>(calls: seq<Call<V>>, phases: seq<Phase>): int
    requires |phases| == |calls|
  {
    if calls == [] then 0
    else Remaining(calls[..|calls| - 1], phases[..|calls| - 1]) + Rank(calls[|calls| - 1], phases[|calls| - 1])
  }

  lemma {:induction false} RemainingUpdate<V>(calls: seq<Call<V>>, phases: seq<Phase>, i: nat, p: Phase)
    requires |phases| == |calls| && i < |calls|
    ensures Remaining(calls, phases[i := p]) == Remaining(calls, phases) - Rank(calls[i], phases[i]) + Rank(calls[i], p)
  {
    var n := |calls| - 1;
    if i == n {
      assert phases[i := p][..n] == phases[..n];
    } else {
      assert phases[i := p][..n] == phases[..n][i := p];
      RemainingUpdate(calls[..n], phases[..n], i, p);
    }
  }

  lemma {:induction false} RemainingNonNegative<V>(calls: seq<Call<V>>, phases: seq<Phase>)
    requires |phases| == |calls|
    requires forall i :: 0 <= i < |calls| && phases[i].Running? ==> phases[i].at <= |calls[i].effect.puts|
    ensures Remaining(calls, phases) >= 0
  {
    if calls != [] {
      RemainingNonNegative(calls[..|calls| - 1], phases[..|calls| - 1]);
    }
  }

  function StepsOfCalls(trace: seq<Event>): nat {
    if trace == [] then 0
    else StepsOfCalls(trace[..|trace| - 1]) + if trace[|trace| - 1].Of? then 1 else 0
  }

  lemma StepLowersRank<V>(calls: seq<Call<V>>, s: Db<V>, i: nat, step: Step)
    requires |s.phases| == |s.runs| == |calls| && Enabled(calls, s, Of(i, step))
    requires s.phases[i].Running? ==> s.phases[i].at <= |calls[i].effect.puts|
    ensures var s' := Next(calls, s, Of(i, step));
            && s'.phases == s.phases[i := s'.phases[i]]
            && Rank(calls[i], s'.phases[i]) < Rank(calls[i], s.phases[i])
  {
  }

  // Every step of a call uses up some of what remains, failures included.
  lemma StepsTerminate<V>(calls: seq<Call<V>>, s: Db<V>, e: Event)
    requires Refines(calls, s) && Enabled(calls, s, e) && e.Of?
    ensures 0 <= Remaining(calls, Next(calls, s, e).phases) < Remaining(calls, s.phases)
  {
    var i, s' := e.call, Next(calls, s, e);
    assert PhaseAgrees(calls, s, i);
    StepLowersRank(calls, s, i, e.step);
    RemainingUpdate(calls, s.phases, i, s'.phases[i]);
    StepKeeps(calls, s, e);
    forall j | 0 <= j < |calls| && s'.phases[j].Running?
      ensures s'.phases[j].at <= |calls[j].effect.puts|
    {
      assert PhaseAgrees(calls, s', j);
    }
    RemainingNonNegative(calls, s'.phases);
  }

  // So no schedule has more call steps than Remaining of the initial state.
  lemma {:induction false} SchedulesAreBounded<V>(calls: seq<Call<V>>, trace: seq<Event>)
    requires Play(calls, trace).Some?
    ensures 0 <= Remaining(calls, Play(calls, trace).value.phases)
    ensures StepsOfCalls(trace) + Remaining(calls, Play(calls, trace).value.phases)
            <= Remaining(calls, Initial<V>(|calls|).phases)
  {
    if trace == [] {
      RemainingNonNegative(calls, Initial<V>(|calls|).phases);
    } else {
      var trace', e := trace[..|trace| - 1], trace[|trace| - 1];
      SchedulesAreBounded(calls, trace');
      EveryScheduleRefines(calls, trace');
      if e.Of? {
        StepsTerminate(calls, Play(calls, trace').value, e);
      }
    }
  }

  /* ---- the race ---- */

  predicate AllHealthy(trace: seq<Event>) {
    forall k :: 0 <= k < |trace| ==> Healthy(trace[k])
  }

  predicate AllFinished(phases: seq<Phase>) {
    forall i :: 0 <= i < |phases| ==> phases[i].Finished?
  }

  lemma OneStepOn<V>(calls: seq<Call<V>>, trace: seq<Event>) returns (e: Event)
    requires Play(calls, trace).Some? && !AllFinished(Play(calls, trace).value.phases)
    ensures Healthy(e) && Play(calls, trace + [e]).Some?
    ensures 0 <= Remaining(calls, Play(calls, trace + [e]).value.phases)
              < Remaining(calls, Play(calls, trace).value.phases)
  {
    var s := Play(calls, trace).value;
    EveryScheduleRefines(calls, trace);
    var i: nat :| i < |calls| && !s.phases[i].Finished?;
    e := Progress(calls, s, i);
    StepsTerminate(calls, s, e);
    assert (trace + [e])[..|trace + [e]| - 1] == trace;
  }

  lemma HealthyFirst(e: Event, more: seq<Event>)
    requires Healthy(e) && AllHealthy(more)
    ensures AllHealthy([e] + more)
  {
  }

  // However a schedule has gone, the calls still under way can all finish
  // without any further failure: nothing is ever stuck.
  lemma {:induction false} EveryScheduleCompletes<V>(calls: seq<Call<V>>, trace: seq<Event>) returns (rest: seq<Event>)
    requires Play(calls, trace).Some?
    ensures AllHealthy(rest) && Play(calls, trace + rest).Some?
    ensures AllFinished(Play(calls, trace + rest).value.phases)
    decreases Remaining(calls, Play(calls, trace).value.phases)
  {
    if AllFinished(Play(calls, trace).value.phases) {
      rest := [];
      assert trace + rest == trace;
    } else {
      var e := OneStepOn(calls, trace);
      var more := EveryScheduleCompletes(calls, trace + [e]);
      rest := [e] + more;
      Concat3(trace, [e], more);
      HealthyFirst(e, more);
    }
  }

  predicate Clean(p: Phase) {
    match p
    case Unwinding(report, _) => report.Returned?
    case Finished(report) => report.Returned?
    case Lingering(_) => false
    case _ => true
  }

  lemma {:induction false} HealthyReports<V>(calls: seq<Call<V>>, trace: seq<Event>)
    requires Play(calls, trace).Some? && AllHealthy(trace)
    ensures forall i :: 0 <= i < |calls| ==> Clean(Play(calls, trace).value.phases[i])
  {
    if trace != [] {
      HealthyReports(calls, trace[..|trace| - 1]);
      assert Healthy(trace[|trace| - 1]);
    }
  }

  // N presentations of one credential, effects and commits succeeding: however
  // the schedule ran, exactly one reports success, the others are replays whose
  // effect was never invoked, and exactly one effect is durable.
  lemma RaceSpendsOnce<V>(calls: seq<Call<V>>, trace: seq<Event>, id: Bytes) returns (winner: nat)
    requires |calls| > 0 && forall i :: 0 <= i < |calls| ==> calls[i].rec.id == id && calls[i].effect.ending.Nil?
    requires Play(calls, trace).Some? && AllHealthy(trace)
    requires AllFinished(Play(calls, trace).value.phases)
    ensures winner < |calls|
    ensures var s := Play(calls, trace).value;
            && (forall i :: 0 <= i < |calls| ==>
                  && s.phases[i] == Finished(Returned(if i == winner then Done else AlreadyConsumed))
                  && s.runs[i] == if i == winner then 1 else 0)
            && s.table == map[id := calls[winner].rec]
            && s.data == ApplyPuts(map[], calls[winner].effect.puts)
  {
    var s := Play(calls, trace).value;
    EveryScheduleRefines(calls, trace);
    HealthyReports(calls, trace);
    var picked := Picked(calls, s.order);
    assert PhaseAgrees(calls, s, 0) && Clean(s.phases[0]);
    assert 0 in s.order;
    winner := s.order[0];
    forall i | 0 <= i < |calls|
      ensures s.phases[i] == Finished(Returned(if i == winner then Done else AlreadyConsumed))
      ensures s.runs[i] == if i == winner then 1 else 0
    {
      assert PhaseAgrees(calls, s, i) && Clean(s.phases[i]);
      assert i in s.order;
      var k :| 0 <= k < |s.order| && s.order[k] == i;
      OutcomesExactly(picked, k);
      if k > 0 {
        assert picked[0].rec.id == picked[k].rec.id && picked[0].effect.ending.Nil?;
      }
    }
    OnlyFirstCounts(picked);
  }

  lemma {:induction false} OnlyFirstCounts<V>(calls: seq<Call<V>>)
    requires |calls| > 0
    requires forall i :: 0 <= i < |calls| ==> calls[i].rec.id == calls[0].rec.id && calls[i].effect.ending.Nil?
    ensures After(Empty(), calls) ==
            State(map[calls[0].rec.id := calls[0].rec], ApplyPuts(map[], calls[0].effect.puts))
  {
    if |calls| == 1 {
      assert After(Empty(), calls[..0]) == Empty<V>();
    } else {
      OnlyFirstCounts(calls[..|calls| - 1]);
    }
  }
}
