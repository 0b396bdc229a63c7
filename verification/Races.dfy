/**
 * The concurrency check of conformance/conformance.go and the stores it is run
 * against in conformance/conformance_test.go, as steps of N attempts.
 *
 * Each attempt's effect counts itself in, closes the barrier if it is the Nth,
 * waits for the barrier or a timer, and writes. Repeating stands for any store
 * that checks, then calls the effect as often as it likes.
 */
module Races {
  import opened Bytes

  datatype Kind = CheckThenAct | MarkFirst | DoubleEffect | Locked | Repeating

  datatype Result = Nil | Replay | Failed

  // left is how many more times the store means to call the effect.
  datatype Pc =
    | Start
    | Entering(left: nat)
    | Closing(left: nat)
    | Waiting(left: nat)
    | Writing(left: nat)
    | Marking
    | Returned(result: Result)
    | Counted(result: Result)

  // The id presented, and whether the effect returns an error after its write.
  datatype Attempt = Attempt(id: Bytes, fails: bool)

  // runs and closes are history: effect invocations per attempt, and how often
  // the barrier was closed.
  datatype State = State(
    pcs: seq<Pc>, marked: set<Bytes>, lock: Option<nat>, inEffect: nat, closed: bool,
    committed: set<nat>, ok: nat, replay: nat, other: nat, runs: seq<nat>, closes: nat)

  datatype Step = Check | Enter | Close | Proceed | Timeout | Write | Again | Mark | Count

  datatype Event = Event(attempt: nat, step: Step)

  function Initial(n: nat): State {
    State(seq(n, _ => Start), {}, None, 0, false, {}, 0, 0, 0, seq(n, _ => 0), 0)
  }

  function FirstLeft(kind: Kind): nat {
    if kind.DoubleEffect? then 1 else 0
  }

  predicate Enabled(kind: Kind, s: State, e: Event) {
    e.attempt < |s.pcs| &&
    var pc := s.pcs[e.attempt];
    match e.step
    case Check => pc.Start? && (kind.Locked? ==> s.lock.None?)
    case Enter => pc.Entering?
    case Close => pc.Closing?
    case Proceed => pc.Waiting? && s.closed
    case Timeout => pc.Waiting?
    case Write => pc.Writing?
    case Again => pc.Writing? && kind.Repeating?
    case Mark => pc.Marking?
    case Count => pc.Returned?
  }

  // Where the attempt goes.
  function NextPc(kind: Kind, attempt: Attempt, s: State, e: Event): Pc
    requires Enabled(kind, s, e)
  {
    var pc := s.pcs[e.attempt];
    match e.step
    case Check => if attempt.id in s.marked then Returned(Replay) else Entering(FirstLeft(kind))
    case Enter => if s.inEffect + 1 == |s.pcs| then Closing(pc.left) else Waiting(pc.left)
    case Close => Waiting(pc.left)
    case Proceed => Writing(pc.left)
    case Timeout => Writing(pc.left)
    case Write => if attempt.fails then Returned(Failed) else if pc.left > 0 then Entering(pc.left - 1) else Marking
    case Again => Entering(pc.left)
    case Mark => Returned(Nil)
    case Count => Counted(pc.result)
  }

  function Next(kind: Kind, attempts: seq<Attempt>, s: State, e: Event): State
    requires |s.pcs| == |s.runs| == |attempts| && Enabled(kind, s, e)
  {
    var i := e.attempt;
    var Attempt(id, fails) := attempts[i];
    var t := s.(pcs := s.pcs[i := NextPc(kind, attempts[i], s, e)]);
    match e.step
    case Check =>
      if id in s.marked then t
      else t.(marked := if kind.MarkFirst? then s.marked + {id} else s.marked,
              lock := if kind.Locked? then Some(i) else s.lock)
    case Enter => t.(inEffect := s.inEffect + 1, runs := s.runs[i := s.runs[i] + 1])
    case Close => t.(closed := true, closes := s.closes + 1)
    case Proceed => t
    case Timeout => t
    case Write =>
      // The broken stores write straight through; the locked one stages.
      t.(committed := if kind.Locked? then s.committed else s.committed + {i},
         lock := if fails then None else s.lock)
    case Again => t.(committed := s.committed + {i})
    case Mark =>
      t.(lock := None,
         marked := if kind.MarkFirst? then s.marked else s.marked + {id},
         committed := if kind.Locked? then s.committed + {i} else s.committed)
    case Count =>
      match s.pcs[i].result
      case Nil => t.(ok := s.ok + 1)
      case Replay => t.(replay := s.replay + 1)
      case Failed => t.(other := s.other + 1)
  }

  // A step moves one attempt and no other.
  lemma OneMoves(kind: Kind, attempts: seq<Attempt>, s: State, e: Event)
    requires |s.pcs| == |s.runs| == |attempts| && Enabled(kind, s, e)
    ensures Next(kind, attempts, s, e).pcs == s.pcs[e.attempt := NextPc(kind, attempts[e.attempt], s, e)]
  {
  }

  // The state after a schedule; None when some event of it was not enabled.
  function Play(kind: Kind, attempts: seq<Attempt>, trace: seq<Event>): (r: Option<State>)
    ensures r.Some? ==> |r.value.pcs| == |r.value.runs| == |attempts|
  {
    if trace == [] then Some(Initial(|attempts|))
    else
      var s :- Play(kind, attempts, trace[..|trace| - 1]);
      var e := trace[|trace| - 1];
      if Enabled(kind, s, e) then Some(Next(kind, attempts, s, e)) else None
  }

  // No wait was ended by the timer.
  predicate NoTimeout(trace: seq<Event>) {
    forall k :: 0 <= k < |trace| ==> !trace[k].step.Timeout?
  }

  predicate AllCounted(s: State) {
    forall i :: 0 <= i < |s.pcs| ==> s.pcs[i].Counted?
  }

  // The verdict of the check on a finished run.
  predicate Passes(s: State) {
    s.inEffect <= 1 && s.ok == 1 && s.replay == |s.pcs| - 1 && |s.committed| == 1
  }

  // N simultaneous presentations of one credential whose effect succeeds.
  predicate OneCredential(attempts: seq<Attempt>, id: Bytes) {
    forall i :: 0 <= i < |attempts| ==> attempts[i] == Attempt(id, false)
  }

  /* ---- counting ---- */

  function Tally<T>(xs: seq<T>, p: T -> bool): (n: nat)
    ensures n <= |xs|
  {
    if xs == [] then 0 else Tally(xs[..|xs| - 1], p) + if p(xs[|xs| - 1]) then 1 else 0
  }

  lemma {:induction false} TallyUpdate<T>(xs: seq<T>, i: nat, x: T, p: T -> bool)
    requires i < |xs|
    ensures Tally(xs[i := x], p) == Tally(xs, p) - (if p(xs[i]) then 1 else 0) + (if p(x) then 1 else 0)
  {
    var n := |xs| - 1;
    if i == n {
      assert xs[i := x][..n] == xs[..n];
    } else {
      assert xs[i := x][..n] == xs[..n][i := x];
      TallyUpdate(xs[..n], i, x, p);
    }
  }

  lemma {:induction false} TallyAll<T>(xs: seq<T>, p: T -> bool)
    ensures Tally(xs, p) == |xs| <==> forall i :: 0 <= i < |xs| ==> p(xs[i])
  {
    if xs != [] {
      TallyAll(xs[..|xs| - 1], p);
    }
  }

  lemma {:induction false} TallyNone<T>(xs: seq<T>, p: T -> bool)
    ensures Tally(xs, p) == 0 <==> forall i :: 0 <= i < |xs| ==> !p(xs[i])
  {
    if xs != [] {
      TallyNone(xs[..|xs| - 1], p);
    }
  }

  lemma {:induction false} TallyOne<T>(xs: seq<T>, p: T -> bool, w: nat)
    requires w < |xs| && forall i :: 0 <= i < |xs| ==> (p(xs[i]) <==> i == w)
    ensures Tally(xs, p) == 1
  {
    var n := |xs| - 1;
    if w == n {
      TallyNone(xs[..n], p);
    } else {
      TallyOne(xs[..n], p, w);
    }
  }

  function Sum(ns: seq<nat>): nat {
    if ns == [] then 0 else Sum(ns[..|ns| - 1]) + ns[|ns| - 1]
  }

  lemma {:induction false} SumUpdate(ns: seq<nat>, i: nat, n: nat)
    requires i < |ns|
    ensures Sum(ns[i := n]) == Sum(ns) - ns[i] + n
  {
    var last := |ns| - 1;
    if i == last {
      assert ns[i := n][..last] == ns[..last];
    } else {
      assert ns[i := n][..last] == ns[..last][i := n];
      SumUpdate(ns[..last], i, n);
    }
  }

  lemma {:induction false} SumOfZeros(ns: seq<nat>)
    requires forall i :: 0 <= i < |ns| ==> ns[i] == 0
    ensures Sum(ns) == 0
  {
    if ns != [] {
      SumOfZeros(ns[..|ns| - 1]);
    }
  }

  predicate IsClosing(pc: Pc) { pc.Closing? }
  predicate IsOk(pc: Pc) { pc == Counted(Nil) }
  predicate IsReplay(pc: Pc) { pc == Counted(Replay) }
  predicate IsFailed(pc: Pc) { pc == Counted(Failed) }
  predicate HasRun(runs: nat) { runs > 0 }

  /* ---- what every store keeps ---- */

  // The barrier is closed once the Nth entry has happened, by that entry alone;
  // inEffect counts the invocations of the effect by all attempts together, and
  // the other counters the attempts that have reported each result.
  ghost predicate Counters(s: State) {
    && |s.runs| == |s.pcs|
    && s.closes + Tally(s.pcs, IsClosing) == (if |s.pcs| > 0 && s.inEffect >= |s.pcs| then 1 else 0)
    && (s.closed <==> s.closes > 0)
    && s.ok == Tally(s.pcs, IsOk)
    && s.replay == Tally(s.pcs, IsReplay)
    && s.other == Tally(s.pcs, IsFailed)
    && s.inEffect == Sum(s.runs)
  }

  // How moving one attempt changes the tallies.
  lemma Moved(pcs: seq<Pc>, i: nat, pc: Pc)
    requires i < |pcs|
    ensures Tally(pcs[i := pc], IsClosing)
            == Tally(pcs, IsClosing) - (if pcs[i].Closing? then 1 else 0) + (if pc.Closing? then 1 else 0)
    ensures Tally(pcs[i := pc], IsOk)
            == Tally(pcs, IsOk) - (if pcs[i] == Counted(Nil) then 1 else 0) + (if pc == Counted(Nil) then 1 else 0)
    ensures Tally(pcs[i := pc], IsReplay)
            == Tally(pcs, IsReplay) - (if pcs[i] == Counted(Replay) then 1 else 0) + (if pc == Counted(Replay) then 1 else 0)
    ensures Tally(pcs[i := pc], IsFailed)
            == Tally(pcs, IsFailed) - (if pcs[i] == Counted(Failed) then 1 else 0) + (if pc == Counted(Failed) then 1 else 0)
  {
    TallyUpdate(pcs, i, pc, IsClosing);
    TallyUpdate(pcs, i, pc, IsOk);
    TallyUpdate(pcs, i, pc, IsReplay);
    TallyUpdate(pcs, i, pc, IsFailed);
  }

  lemma CountersStep(kind: Kind, attempts: seq<Attempt>, s: State, e: Event)
    requires |s.pcs| == |s.runs| == |attempts| && Enabled(kind, s, e) && Counters(s)
    ensures Counters(Next(kind, attempts, s, e))
  {
    OneMoves(kind, attempts, s, e);
    Moved(s.pcs, e.attempt, NextPc(kind, attempts[e.attempt], s, e));
    SumUpdate(s.runs, e.attempt, s.runs[e.attempt] + 1);
  }

  lemma {:induction false} CountersHold(kind: Kind, attempts: seq<Attempt>, trace: seq<Event>)
    requires Play(kind, attempts, trace).Some?
    ensures Counters(Play(kind, attempts, trace).value)
  {
    if trace == [] {
      var s := Initial(|attempts|);
      TallyNone(s.pcs, IsClosing);
      TallyNone(s.pcs, IsOk);
      TallyNone(s.pcs, IsReplay);
      TallyNone(s.pcs, IsFailed);
      SumOfZeros(s.runs);
    } else {
      var prefix := trace[..|trace| - 1];
      CountersHold(kind, attempts, prefix);
      CountersStep(kind, attempts, Play(kind, attempts, prefix).value, trace[|trace| - 1]);
    }
  }

  // close(barrier) happens at most once, and never on a closed barrier, even
  // for a store that calls the effect again and again.
  lemma BarrierClosesOnce(kind: Kind, attempts: seq<Attempt>, trace: seq<Event>, i: nat)
    requires Play(kind, attempts, trace).Some?
    ensures var s := Play(kind, attempts, trace).value;
            s.closes <= 1 && (Enabled(kind, s, Event(i, Close)) ==> !s.closed)
  {
    CountersHold(kind, attempts, trace);
    var s := Play(kind, attempts, trace).value;
    TallyNone(s.pcs, IsClosing);
    if Enabled(kind, s, Event(i, Close)) {
      assert IsClosing(s.pcs[i]);
    }
  }

  // How often an attempt's effect has run, by where the attempt is.
  predicate RunsByPc(kind: Kind, pc: Pc, runs: nat) {
    var k := FirstLeft(kind);
    match pc
    case Start => runs == 0
    case Entering(left) => left <= k && runs == k - left
    case Closing(left) => left <= k && runs == k - left + 1
    case Waiting(left) => left <= k && runs == k - left + 1
    case Writing(left) => left <= k && runs == k - left + 1
    case Marking => runs == k + 1
    case Returned(result) => RunsByResult(k, result, runs)
    case Counted(result) => RunsByResult(k, result, runs)
  }

  predicate RunsByResult(k: nat, result: Result, runs: nat) {
    match result
    case Nil => runs == k + 1
    case Replay => runs == 0
    case Failed => 1 <= runs <= k + 1
  }

  lemma RunsStep(kind: Kind, attempts: seq<Attempt>, s: State, e: Event)
    requires |s.pcs| == |s.runs| == |attempts| && Enabled(kind, s, e) && !kind.Repeating?
    requires forall i :: 0 <= i < |s.pcs| ==> RunsByPc(kind, s.pcs[i], s.runs[i])
    ensures var s' := Next(kind, attempts, s, e);
            forall i :: 0 <= i < |s'.pcs| ==> RunsByPc(kind, s'.pcs[i], s'.runs[i])
  {
    OneMoves(kind, attempts, s, e);
    assert RunsByPc(kind, s.pcs[e.attempt], s.runs[e.attempt]);
  }

  lemma {:induction false} RunsHold(kind: Kind, attempts: seq<Attempt>, trace: seq<Event>)
    requires Play(kind, attempts, trace).Some? && !kind.Repeating?
    ensures var s := Play(kind, attempts, trace).value;
            forall i :: 0 <= i < |s.pcs| ==> RunsByPc(kind, s.pcs[i], s.runs[i])
  {
    if trace != [] {
      var prefix := trace[..|trace| - 1];
      RunsHold(kind, attempts, prefix);
      RunsStep(kind, attempts, Play(kind, attempts, prefix).value, trace[|trace| - 1]);
    }
  }

  // The third store runs the effect exactly twice for every nil it returns; the
  // others exactly once; nothing runs for a replay.
  lemma EffectRuns(kind: Kind, attempts: seq<Attempt>, trace: seq<Event>, i: nat)
    requires Play(kind, attempts, trace).Some? && !kind.Repeating? && i < |attempts|
    ensures var s := Play(kind, attempts, trace).value;
            && (s.pcs[i] == Returned(Nil) || s.pcs[i] == Counted(Nil) ==>
                  s.runs[i] == if kind.DoubleEffect? then 2 else 1)
            && (s.pcs[i] == Returned(Replay) || s.pcs[i] == Counted(Replay) ==> s.runs[i] == 0)
  {
    RunsHold(kind, attempts, trace);
    assert RunsByPc(kind, Play(kind, attempts, trace).value.pcs[i], Play(kind, attempts, trace).value.runs[i]);
  }

  // The result an attempt has, once it has one.
  function ResultOf(pc: Pc): Option<Result> {
    match pc
    case Returned(result) => Some(result)
    case Counted(result) => Some(result)
    case _ => None
  }

  // Where an attempt's own write is: a broken store keeps it though the effect
  // failed; the locked store keeps exactly those of the attempts it let succeed.
  predicate WriteKept(kind: Kind, pc: Pc, committed: bool) {
    if kind.Locked? then committed <==> ResultOf(pc) == Some(Nil)
    else ResultOf(pc) == Some(Failed) ==> committed
  }

  lemma FailedWritesStep(kind: Kind, attempts: seq<Attempt>, s: State, e: Event)
    requires |s.pcs| == |s.runs| == |attempts| && Enabled(kind, s, e)
    requires forall i: nat :: i < |s.pcs| ==> WriteKept(kind, s.pcs[i], i in s.committed)
    ensures var s' := Next(kind, attempts, s, e);
            forall i: nat :: i < |s'.pcs| ==> WriteKept(kind, s'.pcs[i], i in s'.committed)
  {
    OneMoves(kind, attempts, s, e);
    assert WriteKept(kind, s.pcs[e.attempt], e.attempt in s.committed);
  }

  lemma {:induction false} FailedWrites(kind: Kind, attempts: seq<Attempt>, trace: seq<Event>)
    requires Play(kind, attempts, trace).Some?
    ensures var s := Play(kind, attempts, trace).value;
            forall i: nat :: i < |s.pcs| ==> WriteKept(kind, s.pcs[i], i in s.committed)
  {
    if trace != [] {
      var prefix := trace[..|trace| - 1];
      FailedWrites(kind, attempts, prefix);
      FailedWritesStep(kind, attempts, Play(kind, attempts, prefix).value, trace[|trace| - 1]);
    }
  }

  lemma ResultStep(kind: Kind, attempts: seq<Attempt>, s: State, e: Event, i: nat)
    requires |s.pcs| == |s.runs| == |attempts| && Enabled(kind, s, e) && i < |attempts|
    ensures ResultOf(s.pcs[i]).Some? ==> ResultOf(Next(kind, attempts, s, e).pcs[i]) == ResultOf(s.pcs[i])
  {
  }

  lemma {:induction false} ResultsArePermanent(kind: Kind, attempts: seq<Attempt>, a: seq<Event>, b: seq<Event>, i: nat)
    requires Play(kind, attempts, a + b).Some? && i < |attempts|
    ensures Play(kind, attempts, a).Some?
    ensures var r := ResultOf(Play(kind, attempts, a).value.pcs[i]);
            r.Some? ==> ResultOf(Play(kind, attempts, a + b).value.pcs[i]) == r
    decreases |b|
  {
    if b == [] {
      assert a + b == a;
    } else {
      var b', e := b[..|b| - 1], b[|b| - 1];
      assert (a + b)[..|a + b| - 1] == a + b' && (a + b)[|a + b| - 1] == e;
      ResultsArePermanent(kind, attempts, a, b', i);
      ResultStep(kind, attempts, Play(kind, attempts, a + b').value, e, i);
    }
  }
}
