/**
 * How each store fares under the concurrency check, for every number of
 * attempts and every schedule.
 */
module RaceOutcomes {
  import opened Bytes
  import opened Races

  /* ---- stores that release their lock across the effect ---- */

  predicate ReleasesLock(kind: Kind) {
    kind.CheckThenAct? || kind.DoubleEffect?
  }

  // Before the barrier opens nobody gets past its wait.
  predicate BeforeBarrier(kind: Kind, pc: Pc) {
    pc.Start? || pc == Entering(FirstLeft(kind)) || pc == Closing(FirstLeft(kind)) || pc == Waiting(FirstLeft(kind))
  }

  // The barrier opens only after every attempt has entered its effect, so the
  // id is marked only after all have passed the check.
  ghost predicate Overlaps(kind: Kind, s: State) {
    && Counters(s)
    && (forall i :: 0 <= i < |s.pcs| ==> RunsByPc(kind, s.pcs[i], s.runs[i]))
    && (!s.closed ==> s.marked == {} && s.inEffect == Tally(s.runs, HasRun))
    && (!s.closed ==> forall i :: 0 <= i < |s.pcs| ==> BeforeBarrier(kind, s.pcs[i]))
    && (s.closed ==> forall i :: 0 <= i < |s.pcs| ==> s.runs[i] > 0)
    && (s.closed ==> s.inEffect >= |s.pcs|)
    && (forall i :: 0 <= i < |s.pcs| ==> ResultOf(s.pcs[i]) == None || ResultOf(s.pcs[i]) == Some(Nil))
  }

  // The entry that closes the barrier is the last of all.
  lemma ClosingMeansAllEntered(kind: Kind, s: State, i: nat)
    requires Overlaps(kind, s) && !s.closed && i < |s.pcs| && s.pcs[i].Closing?
    ensures s.inEffect >= |s.pcs| && forall j :: 0 <= j < |s.pcs| ==> s.runs[j] > 0
  {
    TallyNone(s.pcs, IsClosing);
    assert IsClosing(s.pcs[i]);
    TallyAll(s.runs, HasRun);
    forall j | 0 <= j < |s.pcs|
      ensures s.runs[j] > 0
    {
      assert HasRun(s.runs[j]);
    }
  }

  lemma OverlapsOpenStep(kind: Kind, attempts: seq<Attempt>, id: Bytes, s: State, e: Event)
    requires ReleasesLock(kind) && OneCredential(attempts, id) && |s.pcs| == |attempts|
    requires Overlaps(kind, s) && s.closed && Enabled(kind, s, e)
    ensures Overlaps(kind, Next(kind, attempts, s, e))
  {
    CountersStep(kind, attempts, s, e);
    RunsStep(kind, attempts, s, e);
    OneMoves(kind, attempts, s, e);
    assert RunsByPc(kind, s.pcs[e.attempt], s.runs[e.attempt]) && s.runs[e.attempt] > 0;
    assert attempts[e.attempt] == Attempt(id, false);
  }

  lemma OverlapsCheck(kind: Kind, attempts: seq<Attempt>, s: State, i: nat)
    requires ReleasesLock(kind) && |s.pcs| == |attempts|
    requires Overlaps(kind, s) && !s.closed && Enabled(kind, s, Event(i, Check))
    ensures Overlaps(kind, Next(kind, attempts, s, Event(i, Check)))
  {
    CountersStep(kind, attempts, s, Event(i, Check));
    RunsStep(kind, attempts, s, Event(i, Check));
  }

  lemma OverlapsEnter(kind: Kind, attempts: seq<Attempt>, s: State, i: nat)
    requires ReleasesLock(kind) && |s.pcs| == |attempts|
    requires Overlaps(kind, s) && !s.closed && Enabled(kind, s, Event(i, Enter))
    ensures Overlaps(kind, Next(kind, attempts, s, Event(i, Enter)))
  {
    CountersStep(kind, attempts, s, Event(i, Enter));
    RunsStep(kind, attempts, s, Event(i, Enter));
    OneMoves(kind, attempts, s, Event(i, Enter));
    assert BeforeBarrier(kind, s.pcs[i]) && RunsByPc(kind, s.pcs[i], s.runs[i]);
    TallyUpdate(s.runs, i, s.runs[i] + 1, HasRun);
  }

  lemma OverlapsClose(kind: Kind, attempts: seq<Attempt>, s: State, i: nat)
    requires ReleasesLock(kind) && |s.pcs| == |attempts|
    requires Overlaps(kind, s) && !s.closed && Enabled(kind, s, Event(i, Close))
    ensures Overlaps(kind, Next(kind, attempts, s, Event(i, Close)))
  {
    CountersStep(kind, attempts, s, Event(i, Close));
    RunsStep(kind, attempts, s, Event(i, Close));
    ClosingMeansAllEntered(kind, s, i);
  }

  // While the barrier is shut nothing else can happen without the timer.
  lemma OverlapsShutStep(kind: Kind, attempts: seq<Attempt>, s: State, e: Event)
    requires ReleasesLock(kind) && |s.pcs| == |attempts|
    requires Overlaps(kind, s) && !s.closed && Enabled(kind, s, e) && !e.step.Timeout?
    ensures Overlaps(kind, Next(kind, attempts, s, e))
  {
    assert BeforeBarrier(kind, s.pcs[e.attempt]);
    match e {
      case Event(i, Check) => OverlapsCheck(kind, attempts, s, i);
      case Event(i, Enter) => OverlapsEnter(kind, attempts, s, i);
      case Event(i, Close) => OverlapsClose(kind, attempts, s, i);
    }
  }

  lemma {:induction false} OverlapsHold(kind: Kind, attempts: seq<Attempt>, id: Bytes, trace: seq<Event>)
    requires ReleasesLock(kind) && OneCredential(attempts, id)
    requires Play(kind, attempts, trace).Some? && NoTimeout(trace)
    ensures Overlaps(kind, Play(kind, attempts, trace).value)
  {
    if trace == [] {
      CountersHold(kind, attempts, trace);
      var s := Initial(|attempts|);
      TallyNone(s.runs, HasRun);
    } else {
      var prefix, e := trace[..|trace| - 1], trace[|trace| - 1];
      OverlapsHold(kind, attempts, id, prefix);
      assert !trace[|trace| - 1].step.Timeout?;
      var s := Play(kind, attempts, prefix).value;
      if s.closed {
        OverlapsOpenStep(kind, attempts, id, s, e);
      } else {
        OverlapsShutStep(kind, attempts, s, e);
      }
    }
  }

  // The double spend, caught by construction: on every schedule in which no
  // wait times out, all N attempts are inside the effect before any is marked,
  // and all N succeed. The check refuses the store for every N above one.
  lemma AllSucceed(kind: Kind, attempts: seq<Attempt>, id: Bytes, trace: seq<Event>)
    requires ReleasesLock(kind) && OneCredential(attempts, id)
    requires Play(kind, attempts, trace).Some? && NoTimeout(trace)
    ensures var s := Play(kind, attempts, trace).value;
            && (s.marked != {} ==> forall i :: 0 <= i < |s.pcs| ==> s.runs[i] > 0)
            && (AllCounted(s) ==> s.ok == |attempts| && s.replay == 0 && s.inEffect >= |attempts|)
            && (AllCounted(s) && |attempts| > 1 ==> !Passes(s))
  {
    OverlapsHold(kind, attempts, id, trace);
    var s := Play(kind, attempts, trace).value;
    if AllCounted(s) {
      TallyAll(s.pcs, IsOk);
      TallyNone(s.pcs, IsReplay);
      forall i | 0 <= i < |s.pcs|
        ensures IsOk(s.pcs[i])
      {
        assert s.pcs[i].Counted?;
      }
      if s.pcs != [] {
        assert s.pcs[0].Counted?;
        assert s.closed;
      }
    }
  }

  /* ---- such schedules exist for every N ---- */

  function StepOf(pc: Pc): Step
    requires !pc.Counted?
  {
    match pc
    case Start => Check
    case Entering(_) => Enter
    case Closing(_) => Close
    case Waiting(_) => Proceed
    case Writing(_) => Write
    case Marking => Mark
    case Returned(_) => Count
  }

  // Nobody needs the timer: until all have reported, someone can move.
  lemma SomeoneMoves(kind: Kind, s: State, i: nat) returns (e: Event)
    requires ReleasesLock(kind) && Overlaps(kind, s) && i < |s.pcs| && !s.pcs[i].Counted?
    ensures Enabled(kind, s, e) && !e.step.Timeout?
  {
    if s.closed || !s.pcs[i].Waiting? {
      e := Event(i, StepOf(s.pcs[i]));
    } else if j :| 0 <= j < |s.pcs| && !s.pcs[j].Waiting? {
      assert BeforeBarrier(kind, s.pcs[j]);
      e := Event(j, StepOf(s.pcs[j]));
    } else {
      forall j | 0 <= j < |s.pcs|
        ensures HasRun(s.runs[j]) && !IsClosing(s.pcs[j])
      {
        assert RunsByPc(kind, s.pcs[j], s.runs[j]) && s.pcs[j].Waiting?;
      }
      TallyAll(s.runs, HasRun);
      TallyNone(s.pcs, IsClosing);
      assert false;
    }
  }

  function Rank(pc: Pc): nat {
    match pc
    case Start => 20
    case Entering(left) => 5 * left + 8
    case Closing(left) => 5 * left + 7
    case Waiting(left) => 5 * left + 6
    case Writing(left) => 5 * left + 5
    case Marking => 3
    case Returned(_) => 2
    case Counted(_) => 0
  }

  function Remaining(pcs: seq<Pc>): nat {
    if pcs == [] then 0 else Remaining(pcs[..|pcs| - 1]) + Rank(pcs[|pcs| - 1])
  }

  lemma {:induction false} RemainingUpdate(pcs: seq<Pc>, i: nat, pc: Pc)
    requires i < |pcs|
    ensures Remaining(pcs[i := pc]) == Remaining(pcs) - Rank(pcs[i]) + Rank(pc)
  {
    var n := |pcs| - 1;
    if i == n {
      assert pcs[i := pc][..n] == pcs[..n];
    } else {
      assert pcs[i := pc][..n] == pcs[..n][i := pc];
      RemainingUpdate(pcs[..n], i, pc);
    }
  }

  lemma StepsTerminate(kind: Kind, attempts: seq<Attempt>, s: State, e: Event)
    requires |s.pcs| == |s.runs| == |attempts| && Enabled(kind, s, e) && !kind.Repeating?
    ensures Remaining(Next(kind, attempts, s, e).pcs) < Remaining(s.pcs)
  {
    OneMoves(kind, attempts, s, e);
    RemainingUpdate(s.pcs, e.attempt, NextPc(kind, attempts[e.attempt], s, e));
  }

  lemma Extends(kind: Kind, attempts: seq<Attempt>, id: Bytes, trace: seq<Event>, i: nat)
    returns (longer: seq<Event>)
    requires ReleasesLock(kind) && OneCredential(attempts, id)
    requires Play(kind, attempts, trace).Some? && NoTimeout(trace)
    requires i < |attempts| && !Play(kind, attempts, trace).value.pcs[i].Counted?
    ensures trace <= longer && Play(kind, attempts, longer).Some? && NoTimeout(longer)
    ensures Remaining(Play(kind, attempts, longer).value.pcs) < Remaining(Play(kind, attempts, trace).value.pcs)
  {
    var s := Play(kind, attempts, trace).value;
    OverlapsHold(kind, attempts, id, trace);
    var e := SomeoneMoves(kind, s, i);
    longer := trace + [e];
    assert longer[..|longer| - 1] == trace && longer[|longer| - 1] == e;
    StepsTerminate(kind, attempts, s, e);
  }

  // Any schedule without timeouts can be completed without timeouts.
  lemma {:induction false} Completes(kind: Kind, attempts: seq<Attempt>, id: Bytes, trace: seq<Event>)
    returns (complete: seq<Event>)
    requires ReleasesLock(kind) && OneCredential(attempts, id)
    requires Play(kind, attempts, trace).Some? && NoTimeout(trace)
    ensures trace <= complete && Play(kind, attempts, complete).Some? && NoTimeout(complete)
    ensures AllCounted(Play(kind, attempts, complete).value)
    decreases Remaining(Play(kind, attempts, trace).value.pcs)
  {
    var s := Play(kind, attempts, trace).value;
    if AllCounted(s) {
      complete := trace;
    } else {
      var i: nat :| i < |s.pcs| && !s.pcs[i].Counted?;
      var longer := Extends(kind, attempts, id, trace, i);
      complete := Completes(kind, attempts, id, longer);
    }
  }

  // For every N there is a schedule on which all N presentations succeed.
  lemma DoubleSpendExists(kind: Kind, n: nat, id: Bytes) returns (attempts: seq<Attempt>, trace: seq<Event>)
    requires ReleasesLock(kind)
    ensures |attempts| == n && OneCredential(attempts, id)
    ensures Play(kind, attempts, trace).Some?
    ensures AllCounted(Play(kind, attempts, trace).value) && Play(kind, attempts, trace).value.ok == n
  {
    attempts := seq(n, _ => Attempt(id, false));
    trace := Completes(kind, attempts, id, []);
    AllSucceed(kind, attempts, id, trace);
  }

  /* ---- the store that marks first ---- */

  // Past the check: this attempt marked the id.
  predicate Owner(pc: Pc) {
    !pc.Start? && ResultOf(pc) != Some(Replay)
  }

  predicate OneOwner(attempts: seq<Attempt>, s: State)
    requires |s.pcs| == |attempts|
  {
    && (forall i :: 0 <= i < |s.pcs| && Owner(s.pcs[i]) ==> attempts[i].id in s.marked)
    && (forall i, j :: 0 <= i < j < |s.pcs| && Owner(s.pcs[i]) && Owner(s.pcs[j]) ==> attempts[i].id != attempts[j].id)
  }

  lemma OneOwnerStep(attempts: seq<Attempt>, s: State, e: Event)
    requires |s.pcs| == |s.runs| == |attempts| && OneOwner(attempts, s) && Enabled(MarkFirst, s, e)
    ensures OneOwner(attempts, Next(MarkFirst, attempts, s, e))
  {
    var s', i := Next(MarkFirst, attempts, s, e), e.attempt;
    assert s.marked <= s'.marked;
    assert Owner(s'.pcs[i]) ==> Owner(s.pcs[i]) || attempts[i].id !in s.marked;
  }

  lemma {:induction false} OneOwnerHolds(attempts: seq<Attempt>, trace: seq<Event>)
    requires Play(MarkFirst, attempts, trace).Some?
    ensures OneOwner(attempts, Play(MarkFirst, attempts, trace).value)
  {
    if trace != [] {
      var prefix := trace[..|trace| - 1];
      OneOwnerHolds(attempts, prefix);
      OneOwnerStep(attempts, Play(MarkFirst, attempts, prefix).value, trace[|trace| - 1]);
    }
  }

  // Marking first spends at most once, in every interleaving of any ids.
  lemma MarkFirstSpendsAtMostOnce(attempts: seq<Attempt>, trace: seq<Event>, i: nat, j: nat)
    requires Play(MarkFirst, attempts, trace).Some? && i < |attempts| && j < |attempts|
    requires ResultOf(Play(MarkFirst, attempts, trace).value.pcs[i]) == Some(Nil)
    requires ResultOf(Play(MarkFirst, attempts, trace).value.pcs[j]) == Some(Nil)
    requires attempts[i].id == attempts[j].id
    ensures i == j
  {
    OneOwnerHolds(attempts, trace);
  }

  // But once an effect has failed, its credential is lost: no continuation of
  // any length ever returns nil for that id, and the failed write stays.
  lemma MarkFirstLosesTheCredential(attempts: seq<Attempt>, a: seq<Event>, b: seq<Event>, i: nat, j: nat)
    requires Play(MarkFirst, attempts, a + b).Some? && i < |attempts| && j < |attempts|
    requires Play(MarkFirst, attempts, a).Some?
    requires ResultOf(Play(MarkFirst, attempts, a).value.pcs[i]) == Some(Failed)
    requires attempts[i].id == attempts[j].id
    ensures var s := Play(MarkFirst, attempts, a + b).value;
            ResultOf(s.pcs[j]) != Some(Nil) && i in s.committed
  {
    ResultsArePermanent(MarkFirst, attempts, a, b, i);
    OneOwnerHolds(attempts, a + b);
    FailedWrites(MarkFirst, attempts, a + b);
    FailureExcludes(attempts, Play(MarkFirst, attempts, a + b).value, i, j);
  }

  lemma FailureExcludes(attempts: seq<Attempt>, s: State, i: nat, j: nat)
    requires |s.pcs| == |attempts| && OneOwner(attempts, s) && i < |attempts| && j < |attempts|
    requires ResultOf(s.pcs[i]) == Some(Failed) && WriteKept(MarkFirst, s.pcs[i], i in s.committed)
    requires attempts[i].id == attempts[j].id
    ensures ResultOf(s.pcs[j]) != Some(Nil) && i in s.committed
  {
    assert Owner(s.pcs[i]);
    assert ResultOf(s.pcs[j]) == Some(Nil) ==> Owner(s.pcs[j]);
  }

  /* ---- the store that holds its lock ---- */

  predicate InsideLock(pc: Pc) {
    pc.Entering? || pc.Closing? || pc.Waiting? || pc.Writing? || pc.Marking?
  }

  predicate Untouched(s: State) {
    s.inEffect == 0 && s.marked == {} && s.committed == {} && forall i :: 0 <= i < |s.pcs| ==> s.pcs[i] == Start
  }

  // Attempt w holds the lock and nobody else has started.
  predicate HeldBy(s: State, w: nat) {
    && w < |s.pcs| && s.lock == Some(w) && InsideLock(s.pcs[w])
    && s.marked == {} && s.committed == {}
    && s.inEffect == (if s.pcs[w].Entering? then 0 else 1)
    && (s.pcs[w].Entering? ==> s.pcs[w].left == 0) && (s.pcs[w].Closing? ==> s.pcs[w].left == 0)
    && (s.pcs[w].Waiting? ==> s.pcs[w].left == 0) && (s.pcs[w].Writing? ==> s.pcs[w].left == 0)
    && forall i :: 0 <= i < |s.pcs| && i != w ==> s.pcs[i] == Start
  }

  // Attempt w has spent the credential.
  predicate SpentBy(s: State, id: Bytes, w: nat) {
    && w < |s.pcs| && s.lock == None && ResultOf(s.pcs[w]) == Some(Nil)
    && s.marked == {id} && s.committed == {w} && s.inEffect == 1
    && forall i :: 0 <= i < |s.pcs| && i != w ==> s.pcs[i] == Start || ResultOf(s.pcs[i]) == Some(Replay)
  }

  predicate Serial(s: State, id: Bytes, w: nat) {
    (Untouched(s) && s.lock == None) || HeldBy(s, w) || SpentBy(s, id, w)
  }

  lemma SerialStep(attempts: seq<Attempt>, id: Bytes, s: State, e: Event, w: nat) returns (w': nat)
    requires OneCredential(attempts, id) && |s.pcs| == |s.runs| == |attempts|
    requires Serial(s, id, w) && Enabled(Locked, s, e)
    ensures Serial(Next(Locked, attempts, s, e), id, w')
  {
    var i := e.attempt;
    assert attempts[i] == Attempt(id, false);
    w' := if Untouched(s) then i else w;
    if HeldBy(s, w) {
      assert i == w;
    }
  }

  lemma {:induction false} SerialHolds(attempts: seq<Attempt>, id: Bytes, trace: seq<Event>) returns (w: nat)
    requires OneCredential(attempts, id) && Play(Locked, attempts, trace).Some?
    ensures Serial(Play(Locked, attempts, trace).value, id, w)
  {
    if trace == [] {
      w := 0;
    } else {
      w := SerialHolds(attempts, id, trace[..|trace| - 1]);
      w := SerialStep(attempts, id, Play(Locked, attempts, trace[..|trace| - 1]).value, trace[|trace| - 1], w);
    }
  }

  // A store that holds its lock never admits a second attempt to the effect,
  // whenever the timer fires, and passes the check for every N.
  lemma LockedPasses(attempts: seq<Attempt>, id: Bytes, trace: seq<Event>)
    requires OneCredential(attempts, id) && |attempts| > 0 && Play(Locked, attempts, trace).Some?
    ensures var s := Play(Locked, attempts, trace).value;
            s.inEffect <= 1 && (AllCounted(s) ==> Passes(s))
  {
    var s := Play(Locked, attempts, trace).value;
    var w := SerialHolds(attempts, id, trace);
    CountersHold(Locked, attempts, trace);
    if AllCounted(s) {
      assert s.pcs[0].Counted?;
      assert w < |s.pcs| ==> s.pcs[w].Counted?;
      assert SpentBy(s, id, w);
      forall i | 0 <= i < |s.pcs|
        ensures s.pcs[i] == Counted(if i == w then Nil else Replay)
      {
        assert s.pcs[i].Counted?;
      }
      TallyOne(s.pcs, IsOk, w);
      TallyAllBut(s.pcs, w);
    }
  }

  lemma {:induction false} TallyAllBut(pcs: seq<Pc>, w: nat)
    requires w < |pcs| && forall i :: 0 <= i < |pcs| ==> (IsReplay(pcs[i]) <==> i != w)
    ensures Tally(pcs, IsReplay) == |pcs| - 1
  {
    var n := |pcs| - 1;
    if w == n {
      TallyAll(pcs[..n], IsReplay);
    } else {
      TallyAllBut(pcs[..n], w);
    }
  }

  // Under the lock too someone can always move, though it may take the timer.
  lemma LockedMoves(attempts: seq<Attempt>, id: Bytes, s: State, w: nat, i: nat) returns (e: Event)
    requires OneCredential(attempts, id) && |s.pcs| == |s.runs| == |attempts|
    requires Serial(s, id, w) && i < |s.pcs| && !s.pcs[i].Counted?
    ensures Enabled(Locked, s, e)
  {
    var j := if HeldBy(s, w) then w else i;
    e := Event(j, if s.pcs[j].Waiting? then Timeout else StepOf(s.pcs[j]));
  }

  lemma LockedExtends(attempts: seq<Attempt>, id: Bytes, trace: seq<Event>, i: nat) returns (longer: seq<Event>)
    requires OneCredential(attempts, id) && Play(Locked, attempts, trace).Some?
    requires i < |attempts| && !Play(Locked, attempts, trace).value.pcs[i].Counted?
    ensures trace <= longer && Play(Locked, attempts, longer).Some?
    ensures Remaining(Play(Locked, attempts, longer).value.pcs) < Remaining(Play(Locked, attempts, trace).value.pcs)
  {
    var s := Play(Locked, attempts, trace).value;
    var w := SerialHolds(attempts, id, trace);
    var e := LockedMoves(attempts, id, s, w, i);
    longer := trace + [e];
    assert longer[..|longer| - 1] == trace && longer[|longer| - 1] == e;
    StepsTerminate(Locked, attempts, s, e);
  }

  // Any schedule of the locked store can be completed, and then it passes.
  lemma {:induction false} LockedCompletes(attempts: seq<Attempt>, id: Bytes, trace: seq<Event>)
    returns (complete: seq<Event>)
    requires OneCredential(attempts, id) && |attempts| > 0 && Play(Locked, attempts, trace).Some?
    ensures trace <= complete && Play(Locked, attempts, complete).Some?
    ensures AllCounted(Play(Locked, attempts, complete).value) && Passes(Play(Locked, attempts, complete).value)
    decreases Remaining(Play(Locked, attempts, trace).value.pcs)
  {
    var s := Play(Locked, attempts, trace).value;
    if AllCounted(s) {
      complete := trace;
      LockedPasses(attempts, id, trace);
    } else {
      var i: nat :| i < |s.pcs| && !s.pcs[i].Counted?;
      var longer := LockedExtends(attempts, id, trace, i);
      complete := LockedCompletes(attempts, id, longer);
    }
  }
}
