/**
 * The PostgreSQL store: postgres/postgres.go and postgres/schema.sql, as the
 * interleaved steps of any number of Consume calls on one database.
 *
 * The database's own rules are four: the primary key refuses a committed id
 * and makes an insert wait for another transaction's uncommitted row of the
 * same id; commit makes a transaction's rows and writes durable together; a
 * rollback or a lost connection discards them; and a trigger refuses every
 * update and delete of a consumption row. A connection lost with the commit
 * already sent leaves the transaction to the server, which may still carry it
 * out after the call is over.
 */
module Postgres {
  import opened Bytes
  import opened Stores

  // What a call reports. Only Returned says whether the credential was spent.
  datatype Report = Returned(outcome: Outcome) | BeginFailed | RecordFailed | CommitFailed | Crashed

  datatype Phase =
    | Ready
    | Open                                   // transaction begun, row not inserted
    | Running(at: nat)                       // row inserted, effect has made `at` writes
    | Unwinding(report: Report, held: bool)  // returning through the deferred rollback
    | Lingering(report: Report)              // over for its caller; the commit it sent is still with the server
    | Finished(report: Report)

  // order and runs are history: the calls that have taken effect, and how often
  // each call's effect was invoked. No step reads them.
  datatype Db<V> = Db(
    table: map<Bytes, Consumption>, data: map<Bytes, V>, phases: seq<Phase>,
    order: seq<nat>, runs: seq<nat>)

  datatype Step =
    | Begin | BeginError | Insert | InsertError | Put | EffectEnds
    | Commit(acknowledged: bool) | CommitError | Rollback | Crash
    | LoseCommit(report: Report)  // the connection or the process goes after the commit was sent
    | Settle(durable: bool)       // the server carries out a commit nobody waits for, or drops it

  datatype Statement = Update(rows: set<Bytes>, to: map<Bytes, Consumption>) | Delete(rows: set<Bytes>)

  // A step of one call, or another session's statement on the consumption table.
  datatype Event = Of(call: nat, step: Step) | Sql(statement: Statement)

  /* ---- the consumption table ---- */

  function Rewrite(table: map<Bytes, Consumption>, statement: Statement): map<Bytes, Consumption> {
    match statement
    case Update(rows, to) => map id | id in table :: if id in rows && id in to then to[id] else table[id]
    case Delete(rows) => table - rows
  }

  // The trigger fires before each affected row and aborts the statement.
  function Execute(table: map<Bytes, Consumption>, statement: Statement): (map<Bytes, Consumption>, bool) {
    if statement.rows * table.Keys != {} then (table, false) else (Rewrite(table, statement), true)
  }

  lemma TableIsAppendOnly(table: map<Bytes, Consumption>, statement: Statement)
    ensures Execute(table, statement).0 == table
    ensures Execute(table, statement).1 <==> forall id :: id in table ==> id !in statement.rows
  {
    if statement.rows * table.Keys == {} {
      forall id | id in table
        ensures id !in statement.rows
      {
        assert id !in statement.rows * table.Keys;
      }
      assert Rewrite(table, statement) == table;
    } else {
      var id :| id in statement.rows * table.Keys;
      assert id in table && id in statement.rows;
    }
  }

  /* ---- steps ---- */

  function Initial<V>(n: nat): Db<V> {
    Db(map[], map[], seq(n, _ => Ready), [], seq(n, _ => 0))
  }

  // The call's transaction has an uncommitted consumption row.
  predicate Holds(p: Phase) {
    p.Running? || (p.Unwinding? && p.held) || p.Lingering?
  }

  predicate Blocked<V>(calls: seq<Call<V>>, s: Db<V>, i: nat)
    requires |s.phases| == |calls| && i < |calls|
  {
    exists j :: 0 <= j < |calls| && j != i && Holds(s.phases[j]) && calls[j].rec.id == calls[i].rec.id
  }

  predicate Enabled<V>(calls: seq<Call<V>>, s: Db<V>, e: Event)
    requires |s.phases| == |calls|
  {
    match e
    case Sql(_) => true
    case Of(i, step) =>
      i < |calls| &&
      var p, effect := s.phases[i], calls[i].effect;
      match step
      case Begin => p.Ready?
      case BeginError => p.Ready?
      case Insert => p.Open? && !Blocked(calls, s, i)
      case InsertError => p.Open?
      case Put => p.Running? && p.at < |effect.puts|
      case EffectEnds => p.Running? && p.at == |effect.puts| && !effect.ending.Nil?
      case Commit(_) => p.Running? && p.at == |effect.puts| && effect.ending.Nil?
      case CommitError => p.Running? && p.at == |effect.puts| && effect.ending.Nil?
      case Rollback => p.Unwinding?
      case Crash => !p.Lingering? && !p.Finished?
      case LoseCommit(report) =>
        p.Running? && p.at == |effect.puts| && effect.ending.Nil? && (report.CommitFailed? || report.Crashed?)
      case Settle(_) => p.Lingering?
  }

  function Move<V>(s: Db<V>, i: nat, p: Phase): Db<V>
    requires i < |s.phases|
  {
    s.(phases := s.phases[i := p])
  }

  // The row and the effect's writes become durable together.
  function Committed<V>(calls: seq<Call<V>>, s: Db<V>, i: nat, p: Phase): Db<V>
    requires |s.phases| == |calls| && i < |calls|
  {
    var Call(rec, effect) := calls[i];
    Move(s, i, p).(
      table := s.table[rec.id := rec], data := ApplyPuts(s.data, effect.puts), order := s.order + [i])
  }

  function Next<V>(calls: seq<Call<V>>, s: Db<V>, e: Event): Db<V>
    requires |s.phases| == |s.runs| == |calls| && Enabled(calls, s, e)
  {
    match e
    case Sql(statement) => s.(table := Execute(s.table, statement).0)
    case Of(i, step) =>
      var Call(rec, effect) := calls[i];
      match step
      case Begin => Move(s, i, Open)
      case BeginError => Move(s, i, Finished(BeginFailed))
      case Insert =>
        if rec.id in s.table then
          Move(s, i, Unwinding(Returned(AlreadyConsumed), false)).(order := s.order + [i])
        else
          Move(s, i, Running(0)).(runs := s.runs[i := s.runs[i] + 1])
      case InsertError => Move(s, i, Unwinding(RecordFailed, false))
      case Put => Move(s, i, Running(s.phases[i].at + 1))
      case EffectEnds =>
        var outcome := if effect.ending.Panic? then EffectPanicked else EffectFailed(effect.ending.code);
        Move(s, i, Unwinding(Returned(outcome), true)).(order := s.order + [i])
      case Commit(acknowledged) =>
        Committed(calls, s, i, Unwinding(if acknowledged then Returned(Done) else CommitFailed, false))
      case CommitError => Move(s, i, Unwinding(CommitFailed, true))
      case Rollback => Move(s, i, Finished(s.phases[i].report))
      case Crash => Move(s, i, Finished(Crashed))
      case LoseCommit(report) => Move(s, i, Lingering(report))
      case Settle(durable) =>
        var over := Finished(s.phases[i].report);
        if durable then Committed(calls, s, i, over) else Move(s, i, over)
  }

  // The database after a schedule; None when some event of it was not enabled.
  function Play<V>(calls: seq<Call<V>>, trace: seq<Event>): (r: Option<Db<V>>)
    ensures r.Some? ==> |r.value.phases| == |r.value.runs| == |calls|
  {
    if trace == [] then Some(Initial(|calls|))
    else
      var s :- Play(calls, trace[..|trace| - 1]);
      if Enabled(calls, s, trace[|trace| - 1]) then Some(Next(calls, s, trace[|trace| - 1])) else None
  }

  /* ---- refinement ---- */

  predicate Indices<V>(calls: seq<Call<V>>, order: seq<nat>) {
    && (forall k :: 0 <= k < |order| ==> order[k] < |calls|)
    && (forall k, l :: 0 <= k < l < |order| ==> order[k] != order[l])
  }

  // The calls in the given order, one at a time.
  function Picked<V>(calls: seq<Call<V>>, order: seq<nat>): (r: seq<Call<V>>)
    requires forall k :: 0 <= k < |order| ==> order[k] < |calls|
    ensures |r| == |order|
    ensures forall k :: 0 <= k < |order| ==> r[k] == calls[order[k]]
  {
    seq(|order|, k requires 0 <= k < |order| => calls[order[k]])
  }

  function SerialOutcome<V>(calls: seq<Call<V>>, order: seq<nat>, k: nat): Outcome
    requires Indices(calls, order) && k < |order|
  {
    OutcomeOf(Empty(), Picked(calls, order), k)
  }

  // The report of call i agrees with the one-at-a-time run.
  ghost predicate ReportAgrees<V>(calls: seq<Call<V>>, order: seq<nat>, i: nat, report: Report)
    requires Indices(calls, order)
  {
    match report
    case Returned(outcome) =>
      i in order && forall k :: 0 <= k < |order| && order[k] == i ==> SerialOutcome(calls, order, k) == outcome
    case BeginFailed => i !in order
    case RecordFailed => i !in order
    case CommitFailed => forall k :: 0 <= k < |order| && order[k] == i ==> SerialOutcome(calls, order, k) == Done
    case Crashed => true
  }

  ghost predicate PhaseAgrees<V>(calls: seq<Call<V>>, s: Db<V>, i: nat)
    requires Indices(calls, s.order) && |s.phases| == |s.runs| == |calls| && i < |calls|
  {
    match s.phases[i]
    case Ready => i !in s.order && s.runs[i] == 0
    case Open => i !in s.order && s.runs[i] == 0
    case Running(at) => i !in s.order && s.runs[i] == 1 && at <= |calls[i].effect.puts|
    case Unwinding(report, held) => ReportAgrees(calls, s.order, i, report) && RunsAgree(report, s.runs[i])
    case Lingering(report) =>
      && i !in s.order && s.runs[i] == 1 && calls[i].effect.ending.Nil?
      && (report.CommitFailed? || report.Crashed?)
    case Finished(report) => ReportAgrees(calls, s.order, i, report) && RunsAgree(report, s.runs[i])
  }

  // The effect is never invoked twice, and not at all on a replay.
  predicate RunsAgree(report: Report, runs: nat) {
    match report
    case Returned(outcome) => runs == if outcome.AlreadyConsumed? then 0 else 1
    case BeginFailed => runs == 0
    case RecordFailed => runs == 0
    case CommitFailed => runs == 1
    case Crashed => runs <= 1
  }

  // Uncommitted rows are of distinct ids, none of them already in the table.
  predicate RowsExclusive<V>(calls: seq<Call<V>>, s: Db<V>)
    requires |s.phases| == |calls|
  {
    && (forall i :: 0 <= i < |calls| && Holds(s.phases[i]) ==> calls[i].rec.id !in s.table)
    && (forall i, j :: 0 <= i < j < |calls| && Holds(s.phases[i]) && Holds(s.phases[j]) ==>
          calls[i].rec.id != calls[j].rec.id)
  }

  // The whole refinement relation, read with the history variable as witness:
  // the durable state is that of the memory store after order, and every report
  // is the one the memory store gives there.
  ghost predicate Refines<V>(calls: seq<Call<V>>, s: Db<V>) {
    && |s.phases| == |s.runs| == |calls|
    && Indices(calls, s.order)
    && State(s.table, s.data) == After(Empty(), Picked(calls, s.order))
    && (forall i :: 0 <= i < |calls| ==> PhaseAgrees(calls, s, i))
    && RowsExclusive(calls, s)
  }

  // Appending a call to the order changes no earlier outcome.
  lemma Append<V>(calls: seq<Call<V>>, order: seq<nat>, i: nat)
    requires Indices(calls, order) && i < |calls| && i !in order
    ensures Indices(calls, order + [i])
    ensures After(Empty(), Picked(calls, order + [i])) == Consume(After(Empty(), Picked(calls, order)), calls[i]).0
    ensures SerialOutcome(calls, order + [i], |order|) == Consume(After(Empty(), Picked(calls, order)), calls[i]).1
    ensures forall k :: 0 <= k < |order| ==> SerialOutcome(calls, order + [i], k) == SerialOutcome(calls, order, k)
  {
    var a, b := Picked(calls, order), Picked(calls, order + [i]);
    assert b[..|order|] == a;
    forall k | 0 <= k < |order|
      ensures SerialOutcome(calls, order + [i], k) == SerialOutcome(calls, order, k)
    {
      assert b[..k] == a[..k];
    }
  }

  lemma AppendKeepsReports<V>(calls: seq<Call<V>>, order: seq<nat>, i: nat, j: nat, report: Report)
    requires Indices(calls, order) && i < |calls| && i !in order && i != j
    requires ReportAgrees(calls, order, j, report)
    ensures Indices(calls, order + [i]) && ReportAgrees(calls, order + [i], j, report)
  {
    Append(calls, order, i);
  }

  // A step of call i that takes effect keeps what is known of every other call.
  lemma OthersKept<V>(calls: seq<Call<V>>, s: Db<V>, s': Db<V>, i: nat)
    requires Refines(calls, s) && i < |calls| && i !in s.order
    requires s'.order == s.order + [i] && |s'.phases| == |s'.runs| == |calls|
    requires forall j :: 0 <= j < |calls| && j != i ==> s'.phases[j] == s.phases[j] && s'.runs[j] == s.runs[j]
    ensures Indices(calls, s'.order)
    ensures forall j :: 0 <= j < |calls| && j != i ==> PhaseAgrees(calls, s', j)
  {
    Append(calls, s.order, i);
    forall j | 0 <= j < |calls| && j != i
      ensures PhaseAgrees(calls, s', j)
    {
      assert PhaseAgrees(calls, s, j);
      if s.phases[j].Unwinding? || s.phases[j].Finished? {
        AppendKeepsReports(calls, s.order, i, j, s.phases[j].report);
      }
    }
  }

  lemma InsertKeeps<V>(calls: seq<Call<V>>, s: Db<V>, i: nat)
    requires Refines(calls, s) && Enabled(calls, s, Of(i, Insert))
    ensures Refines(calls, Next(calls, s, Of(i, Insert)))
  {
    var s' := Next(calls, s, Of(i, Insert));
    assert PhaseAgrees(calls, s, i);
    if calls[i].rec.id in s.table {
      Append(calls, s.order, i);
      OthersKept(calls, s, s', i);
      assert PhaseAgrees(calls, s', i);
    } else {
      forall j | 0 <= j < |calls|
        ensures PhaseAgrees(calls, s', j)
      {
        assert PhaseAgrees(calls, s, j);
      }
    }
  }

  lemma EffectEndsKeeps<V>(calls: seq<Call<V>>, s: Db<V>, i: nat)
    requires Refines(calls, s) && Enabled(calls, s, Of(i, EffectEnds))
    ensures Refines(calls, Next(calls, s, Of(i, EffectEnds)))
  {
    var s' := Next(calls, s, Of(i, EffectEnds));
    assert PhaseAgrees(calls, s, i) && Holds(s.phases[i]);
    Append(calls, s.order, i);
    OthersKept(calls, s, s', i);
    OutcomeAgrees(calls, s, i);
    assert PhaseAgrees(calls, s', i);
    EffectEndsKeepsRows(calls, s, i);
  }

  // Ending short of Commit, a call whose row the table does not hold leaves the
  // state alone and reports how its effect ended.
  lemma OutcomeAgrees<V>(calls: seq<Call<V>>, s: Db<V>, i: nat)
    requires Refines(calls, s) && Enabled(calls, s, Of(i, EffectEnds)) && i !in s.order
    ensures var (state, outcome) := Consume(State(s.table, s.data), calls[i]);
            && state == State(s.table, s.data)
            && Next(calls, s, Of(i, EffectEnds)).phases[i] == Unwinding(Returned(outcome), true)
            && RunsAgree(Returned(outcome), s.runs[i])
  {
    assert PhaseAgrees(calls, s, i) && Holds(s.phases[i]);
  }

  lemma EffectEndsKeepsRows<V>(calls: seq<Call<V>>, s: Db<V>, i: nat)
    requires |s.phases| == |s.runs| == |calls| && RowsExclusive(calls, s)
    requires Enabled(calls, s, Of(i, EffectEnds))
    ensures RowsExclusive(calls, Next(calls, s, Of(i, EffectEnds)))
  {
    assert Holds(s.phases[i]);
  }

  predicate Commits(step: Step) {
    step.Commit? || step == Settle(true)
  }

  lemma CommitKeeps<V>(calls: seq<Call<V>>, s: Db<V>, i: nat, step: Step)
    requires Refines(calls, s) && Enabled(calls, s, Of(i, step)) && Commits(step)
    ensures Refines(calls, Next(calls, s, Of(i, step)))
  {
    var s' := Next(calls, s, Of(i, step));
    assert PhaseAgrees(calls, s, i) && Holds(s.phases[i]);
    CommittedKeeps(calls, s, i, s'.phases[i]);
  }

  lemma CommittedKeeps<V>(calls: seq<Call<V>>, s: Db<V>, i: nat, p: Phase)
    requires Refines(calls, s) && i < |calls| && i !in s.order && Holds(s.phases[i])
    requires s.runs[i] == 1 && calls[i].effect.ending.Nil?
    requires p == Unwinding(Returned(Done), false) || p == Unwinding(CommitFailed, false)
             || p == Finished(CommitFailed) || p == Finished(Crashed)
    ensures Refines(calls, Committed(calls, s, i, p))
  {
    var s' := Committed(calls, s, i, p);
    Append(calls, s.order, i);
    OthersKept(calls, s, s', i);
    assert PhaseAgrees(calls, s', i);
    CommittedKeepsRows(calls, s, i, p);
  }

  lemma CommittedKeepsRows<V>(calls: seq<Call<V>>, s: Db<V>, i: nat, p: Phase)
    requires |s.phases| == |s.runs| == |calls| && RowsExclusive(calls, s)
    requires i < |calls| && Holds(s.phases[i]) && !Holds(p)
    ensures RowsExclusive(calls, Committed(calls, s, i, p))
  {
    assert forall j :: 0 <= j < |calls| && j != i && Holds(s.phases[j]) ==> calls[j].rec.id != calls[i].rec.id;
  }

  // Steps that leave the durable state and the order alone.
  lemma QuietStepKeeps<V>(calls: seq<Call<V>>, s: Db<V>, i: nat, step: Step)
    requires Refines(calls, s) && Enabled(calls, s, Of(i, step))
    requires !step.Insert? && !step.EffectEnds? && !Commits(step)
    ensures Refines(calls, Next(calls, s, Of(i, step)))
  {
    var s' := Next(calls, s, Of(i, step));
    QuietStepMoves(calls, s, i, step);
    forall j | 0 <= j < |calls| && j != i
      ensures PhaseAgrees(calls, s', j)
    {
      assert PhaseAgrees(calls, s, j);
    }
  }

  lemma QuietStepMoves<V>(calls: seq<Call<V>>, s: Db<V>, i: nat, step: Step)
    requires Refines(calls, s) && Enabled(calls, s, Of(i, step))
    requires !step.Insert? && !step.EffectEnds? && !Commits(step)
    ensures var s' := Next(calls, s, Of(i, step));
            && s' == Move(s, i, s'.phases[i])
            && PhaseAgrees(calls, s', i) && (Holds(s'.phases[i]) ==> Holds(s.phases[i]))
  {
    assert PhaseAgrees(calls, s, i);
  }

  lemma StepKeeps<V>(calls: seq<Call<V>>, s: Db<V>, e: Event)
    requires Refines(calls, s) && Enabled(calls, s, e)
    ensures Refines(calls, Next(calls, s, e))
  {
    match e {
      case Sql(statement) =>
        TableIsAppendOnly(s.table, statement);
        assert Next(calls, s, e) == s;
      case Of(i, step) =>
        match step {
          case Insert => InsertKeeps(calls, s, i);
          case EffectEnds => EffectEndsKeeps(calls, s, i);
          case _ =>
            if Commits(step) {
              CommitKeeps(calls, s, i, step);
            } else {
              QuietStepKeeps(calls, s, i, step);
            }
        }
    }
  }

  // Every schedule of any calls refines a one-at-a-time run of the memory store.
  lemma {:induction false} EveryScheduleRefines<V>(calls: seq<Call<V>>, trace: seq<Event>)
    requires Play(calls, trace).Some?
    ensures Refines(calls, Play(calls, trace).value)
  {
    if trace == [] {
      assert Picked(calls, []) == [];
    } else {
      EveryScheduleRefines(calls, trace[..|trace| - 1]);
      StepKeeps(calls, Play(calls, trace[..|trace| - 1]).value, trace[|trace| - 1]);
    }
  }
}
