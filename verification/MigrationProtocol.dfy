/**
  The migration claim protocol as a transition system: any number of runners execute
  `_apply_migrations` against one table, one SQL statement at a time, in any interleaving.

  A statement may succeed, fail without effect, or fail after its effect (a lost acknowledgement);
  a runner may crash between any two statements; the clock may advance at any time.
 */
module MigrationProtocol {
  import opened Collections
  import opened Wrappers
  import opened MigrationTable

  const CLAIM_WAIT: nat := 60000  // milliseconds

  datatype Migration = Migration(name: string, statements: nat)

  type Config = seq<Migration>

  /** Where a runner stands; `k` is the index of the version it is working on. */
  datatype PC =
    | Starting
    | Begin(k: nat)
    | Inserting(k: nat)
    | Reading(k: nat)
    | Deciding(k: nat, row: Option<Row>)
    | Sleeping(k: nat)
    | TakingOver(k: nat, stale: Option<Name>)
    | Rereading(k: nat)
    | Executing(k: nat, j: nat)  // about to run statement j, or to finalise when none is left
    | Releasing(k: nat)
    | Returned
    | Raised
    | Crashed

  datatype Runner = Runner(pc: PC, deadline: nat)

  datatype Event =
    | Ran(runner: nat, version: nat, position: nat)
    | Settled(runner: nat, version: nat)
    | TookOver(runner: nat, version: nat)

  datatype State = State(table: Table, runners: seq<Runner>, clock: nat, log: seq<Event>)

  datatype Effect = Succeeds | FailsBefore | FailsAfter

  datatype Action =
    | Move(r: nat, effect: Effect, stamp: string)
    | Crash(r: nat)
    | Tick(ms: nat)

  /** The runner whose claim marker a row carries. */
  function ClaimedBy(row: Row): Option<nat> {
    if row.name.Some? && row.name.value.Claim? then Some(row.name.value.runner) else None
  }

  /** Tokens are fresh: no row carries one of a runner that has not started. */
  predicate Initial(s: State) {
    && s.log == []
    && (forall r :: 0 <= r < |s.runners| ==> s.runners[r].pc == Starting)
    && (forall v :: v in s.table && ClaimedBy(s.table[v]).Some? ==> ClaimedBy(s.table[v]).value >= |s.runners|)
  }

  function Goto(s: State, r: nat, pc: PC): State
    requires r < |s.runners|
  {
    s.(runners := s.runners[r := s.runners[r].(pc := pc)])
  }

  /** One statement of runner `r` against the table, and where the runner goes next. */
  function Perform(s: State, r: nat, effect: Effect, table: Table, events: seq<Event>, ok: PC, failed: PC): State
    requires r < |s.runners|
  {
    var done := if effect.FailsBefore? then s else s.(table := table, log := s.log + events);
    Goto(done, r, if effect.Succeeds? then ok else failed)
  }

  function Decide(s: State, r: nat, k: nat, row: Option<Row>): PC
    requires r < |s.runners|
  {
    if row.Some? && row.value.name == Some(Claim(r, k)) then Executing(k, 0)
    else if row.Some? && row.value.applied.Some? then Begin(k + 1)
    else if s.clock < s.runners[r].deadline then Sleeping(k)
    else if row.Some? then TakingOver(k, row.value.name)
    else Raised
  }

  function MoveOf(cfg: Config, s: State, r: nat, effect: Effect, stamp: string): State
    requires r < |s.runners|
  {
    match s.runners[r].pc
    case Starting => Perform(s, r, effect, s.table, [], Begin(0), Raised)
    case Begin(k) =>
      if k >= |cfg| then Goto(s, r, Returned)
      else s.(runners := s.runners[r := Runner(Inserting(k), s.clock + CLAIM_WAIT)])
    case Inserting(k) => Perform(s, r, effect, Inserted(s.table, k, Claim(r, k)), [], Reading(k), Raised)
    case Reading(k) => Perform(s, r, effect, s.table, [], Deciding(k, Read(s.table, k)), Raised)
    case Deciding(k, row) => Goto(s, r, Decide(s, r, k, row))
    case Sleeping(k) => Perform(s, r, effect, s.table, [], Inserting(k), Raised)
    case TakingOver(k, stale) =>
      var table := TakenOver(s.table, k, stale, Claim(r, k));
      Perform(s, r, effect, table, if table != s.table then [TookOver(r, k)] else [], Rereading(k), Raised)
    case Rereading(k) =>
      var mine := k in s.table && s.table[k].name == Some(Claim(r, k));
      Perform(s, r, effect, s.table, [], if mine then Executing(k, 0) else Raised, Raised)
    case Executing(k, j) =>
      if k < |cfg| && j < cfg[k].statements then
        Perform(s, r, effect, s.table, [Ran(r, k, j)], Executing(k, j + 1), Releasing(k))
      else
        var table := Finalised(s.table, k, Claim(r, k), if k < |cfg| then cfg[k].name else "", stamp);
        Perform(s, r, effect, table, if table != s.table then [Settled(r, k)] else [], Begin(k + 1), Releasing(k))
    case Releasing(k) => Perform(s, r, effect, Released(s.table, k, Claim(r, k)), [], Raised, Raised)
    case Returned => s
    case Raised => s
    case Crashed => s
  }

  function Step(cfg: Config, s: State, a: Action): State {
    match a
    case Move(r, effect, stamp) => if r < |s.runners| then MoveOf(cfg, s, r, effect, stamp) else s
    case Crash(r) => if r < |s.runners| then Goto(s, r, Crashed) else s
    case Tick(ms) => s.(clock := s.clock + ms)
  }

  function Run(cfg: Config, s: State, actions: seq<Action>): State
    decreases |actions|
  {
    if actions == [] then s
    else Step(cfg, Run(cfg, s, actions[..|actions| - 1]), actions[|actions| - 1])
  }

  // ------------------------------------------------------------------
  // Settled rows are permanent

  lemma StepKeepsSettled(cfg: Config, s: State, a: Action, v: nat)
    requires IsApplied(s.table, v)
    ensures v in Step(cfg, s, a).table && Step(cfg, s, a).table[v] == s.table[v]
  {
  }

  /** Once `applied_at` is set, no continuation of the run changes or removes the row. */
  lemma {:induction false} SettledForever(cfg: Config, s: State, actions: seq<Action>, v: nat)
    requires IsApplied(s.table, v)
    ensures v in Run(cfg, s, actions).table && Run(cfg, s, actions).table[v] == s.table[v]
    decreases |actions|
  {
    if actions != [] {
      var before := Run(cfg, s, actions[..|actions| - 1]);
      SettledForever(cfg, s, actions[..|actions| - 1], v);
      StepKeepsSettled(cfg, before, actions[|actions| - 1], v);
    }
  }

  // ------------------------------------------------------------------
  // Who ran what

  /** The statements of version `k` that runner `r` has run, in order. */
  function RanBy(log: seq<Event>, r: nat, k: nat): seq<nat> {
    if log == [] then []
    else
      var last := log[|log| - 1];
      RanBy(log[..|log| - 1], r, k)
      + (if last.Ran? && last.runner == r && last.version == k then [last.position] else [])
  }

  function FirstN(n: nat): seq<nat> {
    seq(n, i => i)
  }

  function TakeOvers(log: seq<Event>, k: nat): nat {
    if log == [] then 0
    else
      var last := log[|log| - 1];
      TakeOvers(log[..|log| - 1], k) + (if last.TookOver? && last.version == k then 1 else 0)
  }

  /** The version a runner is working on, if it is still at work. */
  function At(pc: PC): Option<nat> {
    match pc
    case Starting => Some(0)
    case Begin(k) => Some(k)
    case Inserting(k) => Some(k)
    case Reading(k) => Some(k)
    case Deciding(k, _) => Some(k)
    case Sleeping(k) => Some(k)
    case TakingOver(k, _) => Some(k)
    case Rereading(k) => Some(k)
    case Executing(k, _) => Some(k)
    case Releasing(k) => None
    case Returned => None
    case Raised => None
    case Crashed => None
  }

  /** The runner has not yet run any statement of version `k`. */
  predicate Before(pc: PC, k: nat) {
    At(pc).Some? && (At(pc).value < k || (At(pc).value == k && !pc.Executing?))
  }

  /** The runner went past version `k` in the normal way. */
  predicate Past(cfg: Config, pc: PC, k: nat) {
    (At(pc).Some? && At(pc).value > k) || (pc.Returned? && k < |cfg|)
  }

  predicate RanAll(cfg: Config, s: State, r: nat, k: nat) {
    k < |cfg| && RanBy(s.log, r, k) == FirstN(cfg[k].statements)
  }

  predicate InRange(cfg: Config, pc: PC) {
    && (At(pc).Some? ==> At(pc).value <= |cfg| && (At(pc).value == |cfg| ==> pc.Begin? || pc.Starting?))
    && (pc.Executing? ==> pc.j <= cfg[pc.k].statements)
  }

  /** Versions stay in range, and the log agrees with where each runner stands. */
  ghost predicate LogInv(cfg: Config, s: State) {
    && (forall r :: 0 <= r < |s.runners| ==> InRange(cfg, s.runners[r].pc))
    && (forall r, k :: 0 <= r < |s.runners| && Before(s.runners[r].pc, k) ==> RanBy(s.log, r, k) == [])
    && (forall r :: 0 <= r < |s.runners| && s.runners[r].pc.Executing? ==>
          RanBy(s.log, r, s.runners[r].pc.k) == FirstN(s.runners[r].pc.j))
    && SettleInv(cfg, s)
  }

  predicate ExecutingAt(pc: PC, k: nat) {
    pc.Executing? && pc.k == k
  }

  ghost predicate SettleInv(cfg: Config, s: State) {
    forall r: nat, k: nat :: Settled(r, k) in s.log ==>
      r < |s.runners| && RanAll(cfg, s, r, k) && !Before(s.runners[r].pc, k) && !ExecutingAt(s.runners[r].pc, k)
  }

  lemma RanByAppend(log: seq<Event>, events: seq<Event>, r: nat, k: nat)
    requires |events| <= 1
    ensures RanBy(log + events, r, k)
         == RanBy(log, r, k) + (if |events| == 1 && events[0].Ran? && events[0].runner == r && events[0].version == k
                                then [events[0].position] else [])
    ensures TakeOvers(log + events, k)
         == TakeOvers(log, k) + (if |events| == 1 && events[0].TookOver? && events[0].version == k then 1 else 0)
  {
    if |events| == 1 {
      assert (log + events)[..|log + events| - 1] == log;
    } else {
      assert log + events == log;
    }
  }

  /** The events a step adds. */
  function Added(cfg: Config, s: State, a: Action): (es: seq<Event>)
    ensures |es| <= 1
  {
    match a
    case Crash(_) => []
    case Tick(_) => []
    case Move(r, effect, stamp) =>
      if r >= |s.runners| || effect.FailsBefore? then []
      else
        match s.runners[r].pc
        case TakingOver(k, stale) =>
          if TakenOver(s.table, k, stale, Claim(r, k)) != s.table then [TookOver(r, k)] else []
        case Executing(k, j) =>
          if k < |cfg| && j < cfg[k].statements then [Ran(r, k, j)]
          else if Step(cfg, s, a).table != s.table then [Settled(r, k)]
          else []
        case _ => []
  }

  lemma StepLog(cfg: Config, s: State, a: Action)
    ensures Step(cfg, s, a).log == s.log + Added(cfg, s, a)
    ensures |Step(cfg, s, a).runners| == |s.runners|
    ensures forall r :: 0 <= r < |s.runners| && !(a.Move? && a.r == r) && !(a.Crash? && a.r == r) ==>
              Step(cfg, s, a).runners[r] == s.runners[r]
  {
  }

  /** How the position of the moving runner can change. */
  lemma MoveStage(cfg: Config, s: State, r: nat, effect: Effect, stamp: string)
    requires r < |s.runners| && InRange(cfg, s.runners[r].pc)
    ensures var pc, pc' := s.runners[r].pc, MoveOf(cfg, s, r, effect, stamp).runners[r].pc;
            && InRange(cfg, pc')
            && (forall k :: Before(pc', k) ==> Before(pc, k))
            && (pc'.Executing? ==>
                  || (pc'.j == 0 && Before(pc, pc'.k))
                  || (pc == Executing(pc'.k, pc'.j - 1) && effect.Succeeds? && pc.j < cfg[pc.k].statements))
  {
  }

  lemma AddedRan(cfg: Config, s: State, a: Action)
    requires Added(cfg, s, a) != [] && Added(cfg, s, a)[0].Ran?
    ensures a.Move? && a.r < |s.runners|
    ensures s.runners[a.r].pc.Executing?
    ensures Added(cfg, s, a)[0] == Ran(a.r, s.runners[a.r].pc.k, s.runners[a.r].pc.j)
    ensures s.runners[a.r].pc.k < |cfg| && s.runners[a.r].pc.j < cfg[s.runners[a.r].pc.k].statements
  {
  }

  lemma AddedSettled(cfg: Config, s: State, a: Action)
    requires Added(cfg, s, a) != [] && Added(cfg, s, a)[0].Settled? && LogInv(cfg, s)
    ensures a.Move? && a.r < |s.runners|
    ensures s.runners[a.r].pc.Executing? && RanAll(cfg, s, a.r, s.runners[a.r].pc.k)
    ensures Added(cfg, s, a) == [Settled(a.r, s.runners[a.r].pc.k)]
    ensures !ExecutingAt(Step(cfg, s, a).runners[a.r].pc, s.runners[a.r].pc.k)
    ensures !Before(Step(cfg, s, a).runners[a.r].pc, s.runners[a.r].pc.k)
  {
  }

  /** What a runner has run of a version only changes while it is executing that version. */
  lemma RanByStep(cfg: Config, s: State, a: Action, r: nat, k: nat)
    requires r < |s.runners|
    ensures !(a.Move? && a.r == r && ExecutingAt(s.runners[r].pc, k)) ==>
              RanBy(Step(cfg, s, a).log, r, k) == RanBy(s.log, r, k)
  {
    StepLog(cfg, s, a);
    var es := Added(cfg, s, a);
    RanByAppend(s.log, es, r, k);
    if es != [] && es[0].Ran? {
      AddedRan(cfg, s, a);
    }
  }

  lemma ExecutingStep(cfg: Config, s: State, a: Action, r: nat)
    requires LogInv(cfg, s) && r < |s.runners|
    requires Step(cfg, s, a).runners[r].pc.Executing?
    ensures var s' := Step(cfg, s, a);
            RanBy(s'.log, r, s'.runners[r].pc.k) == FirstN(s'.runners[r].pc.j)
  {
    StepLog(cfg, s, a);
    var s' := Step(cfg, s, a);
    var pc, pc' := s.runners[r].pc, s'.runners[r].pc;
    RanByStep(cfg, s, a, r, pc'.k);
    if a.Move? && a.r == r {
      MoveStage(cfg, s, r, a.effect, a.stamp);
      if pc.Executing? && pc.k == pc'.k && a.effect.Succeeds? && pc.j < cfg[pc.k].statements {
        assert Added(cfg, s, a) == [Ran(r, pc.k, pc.j)];
        RanByAppend(s.log, [Ran(r, pc.k, pc.j)], r, pc.k);
        assert FirstN(pc.j) + [pc.j] == FirstN(pc.j + 1);
      }
    }
  }

  lemma StepKeepsSettleInv(cfg: Config, s: State, a: Action)
    requires LogInv(cfg, s)
    ensures SettleInv(cfg, Step(cfg, s, a))
  {
    StepLog(cfg, s, a);
    var s', es := Step(cfg, s, a), Added(cfg, s, a);
    forall r: nat, k: nat | Settled(r, k) in s'.log
      ensures r < |s'.runners| && RanAll(cfg, s', r, k)
              && !Before(s'.runners[r].pc, k) && !ExecutingAt(s'.runners[r].pc, k)
    {
      if Settled(r, k) in s.log {
        RanByStep(cfg, s, a, r, k);
        if a.Move? && a.r == r {
          MoveStage(cfg, s, r, a.effect, a.stamp);
        }
      } else {
        assert es == [Settled(r, k)];
        AddedSettled(cfg, s, a);
        RanByAppend(s.log, es, r, k);
      }
    }
  }

  lemma StepKeepsLogInv(cfg: Config, s: State, a: Action)
    requires LogInv(cfg, s)
    ensures LogInv(cfg, Step(cfg, s, a))
  {
    StepLog(cfg, s, a);
    StepKeepsSettleInv(cfg, s, a);
    var s' := Step(cfg, s, a);
    if a.Move? && a.r < |s.runners| {
      MoveStage(cfg, s, a.r, a.effect, a.stamp);
    }
    forall r, k | 0 <= r < |s'.runners| && Before(s'.runners[r].pc, k)
      ensures RanBy(s'.log, r, k) == []
    {
      RanByStep(cfg, s, a, r, k);
    }
    forall r | 0 <= r < |s'.runners| && s'.runners[r].pc.Executing?
      ensures RanBy(s'.log, r, s'.runners[r].pc.k) == FirstN(s'.runners[r].pc.j)
    {
      ExecutingStep(cfg, s, a, r);
    }
  }

  // ------------------------------------------------------------------
  // Only a runner that ran every statement, and holds the row, settles it

  /** A row that carries a live runner's claim is unsettled, and is the row of that version. */
  ghost predicate ClaimInv(s: State) {
    forall v :: v in s.table && ClaimedBy(s.table[v]).Some? && ClaimedBy(s.table[v]).value < |s.runners| ==>
      s.table[v] == Row(Some(Claim(ClaimedBy(s.table[v]).value, v)), None)
  }

  predicate ReadOk(s: State, r: nat)
    requires r < |s.runners| && s.runners[r].pc.Deciding?
  {
    var pc := s.runners[r].pc;
    && (pc.row.Some? && pc.row.value.applied.Some? ==> pc.k in s.table && s.table[pc.k] == pc.row.value)
    && (pc.row.Some? && ClaimedBy(pc.row.value) == Some(r) ==> pc.row.value == Row(Some(Claim(r, pc.k)), None))
  }

  /** What a runner read as settled is still there. */
  ghost predicate ReadInv(s: State) {
    forall r :: 0 <= r < |s.runners| && s.runners[r].pc.Deciding? ==> ReadOk(s, r)
  }

  /** The row that version `v`'s row can become when runner `r` moves. */
  predicate RowStep(s: State, s': State, r: nat, v: nat)
    requires r < |s.runners|
  {
    var pc := s.runners[r].pc;
    || Read(s'.table, v) == Read(s.table, v)
    || (pc == Inserting(v) && v !in s.table && Read(s'.table, v) == Some(Row(Some(Claim(r, v)), None)))
    || (pc.TakingOver? && pc.k == v && v in s.table && pc.stale.Some? && HeldBy(s.table, v, pc.stale.value)
        && Read(s'.table, v) == Some(Row(Some(Claim(r, v)), None)))
    || (ExecutingAt(pc, v) && HeldBy(s.table, v, Claim(r, v)) && v in s'.table
        && ClaimedBy(s'.table[v]) == None && s'.table[v].applied.Some?)
    || (pc == Releasing(v) && HeldBy(s.table, v, Claim(r, v)) && v !in s'.table)
  }

  lemma MoveRow(cfg: Config, s: State, r: nat, effect: Effect, stamp: string, v: nat)
    requires r < |s.runners|
    ensures RowStep(s, MoveOf(cfg, s, r, effect, stamp), r, v)
  {
  }

  lemma StepKeepsClaimInv(cfg: Config, s: State, a: Action)
    requires ClaimInv(s)
    ensures ClaimInv(Step(cfg, s, a))
  {
    StepLog(cfg, s, a);
    var s' := Step(cfg, s, a);
    forall v | v in s'.table && ClaimedBy(s'.table[v]).Some? && ClaimedBy(s'.table[v]).value < |s'.runners|
      ensures s'.table[v] == Row(Some(Claim(ClaimedBy(s'.table[v]).value, v)), None)
    {
      if a.Move? && a.r < |s.runners| {
        MoveRow(cfg, s, a.r, a.effect, a.stamp, v);
      }
    }
  }

  /** What a runner about to decide has just read. */
  lemma MoveReads(cfg: Config, s: State, r: nat, effect: Effect, stamp: string)
    requires r < |s.runners|
    ensures var s' := MoveOf(cfg, s, r, effect, stamp);
            s'.runners[r].pc.Deciding? ==>
              s'.table == s.table && s'.runners[r].pc.row == Read(s.table, s'.runners[r].pc.k)
  {
  }

  lemma StepKeepsReadInv(cfg: Config, s: State, a: Action)
    requires ClaimInv(s) && ReadInv(s)
    ensures ReadInv(Step(cfg, s, a))
  {
    StepLog(cfg, s, a);
    var s' := Step(cfg, s, a);
    forall r | 0 <= r < |s'.runners| && s'.runners[r].pc.Deciding?
      ensures ReadOk(s', r)
    {
      if a.Move? && a.r == r {
        MoveReads(cfg, s, r, a.effect, a.stamp);
      } else {
        assert s'.runners[r] == s.runners[r] && ReadOk(s, r);
        var pc := s.runners[r].pc;
        if pc.row.Some? && pc.row.value.applied.Some? {
          StepKeepsSettled(cfg, s, a, pc.k);
        }
      }
    }
  }

  /** The one way a row becomes settled. */
  lemma OnlyTheHolderSettles(cfg: Config, s: State, a: Action, v: nat)
    requires LogInv(cfg, s)
    requires !IsApplied(s.table, v) && IsApplied(Step(cfg, s, a).table, v)
    ensures && a.Move? && a.r < |s.runners|
            && s.runners[a.r].pc.Executing? && s.runners[a.r].pc.k == v
            && HeldBy(s.table, v, Claim(a.r, v))
            && RanAll(cfg, s, a.r, v)
            && Step(cfg, s, a).log == s.log + [Settled(a.r, v)]
            && Step(cfg, s, a).table[v] == Row(Some(Text(cfg[v].name)), Some(a.stamp))
  {
  }

  /** Every settled row was settled before the run, or by a runner that ran all its statements. */
  ghost predicate SettledInv(t0: Table, s: State) {
    forall v :: IsApplied(s.table, v) ==>
      (v in t0 && t0[v] == s.table[v]) || exists r: nat :: Settled(r, v) in s.log
  }

  lemma StepKeepsSettledInv(cfg: Config, t0: Table, s: State, a: Action)
    requires LogInv(cfg, s) && SettledInv(t0, s)
    ensures SettledInv(t0, Step(cfg, s, a))
  {
    var s' := Step(cfg, s, a);
    StepLog(cfg, s, a);
    forall v | IsApplied(s'.table, v)
      ensures (v in t0 && t0[v] == s'.table[v]) || exists r: nat :: Settled(r, v) in s'.log
    {
      if IsApplied(s.table, v) {
        StepKeepsSettled(cfg, s, a, v);
        if r: nat :| Settled(r, v) in s.log {
          assert Settled(r, v) in s'.log;
        }
      } else {
        OnlyTheHolderSettles(cfg, s, a, v);
        assert Settled(a.r, v) in s'.log;
      }
    }
  }

  // ------------------------------------------------------------------
  // Going past a version means that someone completed it

  ghost predicate Completed(cfg: Config, t0: Table, s: State, k: nat) {
    IsApplied(t0, k) || exists r: nat :: r < |s.runners| && RanAll(cfg, s, r, k)
  }

  ghost predicate PastInv(cfg: Config, t0: Table, s: State) {
    forall r, k: nat :: 0 <= r < |s.runners| && Past(cfg, s.runners[r].pc, k) ==> Completed(cfg, t0, s, k)
  }

  lemma StepKeepsCompleted(cfg: Config, t0: Table, s: State, a: Action, k: nat)
    requires LogInv(cfg, s) && Completed(cfg, t0, s, k)
    ensures Completed(cfg, t0, Step(cfg, s, a), k)
  {
    if !IsApplied(t0, k) {
      var r: nat :| r < |s.runners| && RanAll(cfg, s, r, k);
      StepLog(cfg, s, a);
      var es := Added(cfg, s, a);
      RanByAppend(s.log, es, r, k);
      assert |FirstN(cfg[k].statements)| == cfg[k].statements;
      assert RanAll(cfg, Step(cfg, s, a), r, k);
    }
  }

  lemma AppliedIsCompleted(cfg: Config, t0: Table, s: State, k: nat)
    requires LogInv(cfg, s) && SettledInv(t0, s) && IsApplied(s.table, k)
    ensures Completed(cfg, t0, s, k)
  {
    if !(k in t0 && t0[k] == s.table[k]) {
      var r: nat :| Settled(r, k) in s.log;
      assert r < |s.runners| && RanAll(cfg, s, r, k);
    }
  }

  /** The two ways past a version: it was read as settled, or its last step succeeded. */
  lemma MovePast(cfg: Config, s: State, r: nat, effect: Effect, stamp: string, k: nat)
    requires r < |s.runners| && InRange(cfg, s.runners[r].pc)
    requires Past(cfg, MoveOf(cfg, s, r, effect, stamp).runners[r].pc, k) && !Past(cfg, s.runners[r].pc, k)
    ensures var pc := s.runners[r].pc;
            || (pc.Deciding? && pc.k == k && pc.row.Some? && pc.row.value.applied.Some?
                && MoveOf(cfg, s, r, effect, stamp).table == s.table)
            || (ExecutingAt(pc, k) && pc.j == cfg[k].statements && effect.Succeeds?)
    ensures k < |cfg|
  {
  }

  lemma StepKeepsPastInv(cfg: Config, t0: Table, s: State, a: Action)
    requires LogInv(cfg, s) && ReadInv(s) && SettledInv(t0, s) && PastInv(cfg, t0, s)
    ensures PastInv(cfg, t0, Step(cfg, s, a))
  {
    var s' := Step(cfg, s, a);
    StepLog(cfg, s, a);
    forall r, k: nat | 0 <= r < |s'.runners| && Past(cfg, s'.runners[r].pc, k)
      ensures Completed(cfg, t0, s', k)
    {
      if !Past(cfg, s.runners[r].pc, k) {
        MovePast(cfg, s, r, a.effect, a.stamp, k);
        if s.runners[r].pc.Deciding? {
          assert ReadOk(s, r);
          AppliedIsCompleted(cfg, t0, s, k);
        } else {
          assert RanAll(cfg, s, r, k);
        }
      }
      StepKeepsCompleted(cfg, t0, s, a, k);
    }
  }

  // ------------------------------------------------------------------
  // Mutual exclusion, up to take-overs

  /** The runner runs version `k`'s statements, or has read its own claim and is about to. */
  predicate Live(s: State, r: nat, k: nat) {
    r < |s.runners| &&
    match s.runners[r].pc
    case Executing(i, _) => i == k
    case Deciding(i, row) => i == k && row == Some(Row(Some(Claim(r, k)), None))
    case _ => false
  }

  predicate Holds(s: State, r: nat, k: nat) {
    HeldBy(s.table, k, Claim(r, k))
  }

  /** The runners that may run statements of version `k` although the row is no longer theirs. */
  function Dispossessed(s: State, k: nat): set<nat> {
    set r | 0 <= r < |s.runners| && Live(s, r, k) && !Holds(s, r, k)
  }

  function Executors(s: State, k: nat): set<nat> {
    set r | 0 <= r < |s.runners| && s.runners[r].pc.Executing? && s.runners[r].pc.k == k
  }

  ghost predicate DispossessedInv(s: State) {
    forall k: nat :: |Dispossessed(s, k)| <= TakeOvers(s.log, k)
  }

  /** A runner only becomes live while the row is its own. */
  lemma MoveLive(cfg: Config, s: State, r: nat, effect: Effect, stamp: string, k: nat)
    requires ClaimInv(s) && ReadInv(s) && r < |s.runners|
    requires Live(MoveOf(cfg, s, r, effect, stamp), r, k)
    ensures MoveOf(cfg, s, r, effect, stamp).table == s.table
    ensures Live(s, r, k) || Holds(s, r, k)
  {
    if s.runners[r].pc.Deciding? {
      assert ReadOk(s, r);
    }
  }

  /** Who loses a row: the runner it is taken over from. */
  function Loser(s: State, k: nat): set<nat> {
    if k in s.table && ClaimedBy(s.table[k]).Some? then {ClaimedBy(s.table[k]).value} else {}
  }

  predicate TakesOver(cfg: Config, s: State, a: Action, k: nat) {
    var es := Added(cfg, s, a);
    |es| == 1 && es[0].TookOver? && es[0].version == k
  }

  lemma MoveTakesOver(cfg: Config, s: State, r: nat, effect: Effect, stamp: string, k: nat)
    requires r < |s.runners| && s.runners[r].pc.TakingOver? && s.runners[r].pc.k == k
    requires Read(MoveOf(cfg, s, r, effect, stamp).table, k) != Read(s.table, k)
    ensures TakesOver(cfg, s, Move(r, effect, stamp), k)
  {
  }

  /** Only a take-over of version `k` dispossesses a runner, and only the one it takes over from. */
  lemma StepDispossesses(cfg: Config, s: State, a: Action, k: nat)
    requires ClaimInv(s) && ReadInv(s)
    ensures Dispossessed(Step(cfg, s, a), k)
         <= Dispossessed(s, k) + (if TakesOver(cfg, s, a, k) then Loser(s, k) else {})
  {
    var s' := Step(cfg, s, a);
    StepLog(cfg, s, a);
    forall r | r in Dispossessed(s', k) && r !in Dispossessed(s, k)
      ensures TakesOver(cfg, s, a, k) && r in Loser(s, k)
    {
      if a.Move? && a.r == r {
        MoveLive(cfg, s, r, a.effect, a.stamp, k);
      } else if a.Move? && a.r < |s.runners| {
        assert Live(s, r, k) && Holds(s, r, k);
        MoveRow(cfg, s, a.r, a.effect, a.stamp, k);
        if s.runners[a.r].pc.TakingOver? && s.runners[a.r].pc.k == k {
          MoveTakesOver(cfg, s, a.r, a.effect, a.stamp, k);
        }
      }
    }
  }

  lemma StepKeepsDispossessedInv(cfg: Config, s: State, a: Action)
    requires ClaimInv(s) && ReadInv(s) && DispossessedInv(s)
    ensures DispossessedInv(Step(cfg, s, a))
  {
    var s', es := Step(cfg, s, a), Added(cfg, s, a);
    StepLog(cfg, s, a);
    forall k: nat ensures |Dispossessed(s', k)| <= TakeOvers(s'.log, k) {
      StepDispossesses(cfg, s, a, k);
      RanByAppend(s.log, es, 0, k);
      SubsetSize(Dispossessed(s', k), Dispossessed(s, k) + (if TakesOver(cfg, s, a, k) then Loser(s, k) else {}));
    }
  }

  lemma ExecutorsBound(s: State, k: nat)
    requires ClaimInv(s) && DispossessedInv(s)
    ensures |Executors(s, k)| <= 1 + TakeOvers(s.log, k)
    ensures TakeOvers(s.log, k) == 0 ==> forall r :: r in Executors(s, k) ==> Holds(s, r, k)
  {
    var lost := Dispossessed(s, k);
    var holder := Loser(s, k);
    forall r | r in Executors(s, k) ensures r in lost + holder && (r !in lost ==> Holds(s, r, k)) {
      assert Live(s, r, k);
    }
    SubsetSize(Executors(s, k), lost + holder);
  }

  // ------------------------------------------------------------------
  // Versions are applied in order, up to take-overs

  /** Unless version `j` was taken over, a runner past it, or a new row after it, means it is applied. */
  ghost predicate OrderInv(cfg: Config, t0: Table, s: State) {
    forall j: nat :: j < |cfg| && TakeOvers(s.log, j) == 0 ==> OrderedAt(cfg, t0, s, j)
  }

  ghost predicate OrderedAt(cfg: Config, t0: Table, s: State, j: nat) {
    && (forall r :: 0 <= r < |s.runners| && Past(cfg, s.runners[r].pc, j) ==> IsApplied(s.table, j))
    && (forall k: nat :: j < k < |cfg| && k in s.table && k !in t0 ==> IsApplied(s.table, j))
  }

  lemma StepKeepsOrderedAt(cfg: Config, t0: Table, s: State, a: Action, j: nat)
    requires LogInv(cfg, s) && ClaimInv(s) && ReadInv(s) && DispossessedInv(s)
    requires j < |cfg| && TakeOvers(s.log, j) == 0 && OrderedAt(cfg, t0, s, j)
    ensures OrderedAt(cfg, t0, Step(cfg, s, a), j)
  {
    var s' := Step(cfg, s, a);
    StepLog(cfg, s, a);
    forall r | 0 <= r < |s'.runners| && Past(cfg, s'.runners[r].pc, j) ensures IsApplied(s'.table, j) {
      if Past(cfg, s.runners[r].pc, j) {
        StepKeepsSettled(cfg, s, a, j);
      } else {
        MovePast(cfg, s, r, a.effect, a.stamp, j);
        if s.runners[r].pc.Deciding? {
          assert ReadOk(s, r);
        } else {
          ExecutorsBound(s, j);
          assert r in Executors(s, j);
        }
      }
    }
    forall k: nat | j < k < |cfg| && k in s'.table && k !in t0 ensures IsApplied(s'.table, j) {
      if k !in s.table {
        MoveRow(cfg, s, a.r, a.effect, a.stamp, k);
        assert Past(cfg, s.runners[a.r].pc, j);
      }
      StepKeepsSettled(cfg, s, a, j);
    }
  }

  lemma StepKeepsOrderInv(cfg: Config, t0: Table, s: State, a: Action)
    requires LogInv(cfg, s) && ClaimInv(s) && ReadInv(s) && DispossessedInv(s) && OrderInv(cfg, t0, s)
    ensures OrderInv(cfg, t0, Step(cfg, s, a))
  {
    var s' := Step(cfg, s, a);
    StepLog(cfg, s, a);
    forall j: nat | j < |cfg| && TakeOvers(s'.log, j) == 0 ensures OrderedAt(cfg, t0, s', j) {
      RanByAppend(s.log, Added(cfg, s, a), 0, j);
      StepKeepsOrderedAt(cfg, t0, s, a, j);
    }
  }

  // ------------------------------------------------------------------
  // Every run

  ghost predicate Inv(cfg: Config, t0: Table, s: State) {
    && LogInv(cfg, s) && ClaimInv(s) && ReadInv(s) && SettledInv(t0, s)
    && PastInv(cfg, t0, s) && DispossessedInv(s) && OrderInv(cfg, t0, s)
  }

  lemma InitialInv(cfg: Config, s: State)
    requires Initial(s)
    ensures Inv(cfg, s.table, s)
  {
    forall k: nat ensures |Dispossessed(s, k)| <= TakeOvers(s.log, k) {
      assert Dispossessed(s, k) == {};
    }
  }

  lemma {:induction false} InvOfRun(cfg: Config, s0: State, actions: seq<Action>)
    requires Initial(s0)
    ensures Inv(cfg, s0.table, Run(cfg, s0, actions))
    ensures |Run(cfg, s0, actions).runners| == |s0.runners|
    decreases |actions|
  {
    if actions == [] {
      InitialInv(cfg, s0);
    } else {
      var s, a := Run(cfg, s0, actions[..|actions| - 1]), actions[|actions| - 1];
      InvOfRun(cfg, s0, actions[..|actions| - 1]);
      StepLog(cfg, s, a);
      StepKeepsLogInv(cfg, s, a);
      StepKeepsClaimInv(cfg, s, a);
      StepKeepsReadInv(cfg, s, a);
      StepKeepsSettledInv(cfg, s0.table, s, a);
      StepKeepsPastInv(cfg, s0.table, s, a);
      StepKeepsDispossessedInv(cfg, s, a);
      StepKeepsOrderInv(cfg, s0.table, s, a);
    }
  }

  /** Action `i` of the run settles version `v`, by a runner that holds the row and has run every statement. */
  ghost predicate SettlesAt(cfg: Config, s0: State, actions: seq<Action>, i: nat, v: nat)
    requires i < |actions|
  {
    var s, a := Run(cfg, s0, actions[..i]), actions[i];
    && a.Move? && !IsApplied(s.table, v)
    && HeldBy(s.table, v, Claim(a.r, v)) && RanAll(cfg, s, a.r, v)
    && IsApplied(Step(cfg, s, a).table, v)
  }

  /** A version that became applied was settled once, by a runner that itself ran all its
      statements in order and held the row's claim at that moment; the row is that runner's row. */
  lemma {:induction false} AppliedBySomeRunner(cfg: Config, s0: State, actions: seq<Action>, v: nat)
    requires Initial(s0) && !IsApplied(s0.table, v) && IsApplied(Run(cfg, s0, actions).table, v)
    ensures exists i: nat :: i < |actions| && SettlesAt(cfg, s0, actions, i, v)
              && Run(cfg, s0, actions).table[v] == Row(Some(Text(cfg[v].name)), Some(actions[i].stamp))
    decreases |actions|
  {
    var n := |actions| - 1;
    var init := actions[..n];
    var s, a := Run(cfg, s0, init), actions[n];
    InvOfRun(cfg, s0, init);
    if IsApplied(s.table, v) {
      AppliedBySomeRunner(cfg, s0, init, v);
      var i: nat :| i < n && SettlesAt(cfg, s0, init, i, v)
        && s.table[v] == Row(Some(Text(cfg[v].name)), Some(init[i].stamp));
      assert init[..i] == actions[..i];
      StepKeepsSettled(cfg, s, a, v);
      assert SettlesAt(cfg, s0, actions, i, v);
    } else {
      OnlyTheHolderSettles(cfg, s, a, v);
      assert SettlesAt(cfg, s0, actions, n, v);
    }
  }

  /** At most one runner executes a version's statements, plus one for each take-over of it. */
  lemma DdlConcurrency(cfg: Config, s0: State, actions: seq<Action>, k: nat)
    requires Initial(s0)
    ensures var s := Run(cfg, s0, actions); |Executors(s, k)| <= 1 + TakeOvers(s.log, k)
  {
    InvOfRun(cfg, s0, actions);
    ExecutorsBound(Run(cfg, s0, actions), k);
  }

  /** Without a take-over of the version, a runner between claim and settle holds the row, so it is
      the only one, and no statement of an applied version ever runs. */
  lemma MutualExclusion(cfg: Config, s0: State, actions: seq<Action>, k: nat, r1: nat, r2: nat)
    requires Initial(s0) && r1 < |s0.runners| && r2 < |s0.runners|
    requires TakeOvers(Run(cfg, s0, actions).log, k) == 0
    ensures |Run(cfg, s0, actions).runners| == |s0.runners|
    ensures var s := Run(cfg, s0, actions);
            && (ExecutingAt(s.runners[r1].pc, k) ==> HeldBy(s.table, k, Claim(r1, k)) && !IsApplied(s.table, k))
            && (ExecutingAt(s.runners[r1].pc, k) && ExecutingAt(s.runners[r2].pc, k) ==> r1 == r2)
  {
    InvOfRun(cfg, s0, actions);
    var s := Run(cfg, s0, actions);
    ExecutorsBound(s, k);
    if ExecutingAt(s.runners[r1].pc, k) {
      assert r1 in Executors(s, k);
    }
    if ExecutingAt(s.runners[r2].pc, k) {
      assert r2 in Executors(s, k);
    }
  }

  /** From a table that is in order, a version that was never taken over is applied as soon as a
      later one is claimed or a runner has gone past it. */
  lemma AppliedInOrder(cfg: Config, s0: State, actions: seq<Action>, j: nat)
    requires Initial(s0) && j < |cfg| && TakeOvers(Run(cfg, s0, actions).log, j) == 0
    requires forall k: nat :: j < k < |cfg| && k in s0.table ==> IsApplied(s0.table, j)
    ensures var s := Run(cfg, s0, actions);
            && (forall k: nat :: j < k < |cfg| && k in s.table ==> IsApplied(s.table, j))
            && (forall r :: 0 <= r < |s.runners| && Past(cfg, s.runners[r].pc, j) ==> IsApplied(s.table, j))
  {
    InvOfRun(cfg, s0, actions);
    var s := Run(cfg, s0, actions);
    assert OrderedAt(cfg, s0.table, s, j);
    if IsApplied(s0.table, j) {
      SettledForever(cfg, s0, actions, j);
    }
  }

  /** In every run, a runner past a version, or one that returned, means that some runner ran all of
      the version's statements, unless it was applied before. */
  lemma PastMeansCompleted(cfg: Config, s0: State, actions: seq<Action>, r: nat, k: nat)
    requires Initial(s0) && r < |s0.runners|
    ensures |Run(cfg, s0, actions).runners| == |s0.runners|
    ensures var s := Run(cfg, s0, actions);
            Past(cfg, s.runners[r].pc, k) ==> Completed(cfg, s0.table, s, k)
  {
    InvOfRun(cfg, s0, actions);
  }

  // ------------------------------------------------------------------
  // How long a claim is waited for

  /** Action `i` of the run is the one with which runner `r` begins version `k`. */
  ghost predicate BeginsAt(cfg: Config, s0: State, actions: seq<Action>, r: nat, k: nat, i: nat) {
    && i < |actions| && actions[i].Move? && actions[i].r == r
    && var s := Run(cfg, s0, actions[..i]);
       r < |s.runners| && s.runners[r].pc == Begin(k)
  }

  predicate Claiming(pc: PC, k: nat) {
    match pc
    case Inserting(i) => i == k
    case Reading(i) => i == k
    case Deciding(i, _) => i == k
    case Sleeping(i) => i == k
    case TakingOver(i, _) => i == k
    case Rereading(i) => i == k
    case _ => false
  }

  lemma MoveClaims(cfg: Config, s: State, r: nat, effect: Effect, stamp: string, k: nat)
    requires r < |s.runners| && Claiming(MoveOf(cfg, s, r, effect, stamp).runners[r].pc, k)
    ensures var s' := MoveOf(cfg, s, r, effect, stamp);
            && s'.clock == s.clock
            && (s.runners[r].pc == Begin(k) ==>
                  s'.runners[r].deadline == s.clock + 60000 && s'.runners[r].pc == Inserting(k))
            && (s.runners[r].pc != Begin(k) ==>
                  Claiming(s.runners[r].pc, k) && s'.runners[r].deadline == s.runners[r].deadline)
            && (s'.runners[r].pc.TakingOver? ==> s.runners[r].deadline <= s.clock)
  {
  }

  lemma ClockMovesOn(cfg: Config, s: State, a: Action)
    ensures Step(cfg, s, a).clock >= s.clock
  {
  }

  /** In every run, a runner claiming a version began it 60 seconds before its deadline, and one that is
      about to take a claim over is past the deadline. */
  lemma {:induction false} DeadlineIsAMinute(cfg: Config, s0: State, actions: seq<Action>, r: nat, k: nat)
    requires Initial(s0) && r < |Run(cfg, s0, actions).runners| && Claiming(Run(cfg, s0, actions).runners[r].pc, k)
    ensures var s := Run(cfg, s0, actions);
            && (exists i: nat :: BeginsAt(cfg, s0, actions, r, k, i)
                                 && s.runners[r].deadline == Run(cfg, s0, actions[..i]).clock + 60000)
            && (s.runners[r].pc.TakingOver? ==> s.runners[r].deadline <= s.clock)
    decreases |actions|
  {
    if actions != [] {
      var n := |actions| - 1;
      var init := actions[..n];
      var s, a := Run(cfg, s0, init), actions[n];
      StepLog(cfg, s, a);
      ClockMovesOn(cfg, s, a);
      if a.Move? && a.r == r {
        MoveClaims(cfg, s, r, a.effect, a.stamp, k);
      }
      if a.Move? && a.r == r && s.runners[r].pc == Begin(k) {
        assert BeginsAt(cfg, s0, actions, r, k, n);
      } else {
        DeadlineIsAMinute(cfg, s0, init, r, k);
        var i: nat :| BeginsAt(cfg, s0, init, r, k, i)
                      && s.runners[r].deadline == Run(cfg, s0, init[..i]).clock + 60000;
        assert init[..i] == actions[..i];
        assert BeginsAt(cfg, s0, actions, r, k, i);
      }
    }
  }

  /** Action `j` of the run is a take-over of version `k` by runner `r`, at least 60 seconds after action
      `i`, with which it began the version. */
  ghost predicate WaitedAMinute(cfg: Config, s0: State, actions: seq<Action>, r: nat, k: nat, i: nat, j: nat) {
    && i < j < |actions| && BeginsAt(cfg, s0, actions, r, k, i)
    && Added(cfg, Run(cfg, s0, actions[..j]), actions[j]) == [TookOver(r, k)]
    && Run(cfg, s0, actions[..j]).clock >= Run(cfg, s0, actions[..i]).clock + 60000
  }

  lemma WaitStays(cfg: Config, s0: State, actions: seq<Action>, r: nat, k: nat, i: nat, j: nat)
    requires actions != [] && WaitedAMinute(cfg, s0, actions[..|actions| - 1], r, k, i, j)
    ensures WaitedAMinute(cfg, s0, actions, r, k, i, j)
  {
    var init := actions[..|actions| - 1];
    assert init[..i] == actions[..i] && init[..j] == actions[..j] && init[j] == actions[j] && init[i] == actions[i];
  }

  lemma LastTakesOver(cfg: Config, s0: State, actions: seq<Action>, r: nat, k: nat) returns (i: nat)
    requires Initial(s0) && actions != []
    requires Added(cfg, Run(cfg, s0, actions[..|actions| - 1]), actions[|actions| - 1]) == [TookOver(r, k)]
    ensures WaitedAMinute(cfg, s0, actions, r, k, i, |actions| - 1)
  {
    var n := |actions| - 1;
    var init := actions[..n];
    AddedTookOver(cfg, Run(cfg, s0, init), actions[n]);
    DeadlineIsAMinute(cfg, s0, init, r, k);
    i :| BeginsAt(cfg, s0, init, r, k, i)
         && Run(cfg, s0, init).runners[r].deadline == Run(cfg, s0, init[..i]).clock + 60000;
    assert init[..i] == actions[..i] && init[i] == actions[i];
  }

  /** Every take-over comes at least 60 seconds after the runner began the version. */
  lemma {:induction false} TakeOverWaitsAMinute(cfg: Config, s0: State, actions: seq<Action>, r: nat, k: nat)
    requires Initial(s0) && TookOver(r, k) in Run(cfg, s0, actions).log
    ensures exists i: nat, j: nat :: WaitedAMinute(cfg, s0, actions, r, k, i, j)
    decreases |actions|
  {
    var init := actions[..|actions| - 1];
    var s := Run(cfg, s0, init);
    StepLog(cfg, s, actions[|actions| - 1]);
    if TookOver(r, k) in s.log {
      TakeOverWaitsAMinute(cfg, s0, init, r, k);
      var i: nat, j: nat :| WaitedAMinute(cfg, s0, init, r, k, i, j);
      WaitStays(cfg, s0, actions, r, k, i, j);
    } else {
      var i := LastTakesOver(cfg, s0, actions, r, k);
    }
  }

  lemma AddedTookOver(cfg: Config, s: State, a: Action)
    requires Added(cfg, s, a) != [] && Added(cfg, s, a)[0].TookOver?
    ensures a.Move? && a.r < |s.runners| && s.runners[a.r].pc.TakingOver?
    ensures Added(cfg, s, a)[0] == TookOver(a.r, s.runners[a.r].pc.k)
  {
  }

  /** A statement of a version that fails costs its runner the claim, once the release gets through, and
      the runner ends with an error. */
  lemma FailureReleasesTheClaim(cfg: Config, s: State, r: nat, effect: Effect, k: nat, stamp: string)
    requires r < |s.runners| && ExecutingAt(s.runners[r].pc, k) && !effect.Succeeds?
    ensures var failed := MoveOf(cfg, s, r, effect, stamp);
            && |failed.runners| == |s.runners|
            && var released := MoveOf(cfg, failed, r, Succeeds, stamp);
            && released.runners[r].pc == Raised
            && !HeldBy(released.table, k, Claim(r, k))
            && (!IsApplied(failed.table, k) && HeldBy(failed.table, k, Claim(r, k)) ==> k !in released.table)
            && forall v :: v != k ==> Read(released.table, v) == Read(s.table, v)
  {
  }

  // ------------------------------------------------------------------
  // What a take-over costs

  ghost predicate Reachable(cfg: Config, s0: State, s: State) {
    exists actions: seq<Action> :: Run(cfg, s0, actions) == s
  }

  lemma Go(cfg: Config, s0: State, s: State, a: Action, s': State)
    requires Reachable(cfg, s0, s) && Step(cfg, s, a) == s'
    ensures Reachable(cfg, s0, s')
  {
    var actions: seq<Action> :| Run(cfg, s0, actions) == s;
    assert (actions + [a])[..|actions + [a]| - 1] == actions;
    assert Run(cfg, s0, actions + [a]) == s';
  }

  function Both(table: Table, a: PC, b: PC, clock: nat, log: seq<Event>): State {
    State(table, [Runner(a, CLAIM_WAIT), Runner(b, CLAIM_WAIT)], clock, log)
  }

  const ONE: Config := [Migration("m", 1)]
  const OWNED: Table := map[0 := Row(Some(Claim(0, 0)), None)]
  const TAKEN: Table := map[0 := Row(Some(Claim(1, 0)), None)]
  const FRESH: State := Both(map[], Starting, Starting, 0, [])

  /** Runner 1 waits out the claim of a slow runner 0 and takes it over: both then execute the
      version, and runner 0 returns normally although the version is not applied. */
  lemma TakeOverFromSlowOwner() returns (during: State, after: State)
    ensures Initial(FRESH) && Reachable(ONE, FRESH, during) && Reachable(ONE, FRESH, after)
    ensures Executors(during, 0) == {0, 1}
    ensures |after.runners| == 2 && after.runners[0].pc == Returned && !IsApplied(after.table, 0)
  {
    OwnerClaims();
    WaiterWaits();
    WaiterTakesOver();
    during := Both(TAKEN, Executing(0, 0), Executing(0, 0), CLAIM_WAIT, [TookOver(1, 0)]);
    assert Executors(during, 0) == {0, 1};
    after := OwnerReturns(during);
  }

  /** The state once runner `a` has taken over, reread the row, and the runner `h` it took over from
      has acted on what it last read. */
  function AfterTakeOver(cfg: Config, s: State, a: nat, h: nat): State
    requires a < |s.runners| && h < |s.runners|
  {
    var taken := Step(cfg, Step(cfg, s, Move(a, Succeeds, "")), Move(a, Succeeds, ""));
    if s.runners[h].pc.Deciding? then Step(cfg, taken, Move(h, Succeeds, "")) else taken
  }

  /** What a take-over costs: it dispossesses its owner exactly when the owner is live, that is, when
      it is executing the version or has just read its own claim, and exactly then two runners come
      to execute the version. */
  lemma TakeOverMakesTwo(cfg: Config, s: State, a: nat, h: nat, k: nat)
    requires ClaimInv(s) && ReadInv(s) && a < |s.runners| && h < |s.runners| && a != h
    requires s.runners[a].pc == TakingOver(k, Some(Claim(h, k))) && HeldBy(s.table, k, Claim(h, k))
    ensures Dispossessed(Step(cfg, s, Move(a, Succeeds, "")), k)
         == Dispossessed(s, k) + (if Live(s, h, k) then {h} else {})
    ensures {a, h} <= Executors(AfterTakeOver(cfg, s, a, h), k) <==> Live(s, h, k)
  {
    var m := Move(a, Succeeds, "");
    var s1 := Step(cfg, s, m);
    assert s1.table[k] == Row(Some(Claim(a, k)), None);
    forall r | 0 <= r < |s.runners|
      ensures r in Dispossessed(s1, k) <==> r in Dispossessed(s, k) || (r == h && Live(s, h, k))
    {
      assert Live(s1, r, k) <==> Live(s, r, k);
    }
    var s2 := Step(cfg, s1, m);
    assert s2.runners[a].pc == Executing(k, 0) && s2.runners[h] == s.runners[h];
    if s.runners[h].pc.Deciding? {
      assert ReadOk(s, h);
    }
  }

  lemma OwnerClaims()
    ensures Reachable(ONE, FRESH, Both(OWNED, Executing(0, 0), Starting, 0, []))
  {
    var m := Move(0, Succeeds, "");
    assert Run(ONE, FRESH, []) == FRESH;
    var s1 := Both(map[], Begin(0), Starting, 0, []);
    var s2 := Both(map[], Inserting(0), Starting, 0, []);
    var s3 := Both(OWNED, Reading(0), Starting, 0, []);
    var s4 := Both(OWNED, Deciding(0, Some(OWNED[0])), Starting, 0, []);
    Go(ONE, FRESH, FRESH, m, s1);
    Go(ONE, FRESH, s1, m, s2);
    Go(ONE, FRESH, s2, m, s3);
    Go(ONE, FRESH, s3, m, s4);
    Go(ONE, FRESH, s4, m, Both(OWNED, Executing(0, 0), Starting, 0, []));
  }

  lemma WaiterWaits()
    requires Reachable(ONE, FRESH, Both(OWNED, Executing(0, 0), Starting, 0, []))
    ensures Reachable(ONE, FRESH, Both(OWNED, Executing(0, 0), Deciding(0, Some(OWNED[0])), CLAIM_WAIT, []))
  {
    var m := Move(1, Succeeds, "");
    var s0 := Both(OWNED, Executing(0, 0), Starting, 0, []);
    var s1 := Both(OWNED, Executing(0, 0), Begin(0), 0, []);
    var s2 := Both(OWNED, Executing(0, 0), Inserting(0), 0, []);
    var s3 := Both(OWNED, Executing(0, 0), Reading(0), 0, []);
    var s4 := Both(OWNED, Executing(0, 0), Deciding(0, Some(OWNED[0])), 0, []);
    Go(ONE, FRESH, s0, m, s1);
    Go(ONE, FRESH, s1, m, s2);
    Go(ONE, FRESH, s2, m, s3);
    Go(ONE, FRESH, s3, m, s4);
    Go(ONE, FRESH, s4, Tick(CLAIM_WAIT), s4.(clock := CLAIM_WAIT));
  }

  lemma WaiterTakesOver()
    requires Reachable(ONE, FRESH, Both(OWNED, Executing(0, 0), Deciding(0, Some(OWNED[0])), CLAIM_WAIT, []))
    ensures Reachable(ONE, FRESH, Both(TAKEN, Executing(0, 0), Executing(0, 0), CLAIM_WAIT, [TookOver(1, 0)]))
  {
    var m := Move(1, Succeeds, "");
    var s4 := Both(OWNED, Executing(0, 0), Deciding(0, Some(OWNED[0])), CLAIM_WAIT, []);
    var s5 := Both(OWNED, Executing(0, 0), TakingOver(0, Some(Claim(0, 0))), CLAIM_WAIT, []);
    var s6 := Both(TAKEN, Executing(0, 0), Rereading(0), CLAIM_WAIT, [TookOver(1, 0)]);
    Go(ONE, FRESH, s4, m, s5);
    assert TakenOver(OWNED, 0, Some(Claim(0, 0)), Claim(1, 0)) == TAKEN;
    assert OWNED[0] != TAKEN[0];
    Go(ONE, FRESH, s5, m, s6);
    Go(ONE, FRESH, s6, m, Both(TAKEN, Executing(0, 0), Executing(0, 0), CLAIM_WAIT, [TookOver(1, 0)]));
  }

  lemma OwnerReturns(s: State) returns (after: State)
    requires s == Both(TAKEN, Executing(0, 0), Executing(0, 0), CLAIM_WAIT, [TookOver(1, 0)])
    requires Reachable(ONE, FRESH, s)
    ensures Reachable(ONE, FRESH, after)
    ensures |after.runners| == 2 && after.runners[0].pc == Returned && !IsApplied(after.table, 0)
  {
    var m, log := Move(0, Succeeds, ""), [TookOver(1, 0), Ran(0, 0, 0)];
    var s1 := Both(TAKEN, Executing(0, 1), Executing(0, 0), CLAIM_WAIT, log);
    var s2 := Both(TAKEN, Begin(1), Executing(0, 0), CLAIM_WAIT, log);
    after := Both(TAKEN, Returned, Executing(0, 0), CLAIM_WAIT, log);
    Go(ONE, FRESH, s, m, s1);
    Go(ONE, FRESH, s1, m, s2);
    Go(ONE, FRESH, s2, m, after);
  }
}
