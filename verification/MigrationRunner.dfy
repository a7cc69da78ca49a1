/**
  One runner of the claim protocol with nobody else at work: `_claim_version`,
  `_apply_migrations` and the sqlite path `_migrate_sqlite`, as loops over the table and the clock.
 */
module MigrationRunner {
  import opened Wrappers
  import opened MigrationTable
  import opened MigrationProtocol

  const CLAIM_POLL: nat := 250  // milliseconds

  datatype ClaimResult = Owned | AlreadyApplied | CouldNotClaim

  datatype Outcome = Finished | ClaimFailed(k: nat) | DdlFailed(k: nat)

  datatype Report = Report(rows: Table, executed: seq<(nat, nat)>, outcome: Outcome)

  /** The monotonic clock: time passes by itself, and a sleep lasts at least as long as asked. */
  class Clock {
    var now: nat
    var requested: nat  // the sleep asked for so far

    constructor () {
      now, requested := 0, 0;
    }

    method Elapse()
      modifies this`now
      ensures now >= old(now)
    {
      var ms: nat :| true;
      now := now + ms;
    }

    method Sleep(ms: nat)
      modifies this
      ensures now >= old(now) + ms && requested == old(requested) + ms
    {
      var more: nat :| true;
      now, requested := now + ms + more, requested + ms;
    }
  }

  predicate FreshToken(rows: Table, me: nat) {
    forall v :: v in rows ==> ClaimedBy(rows[v]) != Some(me)
  }

  /** A row that can never be claimed: unsettled, with a NULL name that no guard can match. */
  predicate Unclaimable(rows: Table, k: nat) {
    k in rows && rows[k] == Row(None, None)
  }

  /** What claiming version `k` alone comes to. */
  function ClaimOutcome(rows: Table, k: nat): ClaimResult {
    if IsApplied(rows, k) then AlreadyApplied
    else if Unclaimable(rows, k) then CouldNotClaim
    else Owned
  }

  method ClaimVersion(io: MigrationIO, clock: Clock, k: nat, me: nat)
    returns (r: ClaimResult, rounds: nat, takeOvers: nat)
    requires FreshToken(io.rows, me)
    modifies io`rows, clock
    ensures r == ClaimOutcome(old(io.rows), k)
    ensures io.rows == if r.Owned? then old(io.rows)[k := Row(Some(Claim(me, k)), None)] else old(io.rows)
    ensures 1 <= rounds <= 241 && takeOvers <= 1
    ensures clock.requested == old(clock.requested) + 250 * (rounds - 1)
    ensures takeOvers == 1 || r.CouldNotClaim? ==> clock.now >= old(clock.now) + 60000
    ensures k !in old(io.rows) || r.AlreadyApplied? ==> rounds == 1 && takeOvers == 0
  {
    var claim := Claim(me, k);
    var start := clock.now;
    var deadline := start + CLAIM_WAIT;
    rounds, takeOvers := 0, 0;
    while true
      invariant io.rows == old(io.rows)
      invariant rounds > 0 ==> k in old(io.rows) && old(io.rows)[k].applied.None?
      invariant start + CLAIM_POLL * rounds <= clock.now
      invariant clock.requested == old(clock.requested) + 250 * rounds
      invariant rounds <= 240 && takeOvers == 0
      decreases 241 - rounds
    {
      rounds := rounds + 1;
      io.InsertClaim(k, claim);
      clock.Elapse();
      var row := io.ReadClaim(k);
      clock.Elapse();
      if row.Some? && row.value.name == Some(claim) {
        return Owned, rounds, takeOvers;
      }
      if row.Some? && row.value.applied.Some? {
        return AlreadyApplied, rounds, takeOvers;
      }
      if clock.now < deadline {
        clock.Sleep(CLAIM_POLL);
        continue;
      }
      if row.Some? {
        io.TakeOver(k, row.value.name, claim);
        takeOvers := takeOvers + 1;
        var taken := io.ReadClaim(k);
        if taken.Some? && taken.value.name == Some(claim) {
          return Owned, rounds, takeOvers;
        }
      }
      return CouldNotClaim, rounds, takeOvers;
    }
  }

  // ------------------------------------------------------------------
  // A whole migration run

  /** How many of the statements from `j` on succeed before the first failure. */
  function Successes(works: (nat, nat) -> bool, k: nat, m: nat, j: nat): (n: nat)
    requires j <= m
    ensures j <= n <= m
    ensures forall i :: j <= i < n ==> works(k, i)
    ensures n < m ==> !works(k, n)
    decreases m - j
  {
    if j < m && works(k, j) then Successes(works, k, m, j + 1) else j
  }

  /** Statements 0 to `n - 1` of version `k`. */
  function StatementsOf(k: nat, n: nat): seq<(nat, nat)> {
    seq(n, i => (k, i))
  }

  /** What a run comes to from version `k` on. */
  function RunFrom(cfg: Config, k: nat, rows: Table, executed: seq<(nat, nat)>,
                   works: (nat, nat) -> bool, at: nat -> string): Report
    requires k <= |cfg|
    decreases |cfg| - k
  {
    if k == |cfg| then Report(rows, executed, Finished)
    else match ClaimOutcome(rows, k)
      case AlreadyApplied => RunFrom(cfg, k + 1, rows, executed, works, at)
      case CouldNotClaim => Report(rows, executed, ClaimFailed(k))
      case Owned =>
        var n := Successes(works, k, cfg[k].statements, 0);
        var executed' := executed + StatementsOf(k, n);
        if n < cfg[k].statements then Report(rows - {k}, executed', DdlFailed(k))
        else RunFrom(cfg, k + 1, rows[k := Row(Some(Text(cfg[k].name)), Some(at(k)))], executed', works, at)
  }

  /** The rounds and take-overs one claim took. */
  datatype Effort = Effort(rounds: nat, takeOvers: nat)

  method ApplyMigrations(io: MigrationIO, clock: Clock, cfg: Config, me: nat, at: nat -> string)
    returns (outcome: Outcome, efforts: seq<Effort>)
    requires FreshToken(io.rows, me)
    modifies io, clock
    ensures Report(io.rows, io.executed, outcome)
         == RunFrom(cfg, 0, old(io.rows), old(io.executed), io.ddlWorks, at)
    ensures |efforts| <= |cfg|
    ensures forall k :: 0 <= k < |efforts| ==> efforts[k].rounds <= 241 && efforts[k].takeOvers <= 1
  {
    efforts := [];
    for k := 0 to |cfg|
      invariant FreshToken(io.rows, me)
      invariant RunFrom(cfg, 0, old(io.rows), old(io.executed), io.ddlWorks, at)
             == RunFrom(cfg, k, io.rows, io.executed, io.ddlWorks, at)
      invariant |efforts| == k
      invariant forall i :: 0 <= i < k ==> efforts[i].rounds <= 241 && efforts[i].takeOvers <= 1
    {
      ghost var rows0 := io.rows;
      var r, rounds, taken := ClaimVersion(io, clock, k, me);
      efforts := efforts + [Effort(rounds, taken)];
      assert efforts[k] == Effort(rounds, taken);
      if r.CouldNotClaim? {
        return ClaimFailed(k), efforts;
      }
      if r.Owned? {
        var ok := RunOwned(io, k, cfg[k], me, at(k));
        assert io.rows == if ok then rows0[k := Row(Some(Text(cfg[k].name)), Some(at(k)))] else rows0 - {k};
        if !ok {
          return DdlFailed(k), efforts;
        }
      }
    }
    return Finished, efforts;
  }

  /** The body of the loop once the version is claimed: all its statements and the settling of the
      row, or the release of the claim. */
  method RunOwned(io: MigrationIO, k: nat, migration: Migration, me: nat, stamp: string) returns (ok: bool)
    requires HeldBy(io.rows, k, Claim(me, k))
    modifies io
    ensures var n := Successes(io.ddlWorks, k, migration.statements, 0);
            ok == (n == migration.statements) && io.executed == old(io.executed) + StatementsOf(k, n)
    ensures io.rows
         == if ok then old(io.rows)[k := Row(Some(Text(migration.name)), Some(stamp))] else old(io.rows) - {k}
  {
    ok := RunStatements(io, k, migration.statements);
    if ok {
      io.Finalise(k, Claim(me, k), migration.name, stamp);
    } else {
      io.Release(k, Claim(me, k));
    }
  }

  method RunStatements(io: MigrationIO, k: nat, m: nat) returns (ok: bool)
    modifies io`executed
    ensures var n := Successes(io.ddlWorks, k, m, 0);
            ok == (n == m) && io.executed == old(io.executed) + StatementsOf(k, n)
  {
    for j := 0 to m
      invariant Successes(io.ddlWorks, k, m, 0) == Successes(io.ddlWorks, k, m, j)
      invariant io.executed == old(io.executed) + StatementsOf(k, j)
    {
      var done := io.Execute(k, j);
      if !done {
        return false;
      }
      assert StatementsOf(k, j + 1) == StatementsOf(k, j) + [(k, j)];
    }
    return true;
  }

  /** The committed content of a sqlite database: the table, and the DDL that took effect. */
  class SqliteFile {
    var rows: Table
    var executed: seq<(nat, nat)>

    constructor (rows: Table)
      ensures this.rows == rows && executed == []
    {
      this.rows, executed := rows, [];
    }
  }

  datatype Ending = Committed | CommitFailed | RolledBack(outcome: Outcome)

  /** The same runner inside one transaction: it works on the connection's own view of the file, which
      becomes the file's content at the COMMIT, if that succeeds, and is dropped otherwise. */
  method MigrateSqlite(file: SqliteFile, ddlWorks: (nat, nat) -> bool, commitWorks: bool,
                       clock: Clock, cfg: Config, me: nat, at: nat -> string)
    returns (ending: Ending)
    requires FreshToken(file.rows, me)
    modifies file, clock
    ensures var alone := RunFrom(cfg, 0, old(file.rows), old(file.executed), ddlWorks, at);
            && ending == (if !alone.outcome.Finished? then RolledBack(alone.outcome)
                          else if commitWorks then Committed else CommitFailed)
            && (ending.Committed? ==> file.rows == alone.rows && file.executed == alone.executed)
    ensures ending.Committed? ==> forall k :: 0 <= k < |cfg| ==> IsApplied(file.rows, k)
    ensures !ending.Committed? ==> file.rows == old(file.rows) && file.executed == old(file.executed)
  {
    var conn := new MigrationIO(file.rows, ddlWorks);
    conn.executed := file.executed;
    var outcome, efforts := ApplyMigrations(conn, clock, cfg, me, at);
    RunKeepsOthers(cfg, 0, file.rows, file.executed, ddlWorks, at);
    if !outcome.Finished? {
      return RolledBack(outcome);
    }
    if !commitWorks {
      return CommitFailed;
    }
    file.rows, file.executed := conn.rows, conn.executed;
    return Committed;
  }

  // ------------------------------------------------------------------
  // What a run alone achieves

  ghost predicate DdlSucceeds(cfg: Config, works: (nat, nat) -> bool) {
    forall k, j: nat :: 0 <= k < |cfg| && j < cfg[k].statements ==> works(k, j)
  }

  /** Every version up to the stopping point is applied, settled rows are as they were, rows of
      other versions too, and a version whose statements failed has no row left. */
  lemma {:induction false} RunKeepsOthers(cfg: Config, k: nat, rows: Table, executed: seq<(nat, nat)>,
                                          works: (nat, nat) -> bool, at: nat -> string)
    requires k <= |cfg|
    ensures var r := RunFrom(cfg, k, rows, executed, works, at);
            var stop := match r.outcome case Finished => |cfg| case ClaimFailed(i) => i case DdlFailed(i) => i;
            && k <= stop <= |cfg|
            && (forall v :: k <= v < stop ==> IsApplied(r.rows, v))
            && (forall v :: v in rows && (v < k || v > stop || v >= |cfg| || IsApplied(rows, v)) ==>
                  v in r.rows && r.rows[v] == rows[v])
            && (r.outcome.ClaimFailed? ==> stop < |cfg| && Unclaimable(rows, stop) && Unclaimable(r.rows, stop))
            && (r.outcome.DdlFailed? ==> stop < |cfg| && stop !in r.rows)
            && executed <= r.executed
    decreases |cfg| - k
  {
    if k < |cfg| {
      match ClaimOutcome(rows, k) {
        case AlreadyApplied =>
          RunKeepsOthers(cfg, k + 1, rows, executed, works, at);
        case CouldNotClaim =>
        case Owned =>
          var n := Successes(works, k, cfg[k].statements, 0);
          if n == cfg[k].statements {
            RunKeepsOthers(cfg, k + 1, rows[k := Row(Some(Text(cfg[k].name)), Some(at(k)))],
                           executed + StatementsOf(k, n), works, at);
          }
      }
    }
  }

  function StopOf(cfg: Config, outcome: Outcome): nat {
    match outcome
    case Finished => |cfg|
    case ClaimFailed(i) => i
    case DdlFailed(i) => i
  }

  /** The row of each version a run has newly applied carries that version's name and stamp. */
  lemma {:induction false} AppliedRows(cfg: Config, k: nat, rows: Table, executed: seq<(nat, nat)>,
                                       works: (nat, nat) -> bool, at: nat -> string, v: nat)
    requires k <= v < |cfg| && v < StopOf(cfg, RunFrom(cfg, k, rows, executed, works, at).outcome)
    requires !IsApplied(rows, v)
    ensures var r := RunFrom(cfg, k, rows, executed, works, at);
            v in r.rows && r.rows[v] == Row(Some(Text(cfg[v].name)), Some(at(v)))
    decreases |cfg| - k
  {
    match ClaimOutcome(rows, k) {
      case AlreadyApplied =>
        AppliedRows(cfg, k + 1, rows, executed, works, at, v);
      case CouldNotClaim =>
      case Owned =>
        var n := Successes(works, k, cfg[k].statements, 0);
        if n == cfg[k].statements {
          var rows', executed' := rows[k := Row(Some(Text(cfg[k].name)), Some(at(k)))], executed + StatementsOf(k, n);
          if v == k {
            RunKeepsOthers(cfg, k + 1, rows', executed', works, at);
          } else {
            AppliedRows(cfg, k + 1, rows', executed', works, at, v);
          }
        }
    }
  }

  /** What a run applies, it applies in full: all the version's statements have been executed. */
  lemma {:induction false} AppliedInFull(cfg: Config, k: nat, rows: Table, executed: seq<(nat, nat)>,
                                         works: (nat, nat) -> bool, at: nat -> string, v: nat, j: nat)
    requires k <= v < |cfg| && v < StopOf(cfg, RunFrom(cfg, k, rows, executed, works, at).outcome)
    requires !IsApplied(rows, v) && j < cfg[v].statements
    ensures (v, j) in RunFrom(cfg, k, rows, executed, works, at).executed
    decreases |cfg| - k
  {
    match ClaimOutcome(rows, k) {
      case AlreadyApplied =>
        AppliedInFull(cfg, k + 1, rows, executed, works, at, v, j);
      case CouldNotClaim =>
      case Owned =>
        var n := Successes(works, k, cfg[k].statements, 0);
        if n == cfg[k].statements {
          var rows', executed' := rows[k := Row(Some(Text(cfg[k].name)), Some(at(k)))], executed + StatementsOf(k, n);
          if v == k {
            RunKeepsOthers(cfg, k + 1, rows', executed', works, at);
            assert executed'[|executed| + j] == (k, j);
          } else {
            AppliedInFull(cfg, k + 1, rows', executed', works, at, v, j);
          }
        }
    }
  }

  /** A run executes nothing of a version that was applied before, and of each other version only its
      own statements. */
  ghost predicate OnlyUnapplied(cfg: Config, k: nat, rows: Table, more: seq<(nat, nat)>) {
    forall i :: 0 <= i < |more| ==>
      k <= more[i].0 < |cfg| && more[i].1 < cfg[more[i].0].statements && !IsApplied(rows, more[i].0)
  }

  lemma {:induction false} ExecutesOnlyUnapplied(cfg: Config, k: nat, rows: Table, executed: seq<(nat, nat)>,
                                                 works: (nat, nat) -> bool, at: nat -> string)
    requires k <= |cfg|
    ensures var r := RunFrom(cfg, k, rows, executed, works, at);
            executed <= r.executed && OnlyUnapplied(cfg, k, rows, r.executed[|executed|..])
    decreases |cfg| - k
  {
    if k < |cfg| {
      var n := Successes(works, k, cfg[k].statements, 0);
      var executed' := executed + StatementsOf(k, n);
      match ClaimOutcome(rows, k) {
        case AlreadyApplied =>
          ExecutesOnlyUnapplied(cfg, k + 1, rows, executed, works, at);
        case CouldNotClaim =>
        case Owned =>
          if n < cfg[k].statements {
            assert executed'[|executed|..] == StatementsOf(k, n);
          } else {
            var rows' := rows[k := Row(Some(Text(cfg[k].name)), Some(at(k)))];
            ExecutesOnlyUnapplied(cfg, k + 1, rows', executed', works, at);
            MoreExecuted(cfg, k, rows, rows', executed, RunFrom(cfg, k + 1, rows', executed', works, at).executed, n);
          }
      }
    }
  }

  lemma MoreExecuted(cfg: Config, k: nat, rows: Table, rows': Table, executed: seq<(nat, nat)>,
                     all: seq<(nat, nat)>, n: nat)
    requires k < |cfg| && n <= cfg[k].statements && !IsApplied(rows, k)
    requires forall v :: v != k ==> (IsApplied(rows, v) <==> IsApplied(rows', v))
    requires executed + StatementsOf(k, n) <= all
    requires OnlyUnapplied(cfg, k + 1, rows', all[|executed| + n..])
    ensures executed <= all && OnlyUnapplied(cfg, k, rows, all[|executed|..])
  {
    var more := all[|executed|..];
    forall i | 0 <= i < |more|
      ensures k <= more[i].0 < |cfg| && more[i].1 < cfg[more[i].0].statements && !IsApplied(rows, more[i].0)
    {
      if i < n {
        assert more[i] == (executed + StatementsOf(k, n))[|executed| + i] == (k, i);
      } else {
        assert more[i] == all[|executed| + n..][i - n];
      }
    }
  }

  /** From any table, with any dead claims, a run alone whose DDL succeeds ends with every version
      applied exactly when no listed version has an unsettled row with a NULL name. */
  lemma {:induction false} ObstructionFreedom(cfg: Config, k: nat, rows: Table, executed: seq<(nat, nat)>,
                                              works: (nat, nat) -> bool, at: nat -> string)
    requires k <= |cfg| && DdlSucceeds(cfg, works)
    ensures var r := RunFrom(cfg, k, rows, executed, works, at);
            && (r.outcome.Finished? <==> forall v :: k <= v < |cfg| ==> !Unclaimable(rows, v))
            && (r.outcome.Finished? ==> forall v :: k <= v < |cfg| ==> IsApplied(r.rows, v))
            && (!r.outcome.Finished? ==> r.outcome.ClaimFailed?)
    decreases |cfg| - k
  {
    RunKeepsOthers(cfg, k, rows, executed, works, at);
    if k < |cfg| {
      match ClaimOutcome(rows, k) {
        case AlreadyApplied =>
          ObstructionFreedom(cfg, k + 1, rows, executed, works, at);
        case CouldNotClaim =>
        case Owned =>
          var rows' := rows[k := Row(Some(Text(cfg[k].name)), Some(at(k)))];
          var executed' := executed + StatementsOf(k, Successes(works, k, cfg[k].statements, 0));
          ObstructionFreedom(cfg, k + 1, rows', executed', works, at);
          assert forall v :: k < v < |cfg| ==> (Unclaimable(rows', v) <==> Unclaimable(rows, v));
      }
    }
  }

  /** Running again after a complete run executes nothing and changes nothing. */
  lemma {:induction false} SecondRunIsIdle(cfg: Config, k: nat, rows: Table, executed: seq<(nat, nat)>,
                                           works: (nat, nat) -> bool, at: nat -> string)
    requires k <= |cfg| && forall v :: k <= v < |cfg| ==> IsApplied(rows, v)
    ensures RunFrom(cfg, k, rows, executed, works, at) == Report(rows, executed, Finished)
    decreases |cfg| - k
  {
    if k < |cfg| {
      SecondRunIsIdle(cfg, k + 1, rows, executed, works, at);
    }
  }
}
