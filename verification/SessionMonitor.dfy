/**
  The session check with its snapshot fallback (`check_once`): which accounts are served, where each
  credential comes from, and what may be written to the primary.

  Everything the check reads while other operations may run (enabled flags, backup rows, the outcome
  of a sync or a validation) is a separate reading for each account.
 */
module SessionMonitor {
  import opened IsoTime
  import opened Collections
  import opened SnapshotStore
  import opened Wrappers

  datatype XStatus = CONNECTED | INVALID_SESSION | RATE_LIMITED | X_UNAVAILABLE | CONFIG_ERROR | NOT_CONFIGURED

  // ------------------------------------------------------------------
  // Status aggregation

  const PROBLEM_ORDER: seq<XStatus> := [INVALID_SESSION, RATE_LIMITED, X_UNAVAILABLE, CONFIG_ERROR, NOT_CONFIGURED]

  function FirstIn(order: seq<XStatus>, statuses: seq<XStatus>): XStatus {
    if order == [] then CONFIG_ERROR
    else if order[0] in statuses then order[0]
    else FirstIn(order[1..], statuses)
  }

  function AggregateStatus(statuses: seq<XStatus>): XStatus {
    if statuses == [] then NOT_CONFIGURED
    else if CONNECTED in statuses then CONNECTED
    else FirstIn(PROBLEM_ORDER, statuses)
  }

  lemma {:induction false} FirstInIsFirst(order: seq<XStatus>, statuses: seq<XStatus>, k: nat)
    requires k < |order| && order[k] in statuses && forall i :: 0 <= i < k ==> order[i] !in statuses
    ensures FirstIn(order, statuses) == order[k]
  {
    if k > 0 {
      FirstInIsFirst(order[1..], statuses, k - 1);
    }
  }

  /** The aggregate is a status some account really has: connected if any is, and otherwise the
      worst problem present. The final fallback of the source is never reached. */
  lemma AggregateIsWorst(statuses: seq<XStatus>)
    ensures statuses == [] ==> AggregateStatus(statuses) == NOT_CONFIGURED
    ensures statuses != [] ==> AggregateStatus(statuses) in statuses
    ensures statuses != [] ==> (AggregateStatus(statuses) == CONNECTED <==> CONNECTED in statuses)
    ensures match AggregateStatus(statuses)
            case CONNECTED => true
            case INVALID_SESSION => true
            case RATE_LIMITED => INVALID_SESSION !in statuses
            case X_UNAVAILABLE => INVALID_SESSION !in statuses && RATE_LIMITED !in statuses
            case CONFIG_ERROR =>
              INVALID_SESSION !in statuses && RATE_LIMITED !in statuses && X_UNAVAILABLE !in statuses
            case NOT_CONFIGURED => forall x :: x in statuses ==> x == NOT_CONFIGURED
  {
    if statuses != [] && CONNECTED !in statuses {
      var k := FirstPresent(statuses);
      FirstInIsFirst(PROBLEM_ORDER, statuses, k);
      assert forall x: XStatus :: x == CONNECTED || x in PROBLEM_ORDER by {
        OrderIsComplete();
      }
      assert forall i :: 0 <= i < k ==> PROBLEM_ORDER[i] !in statuses;
      assert k >= 1 ==> PROBLEM_ORDER[0] == INVALID_SESSION;
      assert k >= 2 ==> PROBLEM_ORDER[1] == RATE_LIMITED;
      assert k >= 3 ==> PROBLEM_ORDER[2] == X_UNAVAILABLE;
      assert k >= 4 ==> PROBLEM_ORDER[3] == CONFIG_ERROR;
    }
  }

  lemma OrderIsComplete()
    ensures forall x: XStatus :: x == CONNECTED || x in PROBLEM_ORDER
  {
    assert PROBLEM_ORDER[0] == INVALID_SESSION && PROBLEM_ORDER[1] == RATE_LIMITED && PROBLEM_ORDER[2] == X_UNAVAILABLE
        && PROBLEM_ORDER[3] == CONFIG_ERROR && PROBLEM_ORDER[4] == NOT_CONFIGURED;
  }

  lemma FirstPresent(statuses: seq<XStatus>) returns (k: nat)
    requires statuses != [] && CONNECTED !in statuses
    ensures k < |PROBLEM_ORDER| && PROBLEM_ORDER[k] in statuses
    ensures forall i :: 0 <= i < k ==> PROBLEM_ORDER[i] !in statuses
  {
    var s := statuses[0];
    assert s in statuses && s != CONNECTED;
    assert PROBLEM_ORDER[0] == INVALID_SESSION && PROBLEM_ORDER[1] == RATE_LIMITED && PROBLEM_ORDER[2] == X_UNAVAILABLE
        && PROBLEM_ORDER[3] == CONFIG_ERROR && PROBLEM_ORDER[4] == NOT_CONFIGURED;
    assert exists j :: 0 <= j < |PROBLEM_ORDER| && PROBLEM_ORDER[j] == s;
    k := 0;
    while PROBLEM_ORDER[k] !in statuses
      invariant k < |PROBLEM_ORDER| && forall i :: 0 <= i < k ==> PROBLEM_ORDER[i] !in statuses
      decreases |PROBLEM_ORDER| - k
    {
      k := k + 1;
    }
  }

  // ------------------------------------------------------------------
  // The backup store as the monitor reads it

  datatype BackupRow = BackupRow(sid: string, row: AccountRow)

  /** The index ids and the rows of `backup_accounts`. */
  datatype BackupView = BackupView(index: seq<string>, rows: seq<BackupRow>)

  /** No backup manager, a read that raises, or a reading of the store. */
  datatype BackupRead = NoManager | Unreadable | Read(view: BackupView)

  /** `ORDER BY snapshot_at DESC LIMIT 1` */
  function Latest(ids: seq<string>): (r: Option<string>)
    ensures r.None? <==> ids == []
    ensures r.Some? ==> r.value in ids
  {
    if ids == [] then None
    else
      var rest := Latest(ids[1..]);
      if rest.Some? && ByteLess(ids[0], rest.value) then rest else Some(ids[0])
  }

  lemma {:induction false} LatestIsLatest(ids: seq<string>)
    ensures Latest(ids).Some? ==> forall x :: x in ids ==> !ByteLess(Latest(ids).value, x)
  {
    if ids != [] {
      LatestIsLatest(ids[1..]);
      var best := Latest(ids).value;
      var rest := Latest(ids[1..]);
      ByteLessIrreflexive(best);
      forall x | x in ids && ByteLess(best, x) ensures false {
        if best == ids[0] {
          assert x in ids[1..];
          ByteLessTotal(x, rest.value);
          if x != rest.value {
            ByteLessTransitive(best, x, rest.value);
          }
        } else if x == ids[0] {
          ByteLessAsymmetric(best, x);
        }
      }
    }
  }

  lemma ByteLessAsymmetric(a: string, b: string)
    requires ByteLess(a, b)
    ensures !ByteLess(b, a)
  {
    if ByteLess(b, a) {
      ByteLessTransitive(a, b, a);
      ByteLessIrreflexive(a);
    }
  }

  /** `WHERE label = ? ORDER BY snapshot_at DESC LIMIT 1`: the newest row of the label in any snapshot. */
  function NewestRow(rows: seq<BackupRow>, accountName: string): (r: Option<BackupRow>)
    ensures r.Some? ==> r.value in rows && r.value.row.name == accountName
    ensures r.None? ==> forall b :: b in rows ==> b.row.name != accountName
  {
    if rows == [] then None
    else
      var rest := NewestRow(rows[1..], accountName);
      if rows[0].row.name != accountName then rest
      else if rest.Some? && ByteLess(rows[0].sid, rest.value.sid) then rest
      else Some(rows[0])
  }

  function SidsFor(rows: seq<BackupRow>, accountName: string): seq<string> {
    if rows == [] then []
    else (if rows[0].row.name == accountName then [rows[0].sid] else []) + SidsFor(rows[1..], accountName)
  }

  lemma {:induction false} NewestRowIsLatest(rows: seq<BackupRow>, accountName: string)
    ensures match NewestRow(rows, accountName)
            case None => Latest(SidsFor(rows, accountName)) == None
            case Some(b) => Latest(SidsFor(rows, accountName)) == Some(b.sid)
    ensures forall b :: b in rows && b.row.name == accountName ==> b.sid in SidsFor(rows, accountName)
  {
    if rows != [] {
      NewestRowIsLatest(rows[1..], accountName);
      var sids := SidsFor(rows, accountName);
      if rows[0].row.name == accountName {
        assert sids[0] == rows[0].sid && sids[1..] == SidsFor(rows[1..], accountName);
      } else {
        assert sids == SidsFor(rows[1..], accountName);
      }
    }
  }

  /** No row of the label is newer than the one picked. */
  lemma NewestRowIsNewest(rows: seq<BackupRow>, accountName: string)
    ensures NewestRow(rows, accountName).Some? ==>
              forall b :: b in rows && b.row.name == accountName ==>
                !ByteLess(NewestRow(rows, accountName).value.sid, b.sid)
  {
    NewestRowIsLatest(rows, accountName);
    LatestIsLatest(SidsFor(rows, accountName));
  }

  /** The row picked belongs to the newest snapshot if and only if that snapshot holds a row of the
      label, provided no row is newer than the index. */
  lemma NewestRowOfNewestSnapshot(view: BackupView, accountName: string)
    requires view.index != [] && forall b :: b in view.rows ==> !ByteLess(Latest(view.index).value, b.sid)
    ensures var picked, newest := NewestRow(view.rows, accountName), Latest(view.index).value;
            (picked.Some? && picked.value.sid == newest) <==>
              exists b :: b in view.rows && b.sid == newest && b.row.name == accountName
  {
    var picked, newest := NewestRow(view.rows, accountName), Latest(view.index).value;
    NewestRowIsNewest(view.rows, accountName);
    if b :| b in view.rows && b.sid == newest && b.row.name == accountName {
      ByteLessTotal(picked.value.sid, newest);
    }
  }

  /** Otherwise the row of an older snapshot is picked: an account that the newest snapshot no longer
      holds is served with the credential of an earlier one. */
  lemma OlderRowIsPicked(older: string, newer: string, row: AccountRow)
    requires ByteLess(older, newer)
    ensures var view := BackupView([older, newer], [BackupRow(older, row)]);
            && Latest(view.index) == Some(newer)
            && NewestRow(view.rows, row.name) == Some(BackupRow(older, row))
            && (forall b :: b in view.rows ==> !ByteLess(newer, b.sid))
            && older != newer
  {
    ByteLessIrreflexive(older);
    if ByteLess(newer, older) {
      ByteLessTransitive(older, newer, older);
    }
    assert [older, newer][1..] == [newer] && [newer][1..] == [];
    assert Latest([newer]) == Some(newer);
    assert [BackupRow(older, row)][1..] == [];
  }

  // ------------------------------------------------------------------
  // Which accounts are served

  datatype Served = Served(accounts: seq<AccountRow>, total: nat, restoredFrom: Option<string>, storeOk: bool)

  function Enabled(rows: seq<AccountRow>): seq<AccountRow> {
    if rows == [] then [] else (if rows[0].enabled != 0 then [rows[0]] else []) + Enabled(rows[1..])
  }

  function RowsAt(rows: seq<BackupRow>, sid: string): seq<AccountRow> {
    if rows == [] then [] else (if rows[0].sid == sid then [rows[0].row] else []) + RowsAt(rows[1..], sid)
  }

  /** `newest_snapshot_accounts` */
  function NewestSnapshot(view: BackupView): (Option<string>, seq<AccountRow>) {
    match Latest(view.index)
    case None => (None, [])
    case Some(sid) => (Some(sid), RowsAt(view.rows, sid))
  }

  /** `_accounts_to_serve`; None is a primary read that raised. */
  function AccountsToServe(primary: Option<seq<AccountRow>>, backup: BackupRead): Served {
    if primary.Some? && primary.value != [] then Served(Enabled(primary.value), |primary.value|, None, true)
    else
      match backup
      case NoManager => Served([], 0, None, primary.Some?)
      case Unreadable => Served([], 0, None, primary.Some?)
      case Read(view) =>
        var (sid, rows) := NewestSnapshot(view);
        if Enabled(rows) != [] then Served(Enabled(rows), |rows|, sid, true)
        else Served([], if primary.Some? then 0 else |rows|, None, primary.Some?)
  }

  lemma {:induction false} EnabledMembers(rows: seq<AccountRow>)
    ensures forall r :: r in Enabled(rows) <==> r in rows && r.enabled != 0
  {
    if rows != [] {
      EnabledMembers(rows[1..]);
    }
  }

  lemma {:induction false} RowsAtMembers(rows: seq<BackupRow>, sid: string)
    ensures forall r :: r in RowsAt(rows, sid) <==> BackupRow(sid, r) in rows
  {
    if rows != [] {
      RowsAtMembers(rows[1..], sid);
    }
  }

  /** The fallback is narrow: a snapshot is served exactly when the primary raised or holds no row,
      and the newest snapshot has an enabled account; it is then that snapshot's enabled rows. */
  lemma FallbackIsNarrow(primary: Option<seq<AccountRow>>, backup: BackupRead)
    ensures var s := AccountsToServe(primary, backup);
            && (s.restoredFrom.Some? <==>
                  && (primary.None? || primary.value == [])
                  && backup.Read? && Latest(backup.view.index).Some?
                  && exists r: AccountRow ::
                       r.enabled != 0 && BackupRow(Latest(backup.view.index).value, r) in backup.view.rows)
            && (s.restoredFrom.Some? ==>
                  && s.restoredFrom == Latest(backup.view.index)
                  && forall r ::
                       r in s.accounts <==> r.enabled != 0 && BackupRow(s.restoredFrom.value, r) in backup.view.rows)
            && (s.restoredFrom.None? ==>
                  forall r :: r in s.accounts <==> primary.Some? && r in primary.value && r.enabled != 0)
  {
    if primary.Some? {
      EnabledMembers(primary.value);
    }
    if backup.Read? && Latest(backup.view.index).Some? {
      var sid := Latest(backup.view.index).value;
      var rows := RowsAt(backup.view.rows, sid);
      RowsAtMembers(backup.view.rows, sid);
      EnabledMembers(rows);
      if Enabled(rows) != [] {
        assert Enabled(rows)[0] in Enabled(rows);
      }
    }
  }

  /** The counts reported with it: all rows of the primary if it holds any; otherwise, of the newest
      snapshot, all rows if it is served or the primary raised; and whether anything could be read. */
  lemma TotalsAreOfTheSource(primary: Option<seq<AccountRow>>, backup: BackupRead)
    ensures var s := AccountsToServe(primary, backup);
            var newest := if backup.Read? then Latest(backup.view.index) else None;
            && (s.storeOk <==> primary.Some? || s.restoredFrom.Some?)
            && (primary.Some? && primary.value != [] ==> s.total == |primary.value|)
            && (primary == Some([]) && s.restoredFrom.None? ==> s.total == 0)
            && (primary.None? || s.restoredFrom.Some? ==>
                  s.total == if newest.None? then 0 else |RowsAt(backup.view.rows, newest.value)|)
  {
  }

  // ------------------------------------------------------------------
  // One account

  type Decrypt = string -> Option<string>

  datatype EnabledRead = ReadRaises | IsEnabled(on: bool)

  /** How `_sync_account` goes, and what a failed one has done to the pool by then. */
  datatype SyncEffect = SyncOk | SyncRaises(removed: bool, added: bool)

  /** What one account's turn reads from its surroundings. */
  datatype Reading = Reading(enabled: EnabledRead, backup: BackupRead, sync: SyncEffect, verdict: XStatus)

  datatype Source = FromPrimary | FromRow(sid: string) | FromSnapshot(sid: string)

  datatype Sync = Sync(name: string, authToken: string, ct0: string, source: Source, effect: SyncEffect)

  datatype StatusWrite = StatusWrite(name: string, status: XStatus)

  datatype Turn =
    | Aborted  // the enabled read raised: the whole check ends here
    | Skipped  // disabled in the meantime
    | Checked(status: XStatus, sync: Option<Sync>, write: Option<StatusWrite>)

  function DecryptPair(decrypt: Decrypt, row: AccountRow): Option<(string, string)> {
    match (decrypt(row.encAuthToken), decrypt(row.encCt0))
    case (Some(a), Some(c)) => Some((a, c))
    case _ => None
  }

  /** `_decrypt_snapshot_credential` */
  function Recover(decrypt: Decrypt, accountName: string, backup: BackupRead): Option<(string, string, string)> {
    if !backup.Read? then None
    else match NewestRow(backup.view.rows, accountName)
      case None => None
      case Some(b) =>
        match DecryptPair(decrypt, b.row)
        case None => None
        case Some((a, c)) => Some((a, c, b.sid))
  }

  function ParseStatus(s: string): XStatus {
    if s == "CONNECTED" then CONNECTED
    else if s == "INVALID_SESSION" then INVALID_SESSION
    else if s == "RATE_LIMITED" then RATE_LIMITED
    else if s == "X_UNAVAILABLE" then X_UNAVAILABLE
    else if s == "CONFIG_ERROR" then CONFIG_ERROR
    else NOT_CONFIGURED
  }

  /** The turn once a credential is at hand: sync it, then validate or keep the stored status. */
  function SyncTurn(acct: AccountRow, authToken: string, ct0: string, source: Source,
                    validate: bool, e: Reading): Turn {
    var sync := Sync(acct.name, authToken, ct0, source, e.sync);
    if e.sync.SyncRaises? then Checked(X_UNAVAILABLE, Some(sync), WriteFor(acct, source, X_UNAVAILABLE))
    else if validate then Checked(e.verdict, Some(sync), WriteFor(acct, source, e.verdict))
    else Checked(ParseStatus(acct.status), Some(sync), None)
  }

  /** The status is written only for a credential of the primary. */
  function WriteFor(acct: AccountRow, source: Source, status: XStatus): Option<StatusWrite> {
    if source.FromPrimary? then Some(StatusWrite(acct.name, status)) else None
  }

  function TurnOf(decrypt: Decrypt, acct: AccountRow, restoredFrom: Option<string>, validate: bool, e: Reading): Turn {
    if restoredFrom.None? && e.enabled.ReadRaises? then Aborted
    else if restoredFrom.None? && !e.enabled.on then Skipped
    else
      match DecryptPair(decrypt, acct)
      case Some((a, c)) =>
        SyncTurn(acct, a, c, if restoredFrom.Some? then FromSnapshot(restoredFrom.value) else FromPrimary, validate, e)
      case None =>
        var recovered: Option<(string, string, string)> :=
          if restoredFrom.Some? then None else Recover(decrypt, acct.name, e.backup);
        match recovered
        case None =>
          Checked(CONFIG_ERROR, None, if restoredFrom.None? then Some(StatusWrite(acct.name, CONFIG_ERROR)) else None)
        case Some((a, c, sid)) => SyncTurn(acct, a, c, FromRow(sid), validate, e)
  }

  // ------------------------------------------------------------------
  // The whole check

  /** What a check has done so far. */
  datatype Trace = Trace(
    statuses: seq<XStatus>, results: map<string, XStatus>, syncs: seq<Sync>, writes: seq<StatusWrite>,
    restoredLabels: seq<string>, credentialSid: Option<string>, aborted: bool)

  const NOTHING := Trace([], map[], [], [], [], None, false)

  function Extended(t: Trace, acct: AccountRow, turn: Turn): Trace {
    match turn
    case Aborted => t.(aborted := true)
    case Skipped => t
    case Checked(status, sync, write) =>
      var fromRow := sync.Some? && sync.value.source.FromRow?;
      t.(statuses := t.statuses + [status],
         results := t.results[acct.name := status],
         syncs := t.syncs + SyncsOf(turn),
         writes := t.writes + WritesOf(turn),
         restoredLabels := t.restoredLabels + (if fromRow then [acct.name] else []),
         credentialSid := if fromRow then Some(sync.value.source.sid) else t.credentialSid)
  }

  /** The turns of the first `n` accounts. */
  function TurnsUpTo(decrypt: Decrypt, s: Served, validate: bool, readings: nat -> Reading, n: nat): (turns: seq<Turn>)
    requires n <= |s.accounts|
    ensures |turns| == n
  {
    if n == 0 then []
    else
      TurnsUpTo(decrypt, s, validate, readings, n - 1)
      + [TurnOf(decrypt, s.accounts[n - 1], s.restoredFrom, validate, readings(n - 1))]
  }

  function Turns(decrypt: Decrypt, s: Served, validate: bool, readings: nat -> Reading): (turns: seq<Turn>)
    ensures |turns| == |s.accounts|
  {
    TurnsUpTo(decrypt, s, validate, readings, |s.accounts|)
  }

  lemma {:induction false} TurnAt(decrypt: Decrypt, s: Served, validate: bool, readings: nat -> Reading, n: nat, k: nat)
    requires k < n <= |s.accounts|
    ensures TurnsUpTo(decrypt, s, validate, readings, n)[k]
         == TurnOf(decrypt, s.accounts[k], s.restoredFrom, validate, readings(k))
    decreases n
  {
    if k < n - 1 {
      TurnAt(decrypt, s, validate, readings, n - 1, k);
    }
  }

  lemma TurnsAre(decrypt: Decrypt, s: Served, validate: bool, readings: nat -> Reading)
    ensures forall k :: 0 <= k < |s.accounts| ==>
              Turns(decrypt, s, validate, readings)[k]
              == TurnOf(decrypt, s.accounts[k], s.restoredFrom, validate, readings(k))
  {
    forall k | 0 <= k < |s.accounts|
      ensures Turns(decrypt, s, validate, readings)[k]
           == TurnOf(decrypt, s.accounts[k], s.restoredFrom, validate, readings(k))
    {
      TurnAt(decrypt, s, validate, readings, |s.accounts|, k);
    }
  }

  /** The trace after the turns of the first `n` accounts; nothing follows an aborted turn. */
  function TraceOf(accounts: seq<AccountRow>, turns: seq<Turn>, n: nat): Trace
    requires n <= |accounts| == |turns|
  {
    if n == 0 then NOTHING
    else
      var t := TraceOf(accounts, turns, n - 1);
      if t.aborted then t else Extended(t, accounts[n - 1], turns[n - 1])
  }

  /** Everything a check does. */
  function TraceOfCheck(decrypt: Decrypt, s: Served, validate: bool, readings: nat -> Reading): Trace {
    TraceOf(s.accounts, Turns(decrypt, s, validate, readings), |s.accounts|)
  }

  type Pool = map<string, (string, string)>

  function ApplySync(pool: Pool, s: Sync): Pool {
    match s.effect
    case SyncOk => pool[s.name := (s.authToken, s.ct0)]
    case SyncRaises(removed, added) =>
      if added then pool[s.name := (s.authToken, s.ct0)] else if removed then pool - {s.name} else pool
  }

  function ApplySyncs(pool: Pool, syncs: seq<Sync>): Pool {
    if syncs == [] then pool else ApplySync(ApplySyncs(pool, syncs[..|syncs| - 1]), syncs[|syncs| - 1])
  }

  class SessionMonitor {
    const decrypt: Option<Decrypt>
    var pool: Pool                  // the credentials the adapter serves
    var writes: seq<StatusWrite>    // the status updates sent to the primary
    var xStatus: XStatus
    var restoredFromSnapshot: Option<string>
    var restoredLabels: seq<string>
    var accountsConfigured: nat
    var accountsEnabled: nat
    var dbOk: bool

    constructor (decrypt: Option<Decrypt>, pool: Pool)
      ensures this.decrypt == decrypt && this.pool == pool && writes == []
    {
      this.decrypt, this.pool, writes := decrypt, pool, [];
      xStatus, restoredFromSnapshot, restoredLabels := NOT_CONFIGURED, None, [];
      accountsConfigured, accountsEnabled, dbOk := 0, 0, false;
    }

    /** One pass of the loop, under the adapter's operation lock. */
    method Serve(acct: AccountRow, restoredFrom: Option<string>, validate: bool, e: Reading) returns (turn: Turn)
      requires decrypt.Some?
      modifies this`pool, this`writes
      ensures turn == TurnOf(decrypt.value, acct, restoredFrom, validate, e)
      ensures pool == ApplySyncs(old(pool), SyncsOf(turn)) && writes == old(writes) + WritesOf(turn)
    {
      turn := Skipped;
      if restoredFrom.None? {
        if e.enabled.ReadRaises? {
          return Aborted;
        }
        if !e.enabled.on {
          return;
        }
      }
      var credential := DecryptPair(decrypt.value, acct);
      var source := if restoredFrom.Some? then FromSnapshot(restoredFrom.value) else FromPrimary;
      if credential.None? {
        var recovered: Option<(string, string, string)> := None;
        if restoredFrom.None? {
          recovered := Recover(decrypt.value, acct.name, e.backup);
        }
        if recovered.None? {
          if restoredFrom.None? {
            Record(acct.name, CONFIG_ERROR);
            return Checked(CONFIG_ERROR, None, Some(StatusWrite(acct.name, CONFIG_ERROR)));
          }
          return Checked(CONFIG_ERROR, None, None);
        }
        credential, source := Some((recovered.value.0, recovered.value.1)), FromRow(recovered.value.2);
      }
      var sync := Sync(acct.name, credential.value.0, credential.value.1, source, e.sync);
      pool := ApplySync(pool, sync);
      OneSync(old(pool), sync);
      var status := ParseStatus(acct.status);
      if e.sync.SyncRaises? {
        status := X_UNAVAILABLE;
      } else if validate {
        status := e.verdict;
      }
      if (e.sync.SyncRaises? || validate) && source.FromPrimary? {
        Record(acct.name, status);
        return Checked(status, Some(sync), Some(StatusWrite(acct.name, status)));
      }
      return Checked(status, Some(sync), None);
    }

    /** `_record_status`: the statement is sent; whether it lands is up to the primary. */
    method Record(name: string, status: XStatus)
      modifies this`writes
      ensures writes == old(writes) + [StatusWrite(name, status)]
    {
      writes := writes + [StatusWrite(name, status)];
    }

    method CheckOnce(primary: Option<seq<AccountRow>>, backup: BackupRead, readings: nat -> Reading, validate: bool)
      returns (results: map<string, XStatus>, raised: bool)
      modifies this
      ensures decrypt.None? ==> results == map[] && !raised && pool == old(pool) && writes == old(writes)
      ensures decrypt.None? || raised ==>
                && xStatus == old(xStatus) && restoredFromSnapshot == old(restoredFromSnapshot)
                && restoredLabels == old(restoredLabels) && accountsConfigured == old(accountsConfigured)
                && accountsEnabled == old(accountsEnabled) && dbOk == old(dbOk)
      ensures decrypt.Some? ==>
                var s := AccountsToServe(primary, backup);
                var t := TraceOfCheck(decrypt.value, s, validate, readings);
                && raised == t.aborted
                && pool == ApplySyncs(old(pool), t.syncs) && writes == old(writes) + t.writes
                && (!raised ==>
                      && results == t.results && Reports(s, t.statuses, t.restoredLabels, t.credentialSid)
                      && dbOk == (old(dbOk) || s.storeOk))
    {
      results, raised := map[], false;
      if decrypt.None? {
        return;
      }
      var s := AccountsToServe(primary, backup);
      var t := ServeAll(s, validate, readings);
      results, raised := t.results, t.aborted;
      if !raised {
        Publish(s, t.statuses, t.restoredLabels, t.credentialSid);
      }
    }

    /** The loop over the accounts. */
    method ServeAll(s: Served, validate: bool, readings: nat -> Reading) returns (t: Trace)
      requires decrypt.Some?
      modifies this`pool, this`writes
      ensures t == TraceOfCheck(decrypt.value, s, validate, readings)
      ensures pool == ApplySyncs(old(pool), t.syncs) && writes == old(writes) + t.writes
    {
      t := NOTHING;
      ghost var turns := Turns(decrypt.value, s, validate, readings);
      ghost var pool0, writes0 := pool, writes;
      var k := 0;
      NothingDone(pool0, writes0);
      while k < |s.accounts| && !t.aborted
        invariant k <= |s.accounts| && t == TraceOf(s.accounts, turns, k)
        invariant pool == ApplySyncs(pool0, t.syncs) && writes == writes0 + t.writes
      {
        t := ServeNext(s, validate, readings, k, t, pool0, writes0);
        k := k + 1;
      }
      if t.aborted {
        AbortedStays(s.accounts, turns, k, |s.accounts|);
      }
    }

    /** The turn of account `k`, on top of the trace so far. */
    method ServeNext(s: Served, validate: bool, readings: nat -> Reading, k: nat, was: Trace,
                     ghost pool0: Pool, ghost writes0: seq<StatusWrite>)
      returns (t: Trace)
      requires decrypt.Some? && k < |s.accounts| && !was.aborted
      requires was == TraceOf(s.accounts, Turns(decrypt.value, s, validate, readings), k)
      requires pool == ApplySyncs(pool0, was.syncs) && writes == writes0 + was.writes
      modifies this`pool, this`writes
      ensures t == TraceOf(s.accounts, Turns(decrypt.value, s, validate, readings), k + 1)
      ensures pool == ApplySyncs(pool0, t.syncs) && writes == writes0 + t.writes
    {
      var turn := Serve(s.accounts[k], s.restoredFrom, validate, readings(k));
      TurnAt(decrypt.value, s, validate, readings, |s.accounts|, k);
      EffectsCompose(pool0, writes0, was, s.accounts[k], turn);
      t := Extended(was, s.accounts[k], turn);
    }

    /** The state fields written once every account has had its turn. */
    method Publish(s: Served, statuses: seq<XStatus>, labels: seq<string>, credentialSid: Option<string>)
      modifies this`xStatus, this`restoredFromSnapshot, this`restoredLabels
      modifies this`accountsConfigured, this`accountsEnabled, this`dbOk
      ensures Reports(s, statuses, labels, credentialSid) && dbOk == (old(dbOk) || s.storeOk)
    {
      var all := statuses + (if s.accounts == [] && !s.storeOk then [CONFIG_ERROR] else []);
      xStatus := AggregateStatus(all);
      restoredFromSnapshot := if s.restoredFrom.Some? then s.restoredFrom else credentialSid;
      restoredLabels, accountsConfigured, accountsEnabled := labels, s.total, |s.accounts|;
      if s.storeOk {
        dbOk := true;
      }
    }

    /** What the state says after a check that did not raise. */
    ghost predicate Reports(s: Served, statuses: seq<XStatus>, labels: seq<string>, credentialSid: Option<string>)
      reads this
    {
      && xStatus == AggregateStatus(statuses + (if s.accounts == [] && !s.storeOk then [CONFIG_ERROR] else []))
      && restoredFromSnapshot == (if s.restoredFrom.Some? then s.restoredFrom else credentialSid)
      && restoredLabels == labels
      && accountsConfigured == s.total && accountsEnabled == |s.accounts|
    }
  }

  function SyncsOf(turn: Turn): seq<Sync> {
    if turn.Checked? && turn.sync.Some? then [turn.sync.value] else []
  }

  function WritesOf(turn: Turn): seq<StatusWrite> {
    if turn.Checked? && turn.write.Some? then [turn.write.value] else []
  }

  lemma NothingDone(pool: Pool, writes: seq<StatusWrite>)
    ensures ApplySyncs(pool, NOTHING.syncs) == pool && writes + NOTHING.writes == writes
  {
  }

  /** What a turn does to the pool and to the status writes, on top of a trace. */
  lemma EffectsCompose(pool: Pool, writes: seq<StatusWrite>, t: Trace, acct: AccountRow, turn: Turn)
    ensures var t' := Extended(t, acct, turn);
            && ApplySyncs(pool, t'.syncs) == ApplySyncs(ApplySyncs(pool, t.syncs), SyncsOf(turn))
            && writes + t'.writes == (writes + t.writes) + WritesOf(turn)
  {
    ExtendedAppends(t, acct, turn);
    SyncsCompose(pool, t.syncs, SyncsOf(turn));
    ConcatAssoc(writes, t.writes, WritesOf(turn));
  }

  lemma ExtendedAppends(t: Trace, acct: AccountRow, turn: Turn)
    ensures Extended(t, acct, turn).syncs == t.syncs + SyncsOf(turn)
    ensures Extended(t, acct, turn).writes == t.writes + WritesOf(turn)
  {
  }

  lemma OneSync(pool: Pool, s: Sync)
    ensures ApplySyncs(pool, [s]) == ApplySync(pool, s)
  {
    assert [s][..0] == [];
    assert ApplySyncs(pool, [s][..0]) == pool;
  }

  lemma SyncsCompose(pool: Pool, a: seq<Sync>, b: seq<Sync>)
    requires |b| <= 1
    ensures ApplySyncs(pool, a + b) == ApplySyncs(ApplySyncs(pool, a), b)
  {
    if b == [] {
      assert a + b == a;
    } else {
      OneSync(ApplySyncs(pool, a), b[0]);
      assert b == [b[0]] && (a + b)[..|a + b| - 1] == a;
    }
  }

  lemma {:induction false} AbortedStays(accounts: seq<AccountRow>, turns: seq<Turn>, k: nat, n: nat)
    requires k <= n <= |accounts| == |turns| && TraceOf(accounts, turns, k).aborted
    ensures TraceOf(accounts, turns, n) == TraceOf(accounts, turns, k)
    decreases n
  {
    if k < n {
      AbortedStays(accounts, turns, k, n - 1);
    }
  }

  // ------------------------------------------------------------------
  // Where credentials come from

  /** The row decrypts to this token and this cookie. */
  predicate Decrypts(decrypt: Decrypt, row: AccountRow, authToken: string, ct0: string) {
    decrypt(row.encAuthToken) == Some(authToken) && decrypt(row.encCt0) == Some(ct0)
  }

  predicate Decryptable(decrypt: Decrypt, row: AccountRow) {
    decrypt(row.encAuthToken).Some? && decrypt(row.encCt0).Some?
  }

  /** The credential of a sync is one the rules allow for the served account `acct`, whose turn read `e`. */
  ghost predicate Justified(decrypt: Decrypt, primary: Option<seq<AccountRow>>, backup: BackupRead,
                            acct: AccountRow, e: Reading, y: Sync) {
    && y.name == acct.name && acct.enabled != 0
    && match y.source
       case FromPrimary =>
         // the decrypted primary row of an account that its own turn still found enabled
         && primary.Some? && acct in primary.value && e.enabled == IsEnabled(true)
         && Decrypts(decrypt, acct, y.authToken, y.ct0)
       case FromRow(sid) =>
         // only if that row does not decrypt; then the newest backup row of that label
         && primary.Some? && acct in primary.value && e.enabled == IsEnabled(true)
         && !Decryptable(decrypt, acct) && e.backup.Read?
         && (exists b :: b in e.backup.view.rows && b.sid == sid && b.row.name == y.name
                         && Decrypts(decrypt, b.row, y.authToken, y.ct0))
         && (forall b :: b in e.backup.view.rows && b.row.name == y.name ==> !ByteLess(sid, b.sid))
       case FromSnapshot(sid) =>
         // only a primary that raised or held no row; then a row of the newest snapshot
         && (primary.None? || primary.value == []) && backup.Read? && Latest(backup.view.index) == Some(sid)
         && BackupRow(sid, acct) in backup.view.rows
         && Decrypts(decrypt, acct, y.authToken, y.ct0)
  }

  lemma TurnIsJustified(decrypt: Decrypt, primary: Option<seq<AccountRow>>, backup: BackupRead,
                        readings: nat -> Reading, validate: bool, k: nat)
    requires var s := AccountsToServe(primary, backup);
             && k < |s.accounts|
             && var turn := TurnOf(decrypt, s.accounts[k], s.restoredFrom, validate, readings(k));
                turn.Checked? && turn.sync.Some?
    ensures var s := AccountsToServe(primary, backup);
            var y := TurnOf(decrypt, s.accounts[k], s.restoredFrom, validate, readings(k)).sync.value;
            Justified(decrypt, primary, backup, s.accounts[k], readings(k), y)
  {
    var s := AccountsToServe(primary, backup);
    var acct := s.accounts[k];
    FallbackIsNarrow(primary, backup);
    assert acct in s.accounts;
    if s.restoredFrom.None? && DecryptPair(decrypt, acct).None? {
      NewestRowIsNewest(readings(k).backup.view.rows, acct.name);
    }
  }

  /** Every sync of a trace is the sync of a turn. */
  lemma {:induction false} SyncComesFrom(accounts: seq<AccountRow>, turns: seq<Turn>, n: nat, i: nat) returns (k: nat)
    requires n <= |accounts| == |turns| && i < |TraceOf(accounts, turns, n).syncs|
    ensures k < n && SyncsOf(turns[k]) == [TraceOf(accounts, turns, n).syncs[i]]
    decreases n
  {
    var t := TraceOf(accounts, turns, n - 1);
    if i < |t.syncs| {
      k := SyncComesFrom(accounts, turns, n - 1, i);
    } else {
      k := n - 1;
    }
  }

  /** Every credential a check puts into the pool has one of the three allowed origins, by what the
      turn of its own account read. */
  lemma CredentialProvenance(decrypt: Decrypt, primary: Option<seq<AccountRow>>, backup: BackupRead,
                             readings: nat -> Reading, validate: bool, i: nat)
    requires i < |TraceOfCheck(decrypt, AccountsToServe(primary, backup), validate, readings).syncs|
    ensures var y := TraceOfCheck(decrypt, AccountsToServe(primary, backup), validate, readings).syncs[i];
            var accounts := AccountsToServe(primary, backup).accounts;
            exists k :: 0 <= k < |accounts| && Justified(decrypt, primary, backup, accounts[k], readings(k), y)
  {
    var s := AccountsToServe(primary, backup);
    var k := SyncComesFrom(s.accounts, Turns(decrypt, s, validate, readings), |s.accounts|, i);
    TurnsAre(decrypt, s, validate, readings);
    TurnIsJustified(decrypt, primary, backup, readings, validate, k);
  }

  // ------------------------------------------------------------------
  // What a check says of each account

  /** The account's turn was not skipped: in whole-snapshot mode none is. */
  predicate HadItsTurn(restoredFrom: Option<string>, e: Reading) {
    restoredFrom.Some? || e.enabled == IsEnabled(true)
  }

  /** A credential is at hand: the row's own, or the newest backup row's if the row is of the primary. */
  predicate HasCredential(decrypt: Decrypt, acct: AccountRow, restoredFrom: Option<string>, e: Reading) {
    || Decryptable(decrypt, acct)
    || (restoredFrom.None? && e.backup.Read? && NewestRow(e.backup.view.rows, acct.name).Some?
        && Decryptable(decrypt, NewestRow(e.backup.view.rows, acct.name).value.row))
  }

  /** The status that goes with what the turn saw. */
  predicate IsStatusSeen(decrypt: Decrypt, acct: AccountRow, restoredFrom: Option<string>, validate: bool,
                         e: Reading, status: XStatus) {
    if !HasCredential(decrypt, acct, restoredFrom, e) then status == CONFIG_ERROR
    else if e.sync.SyncRaises? then status == X_UNAVAILABLE
    else if validate then status == e.verdict
    else IsStored(acct.status, status)
  }

  /** The stored text is that of the status, or of no status at all. */
  predicate IsStored(text: string, status: XStatus) {
    if exists x: XStatus :: StatusText(x) == text then StatusText(status) == text else status == NOT_CONFIGURED
  }

  /** A status is sent to the primary for its own undecryptable row, or for its own credential once a
      sync has failed or a validation has spoken. */
  predicate IsRecorded(decrypt: Decrypt, acct: AccountRow, restoredFrom: Option<string>, validate: bool, e: Reading) {
    && restoredFrom.None?
    && (!HasCredential(decrypt, acct, restoredFrom, e)
        || (Decryptable(decrypt, acct) && (e.sync.SyncRaises? || validate)))
  }

  lemma ParsesBack(text: string)
    ensures IsStored(text, ParseStatus(text))
  {
    forall x: XStatus | StatusText(x) == text ensures ParseStatus(text) == x {
      match x {
        case CONNECTED =>
        case INVALID_SESSION =>
        case RATE_LIMITED =>
        case X_UNAVAILABLE =>
        case CONFIG_ERROR =>
        case NOT_CONFIGURED =>
      }
    }
    if ParseStatus(text) != NOT_CONFIGURED {
      assert StatusText(ParseStatus(text)) == text;
    }
  }

  /** A turn, by what it read. */
  lemma TurnSays(decrypt: Decrypt, acct: AccountRow, restoredFrom: Option<string>, validate: bool, e: Reading)
    ensures var turn := TurnOf(decrypt, acct, restoredFrom, validate, e);
            && (turn.Aborted? <==> restoredFrom.None? && e.enabled.ReadRaises?)
            && (turn.Checked? <==> HadItsTurn(restoredFrom, e))
            && (turn.Checked? ==>
                  && IsStatusSeen(decrypt, acct, restoredFrom, validate, e, turn.status)
                  && turn.sync.Some? == HasCredential(decrypt, acct, restoredFrom, e)
                  && (turn.sync.Some? ==> turn.sync.value.name == acct.name && turn.sync.value.effect == e.sync)
                  && (turn.sync.Some? && Decryptable(decrypt, acct) ==>
                        Decrypts(decrypt, acct, turn.sync.value.authToken, turn.sync.value.ct0))
                  && turn.write == if IsRecorded(decrypt, acct, restoredFrom, validate, e)
                                   then Some(StatusWrite(acct.name, turn.status)) else None)
  {
    ParsesBack(acct.status);
  }

  lemma {:induction false} TraceAborts(accounts: seq<AccountRow>, turns: seq<Turn>, n: nat)
    requires n <= |accounts| == |turns|
    ensures TraceOf(accounts, turns, n).aborted <==> exists k :: 0 <= k < n && turns[k].Aborted?
    decreases n
  {
    if n > 0 {
      TraceAborts(accounts, turns, n - 1);
    }
  }

  /** The trace holds what the turn said. */
  predicate Told(t: Trace, acct: AccountRow, turn: Turn) {
    turn.Checked? ==>
      && acct.name in t.results && t.results[acct.name] == turn.status && turn.status in t.statuses
      && (turn.sync.Some? ==> turn.sync.value in t.syncs)
      && (turn.write.Some? ==> turn.write.value in t.writes)
  }

  ghost predicate ToldAll(t: Trace, accounts: seq<AccountRow>, turns: seq<Turn>, n: nat)
    requires n <= |accounts| == |turns|
  {
    forall k :: 0 <= k < n ==> Told(t, accounts[k], turns[k])
  }

  ghost predicate ResultOfATurn(x: string, accounts: seq<AccountRow>, turns: seq<Turn>, n: nat)
    requires n <= |accounts| == |turns|
  {
    exists k :: 0 <= k < n && turns[k].Checked? && accounts[k].name == x
  }

  ghost predicate StatusOfATurn(st: XStatus, turns: seq<Turn>, n: nat)
    requires n <= |turns|
  {
    exists k :: 0 <= k < n && turns[k].Checked? && turns[k].status == st
  }

  ghost predicate WriteOfATurn(w: StatusWrite, turns: seq<Turn>, n: nat)
    requires n <= |turns|
  {
    exists k :: 0 <= k < n && turns[k].Checked? && turns[k].write == Some(w)
  }

  /** The trace holds nothing that no turn said. */
  ghost predicate NothingElse(t: Trace, accounts: seq<AccountRow>, turns: seq<Turn>, n: nat)
    requires n <= |accounts| == |turns|
  {
    && (forall x :: x in t.results ==> ResultOfATurn(x, accounts, turns, n))
    && (forall st :: st in t.statuses ==> StatusOfATurn(st, turns, n))
    && (forall w :: w in t.writes ==> WriteOfATurn(w, turns, n))
  }

  lemma StillTold(t: Trace, acct: AccountRow, turn: Turn, next: AccountRow, nextTurn: Turn)
    requires Told(t, acct, turn) && acct.name != next.name
    ensures Told(Extended(t, next, nextTurn), acct, turn)
  {
  }

  lemma NowTold(t: Trace, acct: AccountRow, turn: Turn)
    ensures Told(Extended(t, acct, turn), acct, turn)
  {
  }

  /** What the next turn may add. */
  lemma AddedByTurn(t: Trace, acct: AccountRow, turn: Turn)
    ensures var t' := Extended(t, acct, turn);
            && (forall x :: x in t'.results ==> x in t.results || (turn.Checked? && acct.name == x))
            && (forall st :: st in t'.statuses ==> st in t.statuses || (turn.Checked? && turn.status == st))
            && (forall w :: w in t'.writes ==> w in t.writes || (turn.Checked? && turn.write == Some(w)))
  {
  }

  lemma StillNothingElse(t: Trace, t': Trace, accounts: seq<AccountRow>, turns: seq<Turn>, n: nat)
    requires n < |accounts| == |turns| && NothingElse(t, accounts, turns, n)
    requires forall x :: x in t'.results ==> x in t.results || (turns[n].Checked? && accounts[n].name == x)
    requires forall st :: st in t'.statuses ==> st in t.statuses || (turns[n].Checked? && turns[n].status == st)
    requires forall w :: w in t'.writes ==> w in t.writes || (turns[n].Checked? && turns[n].write == Some(w))
    ensures NothingElse(t', accounts, turns, n + 1)
  {
    forall x | x in t'.results ensures ResultOfATurn(x, accounts, turns, n + 1) {
      if x in t.results {
        assert ResultOfATurn(x, accounts, turns, n);
      }
    }
    forall st | st in t'.statuses ensures StatusOfATurn(st, turns, n + 1) {
      if st in t.statuses {
        assert StatusOfATurn(st, turns, n);
      }
    }
    forall w | w in t'.writes ensures WriteOfATurn(w, turns, n + 1) {
      if w in t.writes {
        assert WriteOfATurn(w, turns, n);
      }
    }
  }

  lemma {:induction false} TraceTells(accounts: seq<AccountRow>, turns: seq<Turn>, n: nat)
    requires n <= |accounts| == |turns| && DistinctAccounts(accounts) && !TraceOf(accounts, turns, n).aborted
    ensures ToldAll(TraceOf(accounts, turns, n), accounts, turns, n)
    ensures NothingElse(TraceOf(accounts, turns, n), accounts, turns, n)
    decreases n
  {
    if n > 0 {
      var t := TraceOf(accounts, turns, n - 1);
      TraceTells(accounts, turns, n - 1);
      forall k | 0 <= k < n ensures Told(Extended(t, accounts[n - 1], turns[n - 1]), accounts[k], turns[k]) {
        NowTold(t, accounts[n - 1], turns[n - 1]);
        if k < n - 1 {
          StillTold(t, accounts[k], turns[k], accounts[n - 1], turns[n - 1]);
        }
      }
      AddedByTurn(t, accounts[n - 1], turns[n - 1]);
      StillNothingElse(t, Extended(t, accounts[n - 1], turns[n - 1]), accounts, turns, n - 1);
    }
  }

  /** What a check reports and records, account by account: the result of each account that had its
      turn is the status that goes with what that turn saw; it is among the aggregated ones; it is
      what is sent to the primary, if anything is; and a row that decrypts is synced with its own
      credential. Nothing else is reported, aggregated or sent. */
  lemma CheckSays(decrypt: Decrypt, s: Served, validate: bool, readings: nat -> Reading)
    requires DistinctAccounts(s.accounts)
    ensures var t := TraceOfCheck(decrypt, s, validate, readings);
            && (t.aborted <==>
                  s.restoredFrom.None? && exists k :: 0 <= k < |s.accounts| && readings(k).enabled.ReadRaises?)
            && (!t.aborted ==> SaysAll(decrypt, s, validate, readings, t))
  {
    var turns, n := Turns(decrypt, s, validate, readings), |s.accounts|;
    var t := TraceOfCheck(decrypt, s, validate, readings);
    TurnsAre(decrypt, s, validate, readings);
    forall k | 0 <= k < n
      ensures turns[k].Aborted? <==> s.restoredFrom.None? && readings(k).enabled.ReadRaises?
    {
      TurnSays(decrypt, s.accounts[k], s.restoredFrom, validate, readings(k));
    }
    TraceAborts(s.accounts, turns, n);
    if !t.aborted {
      TraceTells(s.accounts, turns, n);
      TellsAll(decrypt, s, validate, readings, t);
    }
  }

  ghost predicate Says(decrypt: Decrypt, s: Served, validate: bool, e: Reading, t: Trace, acct: AccountRow) {
    && acct.name in t.results
    && var status := t.results[acct.name];
    && IsStatusSeen(decrypt, acct, s.restoredFrom, validate, e, status) && status in t.statuses
    && (IsRecorded(decrypt, acct, s.restoredFrom, validate, e) ==> StatusWrite(acct.name, status) in t.writes)
    && (HasCredential(decrypt, acct, s.restoredFrom, e) ==>
          exists y :: y in t.syncs && y.name == acct.name && y.effect == e.sync
                      && (Decryptable(decrypt, acct) ==> Decrypts(decrypt, acct, y.authToken, y.ct0)))
  }

  ghost predicate IsResultSeen(s: Served, readings: nat -> Reading, x: string) {
    exists k :: 0 <= k < |s.accounts| && HadItsTurn(s.restoredFrom, readings(k)) && s.accounts[k].name == x
  }

  ghost predicate IsStatusOfSome(decrypt: Decrypt, s: Served, validate: bool, readings: nat -> Reading, st: XStatus) {
    exists k :: 0 <= k < |s.accounts| && HadItsTurn(s.restoredFrom, readings(k))
                && IsStatusSeen(decrypt, s.accounts[k], s.restoredFrom, validate, readings(k), st)
  }

  ghost predicate IsRecordOfSome(decrypt: Decrypt, s: Served, validate: bool, readings: nat -> Reading,
                                 w: StatusWrite) {
    exists k :: 0 <= k < |s.accounts| && HadItsTurn(s.restoredFrom, readings(k)) && s.accounts[k].name == w.name
                && IsRecorded(decrypt, s.accounts[k], s.restoredFrom, validate, readings(k))
                && IsStatusSeen(decrypt, s.accounts[k], s.restoredFrom, validate, readings(k), w.status)
  }

  ghost predicate SaysAll(decrypt: Decrypt, s: Served, validate: bool, readings: nat -> Reading, t: Trace) {
    && (forall k :: 0 <= k < |s.accounts| && HadItsTurn(s.restoredFrom, readings(k)) ==>
          Says(decrypt, s, validate, readings(k), t, s.accounts[k]))
    && (forall x :: x in t.results ==> IsResultSeen(s, readings, x))
    && (forall st :: st in t.statuses ==> IsStatusOfSome(decrypt, s, validate, readings, st))
    && (forall w :: w in t.writes ==> IsRecordOfSome(decrypt, s, validate, readings, w))
  }

  lemma ToldSays(decrypt: Decrypt, s: Served, validate: bool, e: Reading, t: Trace, acct: AccountRow)
    requires Told(t, acct, TurnOf(decrypt, acct, s.restoredFrom, validate, e)) && HadItsTurn(s.restoredFrom, e)
    ensures Says(decrypt, s, validate, e, t, acct)
  {
    TurnSays(decrypt, acct, s.restoredFrom, validate, e);
    var turn := TurnOf(decrypt, acct, s.restoredFrom, validate, e);
    if turn.sync.Some? {
      assert turn.sync.value in t.syncs;
    }
  }

  lemma TellsAll(decrypt: Decrypt, s: Served, validate: bool, readings: nat -> Reading, t: Trace)
    requires var turns := Turns(decrypt, s, validate, readings);
             ToldAll(t, s.accounts, turns, |s.accounts|) && NothingElse(t, s.accounts, turns, |s.accounts|)
    ensures SaysAll(decrypt, s, validate, readings, t)
  {
    var turns, n := Turns(decrypt, s, validate, readings), |s.accounts|;
    TurnsAre(decrypt, s, validate, readings);
    forall k | 0 <= k < n && HadItsTurn(s.restoredFrom, readings(k))
      ensures Says(decrypt, s, validate, readings(k), t, s.accounts[k])
    {
      assert Told(t, s.accounts[k], turns[k]);
      ToldSays(decrypt, s, validate, readings(k), t, s.accounts[k]);
    }
    forall x | x in t.results ensures IsResultSeen(s, readings, x) {
      assert ResultOfATurn(x, s.accounts, turns, n);
      var k :| 0 <= k < n && turns[k].Checked? && s.accounts[k].name == x;
      TurnSays(decrypt, s.accounts[k], s.restoredFrom, validate, readings(k));
    }
    forall st | st in t.statuses ensures IsStatusOfSome(decrypt, s, validate, readings, st) {
      assert StatusOfATurn(st, turns, n);
      var k :| 0 <= k < n && turns[k].Checked? && turns[k].status == st;
      TurnSays(decrypt, s.accounts[k], s.restoredFrom, validate, readings(k));
    }
    forall w | w in t.writes ensures IsRecordOfSome(decrypt, s, validate, readings, w) {
      assert WriteOfATurn(w, turns, n);
      var k :| 0 <= k < n && turns[k].Checked? && turns[k].write == Some(w);
      TurnSays(decrypt, s.accounts[k], s.restoredFrom, validate, readings(k));
    }
  }

  // ------------------------------------------------------------------
  // What may be written

  ghost predicate DistinctAccounts(accounts: seq<AccountRow>) {
    forall i, j :: 0 <= i < j < |accounts| ==> accounts[i].name != accounts[j].name
  }

  ghost predicate Narrow(t: Trace, accounts: seq<AccountRow>, n: nat)
    requires n <= |accounts|
  {
    && (forall w :: w in t.writes ==>
          w.name !in t.restoredLabels && exists k :: 0 <= k < n && accounts[k].name == w.name)
    && (forall x :: x in t.restoredLabels ==> exists k :: 0 <= k < n && accounts[k].name == x)
  }

  /** A turn writes the status of its own account only, in no snapshot mode, and not of a label it
      restored. */
  predicate WritesOwnStatus(turn: Turn, accountName: string, restoredFrom: Option<string>) {
    && (restoredFrom.Some? ==> WritesOf(turn) == [] && !RestoresRow(turn))
    && (WritesOf(turn) != [] ==> WritesOf(turn)[0].name == accountName && !RestoresRow(turn))
  }

  predicate RestoresRow(turn: Turn) {
    SyncsOf(turn) != [] && SyncsOf(turn)[0].source.FromRow?
  }

  lemma TurnWrites(decrypt: Decrypt, acct: AccountRow, restoredFrom: Option<string>, validate: bool, e: Reading)
    ensures WritesOwnStatus(TurnOf(decrypt, acct, restoredFrom, validate, e), acct.name, restoredFrom)
  {
  }

  lemma ExtendedIsNarrow(t: Trace, turn: Turn, accounts: seq<AccountRow>, n: nat)
    requires n < |accounts| && DistinctAccounts(accounts) && Narrow(t, accounts, n)
    requires WritesOwnStatus(turn, accounts[n].name, None)
    ensures Narrow(Extended(t, accounts[n], turn), accounts, n + 1)
  {
    assert forall w :: w in t.writes ==> w.name != accounts[n].name;
    assert forall x :: x in t.restoredLabels ==> x != accounts[n].name;
  }

  /** With distinct labels, a status is only written for an account that was served, and never for a
      label whose credential came from a snapshot. */
  lemma {:induction false} TraceWrites(accounts: seq<AccountRow>, turns: seq<Turn>, n: nat)
    requires n <= |accounts| == |turns| && DistinctAccounts(accounts)
    requires forall k :: 0 <= k < |turns| ==> WritesOwnStatus(turns[k], accounts[k].name, None)
    ensures Narrow(TraceOf(accounts, turns, n), accounts, n)
    decreases n
  {
    if n > 0 {
      TraceWrites(accounts, turns, n - 1);
      ExtendedIsNarrow(TraceOf(accounts, turns, n - 1), turns[n - 1], accounts, n - 1);
    }
  }

  type Accounts = map<string, AccountRow>

  function StatusText(s: XStatus): string {
    match s
    case CONNECTED => "CONNECTED"
    case INVALID_SESSION => "INVALID_SESSION"
    case RATE_LIMITED => "RATE_LIMITED"
    case X_UNAVAILABLE => "X_UNAVAILABLE"
    case CONFIG_ERROR => "CONFIG_ERROR"
    case NOT_CONFIGURED => "NOT_CONFIGURED"
  }

  /** `update_status` on the accounts table; an unknown label changes no row. */
  function ApplyStatus(accounts: Accounts, w: StatusWrite, now: string, error: Option<string>): Accounts {
    if w.name !in accounts then accounts
    else
      accounts[w.name := accounts[w.name].(
        status := StatusText(w.status), lastCheckedAt := Some(now),
        lastCheckOk := Some(if w.status == CONNECTED then 1 else 0), lastError := error, updatedAt := now)]
  }

  function ApplyStatuses(accounts: Accounts, ws: seq<StatusWrite>,
                         now: nat -> string, error: nat -> Option<string>): Accounts {
    if ws == [] then accounts
    else
      var n := |ws| - 1;
      ApplyStatus(ApplyStatuses(accounts, ws[..n], now, error), ws[n], now(n), error(n))
  }

  /** The credential, the switch, the metadata and the creation time of an account. */
  function Fixed(r: AccountRow): (string, string, string, int, Option<string>, string) {
    (r.name, r.encAuthToken, r.encCt0, r.enabled, r.meta, r.createdAt)
  }

  /** All the status updates of a check together only change status columns, and only of the labels
      they name. */
  lemma {:induction false} OnlyStatusColumns(accounts: Accounts, ws: seq<StatusWrite>,
                                             now: nat -> string, error: nat -> Option<string>)
    ensures var after := ApplyStatuses(accounts, ws, now, error);
            && after.Keys == accounts.Keys
            && (forall x :: x in accounts ==> Fixed(after[x]) == Fixed(accounts[x]))
            && (forall x :: x in accounts && (forall w :: w in ws ==> w.name != x) ==> after[x] == accounts[x])
  {
    if ws != [] {
      OnlyStatusColumns(accounts, ws[..|ws| - 1], now, error);
      assert ws == ws[..|ws| - 1] + [ws[|ws| - 1]];
    }
  }

  lemma {:induction false} EnabledAreDistinct(rows: seq<AccountRow>)
    requires DistinctAccounts(rows)
    ensures DistinctAccounts(Enabled(rows))
  {
    if rows != [] {
      var rest := Enabled(rows[1..]);
      assert DistinctAccounts(rows[1..]);
      EnabledAreDistinct(rows[1..]);
      EnabledMembers(rows[1..]);
      forall r | r in rest ensures r.name != rows[0].name {
        var j :| 0 <= j < |rows[1..]| && rows[1..][j] == r;
        assert rows[j + 1] == r;
      }
      assert rows[0].enabled != 0 ==> Enabled(rows) == [rows[0]] + rest;
      assert rows[0].enabled == 0 ==> Enabled(rows) == rest;
    }
  }

  /** The primary key of `backup_accounts`. */
  ghost predicate DistinctBackupRows(rows: seq<BackupRow>) {
    forall i, j :: 0 <= i < j < |rows| ==> rows[i].sid != rows[j].sid || rows[i].row.name != rows[j].row.name
  }

  lemma {:induction false} RowsAtAreDistinct(rows: seq<BackupRow>, sid: string)
    requires DistinctBackupRows(rows)
    ensures DistinctAccounts(RowsAt(rows, sid))
  {
    if rows != [] {
      var rest := RowsAt(rows[1..], sid);
      assert DistinctBackupRows(rows[1..]);
      RowsAtAreDistinct(rows[1..], sid);
      RowsAtMembers(rows[1..], sid);
      forall r | r in rest && rows[0].sid == sid ensures r.name != rows[0].row.name {
        var j :| 0 <= j < |rows[1..]| && rows[1..][j] == BackupRow(sid, r);
        assert rows[j + 1] == BackupRow(sid, r);
      }
      assert rows[0].sid == sid ==> RowsAt(rows, sid) == [rows[0].row] + rest;
      assert rows[0].sid != sid ==> RowsAt(rows, sid) == rest;
    }
  }

  /** By the primary keys of the two stores, the accounts a check serves have different labels. */
  lemma ServedAreDistinct(primary: Option<seq<AccountRow>>, backup: BackupRead)
    requires primary.Some? ==> DistinctAccounts(primary.value)
    requires backup.Read? ==> DistinctBackupRows(backup.view.rows)
    ensures DistinctAccounts(AccountsToServe(primary, backup).accounts)
  {
    if primary.Some? {
      EnabledAreDistinct(primary.value);
    }
    if backup.Read? && Latest(backup.view.index).Some? {
      RowsAtAreDistinct(backup.view.rows, Latest(backup.view.index).value);
      EnabledAreDistinct(RowsAt(backup.view.rows, Latest(backup.view.index).value));
    }
  }

  /** In whole-snapshot mode the primary is never written. Otherwise a check changes only the status
      columns of accounts the primary listed as enabled, and nothing of a label served from a snapshot. */
  lemma WritesAreNarrow(decrypt: Decrypt, primary: Option<seq<AccountRow>>, backup: BackupRead,
                        readings: nat -> Reading, validate: bool, accounts: Accounts,
                        now: nat -> string, error: nat -> Option<string>)
    requires primary.Some? ==> DistinctAccounts(primary.value)
    ensures var s := AccountsToServe(primary, backup);
            var t := TraceOfCheck(decrypt, s, validate, readings);
            var after := ApplyStatuses(accounts, t.writes, now, error);
            && after.Keys == accounts.Keys
            && (forall x :: x in accounts ==> Fixed(after[x]) == Fixed(accounts[x]))
            && (s.restoredFrom.Some? ==> t.writes == [] && after == accounts)
            && (forall x :: x in t.restoredLabels && x in accounts ==> after[x] == accounts[x])
            && (forall w :: w in t.writes ==>
                  primary.Some? && exists r: AccountRow :: r in primary.value && r.enabled != 0 && r.name == w.name)
  {
    var s := AccountsToServe(primary, backup);
    var t := TraceOfCheck(decrypt, s, validate, readings);
    var turns := Turns(decrypt, s, validate, readings);
    OnlyStatusColumns(accounts, t.writes, now, error);
    TurnsAre(decrypt, s, validate, readings);
    forall k | 0 <= k < |turns| ensures WritesOwnStatus(turns[k], s.accounts[k].name, s.restoredFrom) {
      TurnWrites(decrypt, s.accounts[k], s.restoredFrom, validate, readings(k));
    }
    if s.restoredFrom.Some? {
      NoWritesFromSnapshot(s.accounts, turns, |s.accounts|);
    } else {
      FallbackIsNarrow(primary, backup);
      if primary.Some? {
        EnabledAreDistinct(primary.value);
      }
      TraceWrites(s.accounts, turns, |s.accounts|);
      forall w | w in t.writes
        ensures primary.Some? && exists r: AccountRow :: r in primary.value && r.enabled != 0 && r.name == w.name
      {
        var k :| 0 <= k < |s.accounts| && s.accounts[k].name == w.name;
        assert s.accounts[k] in s.accounts;
      }
    }
  }

  lemma NothingAdded(t: Trace, acct: AccountRow, turn: Turn)
    requires t.writes == [] && t.restoredLabels == [] && WritesOf(turn) == [] && !RestoresRow(turn)
    ensures Extended(t, acct, turn).writes == [] && Extended(t, acct, turn).restoredLabels == []
  {
  }

  lemma {:induction false} NoWritesFromSnapshot(accounts: seq<AccountRow>, turns: seq<Turn>, n: nat)
    requires n <= |accounts| == |turns|
    requires forall k :: 0 <= k < |turns| ==> WritesOf(turns[k]) == [] && !RestoresRow(turns[k])
    ensures TraceOf(accounts, turns, n).writes == [] && TraceOf(accounts, turns, n).restoredLabels == []
    decreases n
  {
    if n > 0 {
      NoWritesFromSnapshot(accounts, turns, n - 1);
      NothingAdded(TraceOf(accounts, turns, n - 1), accounts[n - 1], turns[n - 1]);
    }
  }

  /** Labels the check did not serve keep whatever credential the pool had. */
  lemma {:induction false} PoolKeepsOthers(pool: Pool, syncs: seq<Sync>, x: string)
    requires forall y :: y in syncs ==> y.name != x
    ensures x in ApplySyncs(pool, syncs) <==> x in pool
    ensures x in pool ==> ApplySyncs(pool, syncs)[x] == pool[x]
  {
    if syncs != [] {
      PoolKeepsOthers(pool, syncs[..|syncs| - 1], x);
    }
  }

  /** The syncs of a trace are of different accounts. */
  lemma {:induction false} SyncsAreDistinct(accounts: seq<AccountRow>, turns: seq<Turn>, n: nat)
    requires n <= |accounts| == |turns| && DistinctAccounts(accounts)
    requires forall k :: 0 <= k < n && SyncsOf(turns[k]) != [] ==> SyncsOf(turns[k])[0].name == accounts[k].name
    ensures var syncs := TraceOf(accounts, turns, n).syncs;
            && (forall y :: y in syncs ==> exists k :: 0 <= k < n && accounts[k].name == y.name)
            && forall i, j :: 0 <= i < j < |syncs| ==> syncs[i].name != syncs[j].name
    decreases n
  {
    if n > 0 {
      SyncsAreDistinct(accounts, turns, n - 1);
      var t := TraceOf(accounts, turns, n - 1);
      ExtendedAppends(t, accounts[n - 1], turns[n - 1]);
      forall y | y in t.syncs ensures y.name != accounts[n - 1].name {
      }
    }
  }

  /** A credential that was synced is what the pool holds; one whose sync raised may have been put in or
      taken out by then. */
  lemma {:induction false} PoolHoldsSynced(pool: Pool, syncs: seq<Sync>, i: nat)
    requires i < |syncs| && forall j, k :: 0 <= j < k < |syncs| ==> syncs[j].name != syncs[k].name
    ensures var y, after := syncs[i], ApplySyncs(pool, syncs);
            match y.effect
            case SyncOk => y.name in after && after[y.name] == (y.authToken, y.ct0)
            case SyncRaises(removed, added) =>
              if added then y.name in after && after[y.name] == (y.authToken, y.ct0)
              else if removed then y.name !in after
              else (y.name in after <==> y.name in pool) && (y.name in pool ==> after[y.name] == pool[y.name])
  {
    var n := |syncs| - 1;
    var init := syncs[..n];
    if i < n {
      PoolHoldsSynced(pool, init, i);
      assert init[i] == syncs[i] && syncs[i].name != syncs[n].name;
    } else {
      forall y | y in init ensures y.name != syncs[n].name {
      }
      PoolKeepsOthers(pool, init, syncs[n].name);
    }
  }

  /** After a check that did not raise, the pool holds, for every account that had its turn and whose
      sync worked, the credential that was synced for it. */
  lemma CheckFillsPool(decrypt: Decrypt, s: Served, validate: bool, readings: nat -> Reading, pool: Pool, i: nat)
    requires DistinctAccounts(s.accounts) && i < |TraceOfCheck(decrypt, s, validate, readings).syncs|
    ensures var syncs := TraceOfCheck(decrypt, s, validate, readings).syncs;
            var y, after := syncs[i], ApplySyncs(pool, syncs);
            y.effect.SyncOk? ==> y.name in after && after[y.name] == (y.authToken, y.ct0)
  {
    var turns := Turns(decrypt, s, validate, readings);
    TurnsAre(decrypt, s, validate, readings);
    forall k | 0 <= k < |turns| && SyncsOf(turns[k]) != [] ensures SyncsOf(turns[k])[0].name == s.accounts[k].name {
      TurnSays(decrypt, s.accounts[k], s.restoredFrom, validate, readings(k));
    }
    SyncsAreDistinct(s.accounts, turns, |turns|);
    PoolHoldsSynced(pool, TraceOfCheck(decrypt, s, validate, readings).syncs, i);
  }

  /** The last status sent for a label is what its row shows afterwards. */
  lemma {:induction false} StatusLands(accounts: Accounts, ws: seq<StatusWrite>,
                                       now: nat -> string, error: nat -> Option<string>, i: nat)
    requires i < |ws| && ws[i].name in accounts && forall j :: i < j < |ws| ==> ws[j].name != ws[i].name
    ensures var after := ApplyStatuses(accounts, ws, now, error);
            && ws[i].name in after
            && var row := after[ws[i].name];
            && row.status == StatusText(ws[i].status)
            && row.lastCheckOk == Some(if ws[i].status.CONNECTED? then 1 else 0)
            && row.lastCheckedAt == Some(now(i)) && row.lastError == error(i) && row.updatedAt == now(i)
  {
    var n := |ws| - 1;
    OnlyStatusColumns(accounts, ws[..n], now, error);
    if i < n {
      assert ws[..n][i] == ws[i];
      StatusLands(accounts, ws[..n], now, error, i);
    }
  }

  /** Reading a status back gives the status that was written. */
  lemma ParsesTo(x: XStatus)
    ensures ParseStatus(StatusText(x)) == x
  {
    match x {
      case CONNECTED =>
      case INVALID_SESSION =>
      case RATE_LIMITED =>
      case X_UNAVAILABLE =>
      case CONFIG_ERROR =>
      case NOT_CONFIGURED =>
    }
  }

  /** The syncs that used a single row of the backup store. */
  function FromRows(syncs: seq<Sync>): seq<Sync> {
    if syncs == [] then []
    else FromRows(syncs[..|syncs| - 1]) + (if syncs[|syncs| - 1].source.FromRow? then [syncs[|syncs| - 1]] else [])
  }

  /** What is reported as restored: exactly the labels of those syncs, in order, with the snapshot of
      the last one. */
  predicate ReportsRestored(t: Trace) {
    var rows := FromRows(t.syncs);
    && |t.restoredLabels| == |rows| && (forall i :: 0 <= i < |rows| ==> t.restoredLabels[i] == rows[i].name)
    && t.credentialSid == if rows == [] then None else Some(SidOf(rows[|rows| - 1].source))
  }

  lemma StillReportsRestored(t: Trace, acct: AccountRow, turn: Turn)
    requires ReportsRestored(t) && (SyncsOf(turn) != [] ==> SyncsOf(turn)[0].name == acct.name)
    ensures ReportsRestored(Extended(t, acct, turn))
  {
    ExtendedAppends(t, acct, turn);
    FromRowsAppend(t.syncs, SyncsOf(turn));
    if RestoresRow(turn) {
      assert FromRows(t.syncs + SyncsOf(turn)) == FromRows(t.syncs) + SyncsOf(turn);
    } else {
      assert FromRows(t.syncs + SyncsOf(turn)) == FromRows(t.syncs);
    }
  }

  lemma {:induction false} RestoredAreReported(accounts: seq<AccountRow>, turns: seq<Turn>, n: nat)
    requires n <= |accounts| == |turns|
    requires forall k :: 0 <= k < n && SyncsOf(turns[k]) != [] ==> SyncsOf(turns[k])[0].name == accounts[k].name
    ensures ReportsRestored(TraceOf(accounts, turns, n))
    decreases n
  {
    if n > 0 {
      RestoredAreReported(accounts, turns, n - 1);
      StillReportsRestored(TraceOf(accounts, turns, n - 1), accounts[n - 1], turns[n - 1]);
    }
  }

  /** The check as a whole reports what it restored. */
  lemma CheckReportsRestored(decrypt: Decrypt, s: Served, validate: bool, readings: nat -> Reading)
    ensures ReportsRestored(TraceOfCheck(decrypt, s, validate, readings))
  {
    var turns := Turns(decrypt, s, validate, readings);
    TurnsAre(decrypt, s, validate, readings);
    forall k | 0 <= k < |turns| && SyncsOf(turns[k]) != [] ensures SyncsOf(turns[k])[0].name == s.accounts[k].name {
      TurnSays(decrypt, s.accounts[k], s.restoredFrom, validate, readings(k));
    }
    RestoredAreReported(s.accounts, turns, |turns|);
  }

  function SidOf(source: Source): string {
    match source
    case FromPrimary => ""
    case FromRow(sid) => sid
    case FromSnapshot(sid) => sid
  }

  lemma FromRowsAppend(a: seq<Sync>, b: seq<Sync>)
    requires |b| <= 1
    ensures FromRows(a + b) == FromRows(a) + (if b != [] && b[0].source.FromRow? then b else [])
  {
    if b == [] {
      assert a + b == a;
    } else {
      assert b == [b[0]] && (a + b)[..|a + b| - 1] == a;
    }
  }
}
