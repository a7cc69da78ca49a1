/**
  Restoring a snapshot into the primary (`restore_snapshot`): accounts are upserted and their status
  columns set, flags are upserted, and audit rows are inserted unless their key is already there.
  Each step is one autocommitted statement; a crash may fall between any two.
 */
module Restore {
  import opened BackupManager
  import opened SnapshotStore
  import opened Wrappers

  datatype PrimaryAccount = PrimaryAccount(id: nat, row: AccountRow)

  datatype PrimaryFlag = PrimaryFlag(enabled: int, updatedAt: string)

  datatype Primary = Primary(
    accounts: map<string, PrimaryAccount>, flags: map<string, PrimaryFlag>, audit: seq<AuditEntry>)

  /** What one restore reads of a snapshot. */
  datatype Snapshot = Snapshot(accounts: seq<AccountRow>, flags: seq<(string, int)>, audits: seq<AuditEntry>)

  /** Values a statement takes from its surroundings: the time, and the id of a new row. */
  type Env = nat -> (string, nat)

  type AuditKey = (string, string, Option<string>)

  datatype Write =
    | Upsert(name: string, encAuthToken: string, encCt0: string, enabled: int, meta: string, now: string, newId: nat)
    | SetStatus(row: AccountRow)
    | PutFlag(toolName: string, on: int, now: string)
    | AddAudit(entry: AuditEntry)

  /** `int(bool(x))` */
  function Bit(n: int): int {
    if n == 0 then 0 else 1
  }

  /** `meta or "{}"` */
  function MetaOr(meta: Option<string>): string {
    if meta.None? || meta.value == "" then "{}" else meta.value
  }

  function ApplyWrite(p: Primary, w: Write): Primary {
    match w
    case Upsert(name, token, ct0, enabled, meta, now, newId) =>
      var row :=
        if name in p.accounts then
          p.accounts[name].row.(
            encAuthToken := token, encCt0 := ct0, enabled := enabled, meta := Some(meta), updatedAt := now)
        else AccountRow(name, token, ct0, enabled, "NOT_CONFIGURED", None, None, None, Some(meta), now, now);
      var id := if name in p.accounts then p.accounts[name].id else newId;
      p.(accounts := p.accounts[name := PrimaryAccount(id, row)])
    case SetStatus(r) =>
      if r.name !in p.accounts then p
      else
        var a := p.accounts[r.name];
        p.(accounts := p.accounts[r.name := a.(row := a.row.(
          status := r.status, lastCheckedAt := r.lastCheckedAt, lastCheckOk := r.lastCheckOk,
          lastError := r.lastError, createdAt := r.createdAt, updatedAt := r.updatedAt))])
    case PutFlag(tool, on, now) => p.(flags := p.flags[tool := PrimaryFlag(on, now)])
    case AddAudit(e) => p.(audit := p.audit + [e])
  }

  function ApplyAll(p: Primary, ws: seq<Write>): Primary
    decreases |ws|
  {
    if ws == [] then p else ApplyAll(ApplyWrite(p, ws[0]), ws[1..])
  }

  function KeyOf(e: AuditEntry): AuditKey {
    (e.ts, e.action, e.requestId)
  }

  function Keys(audit: seq<AuditEntry>): set<AuditKey> {
    set e | e in audit :: KeyOf(e)
  }

  // ------------------------------------------------------------------
  // The statements of a restore

  function AccountWrites(r: AccountRow, env: (string, nat)): seq<Write> {
    [Upsert(r.name, r.encAuthToken, r.encCt0, Bit(r.enabled), MetaOr(r.meta), env.0, env.1), SetStatus(r)]
  }

  function AccountPlan(rows: seq<AccountRow>, env: Env): seq<Write> {
    if rows == [] then [] else AccountWrites(rows[0], env(|rows|)) + AccountPlan(rows[1..], env)
  }

  function FlagPlan(flags: seq<(string, int)>, env: Env): seq<Write> {
    if flags == [] then []
    else [PutFlag(flags[0].0, Bit(flags[0].1), env(|flags|).0)] + FlagPlan(flags[1..], env)
  }

  /** The audit rows whose key is not there yet, each key once. */
  function Missing(audits: seq<AuditEntry>, existing: set<AuditKey>): seq<AuditEntry> {
    if audits == [] then []
    else if KeyOf(audits[0]) in existing then Missing(audits[1..], existing)
    else [audits[0]] + Missing(audits[1..], existing + {KeyOf(audits[0])})
  }

  function AuditPlan(audits: seq<AuditEntry>): (ws: seq<Write>)
    ensures |ws| == |audits| && forall i :: 0 <= i < |audits| ==> ws[i] == AddAudit(audits[i])
  {
    seq(|audits|, i requires 0 <= i < |audits| => AddAudit(audits[i]))
  }

  function Plan(snap: Snapshot, existing: set<AuditKey>, env: Env): seq<Write> {
    AccountPlan(snap.accounts, env) + FlagPlan(snap.flags, env) + AuditPlan(Missing(snap.audits, existing))
  }

  /** A complete restore. */
  function Restored(p: Primary, snap: Snapshot, env: Env): Primary {
    ApplyAll(p, Plan(snap, Keys(p.audit), env))
  }

  // ------------------------------------------------------------------
  // The restore loop

  /** The primary, able to execute a given number of statements before the process dies. */
  class PrimaryStore {
    var p: Primary
    var left: nat

    constructor (p: Primary, left: nat)
      ensures this.p == p && this.left == left
    {
      this.p, this.left := p, left;
    }

    method Exec(w: Write) returns (ok: bool)
      modifies this
      ensures ok == (old(left) > 0)
      ensures p == if ok then ApplyWrite(old(p), w) else old(p)
      ensures left == if ok then old(left) - 1 else 0
    {
      if left == 0 {
        return false;
      }
      p, left := ApplyWrite(p, w), left - 1;
      return true;
    }

    method RestoreAccounts(rows: seq<AccountRow>, env: Env) returns (ok: bool, ghost n: nat)
      modifies this
      ensures n <= |AccountPlan(rows, env)| && p == ApplyAll(old(p), AccountPlan(rows, env)[..n])
      ensures ok ==> n == |AccountPlan(rows, env)|
      ensures old(left) >= |AccountPlan(rows, env)| ==> ok && left == old(left) - |AccountPlan(rows, env)|
    {
      n := 0;
      ghost var plan := AccountPlan(rows, env);
      assert rows[0..] == rows && plan[0..] == plan;
      for k := 0 to |rows|
        invariant n <= |plan| && plan[n..] == AccountPlan(rows[k..], env)
        invariant p == ApplyAll(old(p), plan[..n]) && left + n == old(left)
      {
        var r := rows[k];
        var e := env(|rows| - k);
        assert rows[k..][0] == r && rows[k..][1..] == rows[k + 1..];
        ghost var two := AccountWrites(r, e);
        assert plan[n..] == two + AccountPlan(rows[k + 1..], env);
        assert plan[n] == plan[n..][0] && plan[n + 1] == plan[n..][1];
        ApplyPrefix(old(p), plan, n);
        ApplyPrefix(old(p), plan, n + 1);
        ok := Exec(Upsert(r.name, r.encAuthToken, r.encCt0, Bit(r.enabled), MetaOr(r.meta), e.0, e.1));
        if !ok {
          return;
        }
        n := n + 1;
        ok := Exec(SetStatus(r));
        if !ok {
          return;
        }
        n := n + 1;
        assert plan[n..] == plan[n - 2..][2..];
      }
      return true, n;
    }

    method RestoreFlags(flags: seq<(string, int)>, env: Env) returns (ok: bool, ghost n: nat)
      modifies this
      ensures n <= |FlagPlan(flags, env)| && p == ApplyAll(old(p), FlagPlan(flags, env)[..n])
      ensures ok ==> n == |FlagPlan(flags, env)|
      ensures old(left) >= |FlagPlan(flags, env)| ==> ok && left == old(left) - |FlagPlan(flags, env)|
    {
      n := 0;
      ghost var plan := FlagPlan(flags, env);
      assert flags[0..] == flags && plan[0..] == plan;
      for k := 0 to |flags|
        invariant n <= |plan| && plan[n..] == FlagPlan(flags[k..], env)
        invariant p == ApplyAll(old(p), plan[..n]) && left + n == old(left)
      {
        assert flags[k..][0] == flags[k] && flags[k..][1..] == flags[k + 1..];
        assert plan[n] == plan[n..][0] && plan[n + 1..] == plan[n..][1..];
        ApplyPrefix(old(p), plan, n);
        ok := Exec(PutFlag(flags[k].0, Bit(flags[k].1), env(|flags| - k).0));
        if !ok {
          return;
        }
        n := n + 1;
      }
      return true, n;
    }

    method RestoreAudits(audits: seq<AuditEntry>) returns (ok: bool, inserted: nat, ghost n: nat)
      modifies this
      ensures var plan := AuditPlan(Missing(audits, Keys(old(p).audit)));
              && n <= |plan| && p == ApplyAll(old(p), plan[..n])
              && (ok ==> n == |plan| && inserted == n)
              && (old(left) >= |plan| ==> ok)
    {
      n, inserted := 0, 0;
      var existing := set e | e in p.audit :: KeyOf(e);
      ghost var missing := Missing(audits, Keys(p.audit));
      ghost var plan := AuditPlan(missing);
      assert audits[0..] == audits && missing[0..] == missing;
      for k := 0 to |audits|
        invariant n <= |plan| && inserted == n && missing[n..] == Missing(audits[k..], existing)
        invariant p == ApplyAll(old(p), plan[..n]) && left + n == old(left)
      {
        assert audits[k..][0] == audits[k] && audits[k..][1..] == audits[k + 1..];
        if KeyOf(audits[k]) !in existing {
          assert missing[n] == missing[n..][0] && missing[n + 1..] == missing[n..][1..];
          ApplyPrefix(old(p), plan, n);
          ok := Exec(AddAudit(audits[k]));
          if !ok {
            return;
          }
          existing := existing + {KeyOf(audits[k])};
          inserted := inserted + 1;
          n := n + 1;
        }
      }
      return true, inserted, n;
    }

    /** Executes a prefix of the plan, all of it unless the process dies; `auditRestored` counts
        the audit rows it inserted. */
    method RestoreSnapshot(snap: Snapshot, env: Env) returns (ok: bool, auditRestored: nat, ghost n: nat)
      modifies this
      ensures IsPlanPrefix(old(p), p, snap, env, n)
      ensures ok ==> n == |Plan(snap, Keys(old(p).audit), env)|
      ensures ok ==> auditRestored == |Missing(snap.audits, Keys(old(p).audit))|
      ensures old(left) >= |Plan(snap, Keys(old(p).audit), env)| ==> ok
    {
      ghost var p0 := p;
      ghost var i, j, k;
      auditRestored := 0;
      ok, i := RestoreAccounts(snap.accounts, env);
      ghost var p1 := p;
      n := i;
      if !ok {
        StoppedInAccounts(p0, p1, snap, env, i);
        return;
      }
      ok, j := RestoreFlags(snap.flags, env);
      ghost var p2 := p;
      n := i + j;
      StoppedInFlags(p0, p1, p2, snap, env, i, j);
      if !ok {
        return;
      }
      ok, auditRestored, k := RestoreAudits(snap.audits);
      n := i + j + k;
      StoppedInAudits(p0, p1, p2, p, snap, env, i, j, k);
    }
  }

  /** `q` is what the first `n` statements of a restore leave of `p`. */
  predicate IsPlanPrefix(p: Primary, q: Primary, snap: Snapshot, env: Env, n: nat) {
    var plan := Plan(snap, Keys(p.audit), env);
    n <= |plan| && q == ApplyAll(p, plan[..n])
  }

  /** Stopping the plan inside its first, second or third part. */
  lemma PlanPrefix(p: Primary, snap: Snapshot, env: Env, i: nat, j: nat, k: nat)
    requires i <= |AccountPlan(snap.accounts, env)| && (j > 0 || k > 0 ==> i == |AccountPlan(snap.accounts, env)|)
    requires j <= |FlagPlan(snap.flags, env)| && (k > 0 ==> j == |FlagPlan(snap.flags, env)|)
    requires k <= |Missing(snap.audits, Keys(p.audit))|
    ensures |Plan(snap, Keys(p.audit), env)|
         == |AccountPlan(snap.accounts, env)| + |FlagPlan(snap.flags, env)| + |Missing(snap.audits, Keys(p.audit))|
    ensures var p1 := ApplyAll(p, AccountPlan(snap.accounts, env)[..i]);
            var p2 := ApplyAll(p1, FlagPlan(snap.flags, env)[..j]);
            var p3 := ApplyAll(p2, AuditPlan(Missing(snap.audits, Keys(p.audit)))[..k]);
            && IsPlanPrefix(p, p3, snap, env, i + j + k)
            && (k == 0 ==> p3 == p2) && (j == 0 ==> p2 == p1)
            && p2.audit == p1.audit == p.audit
  {
    var a, b := AccountPlan(snap.accounts, env), FlagPlan(snap.flags, env);
    var c := AuditPlan(Missing(snap.audits, Keys(p.audit)));
    PrefixOfPlan(a, b, c, i, j, k);
    ApplyConcat(p, a[..i] + b[..j], c[..k]);
    ApplyConcat(p, a[..i], b[..j]);
    AccountsKeepRest(p, snap.accounts, env, i);
    FlagsKeepRest(ApplyAll(p, a[..i]), snap.flags, env, j);
    assert c[..0] == [] && b[..0] == [];
  }

  lemma FrontOfPlan(a: seq<Write>, b: seq<Write>, c: seq<Write>, i: nat)
    requires i <= |a|
    ensures |a + b + c| == |a| + |b| + |c| && (a + b + c)[..i] == a[..i]
  {
  }

  lemma StoppedInAccounts(p: Primary, p1: Primary, snap: Snapshot, env: Env, i: nat)
    requires i <= |AccountPlan(snap.accounts, env)| && p1 == ApplyAll(p, AccountPlan(snap.accounts, env)[..i])
    ensures IsPlanPrefix(p, p1, snap, env, i)
    ensures |Plan(snap, Keys(p.audit), env)| == PlanLength(p, snap, env)
  {
    var a, b := AccountPlan(snap.accounts, env), FlagPlan(snap.flags, env);
    var c := AuditPlan(Missing(snap.audits, Keys(p.audit)));
    FrontOfPlan(a, b, c, i);
    assert Plan(snap, Keys(p.audit), env)[..i] == a[..i];
    StartsPlan(p, p1, snap, env, i, a[..i]);
  }

  lemma StartsPlan(p: Primary, q: Primary, snap: Snapshot, env: Env, n: nat, ws: seq<Write>)
    requires n <= |Plan(snap, Keys(p.audit), env)| && Plan(snap, Keys(p.audit), env)[..n] == ws
    requires q == ApplyAll(p, ws)
    ensures IsPlanPrefix(p, q, snap, env, n)
  {
  }

  lemma StoppedInFlags(p: Primary, p1: Primary, p2: Primary, snap: Snapshot, env: Env, i: nat, j: nat)
    requires i == |AccountPlan(snap.accounts, env)| && p1 == ApplyAll(p, AccountPlan(snap.accounts, env)[..i])
    requires j <= |FlagPlan(snap.flags, env)| && p2 == ApplyAll(p1, FlagPlan(snap.flags, env)[..j])
    ensures IsPlanPrefix(p, p2, snap, env, i + j)
    ensures p2.audit == p.audit
    ensures |Plan(snap, Keys(p.audit), env)| == PlanLength(p, snap, env)
  {
    PlanPrefix(p, snap, env, i, j, 0);
  }

  lemma StoppedInAudits(p: Primary, p1: Primary, p2: Primary, p3: Primary, snap: Snapshot, env: Env,
                        i: nat, j: nat, k: nat)
    requires i == |AccountPlan(snap.accounts, env)| && p1 == ApplyAll(p, AccountPlan(snap.accounts, env)[..i])
    requires j == |FlagPlan(snap.flags, env)| && p2 == ApplyAll(p1, FlagPlan(snap.flags, env)[..j])
    requires k <= |Missing(snap.audits, Keys(p.audit))|
    requires p3 == ApplyAll(p2, AuditPlan(Missing(snap.audits, Keys(p.audit)))[..k])
    ensures IsPlanPrefix(p, p3, snap, env, i + j + k)
  {
    PlanPrefix(p, snap, env, i, j, k);
  }

  function PlanLength(p: Primary, snap: Snapshot, env: Env): nat {
    |AccountPlan(snap.accounts, env)| + |FlagPlan(snap.flags, env)| + |Missing(snap.audits, Keys(p.audit))|
  }

  lemma PrefixOfPlan(a: seq<Write>, b: seq<Write>, c: seq<Write>, i: nat, j: nat, k: nat)
    requires i <= |a| && j <= |b| && k <= |c| && (j > 0 ==> i == |a|) && (k > 0 ==> i == |a| && j == |b|)
    ensures (a + b + c)[..i + j + k] == a[..i] + b[..j] + c[..k]
  {
  }

  lemma {:induction false} ApplyConcat(p: Primary, a: seq<Write>, b: seq<Write>)
    ensures ApplyAll(p, a + b) == ApplyAll(ApplyAll(p, a), b)
    decreases |a|
  {
    if a == [] {
      assert a + b == b;
    } else {
      ApplyConcat(ApplyWrite(p, a[0]), a[1..], b);
      assert (a + b)[1..] == a[1..] + b;
    }
  }

  lemma ApplyPrefix(p: Primary, ws: seq<Write>, n: nat)
    requires n < |ws|
    ensures ApplyAll(p, ws[..n + 1]) == ApplyWrite(ApplyAll(p, ws[..n]), ws[n])
  {
    ApplyConcat(p, ws[..n], [ws[n]]);
    assert ws[..n + 1] == ws[..n] + [ws[n]];
    assert [ws[n]][1..] == [];
  }

  // ------------------------------------------------------------------
  // What each part of the plan does

  function Names(rows: seq<AccountRow>): set<string> {
    set r | r in rows :: r.name
  }

  function Tools(flags: seq<(string, int)>): set<string> {
    set f | f in flags :: f.0
  }

  /** Nothing but the accounts named changes, and no account disappears. */
  ghost predicate OnlyAccounts(p: Primary, q: Primary, names: set<string>) {
    && q.flags == p.flags && q.audit == p.audit
    && q.accounts.Keys <= p.accounts.Keys + names && p.accounts.Keys <= q.accounts.Keys
    && forall x :: x in p.accounts && x !in names ==> q.accounts[x] == p.accounts[x]
  }

  lemma {:induction false} AccountsKeepRest(p: Primary, rows: seq<AccountRow>, env: Env, n: nat)
    requires n <= |AccountPlan(rows, env)|
    ensures OnlyAccounts(p, ApplyAll(p, AccountPlan(rows, env)[..n]), Names(rows))
    decreases |rows|
  {
    var plan := AccountPlan(rows, env);
    if n == 0 {
      assert plan[..0] == [];
    } else {
      var p1 := ApplyWrite(p, plan[0]);
      if n == 1 {
        assert plan[..1] == [plan[0]] && [plan[0]][1..] == [];
        assert rows[0] in rows;
      } else {
        var p2 := ApplyWrite(p1, plan[1]);
        AccountsKeepRest(p2, rows[1..], env, n - 2);
        assert plan[2..] == AccountPlan(rows[1..], env);
        assert plan[..n][1..][1..] == AccountPlan(rows[1..], env)[..n - 2];
        assert Names(rows) == {rows[0].name} + Names(rows[1..]) by {
          assert forall r :: r in rows <==> r == rows[0] || r in rows[1..];
        }
      }
    }
  }

  /** The row as a restore writes it. */
  /** The columns a restore gives to a captured row: all as captured, with the switch as 0 or 1 and an
      empty metadata column as the empty object. */
  function AsRestored(r: AccountRow): AccountRow {
    r.(enabled := if r.enabled == 0 then 0 else 1,
       meta := if r.meta == None || r.meta == Some("") then Some("{}") else r.meta)
  }

  ghost predicate DistinctNames(rows: seq<AccountRow>) {
    forall i, j :: 0 <= i < j < |rows| ==> rows[i].name != rows[j].name
  }

  /** Every key of the accounts table is the label of its row. */
  predicate Keyed(p: Primary) {
    forall x :: x in p.accounts ==> p.accounts[x].row.name == x
  }

  lemma {:induction false} AccountsRestored(p: Primary, rows: seq<AccountRow>, env: Env)
    requires Keyed(p) && DistinctNames(rows)
    ensures var q := ApplyAll(p, AccountPlan(rows, env));
            && Keyed(q)
            && forall i :: 0 <= i < |rows| ==>
                 rows[i].name in q.accounts && q.accounts[rows[i].name].row == AsRestored(rows[i])
    decreases |rows|
  {
    if rows != [] {
      var plan := AccountPlan(rows, env);
      var p1 := ApplyWrite(p, plan[0]);
      var p2 := ApplyWrite(p1, plan[1]);
      assert plan[2..] == AccountPlan(rows[1..], env) && plan[1..][1..] == plan[2..];
      AccountsRestored(p2, rows[1..], env);
      AccountsKeepRest(p2, rows[1..], env, |AccountPlan(rows[1..], env)|);
      assert AccountPlan(rows[1..], env)[..|AccountPlan(rows[1..], env)|] == AccountPlan(rows[1..], env);
      assert rows[0].name !in Names(rows[1..]);
      var q := ApplyAll(p, plan);
      assert q == ApplyAll(p1, plan[1..]) == ApplyAll(p2, plan[1..][1..]);
      assert p2.accounts[rows[0].name].row == AsRestored(rows[0]);
      forall i | 0 <= i < |rows|
        ensures rows[i].name in q.accounts && q.accounts[rows[i].name].row == AsRestored(rows[i])
      {
        if i > 0 {
          assert rows[1..][i - 1] == rows[i];
        }
      }
    }
  }

  ghost predicate OnlyFlags(p: Primary, q: Primary, tools: set<string>) {
    && q.accounts == p.accounts && q.audit == p.audit
    && q.flags.Keys <= p.flags.Keys + tools && p.flags.Keys <= q.flags.Keys
    && forall x :: x in p.flags && x !in tools ==> q.flags[x] == p.flags[x]
  }

  lemma {:induction false} FlagsKeepRest(p: Primary, flags: seq<(string, int)>, env: Env, n: nat)
    requires n <= |FlagPlan(flags, env)|
    ensures OnlyFlags(p, ApplyAll(p, FlagPlan(flags, env)[..n]), Tools(flags))
    decreases |flags|
  {
    var plan := FlagPlan(flags, env);
    if n == 0 {
      assert plan[..0] == [];
    } else {
      FlagsKeepRest(ApplyWrite(p, plan[0]), flags[1..], env, n - 1);
      assert plan[1..] == FlagPlan(flags[1..], env);
      assert plan[..n][1..] == FlagPlan(flags[1..], env)[..n - 1];
      assert Tools(flags) == {flags[0].0} + Tools(flags[1..]) by {
        assert forall f :: f in flags <==> f == flags[0] || f in flags[1..];
      }
    }
  }

  ghost predicate DistinctTools(flags: seq<(string, int)>) {
    forall i, j :: 0 <= i < j < |flags| ==> flags[i].0 != flags[j].0
  }

  lemma {:induction false} FlagsRestored(p: Primary, flags: seq<(string, int)>, env: Env)
    requires DistinctTools(flags)
    ensures var q := ApplyAll(p, FlagPlan(flags, env));
            forall i :: 0 <= i < |flags| ==>
              flags[i].0 in q.flags && q.flags[flags[i].0].enabled == (if flags[i].1 == 0 then 0 else 1)
    decreases |flags|
  {
    if flags != [] {
      var plan, rest := FlagPlan(flags, env), FlagPlan(flags[1..], env);
      var p1 := ApplyWrite(p, plan[0]);
      assert plan[1..] == rest && rest[..|rest|] == rest;
      FlagsRestored(p1, flags[1..], env);
      FlagsKeepRest(p1, flags[1..], env, |rest|);
      var q := ApplyAll(p, plan);
      assert flags[0].0 !in Tools(flags[1..]);
      forall i | 0 <= i < |flags|
        ensures flags[i].0 in q.flags && q.flags[flags[i].0].enabled == (if flags[i].1 == 0 then 0 else 1)
      {
        if i > 0 {
          assert flags[1..][i - 1] == flags[i];
        }
      }
    }
  }

  lemma {:induction false} AuditsAppended(p: Primary, audits: seq<AuditEntry>)
    ensures ApplyAll(p, AuditPlan(audits)) == p.(audit := p.audit + audits)
    decreases |audits|
  {
    if audits == [] {
      assert p.audit + audits == p.audit;
    } else {
      AuditsAppended(ApplyWrite(p, AddAudit(audits[0])), audits[1..]);
      assert AuditPlan(audits)[1..] == AuditPlan(audits[1..]);
      assert p.audit + [audits[0]] + audits[1..] == p.audit + audits;
    }
  }

  lemma {:induction false} MissingKeys(audits: seq<AuditEntry>, existing: set<AuditKey>)
    ensures existing + Keys(Missing(audits, existing)) == existing + Keys(audits)
    ensures Keys(audits) <= existing ==> Missing(audits, existing) == []
  {
    if audits != [] {
      var k := KeyOf(audits[0]);
      assert Keys(audits) == {k} + Keys(audits[1..]) by {
        assert forall e :: e in audits <==> e == audits[0] || e in audits[1..];
      }
      if k in existing {
        MissingKeys(audits[1..], existing);
      } else {
        MissingKeys(audits[1..], existing + {k});
        var rest := Missing(audits[1..], existing + {k});
        assert Keys([audits[0]] + rest) == {k} + Keys(rest) by {
          assert forall e :: e in [audits[0]] + rest <==> e == audits[0] || e in rest;
        }
      }
    }
  }

  /** The rows missing after the first `m` missing rows were inserted are the remaining ones. */
  lemma {:induction false} MissingResumes(audits: seq<AuditEntry>, existing: set<AuditKey>, m: nat)
    requires m <= |Missing(audits, existing)|
    ensures Missing(audits, existing + Keys(Missing(audits, existing)[..m])) == Missing(audits, existing)[m..]
  {
    var all := Missing(audits, existing);
    if m == 0 {
      assert existing + Keys(all[..0]) == existing && all[0..] == all;
    } else {
      var k := KeyOf(audits[0]);
      if k in existing {
        MissingResumes(audits[1..], existing, m);
      } else {
        var rest := Missing(audits[1..], existing + {k});
        MissingResumes(audits[1..], existing + {k}, m - 1);
        FirstMissing(audits[0], rest, existing, m);
      }
    }
  }

  lemma FirstMissing(e: AuditEntry, rest: seq<AuditEntry>, existing: set<AuditKey>, m: nat)
    requires 0 < m <= |rest| + 1
    ensures existing + Keys(([e] + rest)[..m]) == existing + {KeyOf(e)} + Keys(rest[..m - 1])
    ensures ([e] + rest)[m..] == rest[m - 1..]
  {
    assert ([e] + rest)[..m] == [e] + rest[..m - 1];
    KeysConcat([e], rest[..m - 1]);
    assert Keys([e]) == {KeyOf(e)};
  }

  lemma KeysConcat(a: seq<AuditEntry>, b: seq<AuditEntry>)
    ensures Keys(a + b) == Keys(a) + Keys(b)
  {
    assert forall e :: e in a + b <==> e in a || e in b;
  }

  // ------------------------------------------------------------------
  // A complete restore

  ghost predicate Proper(snap: Snapshot) {
    DistinctNames(snap.accounts) && DistinctTools(snap.flags)
  }

  ghost predicate AccountEffect(p: Primary, q: Primary, rows: seq<AccountRow>) {
    && q.accounts.Keys == p.accounts.Keys + Names(rows)
    && (forall i :: 0 <= i < |rows| ==>
          rows[i].name in q.accounts && q.accounts[rows[i].name].row == AsRestored(rows[i]))
    && (forall x :: x in p.accounts && x !in Names(rows) ==> x in q.accounts && q.accounts[x] == p.accounts[x])
  }

  ghost predicate FlagEffect(p: Primary, q: Primary, flags: seq<(string, int)>) {
    && q.flags.Keys == p.flags.Keys + Tools(flags)
    && (forall i :: 0 <= i < |flags| ==>
          flags[i].0 in q.flags && q.flags[flags[i].0].enabled == (if flags[i].1 == 0 then 0 else 1))
    && (forall x :: x in p.flags && x !in Tools(flags) ==> x in q.flags && q.flags[x] == p.flags[x])
  }

  /** The whole effect of a restore, up to the ids of new rows and the flags' `updated_at`: every
      account and flag of the snapshot is as captured, the rest is as it was, nothing is deleted,
      and exactly the missing audit rows are added. */
  ghost predicate RestoreEffect(p: Primary, q: Primary, snap: Snapshot) {
    && AccountEffect(p, q, snap.accounts)
    && FlagEffect(p, q, snap.flags)
    && q.audit == p.audit + Missing(snap.audits, Keys(p.audit))
  }

  lemma AccountStage(p: Primary, rows: seq<AccountRow>, env: Env)
    requires Keyed(p) && DistinctNames(rows)
    ensures var q := ApplyAll(p, AccountPlan(rows, env));
            Keyed(q) && AccountEffect(p, q, rows) && q.flags == p.flags && q.audit == p.audit
  {
    var a := AccountPlan(rows, env);
    assert a[..|a|] == a;
    AccountsKeepRest(p, rows, env, |a|);
    AccountsRestored(p, rows, env);
    var q := ApplyAll(p, a);
    forall x | x in Names(rows) ensures x in q.accounts {
      var r :| r in rows && r.name == x;
    }
  }

  lemma FlagStage(p: Primary, flags: seq<(string, int)>, env: Env)
    requires DistinctTools(flags)
    ensures var q := ApplyAll(p, FlagPlan(flags, env));
            FlagEffect(p, q, flags) && q.accounts == p.accounts && q.audit == p.audit
  {
    var b := FlagPlan(flags, env);
    assert b[..|b|] == b;
    FlagsKeepRest(p, flags, env, |b|);
    FlagsRestored(p, flags, env);
    var q := ApplyAll(p, b);
    forall x | x in Tools(flags) ensures x in q.flags {
      var f :| f in flags && f.0 == x;
    }
  }

  /** A complete restore has exactly the effect described. */
  lemma RestoreDoes(p: Primary, snap: Snapshot, env: Env)
    requires Keyed(p) && Proper(snap)
    ensures RestoreEffect(p, Restored(p, snap, env), snap) && Keyed(Restored(p, snap, env))
  {
    var a, b := AccountPlan(snap.accounts, env), FlagPlan(snap.flags, env);
    var missing := Missing(snap.audits, Keys(p.audit));
    ApplyConcat(p, a + b, AuditPlan(missing));
    ApplyConcat(p, a, b);
    var p1 := ApplyAll(p, a);
    AccountStage(p, snap.accounts, env);
    FlagStage(p1, snap.flags, env);
    AuditsAppended(ApplyAll(p1, b), missing);
  }

  /** What the effect is, column by column: nothing of a captured account or flag is lost, the disabled
      ones come back disabled, and only captured audit rows are added, in full. */
  lemma RestoreColumns(p: Primary, snap: Snapshot, env: Env)
    requires Keyed(p) && Proper(snap)
    ensures var q := Restored(p, snap, env);
            && (forall i :: 0 <= i < |snap.accounts| ==>
                  var r := snap.accounts[i];
                  && r.name in q.accounts
                  && (r.name in p.accounts ==> q.accounts[r.name].id == p.accounts[r.name].id)
                  && ColumnsBack(r, q.accounts[r.name].row))
            && (forall i :: 0 <= i < |snap.flags| ==>
                  var (tool, on) := snap.flags[i];
                  tool in q.flags && q.flags[tool].enabled == (if on == 0 then 0 else 1))
            && p.audit <= q.audit
            && (forall j :: |p.audit| <= j < |q.audit| ==>
                  exists i :: 0 <= i < |snap.audits| && q.audit[j] == snap.audits[i]
                              && IsNewAt(snap.audits, Keys(p.audit), i))
            && (forall i :: 0 <= i < |snap.audits| && IsNewAt(snap.audits, Keys(p.audit), i) ==>
                  snap.audits[i] in q.audit)
  {
    var q, missing := Restored(p, snap, env), Missing(snap.audits, Keys(p.audit));
    RestoreDoes(p, snap, env);
    IdsStay(p, Plan(snap, Keys(p.audit), env));
    forall j | |p.audit| <= j < |q.audit|
      ensures exists i :: 0 <= i < |snap.audits| && q.audit[j] == snap.audits[i]
                          && IsNewAt(snap.audits, Keys(p.audit), i)
    {
      assert q.audit[j] == missing[j - |p.audit|];
      MissingIsNew(snap.audits, Keys(p.audit), q.audit[j]);
    }
    forall i | 0 <= i < |snap.audits| && IsNewAt(snap.audits, Keys(p.audit), i) ensures snap.audits[i] in q.audit {
      MissingIsNew(snap.audits, Keys(p.audit), snap.audits[i]);
      assert snap.audits[i] in missing;
    }
  }

  /** Two audit rows are the same one if time, action and request agree; the detail does not count. */
  lemma SameAuditKey(a: AuditEntry, b: AuditEntry)
    ensures KeyOf(a) == KeyOf(b) <==> a.ts == b.ts && a.action == b.action && a.requestId == b.requestId
  {
  }

  predicate ColumnsBack(captured: AccountRow, now: AccountRow) {
    && now.name == captured.name && now.encAuthToken == captured.encAuthToken && now.encCt0 == captured.encCt0
    && now.enabled == (if captured.enabled == 0 then 0 else 1)
    && now.status == captured.status && now.lastCheckedAt == captured.lastCheckedAt
    && now.lastCheckOk == captured.lastCheckOk && now.lastError == captured.lastError
    && now.meta == (if captured.meta == None || captured.meta == Some("") then Some("{}") else captured.meta)
    && now.createdAt == captured.createdAt && now.updatedAt == captured.updatedAt
  }

  lemma {:induction false} IdsStay(p: Primary, ws: seq<Write>)
    ensures forall x :: x in p.accounts ==>
              x in ApplyAll(p, ws).accounts && ApplyAll(p, ws).accounts[x].id == p.accounts[x].id
    decreases |ws|
  {
    if ws != [] {
      IdsStay(ApplyWrite(p, ws[0]), ws[1..]);
    }
  }

  /** The captured audit row `i` has a key that is neither there yet nor that of an earlier one. */
  predicate IsNewAt(audits: seq<AuditEntry>, existing: set<AuditKey>, i: nat)
    requires i < |audits|
  {
    KeyOf(audits[i]) !in existing && forall j :: 0 <= j < i ==> KeyOf(audits[j]) != KeyOf(audits[i])
  }

  /** The missing rows are exactly the captured rows with a new key, the first one of each. */
  lemma {:induction false} MissingIsNew(audits: seq<AuditEntry>, existing: set<AuditKey>, e: AuditEntry)
    ensures e in Missing(audits, existing) <==>
              exists i :: 0 <= i < |audits| && audits[i] == e && IsNewAt(audits, existing, i)
    decreases |audits|
  {
    if audits != [] {
      var k, rest := KeyOf(audits[0]), audits[1..];
      var existing' := existing + {k};
      MissingIsNew(rest, if k in existing then existing else existing', e);
      forall i | 1 <= i < |audits| ensures IsNewAt(audits, existing, i) <==> IsNewAt(rest, existing', i - 1) {
        NewLater(audits, existing, i);
      }
      assert forall i :: 0 <= i < |rest| ==> rest[i] == audits[i + 1];
      assert k in existing ==> existing' == existing;
      if e in Missing(audits, existing) {
        if k !in existing && e == audits[0] {
          assert IsNewAt(audits, existing, 0);
        } else {
          var i :| 0 <= i < |rest| && rest[i] == e && IsNewAt(rest, existing', i);
          assert audits[i + 1] == e && IsNewAt(audits, existing, i + 1);
        }
      }
      if i :| 0 <= i < |audits| && audits[i] == e && IsNewAt(audits, existing, i) {
        if i > 0 {
          assert rest[i - 1] == e && IsNewAt(rest, existing', i - 1);
        }
      }
    }
  }

  lemma NewLater(audits: seq<AuditEntry>, existing: set<AuditKey>, i: nat)
    requires 1 <= i < |audits|
    ensures IsNewAt(audits, existing, i) <==> IsNewAt(audits[1..], existing + {KeyOf(audits[0])}, i - 1)
  {
    var rest := audits[1..];
    assert forall j :: 0 <= j < |rest| ==> rest[j] == audits[j + 1];
    if IsNewAt(rest, existing + {KeyOf(audits[0])}, i - 1) {
      forall j | 0 <= j < i ensures KeyOf(audits[j]) != KeyOf(audits[i]) {
        if j > 0 {
          assert KeyOf(rest[j - 1]) != KeyOf(rest[i - 1]);
        }
      }
    }
  }

  /** Equal up to account ids and the flags' `updated_at`. */
  ghost predicate SameView(p: Primary, q: Primary) {
    && p.accounts.Keys == q.accounts.Keys && (forall x :: x in p.accounts ==> p.accounts[x].row == q.accounts[x].row)
    && p.flags.Keys == q.flags.Keys && (forall x :: x in p.flags ==> p.flags[x].enabled == q.flags[x].enabled)
    && p.audit == q.audit
  }

  /** What a restore that died has left: it has only touched what the snapshot names. */
  ghost predicate PartEffect(p: Primary, q: Primary, snap: Snapshot) {
    && p.accounts.Keys <= q.accounts.Keys <= p.accounts.Keys + Names(snap.accounts)
    && (forall x :: x in p.accounts && x !in Names(snap.accounts) ==> q.accounts[x] == p.accounts[x])
    && p.flags.Keys <= q.flags.Keys <= p.flags.Keys + Tools(snap.flags)
    && (forall x :: x in p.flags && x !in Tools(snap.flags) ==> q.flags[x] == p.flags[x])
  }

  lemma PrefixEffect(p: Primary, snap: Snapshot, env: Env, n: nat) returns (m: nat)
    requires n <= |Plan(snap, Keys(p.audit), env)|
    ensures m <= |Missing(snap.audits, Keys(p.audit))|
    ensures var q := ApplyAll(p, Plan(snap, Keys(p.audit), env)[..n]);
            PartEffect(p, q, snap) && q.audit == p.audit + Missing(snap.audits, Keys(p.audit))[..m]
  {
    var a, b := AccountPlan(snap.accounts, env), FlagPlan(snap.flags, env);
    var missing := Missing(snap.audits, Keys(p.audit));
    var c := AuditPlan(missing);
    var i := if n <= |a| then n else |a|;
    var j := if n <= |a| then 0 else if n <= |a| + |b| then n - |a| else |b|;
    m := if n <= |a| + |b| then 0 else n - |a| - |b|;
    PlanPrefix(p, snap, env, i, j, m);
    var p1 := ApplyAll(p, a[..i]);
    var p2 := ApplyAll(p1, b[..j]);
    AccountsKeepRest(p, snap.accounts, env, i);
    FlagsKeepRest(p1, snap.flags, env, j);
    assert c[..m] == AuditPlan(missing[..m]);
    AuditsAppended(p2, missing[..m]);
    JoinParts(p, p1, p2, snap);
  }

  lemma JoinParts(p: Primary, p1: Primary, p2: Primary, snap: Snapshot)
    requires OnlyAccounts(p, p1, Names(snap.accounts)) && OnlyFlags(p1, p2, Tools(snap.flags))
    ensures PartEffect(p, p2, snap) && p2.audit == p.audit
  {
  }

  lemma {:induction false} PrefixKeyed(p: Primary, ws: seq<Write>)
    requires Keyed(p)
    ensures Keyed(ApplyAll(p, ws))
    decreases |ws|
  {
    if ws != [] {
      PrefixKeyed(ApplyWrite(p, ws[0]), ws[1..]);
    }
  }

  /** Restore is resumable: dying after any statement and restoring again comes to the same primary
      as one undisturbed restore, whatever the clock and the id sequence did in between. */
  lemma RestoreIsResumable(p: Primary, snap: Snapshot, env1: Env, env2: Env, env3: Env, n: nat)
    requires Keyed(p) && Proper(snap) && n <= |Plan(snap, Keys(p.audit), env1)|
    ensures SameView(Restored(ApplyAll(p, Plan(snap, Keys(p.audit), env1)[..n]), snap, env2), Restored(p, snap, env3))
  {
    var dead := ApplyAll(p, Plan(snap, Keys(p.audit), env1)[..n]);
    var m := PrefixEffect(p, snap, env1, n);
    PrefixKeyed(p, Plan(snap, Keys(p.audit), env1)[..n]);
    Resume(p, dead, snap, env2, env3, m);
  }

  lemma AuditsResume(audit: seq<AuditEntry>, audits: seq<AuditEntry>, m: nat)
    requires m <= |Missing(audits, Keys(audit))|
    ensures var missing := Missing(audits, Keys(audit));
            audit + missing[..m] + Missing(audits, Keys(audit + missing[..m])) == audit + missing
  {
    var missing := Missing(audits, Keys(audit));
    KeysConcat(audit, missing[..m]);
    MissingResumes(audits, Keys(audit), m);
    assert missing[..m] + missing[m..] == missing;
    assert audit + missing[..m] + missing[m..] == audit + (missing[..m] + missing[m..]);
  }

  lemma Resume(p: Primary, dead: Primary, snap: Snapshot, env2: Env, env3: Env, m: nat)
    requires Keyed(p) && Keyed(dead) && Proper(snap) && m <= |Missing(snap.audits, Keys(p.audit))|
    requires PartEffect(p, dead, snap) && dead.audit == p.audit + Missing(snap.audits, Keys(p.audit))[..m]
    ensures SameView(Restored(dead, snap, env2), Restored(p, snap, env3))
  {
    var missing := Missing(snap.audits, Keys(p.audit));
    RestoreDoes(p, snap, env3);
    RestoreDoes(dead, snap, env2);
    AuditsResume(p.audit, snap.audits, m);
    SameRestored(p, dead, Restored(p, snap, env3), Restored(dead, snap, env2), snap);
  }

  lemma SameRestored(p: Primary, p': Primary, q: Primary, q': Primary, snap: Snapshot)
    requires RestoreEffect(p, q, snap) && RestoreEffect(p', q', snap) && q.audit == q'.audit
    requires PartEffect(p, p', snap)
    ensures SameView(q', q)
  {
    forall x | x in q.accounts ensures q'.accounts[x].row == q.accounts[x].row {
      if x in Names(snap.accounts) {
        var r :| r in snap.accounts && r.name == x;
      }
    }
    forall x | x in q.flags ensures q'.flags[x].enabled == q.flags[x].enabled {
      if x in Tools(snap.flags) {
        var f :| f in snap.flags && f.0 == x;
      }
    }
  }

  /** Restoring a second time inserts no audit row and changes nothing that is captured. */
  lemma RestoreIsIdempotent(p: Primary, snap: Snapshot, env1: Env, env2: Env)
    requires Keyed(p) && Proper(snap)
    ensures var q := Restored(p, snap, env1);
            SameView(Restored(q, snap, env2), q) && Missing(snap.audits, Keys(q.audit)) == []
  {
    var q := Restored(p, snap, env1);
    var plan := Plan(snap, Keys(p.audit), env1);
    assert plan[..|plan|] == plan;
    RestoreIsResumable(p, snap, env1, env2, env1, |plan|);
    RestoreDoes(p, snap, env1);
    MissingKeys(snap.audits, Keys(p.audit));
    KeysConcat(p.audit, Missing(snap.audits, Keys(p.audit)));
    MissingKeys(snap.audits, Keys(q.audit));
  }

  // ------------------------------------------------------------------
  // Backup, then restore

  function AccountsIn(rows: seq<ChildRow>): seq<AccountRow> {
    if rows == [] then [] else (if rows[0].Account? then [rows[0].account] else []) + AccountsIn(rows[1..])
  }

  function FlagsIn(rows: seq<ChildRow>): seq<(string, int)> {
    if rows == [] then []
    else (if rows[0].Flag? then [(rows[0].toolName, rows[0].enabled)] else []) + FlagsIn(rows[1..])
  }

  function AuditsIn(rows: seq<ChildRow>): seq<AuditEntry> {
    if rows == [] then [] else (if rows[0].Audit? then [rows[0].entry] else []) + AuditsIn(rows[1..])
  }

  /** What a restore of `sid` reads from the backup store. */
  function SnapshotOf(s: Store, sid: string): Snapshot
    requires WellFormed(s)
  {
    Snapshot(AccountsIn(RowsOf(s.tables[0], sid)), FlagsIn(RowsOf(s.tables[2], sid)),
             AuditsIn(RowsOf(s.tables[3], sid)))
  }

  /** The columns of an account as a backup run writes them. */
  function Normalised(r: AccountRow): AccountRow {
    r.(enabled := if r.enabled == 0 then 0 else 1,
       lastCheckOk := if r.lastCheckOk.None? then None else Some(if r.lastCheckOk.value == 0 then 0 else 1),
       meta := if r.meta == None || r.meta == Some("") then Some("{}") else r.meta)
  }

  predicate IsAccountOf(p: Primary, c: ChildRow) {
    c.Account? && c.account.name in p.accounts && c.account == Normalised(p.accounts[c.account.name].row)
  }

  function FlagRow(p: Primary, tool: string): ChildRow
    requires tool in p.flags
  {
    Flag(tool, if p.flags[tool].enabled == 0 then 0 else 1, p.flags[tool].updatedAt)
  }

  predicate IsFlagOf(p: Primary, c: ChildRow) {
    c.Flag? && c.toolName in p.flags && c == FlagRow(p, c.toolName)
  }

  /** `rows` lists the accounts of `p`, normalised, each once, in any order. */
  ghost predicate DumpsAccounts(p: Primary, rows: seq<ChildRow>) {
    && (forall i :: 0 <= i < |rows| ==> IsAccountOf(p, rows[i]))
    && (forall i, j :: 0 <= i < j < |rows| ==> rows[i].account.name != rows[j].account.name)
    && (forall x :: x in p.accounts ==> Account(Normalised(p.accounts[x].row)) in rows)
  }

  ghost predicate DumpsFlags(p: Primary, rows: seq<ChildRow>) {
    && (forall i :: 0 <= i < |rows| ==> IsFlagOf(p, rows[i]))
    && (forall i, j :: 0 <= i < j < |rows| ==> rows[i].toolName != rows[j].toolName)
    && (forall x :: x in p.flags ==> FlagRow(p, x) in rows)
  }

  ghost predicate DumpsAudits(p: Primary, rows: seq<ChildRow>) {
    && (forall i :: 0 <= i < |rows| ==> rows[i].Audit?)
    && (forall e :: e in p.audit <==> Audit(e) in rows)
  }

  lemma {:induction false} AccountsInDump(rows: seq<ChildRow>)
    requires forall i :: 0 <= i < |rows| ==> rows[i].Account?
    ensures |AccountsIn(rows)| == |rows| && forall i :: 0 <= i < |rows| ==> AccountsIn(rows)[i] == rows[i].account
  {
    if rows != [] {
      AccountsInDump(rows[1..]);
    }
  }

  lemma {:induction false} FlagsInDump(rows: seq<ChildRow>)
    requires forall i :: 0 <= i < |rows| ==> rows[i].Flag?
    ensures |FlagsIn(rows)| == |rows|
    ensures forall i :: 0 <= i < |rows| ==> FlagsIn(rows)[i] == (rows[i].toolName, rows[i].enabled)
  {
    if rows != [] {
      FlagsInDump(rows[1..]);
    }
  }

  lemma {:induction false} AuditsInDump(rows: seq<ChildRow>)
    requires forall i :: 0 <= i < |rows| ==> rows[i].Audit?
    ensures |AuditsIn(rows)| == |rows| && forall i :: 0 <= i < |rows| ==> AuditsIn(rows)[i] == rows[i].entry
  {
    if rows != [] {
      AuditsInDump(rows[1..]);
    }
  }

  /** The dumps of the accounts, flags and audit rows, each read at its own moment. */
  ghost predicate DumpsOf(pa: Primary, pf: Primary, pu: Primary, dumps: Dumps) {
    DumpsAccounts(pa, dumps[0]) && DumpsFlags(pf, dumps[2]) && DumpsAudits(pu, dumps[3])
  }

  /** An account is what it was when the backup was taken: every column the same, with the switches as
      0 or 1 and an empty metadata column as the empty object. */
  predicate CameBack(was: AccountRow, now: AccountRow) {
    && now.name == was.name && now.encAuthToken == was.encAuthToken && now.encCt0 == was.encCt0
    && now.enabled == (if was.enabled == 0 then 0 else 1)
    && now.status == was.status && now.lastCheckedAt == was.lastCheckedAt && now.lastError == was.lastError
    && (was.lastCheckOk == None ==> now.lastCheckOk == None)
    && (was.lastCheckOk.Some? ==> now.lastCheckOk == Some(if was.lastCheckOk.value == 0 then 0 else 1))
    && now.meta == (if was.meta == None || was.meta == Some("") then Some("{}") else was.meta)
    && now.createdAt == was.createdAt && now.updatedAt == was.updatedAt
  }

  predicate IsOnlyOfKey(e: AuditEntry, audit: seq<AuditEntry>) {
    forall e' :: e' in audit && KeyOf(e') == KeyOf(e) ==> e' == e
  }

  /** Whatever happened to the primary since an ok run, restoring that snapshot brings every captured
      account and flag back as captured, and the audit keys are the current ones and the captured ones. */
  lemma BackupThenRestore(s0: Store, s: Store, sid: string, row: IndexRow, dumps: Dumps, cutoff: Option<string>,
                          r: RunResult, pa: Primary, pf: Primary, pu: Primary, now: Primary, env: Env)
    requires WellFormed(s0) && WellFormed(s) && NoOrphans(s0)
    requires row.counts == Counts(dumps) && StoreContract(s0, s, sid, row, dumps, cutoff, r)
    requires r.RunOk? && Kept(sid, cutoff)
    requires Keyed(pa) && Keyed(now) && DumpsOf(pa, pf, pu, dumps)
    ensures var q := Restored(now, SnapshotOf(s, sid), env);
            && (forall x :: x in pa.accounts ==> x in q.accounts && CameBack(pa.accounts[x].row, q.accounts[x].row))
            && (forall x :: x in pf.flags ==>
                  x in q.flags && q.flags[x].enabled == (if pf.flags[x].enabled == 0 then 0 else 1))
            && Keys(q.audit) == Keys(now.audit) + Keys(pu.audit) && now.audit <= q.audit
            && (forall e :: e in q.audit ==> e in now.audit || e in pu.audit)
            && (forall e :: e in pu.audit && IsOnlyOfKey(e, pu.audit) && KeyOf(e) !in Keys(now.audit) ==> e in q.audit)
            && now.accounts.Keys <= q.accounts.Keys && now.flags.Keys <= q.flags.Keys
  {
    OkRunHoldsTheDumps(s0, s, sid, row, dumps, cutoff, r, 0);
    OkRunHoldsTheDumps(s0, s, sid, row, dumps, cutoff, r, 2);
    OkRunHoldsTheDumps(s0, s, sid, row, dumps, cutoff, r, 3);
    RestoreOfDumps(SnapshotOf(s, sid), dumps, pa, pf, pu, now, env);
  }

  lemma RestoreOfDumps(snap: Snapshot, dumps: Dumps, pa: Primary, pf: Primary, pu: Primary, now: Primary, env: Env)
    requires snap == Snapshot(AccountsIn(dumps[0]), FlagsIn(dumps[2]), AuditsIn(dumps[3]))
    requires Keyed(pa) && Keyed(now) && DumpsOf(pa, pf, pu, dumps)
    ensures var q := Restored(now, snap, env);
            && (forall x :: x in pa.accounts ==> x in q.accounts && CameBack(pa.accounts[x].row, q.accounts[x].row))
            && (forall x :: x in pf.flags ==>
                  x in q.flags && q.flags[x].enabled == (if pf.flags[x].enabled == 0 then 0 else 1))
            && Keys(q.audit) == Keys(now.audit) + Keys(pu.audit) && now.audit <= q.audit
            && (forall e :: e in q.audit ==> e in now.audit || e in pu.audit)
            && (forall e :: e in pu.audit && IsOnlyOfKey(e, pu.audit) && KeyOf(e) !in Keys(now.audit) ==> e in q.audit)
            && now.accounts.Keys <= q.accounts.Keys && now.flags.Keys <= q.flags.Keys
  {
    AccountsInDump(dumps[0]);
    FlagsInDump(dumps[2]);
    assert forall i :: 0 <= i < |dumps[2]| ==> dumps[2][i].toolName == snap.flags[i].0;
    RestoreDoes(now, snap, env);
    var q := Restored(now, snap, env);
    AccountsBack(pa, dumps[0], now, q);
    FlagsBack(pf, dumps[2], now, q);
    AuditsBack(pu, dumps[3], now, q);
  }

  lemma AccountBack(pa: Primary, rows: seq<ChildRow>, now: Primary, q: Primary, x: string)
    requires Keyed(pa) && DumpsAccounts(pa, rows) && AccountEffect(now, q, AccountsIn(rows)) && x in pa.accounts
    ensures x in q.accounts && q.accounts[x].row == Normalised(pa.accounts[x].row)
  {
    AccountsInDump(rows);
    var r := Normalised(pa.accounts[x].row);
    var i :| 0 <= i < |rows| && rows[i] == Account(r);
    assert AccountsIn(rows)[i] == r;
  }

  lemma AccountsBack(pa: Primary, rows: seq<ChildRow>, now: Primary, q: Primary)
    requires Keyed(pa) && DumpsAccounts(pa, rows) && AccountEffect(now, q, AccountsIn(rows))
    ensures forall x :: x in pa.accounts ==> x in q.accounts && q.accounts[x].row == Normalised(pa.accounts[x].row)
  {
    forall x | x in pa.accounts ensures x in q.accounts && q.accounts[x].row == Normalised(pa.accounts[x].row) {
      AccountBack(pa, rows, now, q, x);
    }
  }

  lemma FlagsBack(pf: Primary, rows: seq<ChildRow>, now: Primary, q: Primary)
    requires DumpsFlags(pf, rows) && FlagEffect(now, q, FlagsIn(rows))
    ensures forall x :: x in pf.flags ==>
              x in q.flags && q.flags[x].enabled == (if pf.flags[x].enabled == 0 then 0 else 1)
  {
    FlagsInDump(rows);
    forall x | x in pf.flags
      ensures x in q.flags && q.flags[x].enabled == (if pf.flags[x].enabled == 0 then 0 else 1)
    {
      var i :| 0 <= i < |rows| && rows[i] == FlagRow(pf, x);
      assert FlagsIn(rows)[i] == (x, if pf.flags[x].enabled == 0 then 0 else 1);
    }
  }

  lemma AuditsBack(pu: Primary, rows: seq<ChildRow>, now: Primary, q: Primary)
    requires DumpsAudits(pu, rows) && q.audit == now.audit + Missing(AuditsIn(rows), Keys(now.audit))
    ensures Keys(q.audit) == Keys(now.audit) + Keys(pu.audit)
    ensures forall e :: e in q.audit ==> e in now.audit || e in pu.audit
    ensures forall e :: e in pu.audit && IsOnlyOfKey(e, pu.audit) && KeyOf(e) !in Keys(now.audit) ==> e in q.audit
  {
    AuditsInDump(rows);
    var audits := AuditsIn(rows);
    forall e ensures e in audits <==> e in pu.audit {
      assert Audit(e) in rows <==> exists i :: 0 <= i < |rows| && rows[i] == Audit(e);
    }
    assert Keys(audits) == Keys(pu.audit);
    MissingKeys(audits, Keys(now.audit));
    KeysConcat(now.audit, Missing(audits, Keys(now.audit)));
    forall e | e in q.audit ensures e in now.audit || e in pu.audit {
      if e !in now.audit {
        MissingIsNew(audits, Keys(now.audit), e);
      }
    }
    forall e | e in pu.audit && IsOnlyOfKey(e, pu.audit) && KeyOf(e) !in Keys(now.audit) ensures e in q.audit {
      FirstOfKey(audits, Keys(now.audit), e);
      MissingIsNew(audits, Keys(now.audit), e);
    }
  }

  lemma FirstOfKey(audits: seq<AuditEntry>, existing: set<AuditKey>, e: AuditEntry)
    requires e in audits && IsOnlyOfKey(e, audits) && KeyOf(e) !in existing
    ensures exists i :: 0 <= i < |audits| && audits[i] == e && IsNewAt(audits, existing, i)
  {
    var i := 0;
    while audits[i] != e
      invariant i < |audits| && forall j :: 0 <= j < i ==> audits[j] != e
      decreases |audits| - i
    {
      var k :| 0 <= k < |audits| && audits[k] == e;
      i := i + 1;
    }
    assert IsNewAt(audits, existing, i);
  }
}
