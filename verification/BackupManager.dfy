/**
  Backup runs, discards and retention (`BackupManager`), one statement at a time.

  Every statement sent to the store may work, be refused, take effect with its acknowledgement
  lost, or be the one before which the process dies. Contracts quantify over all such fault
  schedules, so what they say of every exit holds wherever a crash falls.
 */
module BackupManager {
  import opened IsoTime
  import opened SnapshotStore
  import opened Wrappers

  datatype Fault = Works | Refused | LostAck | Dies

  datatype ExecResult = Done | Raised | Died

  // ------------------------------------------------------------------
  // Deleting one snapshot

  /** The first `n` of the five deletes of `_delete_snapshot_rows` applied. */
  function Purged(s: Store, sid: string, n: nat): (r: Store)
    requires WellFormed(s)
    ensures WellFormed(r)
  {
    Store(if n > TABLES then s.index - {sid} else s.index,
          seq(TABLES, t requires 0 <= t < TABLES => if t < n then Without(s.tables[t], {sid}) else s.tables[t]))
  }

  lemma PurgedStep(s: Store, sid: string, n: nat)
    requires WellFormed(s) && n < TABLES
    ensures Purged(s, sid, 0) == s
    ensures Apply(Purged(s, sid, n), DeleteChildren(n, sid)) == Some(Purged(s, sid, n + 1))
    ensures Apply(Purged(s, sid, TABLES), DeleteIndex(sid)) == Some(Purged(s, sid, TABLES + 1))
  {
    assert Purged(s, sid, 0).tables == s.tables;
    assert Purged(s, sid, n).tables[n := Without(s.tables[n], {sid})] == Purged(s, sid, n + 1).tables;
    assert Purged(s, sid, TABLES).tables == Purged(s, sid, TABLES + 1).tables;
  }

  lemma PurgedAll(s: Store, sid: string)
    requires WellFormed(s)
    ensures Purged(s, sid, TABLES + 1) == Dropped(s, {sid})
  {
    assert Purged(s, sid, TABLES + 1).tables == Dropped(s, {sid}).tables;
  }

  /** Wherever the deletes stop: no orphan appears, no other snapshot changes, and finishing later
      comes to the same as not having stopped. */
  lemma PurgeAnywhere(s: Store, sid: string, n: nat)
    requires WellFormed(s)
    ensures NoOrphans(s) ==> NoOrphans(Purged(s, sid, n))
    ensures forall x :: x != sid ==> SameSnapshot(s, Purged(s, sid, n), x)
    ensures Dropped(Purged(s, sid, n), {sid}) == Dropped(s, {sid})
  {
    var p := Purged(s, sid, n);
    forall t | 0 <= t < TABLES
      ensures forall i :: 0 <= i < |p.tables[t]| ==>
                p.tables[t][i] in s.tables[t] && (n > TABLES ==> p.tables[t][i].sid != sid)
      ensures Without(p.tables[t], {sid}) == Without(s.tables[t], {sid})
    {
      WithoutMembers(s.tables[t], {sid});
      WithoutTwice(s.tables[t], {sid}, {sid});
      assert {sid} + {sid} == {sid};
    }
    forall x | x != sid ensures SameSnapshot(s, p, x) {
      forall t | 0 <= t < TABLES ensures RowsOf(s.tables[t], x) == RowsOf(p.tables[t], x) {
        WithoutRows(s.tables[t], {sid}, x);
      }
    }
    assert Dropped(p, {sid}).tables == Dropped(s, {sid}).tables;
    assert p.index - {sid} == s.index - {sid};
  }

  // ------------------------------------------------------------------
  // Writing one snapshot

  type Dumps = ds: seq<seq<ChildRow>> | |ds| == TABLES witness [[], [], [], []]

  /** The first `ns[t]` rows of each dump inserted. */
  function Written(s: Store, sid: string, dumps: Dumps, ns: seq<nat>): (r: Store)
    requires WellFormed(s) && |ns| == TABLES && forall t :: 0 <= t < TABLES ==> ns[t] <= |dumps[t]|
    ensures WellFormed(r)
  {
    s.(tables := seq(TABLES, t requires 0 <= t < TABLES => s.tables[t] + Entries(sid, dumps[t][..ns[t]])))
  }

  function Counts(dumps: Dumps): (ns: seq<nat>)
    ensures |ns| == TABLES && forall t :: 0 <= t < TABLES ==> ns[t] == |dumps[t]|
  {
    seq(TABLES, t requires 0 <= t < TABLES => |dumps[t]|)
  }

  /** The store with a complete snapshot added. */
  function WithSnapshot(s: Store, sid: string, row: IndexRow, dumps: Dumps): (r: Store)
    requires WellFormed(s)
    ensures WellFormed(r)
  {
    Written(s.(index := s.index[sid := row]), sid, dumps, Counts(dumps))
  }

  /** No two rows of a dump share a primary key. */
  predicate DistinctKeys(rows: seq<ChildRow>) {
    forall i, j :: 0 <= i < j < |rows| ==> !SameKey(rows[i], rows[j])
  }

  predicate Writable(s: Store, sid: string, dumps: Dumps)
    requires WellFormed(s)
  {
    forall t :: 0 <= t < TABLES ==> DistinctKeys(dumps[t]) && RowsOf(s.tables[t], sid) == []
  }

  lemma NoConflict(table: seq<Entry>, sid: string, rows: seq<ChildRow>, k: nat)
    requires RowsOf(table, sid) == [] && DistinctKeys(rows) && k < |rows|
    ensures !Conflicts(table + Entries(sid, rows[..k]), sid, rows[k])
  {
    NoRowsNoEntries(table, sid);
    var all := table + Entries(sid, rows[..k]);
    forall i | 0 <= i < |all| ensures !(all[i].sid == sid && SameKey(all[i].row, rows[k])) {
      if i < |table| {
        assert all[i] in table && all[i].sid in SidsOf(table);
      } else {
        assert all[i].row == rows[i - |table|];
      }
    }
  }

  /** Wherever the inserts stop: with the index row in place no orphan appears, no other snapshot
      changes, and discarding gives back the store without that snapshot. */
  lemma WrittenAnywhere(s: Store, sid: string, dumps: Dumps, ns: seq<nat>)
    requires WellFormed(s) && |ns| == TABLES && forall t :: 0 <= t < TABLES ==> ns[t] <= |dumps[t]|
    ensures NoOrphans(s) && sid in s.index ==> NoOrphans(Written(s, sid, dumps, ns))
    ensures forall x :: x != sid ==> SameSnapshot(s, Written(s, sid, dumps, ns), x)
    ensures Dropped(Written(s, sid, dumps, ns), {sid}) == Dropped(s, {sid})
    ensures forall t :: 0 <= t < TABLES ==>
              RowsOf(Written(s, sid, dumps, ns).tables[t], sid) == RowsOf(s.tables[t], sid) + dumps[t][..ns[t]]
  {
    var w := Written(s, sid, dumps, ns);
    forall t, x | 0 <= t < TABLES
      ensures RowsOf(w.tables[t], x) == RowsOf(s.tables[t], x) + (if x == sid then dumps[t][..ns[t]] else [])
    {
      RowsConcat(s.tables[t], Entries(sid, dumps[t][..ns[t]]), x);
      RowsOfEntries(sid, dumps[t][..ns[t]], x);
    }
    forall t | 0 <= t < TABLES ensures Without(w.tables[t], {sid}) == Without(s.tables[t], {sid}) {
      RowsOfEntries(sid, dumps[t][..ns[t]], sid);
      WithoutConcat(s.tables[t], Entries(sid, dumps[t][..ns[t]]), {sid});
    }
    assert Dropped(w, {sid}).tables == Dropped(s, {sid}).tables;
  }

  // ------------------------------------------------------------------
  // Retention

  /** Ids older than the cutoff, in the index or in any snapshot table. */
  function Expired(s: Store, cutoff: string): set<string>
    requires WellFormed(s)
  {
    set x | x in AllIds(s) && ByteLess(x, cutoff)
  }

  /** The store after a complete prune. */
  function Pruned(s: Store, cutoff: string): (r: Store)
    requires WellFormed(s)
    ensures WellFormed(r)
  {
    Dropped(s, Expired(s, cutoff))
  }

  lemma DroppedRows(s: Store, ids: set<string>, x: string)
    requires WellFormed(s)
    ensures x in ids ==> x !in AllIds(Dropped(s, ids))
    ensures x !in ids ==> SameSnapshot(s, Dropped(s, ids), x)
  {
    forall t | 0 <= t < TABLES
      ensures RowsOf(Dropped(s, ids).tables[t], x) == if x in ids then [] else RowsOf(s.tables[t], x)
    {
      WithoutRows(s.tables[t], ids, x);
    }
    AllIdsMember(Dropped(s, ids), x);
  }

  lemma DroppedNoOrphans(s: Store, ids: set<string>)
    requires WellFormed(s) && NoOrphans(s)
    ensures NoOrphans(Dropped(s, ids))
  {
    var p := Dropped(s, ids);
    forall t, i | 0 <= t < TABLES && 0 <= i < |p.tables[t]| ensures p.tables[t][i].sid in p.index {
      WithoutMembers(s.tables[t], ids);
      assert p.tables[t][i] in p.tables[t];
    }
  }

  /** Nothing older than the cutoff is left in any of the five tables, everything else is as it was,
      and pruning again changes nothing. */
  lemma PruneIsComplete(s: Store, cutoff: string)
    requires WellFormed(s)
    ensures forall x :: ByteLess(x, cutoff) ==> x !in AllIds(Pruned(s, cutoff))
    ensures forall x :: !ByteLess(x, cutoff) ==> SameSnapshot(s, Pruned(s, cutoff), x)
    ensures NoOrphans(s) ==> NoOrphans(Pruned(s, cutoff))
    ensures Pruned(Pruned(s, cutoff), cutoff) == Pruned(s, cutoff)
  {
    var ids, p := Expired(s, cutoff), Pruned(s, cutoff);
    forall x | ByteLess(x, cutoff) ensures x !in AllIds(p) {
      DroppedRows(s, ids, x);
      if x !in ids {
        AllIdsMember(s, x);
        AllIdsMember(p, x);
      }
    }
    forall x | !ByteLess(x, cutoff) ensures SameSnapshot(s, p, x) {
      DroppedRows(s, ids, x);
    }
    if NoOrphans(s) {
      DroppedNoOrphans(s, ids);
    }
    assert Expired(p, cutoff) == {};
    DropAbsent(p, {});
  }

  /** Dropping some of the expired ids first does not change what a prune comes to. */
  lemma PruneResumes(s: Store, s': Store, sid: string, cutoff: string)
    requires WellFormed(s) && WellFormed(s') && ByteLess(sid, cutoff)
    requires Dropped(s', {sid}) == Dropped(s, {sid})
    requires forall x :: x != sid ==> SameSnapshot(s, s', x)
    ensures Pruned(s', cutoff) == Pruned(s, cutoff)
  {
    var a, b := Expired(s, cutoff), Expired(s', cutoff);
    forall x | x != sid ensures x in a <==> x in b {
      AllIdsMember(s, x);
      AllIdsMember(s', x);
      assert SameSnapshot(s, s', x);
    }
    assert a + {sid} == b + {sid};
    DropOneMore(s, a, sid);
    DropOneMore(s', b, sid);
    DroppedTwice(s, {sid}, a);
    DroppedTwice(s', {sid}, b);
    DroppedTwice(s, {sid}, a + {sid});
    DroppedTwice(s', {sid}, b + {sid});
    assert {sid} + (a + {sid}) == a + {sid} && {sid} + (b + {sid}) == b + {sid};
  }

  lemma DropOneMore(s: Store, ids: set<string>, sid: string)
    requires WellFormed(s) && (sid in AllIds(s) ==> sid in ids)
    ensures Dropped(s, ids + {sid}) == Dropped(s, ids)
  {
    if sid !in ids {
      DropAbsent(s, {sid});
      DroppedTwice(s, {sid}, ids);
      assert {sid} + ids == ids + {sid};
    } else {
      assert ids + {sid} == ids;
    }
  }

  /** A prune of `s0` that may have stopped anywhere: finishing it later comes to the same, what is
      not expired is untouched, and no orphan has appeared. */
  ghost predicate PartlyPruned(s0: Store, s: Store, cutoff: string)
    requires WellFormed(s0) && WellFormed(s)
  {
    && Pruned(s, cutoff) == Pruned(s0, cutoff)
    && (forall x :: !ByteLess(x, cutoff) ==> SameSnapshot(s0, s, x))
    && (NoOrphans(s0) ==> NoOrphans(s))
  }

  lemma ExpiredTwice(s: Store, c: string, d: string)
    requires WellFormed(s) && (c == d || ByteLess(c, d))
    ensures Pruned(Pruned(s, c), d) == Pruned(s, d)
  {
    var early, late, p := Expired(s, c), Expired(s, d), Pruned(s, c);
    forall x | ByteLess(x, c) ensures ByteLess(x, d) {
      if c != d {
        ByteLessTransitive(x, c, d);
      }
    }
    forall x ensures x in early + Expired(p, d) <==> x in late {
      DroppedRows(s, early, x);
      AllIdsMember(s, x);
      AllIdsMember(p, x);
    }
    DroppedTwice(s, early, Expired(p, d));
    assert early + Expired(p, d) == late;
  }

  /** The next prune draws its own cutoff from the clock: whatever an earlier one has left, a prune with
      a later cutoff comes to what it would have come to without it. */
  lemma PruneResumesLater(s0: Store, s: Store, c: string, d: string)
    requires WellFormed(s0) && WellFormed(s) && PartlyPruned(s0, s, c) && (c == d || ByteLess(c, d))
    ensures Pruned(s, d) == Pruned(s0, d)
  {
    ExpiredTwice(s0, c, d);
    ExpiredTwice(s, c, d);
  }

  /** Where a prune may have stopped: some expired snapshots are gone, and of at most one more the first
      `n` deletes are done. */
  ghost predicate PruneStopped(s0: Store, s: Store, cutoff: string)
    requires WellFormed(s0)
  {
    exists ids: set<string>, sid: string, n: nat ::
      ids <= Expired(s0, cutoff) && (n == 0 || sid in Expired(s0, cutoff)) && s == Purged(Dropped(s0, ids), sid, n)
  }

  lemma StoppedBetween(s0: Store, ids: set<string>, cutoff: string)
    requires WellFormed(s0) && ids <= Expired(s0, cutoff)
    ensures PruneStopped(s0, Dropped(s0, ids), cutoff)
  {
    PurgedStep(Dropped(s0, ids), "", 0);
    assert Dropped(s0, ids) == Purged(Dropped(s0, ids), "", 0);
  }

  lemma StoppedWithin(s0: Store, ids: set<string>, sid: string, n: nat, cutoff: string)
    requires WellFormed(s0) && ids <= Expired(s0, cutoff) && sid in Expired(s0, cutoff)
    ensures PruneStopped(s0, Purged(Dropped(s0, ids), sid, n), cutoff)
  {
  }

  lemma NothingPruned(s: Store, cutoff: string)
    requires WellFormed(s)
    ensures PruneStopped(s, s, cutoff)
  {
    DropAbsent(s, {});
    StoppedBetween(s, {}, cutoff);
  }

  lemma PurgePartly(s0: Store, s: Store, sid: string, n: nat, cutoff: string)
    requires WellFormed(s0) && WellFormed(s) && PartlyPruned(s0, s, cutoff) && ByteLess(sid, cutoff)
    ensures PartlyPruned(s0, Purged(s, sid, n), cutoff)
  {
    PurgeAnywhere(s, sid, n);
    PruneResumes(s, Purged(s, sid, n), sid, cutoff);
    forall x | !ByteLess(x, cutoff) ensures SameSnapshot(s0, Purged(s, sid, n), x) {
      assert SameSnapshot(s0, s, x) && SameSnapshot(s, Purged(s, sid, n), x);
    }
  }

  lemma DropNext(s0: Store, q: seq<string>, k: nat)
    requires WellFormed(s0) && k < |q|
    ensures Purged(Dropped(s0, Elements(q[..k])), q[k], TABLES + 1) == Dropped(s0, Elements(q[..k + 1]))
  {
    PurgedAll(Dropped(s0, Elements(q[..k])), q[k]);
    DroppedTwice(s0, Elements(q[..k]), {q[k]});
    assert q[..k + 1] == q[..k] + [q[k]];
    assert Elements(q[..k]) + {q[k]} == Elements(q[..k + 1]);
  }

  ghost predicate IsOldest(ids: set<string>, oldest: Option<string>) {
    match oldest
    case None => ids == {}
    case Some(x) => x in ids && forall y :: y in ids ==> y == x || ByteLess(x, y)
  }

  lemma {:induction false} OldestExists(ids: set<string>)
    requires ids != {}
    ensures exists x :: x in ids && forall y :: y in ids ==> y == x || ByteLess(x, y)
  {
    var a :| a in ids;
    if ids != {a} {
      var rest := ids - {a};
      OldestExists(rest);
      var x :| x in rest && forall y :: y in rest ==> y == x || ByteLess(x, y);
      ByteLessTotal(a, x);
      if ByteLess(a, x) {
        forall y | y in ids ensures y == a || ByteLess(a, y) {
          if y != a && y != x {
            assert y in rest;
            ByteLessTransitive(a, x, y);
          }
        }
      } else {
        assert forall y :: y in ids ==> y == x || ByteLess(x, y);
      }
    }
  }

  method OldestOf(ids: set<string>) returns (oldest: Option<string>)
    ensures IsOldest(ids, oldest)
  {
    if ids == {} {
      return None;
    }
    var rest := ids;
    var best :| best in ids;
    rest := rest - {best};
    while rest != {}
      invariant rest <= ids && best in ids - rest
      invariant forall y :: y in ids - rest ==> y == best || ByteLess(best, y)
      decreases rest
    {
      var x :| x in rest;
      ByteLessTotal(x, best);
      if ByteLess(x, best) {
        forall y | y in ids - rest ensures ByteLess(x, y) {
          if y != best {
            ByteLessTransitive(x, best, y);
          }
        }
        best := x;
      }
      rest := rest - {x};
    }
    return Some(best);
  }

  /** `sorted(ids)` */
  method SortedIds(ids: set<string>) returns (q: seq<string>)
    ensures forall x :: x in q <==> x in ids
    ensures forall i, j :: 0 <= i < j < |q| ==> ByteLess(q[i], q[j])
  {
    q := [];
    var rest := ids;
    while rest != {}
      invariant rest <= ids
      invariant forall x :: x in q <==> x in ids - rest
      invariant forall i, x :: 0 <= i < |q| && x in rest ==> ByteLess(q[i], x)
      invariant forall i, j :: 0 <= i < j < |q| ==> ByteLess(q[i], q[j])
      decreases rest
    {
      var next := OldestOf(rest);
      q := q + [next.value];
      rest := rest - {next.value};
    }
  }

  datatype PruneResult = PruneOk(pruned: nat, oldestRemaining: Option<string>) | PruneFailed | PruneDied

  datatype Failure = DumpFailed | SchemaFailed | IndexFailed | WriteFailed(discarded: bool) | MetaFailed

  datatype RunResult =
    | RunOk(sid: string, pruned: nat, oldest: Option<string>, pruneError: bool)
    | RunFailed(failure: Failure)
    | RunRaised
    | RunDied

  function AllSome(dumps: seq<Option<seq<ChildRow>>>): Option<Dumps>
    requires |dumps| == TABLES
  {
    if exists t :: 0 <= t < TABLES && dumps[t].None? then None
    else Some(seq(TABLES, t requires 0 <= t < TABLES && dumps[t].Some? => dumps[t].value))
  }

  // ------------------------------------------------------------------
  // What a schedule of faults does to a job

  function FaultAt(fault: nat -> Fault, tick: nat): Fault {
    fault(tick)
  }

  predicate AllWork(fault: nat -> Fault, lo: nat, hi: nat) {
    forall i :: lo <= i < hi ==> FaultAt(fault, i).Works?
  }

  /** Statements were sent from tick `lo` on, and the fault of the last one, before tick `hi`, explains
      that it did not get done. */
  predicate Blamed(fault: nat -> Fault, lo: nat, hi: nat, r: ExecResult) {
    && lo < hi
    && var f := FaultAt(fault, hi - 1);
       if r.Died? then f.Dies? else f.Refused? || f.LostAck?
  }

  /** A job of `total` statements, the first at tick `lo`, has come to `hi`: all are done, or all but
      the last one sent, and it is dead exactly if the process died before that one. */
  predicate Went(fault: nat -> Fault, lo: nat, hi: nat, total: nat, r: ExecResult) {
    if r.Done? then hi == lo + total && AllWork(fault, lo, hi)
    else lo < hi <= lo + total && AllWork(fault, lo, hi - 1) && (r.Died? <==> FaultAt(fault, hi - 1).Dies?)
  }

  function RowsUpTo(dumps: Dumps, t: nat): nat
    requires t <= TABLES
  {
    if t == 0 then 0 else RowsUpTo(dumps, t - 1) + |dumps[t - 1]|
  }

  lemma {:induction false} RowsGrow(dumps: Dumps, t: nat, u: nat)
    requires t <= u <= TABLES
    ensures RowsUpTo(dumps, t) <= RowsUpTo(dumps, u)
    decreases u
  {
    if t < u {
      RowsGrow(dumps, t, u - 1);
    }
  }

  /** How many rows a run has to insert. */
  function RowTotal(dumps: Dumps): nat {
    RowsUpTo(dumps, TABLES)
  }

  /** The statements a run sent, the index insert being at tick `lo`. When a row insert failed, its
      discard began at tick `at`, and is the rest of what was sent; it worked exactly if its five
      deletes did. In the clear, with a fresh id and writable dumps, only a fault stops a run. */
  predicate RunWent(fault: nat -> Fault, lo: nat, hi: nat, at: nat, total: nat, clear: bool, r: RunResult) {
    match r
    case RunOk(_, _, _, _) => lo + 1 + total <= hi && AllWork(fault, lo, lo + 1 + total)
    case RunDied => exists i :: lo <= i < hi && FaultAt(fault, i).Dies?
    case RunRaised => true
    case RunFailed(IndexFailed) => hi == lo + 1 && !FaultAt(fault, lo).Dies? && (clear ==> !FaultAt(fault, lo).Works?)
    case RunFailed(WriteFailed(discarded)) =>
      && lo + 1 < at <= lo + 1 + total && AllWork(fault, lo, at - 1)
      && !FaultAt(fault, at - 1).Dies? && (clear ==> !FaultAt(fault, at - 1).Works?)
      && Went(fault, at, hi, TABLES + 1, if discarded then Done else Raised)
      && (!discarded ==> Blamed(fault, at, hi, Raised))
    case RunFailed(_) => true
  }

  /** From tick `lo` on there is one fault, at a row insert, and it leaves the process alive. */
  ghost predicate OneRowFault(fault: nat -> Fault, lo: nat, total: nat) {
    exists f :: lo < f <= lo + total && IsOnlyFault(fault, lo, f)
  }

  ghost predicate IsOnlyFault(fault: nat -> Fault, lo: nat, f: nat) {
    && (FaultAt(fault, f).Refused? || FaultAt(fault, f).LostAck?)
    && forall i :: i >= lo && i != f ==> FaultAt(fault, i).Works?
  }

  /** One failed row insert, and nothing else going wrong, ends in a discard that works. */
  lemma OneRowFaultIsDiscarded(fault: nat -> Fault, lo: nat, hi: nat, at: nat, total: nat, r: RunResult)
    requires OneRowFault(fault, lo, total) && RunWent(fault, lo, hi, at, total, true, r)
    requires EndsHere(r)
    ensures r == RunFailed(WriteFailed(true))
  {
    var f :| lo < f <= lo + total && IsOnlyFault(fault, lo, f);
    assert FaultAt(fault, lo).Works?;
  }

  lemma NoFaultIsOk(fault: nat -> Fault, lo: nat, hi: nat, at: nat, total: nat, r: RunResult)
    requires forall i :: i >= lo ==> FaultAt(fault, i).Works?
    requires RunWent(fault, lo, hi, at, total, true, r) && EndsHere(r)
    ensures r.RunOk?
  {
  }

  class BackupManager {
    var store: Store
    var issued: Option<string>  // the last snapshot id
    var ticks: nat              // statements sent so far
    const fault: nat -> Fault
    const retentionDays: nat

    constructor (store: Store, retentionDays: int, fault: nat -> Fault)
      requires WellFormed(store)
      ensures Valid() && this.store == store && this.fault == fault && issued == None && ticks == 0
      ensures this.retentionDays == if retentionDays < 1 then 1 else retentionDays
    {
      this.store, this.fault := store, fault;
      this.retentionDays := if retentionDays < 1 then 1 else retentionDays;
      issued, ticks := None, 0;
    }

    ghost predicate Valid()
      reads this
    {
      && WellFormed(store) && retentionDays >= 1
      && (issued.Some? ==> exists t :: IsoTime.Valid(t) && issued.value == Iso(t))
    }

    /** No fault from here on. */
    ghost predicate Quiet()
      reads this
    {
      forall i :: i >= ticks ==> FaultAt(fault, i) == Works
    }

    method Exec(stmt: Stmt) returns (r: ExecResult)
      requires WellFormed(store)
      modifies this`store, this`ticks
      ensures WellFormed(store) && ticks == old(ticks) + 1
      ensures var f, after := FaultAt(fault, old(ticks)), Apply(old(store), stmt);
              && r == (if f.Dies? then Died else if f.Works? && after.Some? then Done else Raised)
              && store == if (f.Works? || f.LostAck?) && after.Some? then after.value else old(store)
    {
      var f := FaultAt(fault, ticks);
      ticks := ticks + 1;
      if f.Dies? {
        return Died;
      }
      if f.Refused? {
        return Raised;
      }
      var result := Apply(store, stmt);
      if result.None? {
        return Raised;
      }
      store := result.value;
      return if f.LostAck? then Raised else Done;
    }

    method Fetch() returns (r: ExecResult)
      modifies this`ticks
      ensures ticks == old(ticks) + 1
      ensures var f := FaultAt(fault, old(ticks)); r == if f.Dies? then Died else if f.Works? then Done else Raised
    {
      var f := FaultAt(fault, ticks);
      ticks := ticks + 1;
      return match f case Works => Done case Dies => Died case _ => Raised;
    }

    method NextSnapshotAt(now: DateTime, ghost last: Option<DateTime>)
      returns (id: Option<string>, ghost t: Option<DateTime>)
      requires Valid() && IsoTime.Valid(now)
      requires last.Some? ==> IsoTime.Valid(last.value)
      requires issued == match last case None => None case Some(p) => Some(Iso(p))
      modifies this`issued
      ensures Valid()
      ensures t == NextId(last, now) && (t.Some? ==> IsoTime.Valid(t.value))
      ensures id == match t case None => None case Some(x) => Some(Iso(x))
      ensures id.Some? ==> issued == id
      ensures id.None? ==> issued == old(issued)
    {
      var next := now;
      if issued.Some? {
        ParseUndoesPrint(last.value);
        var previous := ParseIso(issued.value).value;
        if !Earlier(previous, now) {
          var later := NextMicro(previous);
          if later.None? {
            return None, None;
          }
          NextMicroIsNext(previous, now);
          next := later.value;
        }
      }
      issued := Some(Iso(next));
      return issued, Some(next);
    }

    method DeleteSnapshotRows(sid: string) returns (r: ExecResult, ghost n: nat)
      requires WellFormed(store)
      modifies this`store, this`ticks
      ensures WellFormed(store) && store == Purged(old(store), sid, n) && n <= TABLES + 1
      ensures r.Done? ==> n == TABLES + 1
      ensures Went(fault, old(ticks), ticks, TABLES + 1, r) && (!r.Done? ==> Blamed(fault, old(ticks), ticks, r))
    {
      n := 0;
      PurgedStep(store, sid, 0);
      for t := 0 to TABLES
        invariant WellFormed(store) && n == t && store == Purged(old(store), sid, n)
        invariant ticks == old(ticks) + t && AllWork(fault, old(ticks), ticks)
      {
        PurgedStep(old(store), sid, t);
        r := Exec(DeleteChildren(t, sid));
        n := if store == Purged(old(store), sid, t) then t else t + 1;
        if !r.Done? {
          return;
        }
        n := t + 1;
      }
      PurgedStep(old(store), sid, 0);
      r := Exec(DeleteIndex(sid));
      n := if r.Done? || store != Purged(old(store), sid, TABLES) then TABLES + 1 else TABLES;
    }

    method InsertAll(t: nat, sid: string, rows: seq<ChildRow>) returns (r: ExecResult, ghost n: nat)
      requires WellFormed(store) && t < TABLES
      modifies this`store, this`ticks
      ensures WellFormed(store) && n <= |rows|
      ensures store == old(store).(tables := old(store).tables[t := old(store).tables[t] + Entries(sid, rows[..n])])
      ensures r.Done? ==> n == |rows|
      ensures Went(fault, old(ticks), ticks, |rows|, r)
      ensures !r.Done? && DistinctKeys(rows) && RowsOf(old(store).tables[t], sid) == [] ==>
                Blamed(fault, old(ticks), ticks, r)
    {
      n := 0;
      assert store.tables[t] + Entries(sid, rows[..0]) == store.tables[t];
      assert store.tables[t := store.tables[t]] == store.tables;
      r := Done;
      for k := 0 to |rows|
        invariant WellFormed(store) && n == k && r.Done?
        invariant store == old(store).(tables := old(store).tables[t := old(store).tables[t] + Entries(sid, rows[..k])])
        invariant ticks == old(ticks) + k && AllWork(fault, old(ticks), ticks)
      {
        ghost var before := store;
        if DistinctKeys(rows) && RowsOf(old(store).tables[t], sid) == [] {
          NoConflict(old(store).tables[t], sid, rows, k);
        }
        r := Exec(InsertChild(t, sid, rows[k]));
        assert Entries(sid, rows[..k + 1]) == Entries(sid, rows[..k]) + [Entry(sid, rows[k])];
        assert before.tables[t] + [Entry(sid, rows[k])] == old(store).tables[t] + Entries(sid, rows[..k + 1]);
        if !r.Done? {
          n := if store == before then k else k + 1;
          return;
        }
        n := k + 1;
      }
      assert rows[..|rows|] == rows;
    }

    method WriteSnapshot(sid: string, dumps: Dumps) returns (r: ExecResult, ghost ns: seq<nat>)
      requires WellFormed(store)
      modifies this`store, this`ticks
      ensures WellFormed(store)
      ensures |ns| == TABLES && forall t :: 0 <= t < TABLES ==> ns[t] <= |dumps[t]|
      ensures store == Written(old(store), sid, dumps, ns)
      ensures r.Done? ==> ns == Counts(dumps)
      ensures Went(fault, old(ticks), ticks, RowTotal(dumps), r)
      ensures !r.Done? && Writable(old(store), sid, dumps) ==>
                Blamed(fault, old(ticks), ticks, r)
    {
      ns := [0, 0, 0, 0];
      r := Done;
      assert forall i :: 0 <= i < TABLES ==> store.tables[i] + Entries(sid, dumps[i][..0]) == store.tables[i];
      assert store.tables == Written(store, sid, dumps, ns).tables;
      for t := 0 to TABLES
        invariant WellFormed(store) && r.Done?
        invariant |ns| == TABLES && forall i :: 0 <= i < TABLES ==> ns[i] == if i < t then |dumps[i]| else 0
        invariant store == Written(old(store), sid, dumps, ns)
        invariant forall i :: t <= i < TABLES ==> store.tables[i] == old(store).tables[i]
        invariant ticks == old(ticks) + RowsUpTo(dumps, t) && AllWork(fault, old(ticks), ticks)
      {
        RowsGrow(dumps, t + 1, TABLES);
        ghost var n;
        ghost var before := ns;
        r, n := InsertAll(t, sid, dumps[t]);
        ns := ns[t := n];
        assert store.tables == Written(old(store), sid, dumps, ns).tables;
        if !r.Done? {
          return;
        }
      }
    }

    /** The reads of `_prune`: expired ids of the index, then of each snapshot table. */
    method CollectExpired(cutoff: string) returns (r: ExecResult, expired: set<string>)
      requires WellFormed(store)
      modifies this`ticks
      ensures r.Done? ==> expired == Expired(store, cutoff)
      ensures ticks >= old(ticks) && (!r.Done? ==> Blamed(fault, old(ticks), ticks, r))
    {
      expired := {};
      r := Done;
      for k := 0 to TABLES + 1
        invariant r.Done? && ticks >= old(ticks)
        invariant expired == Older(IdsUpTo(store, k), cutoff)
      {
        r := Fetch();
        if !r.Done? {
          return;
        }
        expired := expired + Older(if k == 0 then store.index.Keys else SidsOf(store.tables[k - 1]), cutoff);
      }
      assert IdsUpTo(store, TABLES + 1) == AllIds(store) by {
        assert IdsUpTo(store, 1) == store.index.Keys;
        assert IdsUpTo(store, 3) == store.index.Keys + SidsOf(store.tables[0]) + SidsOf(store.tables[1]);
      }
    }

    method DeleteExpired(order: seq<string>, cutoff: string) returns (r: ExecResult)
      requires WellFormed(store) && forall x :: x in order ==> x in Expired(store, cutoff)
      modifies this`store, this`ticks
      ensures WellFormed(store) && PartlyPruned(old(store), store, cutoff) && PruneStopped(old(store), store, cutoff)
      ensures r.Done? ==> store == Dropped(old(store), Elements(order))
      ensures ticks >= old(ticks) && (!r.Done? ==> Blamed(fault, old(ticks), ticks, r))
    {
      r := Done;
      ghost var s0 := store;
      assert Elements(order[..0]) == {};
      DropAbsent(store, {});
      for k := 0 to |order|
        invariant r.Done? && WellFormed(store) && ticks >= old(ticks)
        invariant store == Dropped(s0, Elements(order[..k])) && PartlyPruned(s0, store, cutoff)
      {
        r := DeleteNext(order, k, cutoff, s0);
        if !r.Done? {
          return;
        }
      }
      assert order[..|order|] == order;
      StoppedBetween(s0, Elements(order), cutoff);
    }

    /** The deletes of the `k`-th expired snapshot. */
    method DeleteNext(order: seq<string>, k: nat, cutoff: string, ghost s0: Store) returns (r: ExecResult)
      requires WellFormed(store) && WellFormed(s0) && k < |order|
      requires forall x :: x in order ==> x in Expired(s0, cutoff)
      requires store == Dropped(s0, Elements(order[..k])) && PartlyPruned(s0, store, cutoff)
      modifies this`store, this`ticks
      ensures WellFormed(store) && PartlyPruned(s0, store, cutoff)
      ensures if r.Done? then store == Dropped(s0, Elements(order[..k + 1])) else PruneStopped(s0, store, cutoff)
      ensures ticks > old(ticks) && (!r.Done? ==> Blamed(fault, old(ticks), ticks, r))
    {
      ghost var before, n := store, 0;
      r, n := DeleteSnapshotRows(order[k]);
      assert order[k] in order;
      PurgePartly(s0, before, order[k], n, cutoff);
      ElementsOfPrefix(order, k);
      StoppedWithin(s0, Elements(order[..k]), order[k], n, cutoff);
      if r.Done? {
        DropNext(s0, order, k);
      }
    }

    method PruneBefore(cutoff: string) returns (r: PruneResult)
      requires WellFormed(store)
      modifies this`store, this`ticks
      ensures WellFormed(store) && PruneContract(old(store), store, cutoff, r)
      ensures !r.PruneOk? ==> Blamed(fault, old(ticks), ticks, if r.PruneDied? then Died else Raised)
      ensures ticks >= old(ticks)
    {
      var f, expired := CollectExpired(cutoff);
      NothingPruned(store, cutoff);
      if !f.Done? {
        return if f.Died? then PruneDied else PruneFailed;
      }
      var order := SortedIds(expired);
      assert Elements(order) == expired;
      f := DeleteExpired(order, cutoff);
      if f.Done? {
        f := Fetch();
      }
      if !f.Done? {
        return if f.Died? then PruneDied else PruneFailed;
      }
      var oldest := OldestOf(store.index.Keys);
      return PruneOk(|expired|, oldest);
    }

    /** Removes every snapshot older than the cutoff, orphans and half-deleted ones included. */
    method Prune(now: DateTime) returns (r: PruneResult)
      requires WellFormed(store) && IsoTime.Valid(now)
      modifies this`store, this`ticks
      ensures WellFormed(store)
      ensures match Cutoff(now, retentionDays)
              case None => r == PruneFailed && store == old(store)
              case Some(cutoff) =>
                && PruneContract(old(store), store, cutoff, r)
                && (!r.PruneOk? ==> Blamed(fault, old(ticks), ticks, if r.PruneDied? then Died else Raised))
                && (old(Quiet()) ==> r.PruneOk?)
      ensures ticks >= old(ticks)
    {
      var cutoff := Cutoff(now, retentionDays);
      if cutoff.None? {
        return PruneFailed;
      }
      r := PruneBefore(cutoff.value);
    }

    method DiscardSnapshot(sid: string) returns (r: ExecResult, ghost n: nat)
      requires WellFormed(store)
      modifies this`store, this`ticks
      ensures WellFormed(store) && store == Purged(old(store), sid, n)
      ensures r.Done? ==> n == TABLES + 1
      ensures Went(fault, old(ticks), ticks, TABLES + 1, r) && (!r.Done? ==> Blamed(fault, old(ticks), ticks, r))
    {
      r, n := DeleteSnapshotRows(sid);
    }

    /** One backup run: read the clock, draw an id from a second reading, dump the primary, claim the id
        with the index row, write the rows, and on any failure of that drop the half-written snapshot;
        then prune, with a third reading. */
    method RunLocked(started: DateTime, drawn: DateTime, ghost last: Option<DateTime>, pruneNow: DateTime,
                     trigger: string, dumps: seq<Option<seq<ChildRow>>>, schemaReady: bool, metaSaved: bool)
      returns (r: RunResult, ghost sid: string, ghost at: nat)
      requires Valid() && IsoTime.Valid(started) && IsoTime.Valid(drawn) && IsoTime.Valid(pruneNow) && |dumps| == TABLES
      requires last.Some? ==> IsoTime.Valid(last.value)
      requires issued == match last case None => None case Some(p) => Some(Iso(p))
      modifies this
      ensures Valid() && NextId(last, drawn).Some? == !r.RunRaised?
      ensures r.RunRaised? ==> store == old(store)
      ensures NextId(last, drawn).Some? ==>
                && IsoTime.Valid(NextId(last, drawn).value) && sid == Iso(NextId(last, drawn).value)
                && issued == Some(sid)
                && RunContract(old(store), store, sid, Iso(started), trigger, AllSome(dumps),
                               Cutoff(pruneNow, retentionDays), r)
                && (sid in old(store.index) ==> store == old(store) && !r.RunOk?)
      ensures NextId(last, drawn).Some? && AllSome(dumps).Some? && schemaReady ==>
                && var all := AllSome(dumps).value;
                && RunWent(fault, old(ticks), ticks, at, RowTotal(all), IsClear(old(store), sid, all), r)
                && (IsClear(old(store), sid, all) && OneRowFault(fault, old(ticks), RowTotal(all)) ==>
                      r == RunFailed(WriteFailed(true)) && store == old(store))
      ensures r == RunFailed(DumpFailed) ==> AllSome(dumps).None?
      ensures r == RunFailed(SchemaFailed) ==> !schemaReady
      ensures r == RunFailed(MetaFailed) ==> !metaSaved
      ensures (old(Quiet()) && NextId(last, drawn).Some? && Cutoff(pruneNow, retentionDays).Some?
               && AllSome(dumps).Some? && schemaReady && metaSaved
               && IsClear(old(store), sid, AllSome(dumps).value)) ==> r.RunOk? && !r.pruneError
    {
      var id;
      ghost var t;
      id, t := NextSnapshotAt(drawn, last);
      sid, at := "", 0;
      if id.None? {
        return RunRaised, sid, at;
      }
      sid := id.value;
      r, at := DumpAndStore(id.value, Iso(started), pruneNow, trigger, AllSome(dumps), schemaReady, metaSaved);
    }

    method DumpAndStore(sid: string, createdAt: string, pruneNow: DateTime, trigger: string,
                        dumps: Option<Dumps>, schemaReady: bool, metaSaved: bool)
      returns (r: RunResult, ghost at: nat)
      requires WellFormed(store) && IsoTime.Valid(pruneNow)
      modifies this`store, this`ticks
      ensures WellFormed(store) && !r.RunRaised?
      ensures RunContract(old(store), store, sid, createdAt, trigger, dumps, Cutoff(pruneNow, retentionDays), r)
      ensures dumps.Some? && schemaReady ==>
                && var clear, total := IsClear(old(store), sid, dumps.value), RowTotal(dumps.value);
                && RunWent(fault, old(ticks), ticks, at, total, clear, r)
                && (clear && OneRowFault(fault, old(ticks), total) ==>
                      r == RunFailed(WriteFailed(true)) && store == old(store))
      ensures r == RunFailed(DumpFailed) ==> dumps.None?
      ensures r == RunFailed(SchemaFailed) ==> !schemaReady
      ensures r == RunFailed(MetaFailed) ==> !metaSaved
      ensures (old(Quiet()) && Cutoff(pruneNow, retentionDays).Some? && dumps.Some? && schemaReady && metaSaved
               && IsClear(old(store), sid, dumps.value)) ==> r.RunOk? && !r.pruneError
    {
      at := 0;
      if dumps.None? {
        return RunFailed(DumpFailed), at;
      }
      if !schemaReady {
        return RunFailed(SchemaFailed), at;
      }
      r, at := StoreSnapshot(sid, IndexRow(createdAt, trigger, Counts(dumps.value)), dumps.value, pruneNow);
      if r.RunOk? && !metaSaved {
        r := RunFailed(MetaFailed);
      }
    }

    method StoreSnapshot(sid: string, row: IndexRow, dumps: Dumps, pruneNow: DateTime)
      returns (r: RunResult, ghost at: nat)
      requires WellFormed(store) && IsoTime.Valid(pruneNow)
      modifies this`store, this`ticks
      ensures WellFormed(store)
      ensures EndsHere(r)
      ensures StoreContract(old(store), store, sid, row, dumps, Cutoff(pruneNow, retentionDays), r)
      ensures RunWent(fault, old(ticks), ticks, at, RowTotal(dumps), IsClear(old(store), sid, dumps), r)
      ensures r.RunOk? && r.pruneError ==>
                Cutoff(pruneNow, retentionDays).None?
                || Blamed(fault, old(ticks) + 1 + RowTotal(dumps), ticks, Raised)
      ensures IsClear(old(store), sid, dumps) && OneRowFault(fault, old(ticks), RowTotal(dumps)) ==>
                r == RunFailed(WriteFailed(true)) && store == old(store)
      ensures old(Quiet()) && IsClear(old(store), sid, dumps) && Cutoff(pruneNow, retentionDays).Some? ==>
                r.RunOk? && !r.pruneError
    {
      r, at := StoreAndPrune(sid, row, dumps, pruneNow);
      if IsClear(old(store), sid, dumps) && OneRowFault(fault, old(ticks), RowTotal(dumps)) {
        OneRowFaultIsDiscarded(fault, old(ticks), ticks, at, RowTotal(dumps), r);
        ClearIsAbsent(old(store), sid, dumps);
      }
      if IsClear(old(store), sid, dumps) && old(Quiet()) {
        NoFaultIsOk(fault, old(ticks), ticks, at, RowTotal(dumps), r);
      }
    }

    method StoreAndPrune(sid: string, row: IndexRow, dumps: Dumps, pruneNow: DateTime)
      returns (r: RunResult, ghost at: nat)
      requires WellFormed(store) && IsoTime.Valid(pruneNow)
      modifies this`store, this`ticks
      ensures WellFormed(store) && EndsHere(r)
      ensures StoreContract(old(store), store, sid, row, dumps, Cutoff(pruneNow, retentionDays), r)
      ensures RunWent(fault, old(ticks), ticks, at, RowTotal(dumps), IsClear(old(store), sid, dumps), r)
      ensures r.RunOk? && r.pruneError ==>
                Cutoff(pruneNow, retentionDays).None?
                || Blamed(fault, old(ticks) + 1 + RowTotal(dumps), ticks, Raised)
    {
      r, at := ClaimAndWrite(sid, row, dumps);
      if r.RunOk? {
        ghost var complete, mid, written := store, ticks, r;
        var p := Prune(pruneNow);
        ThenPruned(old(store), complete, store, sid, row, dumps, Cutoff(pruneNow, retentionDays), r, p);
        r := AfterPrune(sid, p);
        PrunedWent(fault, old(ticks), mid, ticks, at, RowTotal(dumps), IsClear(old(store), sid, dumps),
                   written, sid, p);
        assert mid == old(ticks) + 1 + RowTotal(dumps);
      }
    }

    /** The index row, then the rows; a failure among the rows discards the snapshot. RunOk here
        means written but not yet pruned. */
    method ClaimAndWrite(sid: string, row: IndexRow, dumps: Dumps) returns (r: RunResult, ghost at: nat)
      requires WellFormed(store)
      modifies this`store, this`ticks
      ensures WellFormed(store) && EndsHere(r) && (r.RunOk? ==> r == RunOk(sid, 0, None, true))
      ensures StoreContract(old(store), store, sid, row, dumps, None, r)
      ensures RunWent(fault, old(ticks), ticks, at, RowTotal(dumps), IsClear(old(store), sid, dumps), r)
      ensures r.RunOk? ==> ticks == old(ticks) + 1 + RowTotal(dumps)
    {
      ghost var s0 := store;
      at := 0;
      var e := Exec(InsertIndex(sid, row));
      IndexOnly(s0, sid, row);
      if !e.Done? {
        return if e.Died? then RunDied else RunFailed(IndexFailed), at;
      }
      r, at := WriteOrDiscard(sid, row, dumps, s0);
    }

    /** The rows of a snapshot whose index row has been inserted into `s0`, and their discard if one fails. */
    method WriteOrDiscard(sid: string, row: IndexRow, dumps: Dumps, ghost s0: Store)
      returns (r: RunResult, ghost at: nat)
      requires WellFormed(s0) && sid !in s0.index && store == s0.(index := s0.index[sid := row])
      requires ticks > 0 && FaultAt(fault, ticks - 1).Works?
      modifies this`store, this`ticks
      ensures WellFormed(store) && EndsHere(r) && (r.RunOk? ==> r == RunOk(sid, 0, None, true))
      ensures r != RunFailed(IndexFailed) && StoreContract(s0, store, sid, row, dumps, None, r)
      ensures RunWent(fault, old(ticks) - 1, ticks, at, RowTotal(dumps), IsClear(s0, sid, dumps), r)
      ensures r.RunOk? ==> ticks == old(ticks) + RowTotal(dumps)
    {
      ghost var ns;
      var e;
      at := 0;
      e, ns := WriteSnapshot(sid, dumps);
      WrittenContract(s0, store, sid, row, dumps, ns);
      if e.Done? || e.Died? {
        WroteWent(fault, old(ticks) - 1, ticks, RowTotal(dumps), IsClear(s0, sid, dumps), e);
        return if e.Done? then RunOk(sid, 0, None, true) else RunDied, at;
      }
      at := ticks;
      e := DiscardWritten(sid, row, dumps, s0, ns);
      DiscardWent(fault, old(ticks) - 1, at, ticks, RowTotal(dumps), IsClear(s0, sid, dumps), e);
      return AfterDiscard(e), at;
    }

    /** The discard of what has been written of a snapshot. */
    method DiscardWritten(sid: string, row: IndexRow, dumps: Dumps, ghost s0: Store, ghost ns: seq<nat>)
      returns (e: ExecResult)
      requires WellFormed(s0) && sid !in s0.index && Prefixes(ns, dumps)
      requires store == Written(s0.(index := s0.index[sid := row]), sid, dumps, ns)
      modifies this`store, this`ticks
      ensures WellFormed(store) && StoreContract(s0, store, sid, row, dumps, None, AfterDiscard(e))
      ensures Went(fault, old(ticks), ticks, TABLES + 1, e) && (!e.Done? ==> Blamed(fault, old(ticks), ticks, e))
    {
      ghost var n;
      e, n := DiscardSnapshot(sid);
      DiscardContract(s0, store, sid, row, dumps, ns, n, e);
    }
  }

  function AfterDiscard(e: ExecResult): RunResult {
    if e.Died? then RunDied else RunFailed(WriteFailed(e.Done?))
  }

  /** The ways a run can end from the index insert on. */
  predicate EndsHere(r: RunResult) {
    r.RunOk? || r.RunDied? || (r.RunFailed? && (r.failure.IndexFailed? || r.failure.WriteFailed?))
  }

  lemma PrunedWent(fault: nat -> Fault, lo: nat, mid: nat, hi: nat, at: nat, total: nat, clear: bool,
                   r: RunResult, sid: string, p: PruneResult)
    requires r.RunOk? && RunWent(fault, lo, mid, at, total, clear, r) && mid == lo + 1 + total <= hi
    requires p.PruneDied? ==> Blamed(fault, mid, hi, Died)
    ensures RunWent(fault, lo, hi, at, total, clear, AfterPrune(sid, p))
  {
  }

  /** The rows were written, or not and the process died, or the discard came next. */
  lemma WroteWent(fault: nat -> Fault, lo: nat, at: nat, total: nat, clear: bool, e: ExecResult)
    requires FaultAt(fault, lo).Works? && Went(fault, lo + 1, at, total, e)
    requires !e.Done? && clear ==> Blamed(fault, lo + 1, at, e)
    ensures e.Done? ==> forall sid, pruned, oldest, error ::
              RunWent(fault, lo, at, 0, total, clear, RunOk(sid, pruned, oldest, error))
    ensures e.Died? ==> RunWent(fault, lo, at, 0, total, clear, RunDied)
  {
  }

  lemma DiscardWent(fault: nat -> Fault, lo: nat, at: nat, hi: nat, total: nat, clear: bool, d: ExecResult)
    requires FaultAt(fault, lo).Works? && Went(fault, lo + 1, at, total, Raised)
    requires clear ==> Blamed(fault, lo + 1, at, Raised)
    requires Went(fault, at, hi, TABLES + 1, d) && (!d.Done? ==> Blamed(fault, at, hi, d))
    ensures RunWent(fault, lo, hi, at, total, clear, AfterDiscard(d))
  {
  }

  lemma DiscardContract(s0: Store, s: Store, sid: string, row: IndexRow, dumps: Dumps, ns: seq<nat>, n: nat,
                        e: ExecResult)
    requires WellFormed(s0) && sid !in s0.index && Prefixes(ns, dumps) && s == HalfWritten(s0, sid, row, dumps, ns, n)
    requires e.Done? ==> n == TABLES + 1
    ensures StoreContract(s0, s, sid, row, dumps, None, AfterDiscard(e))
  {
    var claimed := s0.(index := s0.index[sid := row]);
    WrittenAnywhere(claimed, sid, dumps, ns);
    DiscardedEnd(s0, claimed, Written(claimed, sid, dumps, ns), s, sid, row, n);
    StoppedWriting(s0, s, sid, row, dumps, ns, n);
  }

  lemma WrittenContract(s0: Store, s: Store, sid: string, row: IndexRow, dumps: Dumps, ns: seq<nat>)
    requires WellFormed(s0) && sid !in s0.index && Prefixes(ns, dumps)
    requires s == Written(s0.(index := s0.index[sid := row]), sid, dumps, ns)
    ensures StoreContract(s0, s, sid, row, dumps, None, RunDied)
    ensures ns == Counts(dumps) ==> StoreContract(s0, s, sid, row, dumps, None, RunOk(sid, 0, None, true))
  {
    var claimed := s0.(index := s0.index[sid := row]);
    IndexOnly(s0, sid, row);
    WrittenAnywhere(claimed, sid, dumps, ns);
    forall x | x != sid ensures SameSnapshot(s0, s, x) {
      assert SameSnapshot(s0, claimed, x) && SameSnapshot(claimed, s, x);
    }
    PurgedStep(s, sid, 0);
    StoppedWriting(s0, s, sid, row, dumps, ns, 0);
  }

  function AfterPrune(sid: string, p: PruneResult): RunResult {
    match p
    case PruneOk(pruned, oldest) => RunOk(sid, pruned, oldest, false)
    case PruneFailed => RunOk(sid, 0, None, true)
    case PruneDied => RunDied
  }

  lemma StoppedWriting(s0: Store, s: Store, sid: string, row: IndexRow, dumps: Dumps, ns: seq<nat>, n: nat)
    requires WellFormed(s0) && Prefixes(ns, dumps)
    requires s == Purged(Written(s0.(index := s0.index[sid := row]), sid, dumps, ns), sid, n)
    ensures WriteStopped(s0, s, sid, row, dumps)
  {
    assert s == HalfWritten(s0, sid, row, dumps, ns, n);
  }

  lemma DiscardedEnd(s0: Store, claimed: Store, written: Store, s: Store, sid: string, row: IndexRow, n: nat)
    requires WellFormed(s0) && WellFormed(written) && sid !in s0.index
    requires claimed == s0.(index := s0.index[sid := row])
    requires Dropped(written, {sid}) == Dropped(claimed, {sid})
    requires forall x :: x != sid ==> SameSnapshot(claimed, written, x)
    requires NoOrphans(claimed) ==> NoOrphans(written)
    requires s == Purged(written, sid, n)
    ensures NoOrphans(s0) ==> NoOrphans(s)
    ensures forall x :: x != sid ==> SameSnapshot(s0, s, x)
    ensures n == TABLES + 1 ==> s == Dropped(s0, {sid})
  {
    PurgeAnywhere(written, sid, n);
    PurgedAll(written, sid);
    DropClaimed(s0, sid, row);
    IndexOnly(s0, sid, row);
    forall x | x != sid ensures SameSnapshot(s0, s, x) {
      assert SameSnapshot(s0, claimed, x) && SameSnapshot(claimed, written, x) && SameSnapshot(written, s, x);
    }
  }

  lemma ThenPruned(s0: Store, mid: Store, s: Store, sid: string, row: IndexRow, dumps: Dumps,
                   cutoff: Option<string>, r: RunResult, p: PruneResult)
    requires WellFormed(s0) && WellFormed(mid) && WellFormed(s)
    requires r.RunOk? && r.pruneError && StoreContract(s0, mid, sid, row, dumps, None, r)
    requires match cutoff
             case None => p == PruneFailed && s == mid
             case Some(c) => PruneContract(mid, s, c, p)
    ensures StoreContract(s0, s, sid, row, dumps, cutoff, AfterPrune(sid, p))
  {
    forall x | x != sid && Kept(x, cutoff) ensures SameSnapshot(s0, s, x) {
      assert Kept(x, None);
      assert SameSnapshot(s0, mid, x) && SameSnapshot(mid, s, x);
    }
  }

  lemma IndexOnly(s: Store, sid: string, row: IndexRow)
    requires WellFormed(s)
    ensures var c := s.(index := s.index[sid := row]);
            (NoOrphans(s) ==> NoOrphans(c)) && forall x :: x != sid ==> SameSnapshot(s, c, x)
  {
  }

  lemma DropClaimed(s: Store, sid: string, row: IndexRow)
    requires WellFormed(s) && sid !in s.index
    ensures Dropped(s.(index := s.index[sid := row]), {sid}) == Dropped(s, {sid})
  {
    assert s.index[sid := row] - {sid} == s.index - {sid};
    assert Dropped(s.(index := s.index[sid := row]), {sid}).tables == Dropped(s, {sid}).tables;
  }

  /** The id is fresh and no row can collide. */
  predicate IsClear(s: Store, sid: string, dumps: Dumps)
    requires WellFormed(s)
  {
    sid !in s.index && Writable(s, sid, dumps)
  }

  lemma ClearIsAbsent(s: Store, sid: string, dumps: Dumps)
    requires WellFormed(s) && IsClear(s, sid, dumps)
    ensures Dropped(s, {sid}) == s
  {
    AllIdsMember(s, sid);
    DropAbsent(s, {sid});
  }

  predicate Kept(x: string, cutoff: Option<string>) {
    cutoff.None? || !ByteLess(x, cutoff.value)
  }

  predicate Prefixes(ns: seq<nat>, dumps: Dumps) {
    |ns| == TABLES && forall t :: 0 <= t < TABLES ==> ns[t] <= |dumps[t]|
  }

  /** The store with the index row, the first `ns[t]` rows of each dump, and the first `n` deletes of a
      discard. */
  function HalfWritten(s: Store, sid: string, row: IndexRow, dumps: Dumps, ns: seq<nat>, n: nat): (r: Store)
    requires WellFormed(s) && Prefixes(ns, dumps)
    ensures WellFormed(r)
  {
    Purged(Written(s.(index := s.index[sid := row]), sid, dumps, ns), sid, n)
  }

  /** Where the writing of a snapshot, or its discard, may have stopped. */
  ghost predicate WriteStopped(s0: Store, s: Store, sid: string, row: IndexRow, dumps: Dumps)
    requires WellFormed(s0)
  {
    exists ns: seq<nat>, n: nat :: Prefixes(ns, dumps) && s == HalfWritten(s0, sid, row, dumps, ns, n)
  }

  /** What every exit of a run promises about the store, from the index insert on. */
  ghost predicate StoreContract(s0: Store, s: Store, sid: string, row: IndexRow, dumps: Dumps,
                                cutoff: Option<string>, r: RunResult)
    requires WellFormed(s0) && WellFormed(s)
  {
    && (NoOrphans(s0) ==> NoOrphans(s))
    && (forall x :: x != sid && Kept(x, cutoff) ==> SameSnapshot(s0, s, x))
    && (sid in s0.index ==> s == s0 && (r.RunDied? || r == RunFailed(IndexFailed)))
    && (r == RunFailed(IndexFailed) ==>
          s == s0 || (sid !in s0.index && s == s0.(index := s0.index[sid := row])))
    && (r == RunFailed(WriteFailed(true)) ==> sid !in s0.index && s == Dropped(s0, {sid}))
    && (r == RunFailed(WriteFailed(false)) ==> sid !in s0.index && WriteStopped(s0, s, sid, row, dumps))
    && (r.RunDied? ==>
          || s == s0
          || (sid !in s0.index && WriteStopped(s0, s, sid, row, dumps))
          || (sid !in s0.index && cutoff.Some? && PruneStopped(WithSnapshot(s0, sid, row, dumps), s, cutoff.value)))
    && (r.RunOk? || r == RunFailed(MetaFailed) ==>
          && sid !in s0.index
          && match cutoff
             case None => s == WithSnapshot(s0, sid, row, dumps)
             case Some(c) =>
               var mid := WithSnapshot(s0, sid, row, dumps);
               PartlyPruned(mid, s, c) && PruneStopped(mid, s, c))
    && (r.RunOk? ==> r.sid == sid && (r.pruneError ==> r.pruned == 0 && r.oldest == None))
    && (r.RunOk? && !r.pruneError ==>
          && cutoff.Some?
          && s == Pruned(WithSnapshot(s0, sid, row, dumps), cutoff.value)
          && r.pruned == |Expired(WithSnapshot(s0, sid, row, dumps), cutoff.value)|
          && IsOldest(s.index.Keys, r.oldest))
  }

  ghost predicate RunContract(s0: Store, s: Store, sid: string, createdAt: string, trigger: string,
                              dumps: Option<Dumps>, cutoff: Option<string>, r: RunResult)
    requires WellFormed(s0) && WellFormed(s)
  {
    if r == RunFailed(DumpFailed) || r == RunFailed(SchemaFailed) then
      s == s0
    else
      && dumps.Some?
      && StoreContract(s0, s, sid, IndexRow(createdAt, trigger, Counts(dumps.value)), dumps.value, cutoff, r)
  }

  /** `(now - timedelta(days)).isoformat()`; None is the overflow before year 1. */
  function Cutoff(now: DateTime, days: nat): Option<string>
    requires IsoTime.Valid(now)
  {
    match DaysBefore(now, days)
    case None => None
    case Some(t) =>
      DaysBeforeIsEarlier(now, days);
      Some(Iso(t))
  }

  /** The cutoff is the moment exactly that many days ago, printed; there is none only before year 1. */
  lemma CutoffIsDaysAgo(now: DateTime, days: nat)
    requires IsoTime.Valid(now)
    ensures Cutoff(now, days).Some? <==> days < Ordinal(now)
    ensures Cutoff(now, days).Some? ==>
              exists t :: IsoTime.Valid(t) && Cutoff(now, days) == Some(Iso(t))
                          && Ordinal(t) == Ordinal(now) - days && TimeOfDay(t) == TimeOfDay(now)
  {
    DaysBeforeIsExact(now, days);
    if DaysBefore(now, days).Some? {
      DaysBeforeIsEarlier(now, days);
      var t := DaysBefore(now, days).value;
      assert IsoTime.Valid(t) && Cutoff(now, days) == Some(Iso(t));
    }
  }

  /** A prune that reports success is complete, and its report is exact. */
  ghost predicate PruneContract(s0: Store, s: Store, cutoff: string, r: PruneResult)
    requires WellFormed(s0) && WellFormed(s)
  {
    && PartlyPruned(s0, s, cutoff) && PruneStopped(s0, s, cutoff)
    && (r.PruneOk? ==>
          && s == Pruned(s0, cutoff)
          && r.pruned == |Expired(s0, cutoff)|
          && IsOldest(s.index.Keys, r.oldestRemaining))
  }

  function Elements(q: seq<string>): set<string> {
    set x | x in q
  }

  lemma ElementsOfPrefix(q: seq<string>, k: nat)
    requires k <= |q|
    ensures Elements(q[..k]) <= Elements(q)
  {
    forall x | x in q[..k] ensures x in q {
      var i :| 0 <= i < k && q[..k][i] == x;
      assert q[i] == x;
    }
  }

  function Older(ids: set<string>, cutoff: string): set<string> {
    set x | x in ids && ByteLess(x, cutoff)
  }

  /** The ids in the index and the first `k - 1` tables. */
  function IdsUpTo(s: Store, k: nat): set<string>
    requires WellFormed(s) && k <= TABLES + 1
  {
    if k == 0 then {} else IdsUpTo(s, k - 1) + (if k == 1 then s.index.Keys else SidsOf(s.tables[k - 2]))
  }

  // ------------------------------------------------------------------
  // What the contract of a run means

  /** Without orphans, an id that is not in the index is nowhere. */
  lemma FreshPartition(s: Store, sid: string)
    requires WellFormed(s) && NoOrphans(s) && sid !in s.index
    ensures sid !in AllIds(s) && Dropped(s, {sid}) == s
    ensures forall t :: 0 <= t < TABLES ==> RowsOf(s.tables[t], sid) == []
  {
    forall t | 0 <= t < TABLES ensures sid !in SidsOf(s.tables[t]) {
      assert forall e :: e in s.tables[t] ==> e.sid in s.index;
    }
    forall t | 0 <= t < TABLES ensures RowsOf(s.tables[t], sid) == [] {
      NoRowsNoEntries(s.tables[t], sid);
    }
    DropAbsent(s, {sid});
  }

  /** After an ok run the snapshot's rows are exactly the four dumps and the index counts match. */
  lemma OkRunHoldsTheDumps(s0: Store, s: Store, sid: string, row: IndexRow, dumps: Dumps,
                           cutoff: Option<string>, r: RunResult, t: nat)
    requires WellFormed(s0) && WellFormed(s) && NoOrphans(s0) && t < TABLES
    requires row.counts == Counts(dumps) && StoreContract(s0, s, sid, row, dumps, cutoff, r)
    requires r.RunOk? && Kept(sid, cutoff)
    ensures sid in s.index && s.index[sid] == row && RowsOf(s.tables[t], sid) == dumps[t]
    ensures row.counts[t] == |RowsOf(s.tables[t], sid)|
  {
    FreshPartition(s0, sid);
    var claimed := s0.(index := s0.index[sid := row]);
    WrittenAnywhere(claimed, sid, dumps, Counts(dumps));
    assert dumps[t][..|dumps[t]|] == dumps[t];
    var mid := WithSnapshot(s0, sid, row, dumps);
    assert RowsOf(mid.tables[t], sid) == dumps[t];
    if cutoff.Some? {
      assert SameSnapshot(mid, s, sid);
    }
  }

  /** Every row was written and none discarded, or the discard is complete; a delete that took nothing
      out does not count. */
  predicate Whole(dumps: Dumps, ns: seq<nat>, n: nat)
    requires Prefixes(ns, dumps)
  {
    n > TABLES || forall t :: 0 <= t < TABLES ==> if t < n then dumps[t] == [] else ns[t] == |dumps[t]|
  }

  /** The rows of the snapshot, wherever the writing and its discard stopped. */
  lemma HalfWrittenRows(s0: Store, sid: string, row: IndexRow, dumps: Dumps, ns: seq<nat>, n: nat, t: nat)
    requires WellFormed(s0) && NoOrphans(s0) && sid !in s0.index && Prefixes(ns, dumps) && t < TABLES
    ensures |RowsOf(HalfWritten(s0, sid, row, dumps, ns, n).tables[t], sid)| == if t < n then 0 else ns[t]
  {
    var claimed := s0.(index := s0.index[sid := row]);
    FreshPartition(s0, sid);
    WrittenAnywhere(claimed, sid, dumps, ns);
    WithoutRows(Written(claimed, sid, dumps, ns).tables[t], {sid}, sid);
    assert RowsOf(claimed.tables[t], sid) == [];
  }

  lemma HalfWrittenOthers(s0: Store, sid: string, row: IndexRow, dumps: Dumps, ns: seq<nat>, n: nat, x: string)
    requires WellFormed(s0) && Prefixes(ns, dumps) && x != sid
    ensures SameSnapshot(s0, HalfWritten(s0, sid, row, dumps, ns, n), x)
  {
    var claimed := s0.(index := s0.index[sid := row]);
    var w := Written(claimed, sid, dumps, ns);
    IndexOnly(s0, sid, row);
    WrittenAnywhere(claimed, sid, dumps, ns);
    PurgeAnywhere(w, sid, n);
    assert SameSnapshot(s0, claimed, x) && SameSnapshot(claimed, w, x) && SameSnapshot(w, Purged(w, sid, n), x);
  }

  /** A run that stops among its inserts, or in its discard, leaves a half snapshot in the index, shown
      by its counts, exactly unless it had written everything and discarded nothing, or discarded it
      all; every other snapshot is as complete as before. */
  lemma HalfSnapshotShows(s0: Store, sid: string, row: IndexRow, dumps: Dumps, ns: seq<nat>, n: nat)
    requires WellFormed(s0) && NoOrphans(s0) && Complete(s0) && sid !in s0.index && row.counts == Counts(dumps)
    requires Prefixes(ns, dumps)
    ensures Complete(HalfWritten(s0, sid, row, dumps, ns, n)) <==> Whole(dumps, ns, n)
  {
    var s := HalfWritten(s0, sid, row, dumps, ns, n);
    forall t | 0 <= t < TABLES ensures |RowsOf(s.tables[t], sid)| == if t < n then 0 else ns[t] {
      HalfWrittenRows(s0, sid, row, dumps, ns, n, t);
    }
    forall x | x in s.index && x != sid ensures CountsMatch(s, x) {
      HalfWrittenOthers(s0, sid, row, dumps, ns, n, x);
      assert CountsMatch(s0, x);
    }
    if n <= TABLES {
      assert sid in s.index && s.index[sid] == row;
      assert CountsMatch(s, sid) <==> Whole(dumps, ns, n);
    }
  }

  /** A prune that stops leaves at most one half snapshot, an expired one: the one whose deletes it was
      in, exactly if they had taken rows out of it but not yet its index row. */
  lemma HalfPrunedShows(s0: Store, ids: set<string>, sid: string, n: nat)
    requires WellFormed(s0) && Complete(s0)
    ensures Complete(Purged(Dropped(s0, ids), sid, n)) <==>
              n > TABLES || sid !in s0.index || sid in ids
              || forall t :: 0 <= t < TABLES && t < n ==> RowsOf(s0.tables[t], sid) == []
  {
    var p := Dropped(s0, ids);
    var s := Purged(p, sid, n);
    DroppedIsComplete(s0, ids);
    PurgeAnywhere(p, sid, n);
    forall x | x in s.index && x != sid ensures CountsMatch(s, x) {
      assert SameSnapshot(p, s, x) && CountsMatch(p, x);
    }
    if n <= TABLES && sid in s0.index && sid !in ids {
      forall t | 0 <= t < TABLES
        ensures RowsOf(s.tables[t], sid) == if t < n then [] else RowsOf(s0.tables[t], sid)
      {
        DroppedRows(s0, ids, sid);
        WithoutRows(p.tables[t], {sid}, sid);
      }
      assert CountsMatch(s0, sid) && s.index[sid] == s0.index[sid];
      assert CountsMatch(s, sid) <==> forall t :: 0 <= t < TABLES && t < n ==> RowsOf(s0.tables[t], sid) == [];
    }
  }

  /** A run that ends ok and pruned, or that failed among the rows and whose discard worked, keeps every
      indexed snapshot complete. One that failed at the index insert does so exactly if the insert had
      no effect, or there was no row to write: a lost acknowledgement is not followed by a discard. */
  lemma EndedRunKeepsComplete(s0: Store, s: Store, sid: string, row: IndexRow, dumps: Dumps,
                              cutoff: Option<string>, r: RunResult)
    requires WellFormed(s0) && WellFormed(s) && NoOrphans(s0) && Complete(s0)
    requires row.counts == Counts(dumps) && StoreContract(s0, s, sid, row, dumps, cutoff, r)
    ensures (r.RunOk? && !r.pruneError) || r == RunFailed(WriteFailed(true)) ==> Complete(s)
    ensures r == RunFailed(IndexFailed) ==>
              (Complete(s) <==> s == s0 || forall t :: 0 <= t < TABLES ==> dumps[t] == [])
  {
    if r.RunOk? && !r.pruneError {
      AddedIsComplete(s0, sid, row, dumps);
      DroppedIsComplete(WithSnapshot(s0, sid, row, dumps), Expired(WithSnapshot(s0, sid, row, dumps), cutoff.value));
    } else if r == RunFailed(WriteFailed(true)) {
      FailedRunLeavesNothing(s0, s, sid, row, dumps, cutoff, r);
    } else if r == RunFailed(IndexFailed) && s != s0 {
      ClaimedOnly(s0, sid, row, dumps);
      HalfSnapshotShows(s0, sid, row, dumps, [0, 0, 0, 0], 0);
    }
  }

  lemma ClaimedOnly(s0: Store, sid: string, row: IndexRow, dumps: Dumps)
    requires WellFormed(s0)
    ensures HalfWritten(s0, sid, row, dumps, [0, 0, 0, 0], 0) == s0.(index := s0.index[sid := row])
  {
    var claimed := s0.(index := s0.index[sid := row]);
    assert forall t :: 0 <= t < TABLES ==> claimed.tables[t] + Entries(sid, dumps[t][..0]) == claimed.tables[t];
    assert Written(claimed, sid, dumps, [0, 0, 0, 0]).tables == claimed.tables;
    PurgedStep(claimed, sid, 0);
  }

  lemma AddedIsComplete(s0: Store, sid: string, row: IndexRow, dumps: Dumps)
    requires WellFormed(s0) && NoOrphans(s0) && Complete(s0) && sid !in s0.index && row.counts == Counts(dumps)
    ensures Complete(WithSnapshot(s0, sid, row, dumps))
  {
    PurgedStep(WithSnapshot(s0, sid, row, dumps), sid, 0);
    HalfSnapshotShows(s0, sid, row, dumps, Counts(dumps), 0);
  }

  lemma DroppedIsComplete(s: Store, ids: set<string>)
    requires WellFormed(s) && Complete(s)
    ensures Complete(Dropped(s, ids))
  {
    forall x | x in Dropped(s, ids).index ensures CountsMatch(Dropped(s, ids), x) {
      DroppedRows(s, ids, x);
      assert CountsMatch(s, x);
    }
  }

  /** A run that failed while writing rows, and whose discard worked, leaves the store as it was. */
  lemma FailedRunLeavesNothing(s0: Store, s: Store, sid: string, row: IndexRow, dumps: Dumps,
                               cutoff: Option<string>, r: RunResult)
    requires WellFormed(s0) && WellFormed(s) && NoOrphans(s0)
    requires StoreContract(s0, s, sid, row, dumps, cutoff, r) && r == RunFailed(WriteFailed(true))
    ensures s == s0
  {
    FreshPartition(s0, sid);
  }

  /** A run shorter than the retention window, from the drawing of its id on, never prunes its own
      snapshot. */
  lemma OwnSnapshotIsKept(last: Option<DateTime>, drawn: DateTime, pruneNow: DateTime, days: nat)
    requires IsoTime.Valid(drawn) && IsoTime.Valid(pruneNow) && (last.Some? ==> IsoTime.Valid(last.value))
    requires NextId(last, drawn).Some? && DaysBefore(pruneNow, days).Some?
    requires !Earlier(drawn, DaysBefore(pruneNow, days).value)
    ensures IsoTime.Valid(NextId(last, drawn).value)
    ensures Kept(Iso(NextId(last, drawn).value), Cutoff(pruneNow, days))
  {
    NextIdNotBefore(last, drawn);
    DaysBeforeIsEarlier(pruneNow, days);
    IsoSortsAsTime(NextId(last, drawn).value, DaysBefore(pruneNow, days).value);
  }

  /** With a window of zero days, which the one-day floor excludes, a run that takes any time at all
      would prune the snapshot it has just written (unless an earlier id had pushed it ahead). */
  lemma ZeroDaysWouldPruneItself(drawn: DateTime, pruneNow: DateTime)
    requires IsoTime.Valid(drawn) && IsoTime.Valid(pruneNow) && Earlier(drawn, pruneNow)
    ensures NextId(None, drawn) == Some(drawn)
    ensures !Kept(Iso(drawn), Cutoff(pruneNow, 0))
  {
    IsoSortsAsTime(drawn, pruneNow);
  }
}
