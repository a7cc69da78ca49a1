/**
  Runs, discards, prunes and explicit deletes interleaved statement by statement on one store, with
  a crash possible between any two statements: no child row is ever without its index row, and an
  indexed snapshot is a half one exactly when a job of it is midway or was cut short.

  Unlike `run`, `delete_snapshot` does not take the lock, so its deletes may fall between the
  statements of a run. Deleting a snapshot that is still being written is excluded.
 */
module SnapshotLog {
  import opened Collections
  import opened SnapshotStore
  import opened Wrappers

  type TableId = t: nat | t < TABLES witness 0

  /** A job that is no longer alive has ended, or was cut short where it stands. */
  datatype Job =
    | Writing(sid: string, todo: seq<(TableId, ChildRow)>, alive: bool)
    | Deleting(sid: string, stage: nat, alive: bool)  // the first `stage` of the five deletes are done

  /** `known` holds every id that was ever in the store or the target of a delete. */
  datatype State = State(store: Store, jobs: seq<Job>, known: set<string>)

  datatype Action =
    | BeginRun(sid: string, createdAt: string, trigger: string, todo: seq<(TableId, ChildRow)>)
    | BeginDelete(sid: string)
    | Next(j: nat)      // the job's next statement, or its end when none is left
    | Fail(j: nat)      // the next statement is refused; after a Next, its acknowledgement was lost
    | Crash(j: nat)

  /** How many of the rows go into table `t`. */
  function RowsFor(todo: seq<(TableId, ChildRow)>, t: nat): nat {
    if todo == [] then 0 else (if todo[0].0 == t then 1 else 0) + RowsFor(todo[1..], t)
  }

  function CountsOf(todo: seq<(TableId, ChildRow)>): (counts: seq<nat>)
    ensures |counts| == TABLES && forall t :: 0 <= t < TABLES ==> counts[t] == RowsFor(todo, t)
  {
    seq(TABLES, t requires 0 <= t => RowsFor(todo, t))
  }

  predicate BeingWritten(s: State, sid: string) {
    exists j :: 0 <= j < |s.jobs| && s.jobs[j].Writing? && s.jobs[j].alive && s.jobs[j].sid == sid
  }

  function SetJob(s: State, j: nat, job: Job): State
    requires j < |s.jobs|
  {
    s.(jobs := s.jobs[j := job])
  }

  /** The statement a job sends next, if any is left. */
  function NextStmt(job: Job): Option<Stmt> {
    match job
    case Writing(sid, todo, _) => if todo == [] then None else Some(InsertChild(todo[0].0, sid, todo[0].1))
    case Deleting(sid, stage, _) =>
      if stage < TABLES then Some(DeleteChildren(stage, sid))
      else if stage == TABLES then Some(DeleteIndex(sid)) else None
  }

  /** The job once its statement has worked. */
  function Advanced(job: Job): Job {
    match job
    case Writing(sid, todo, alive) => Writing(sid, if todo == [] then [] else todo[1..], alive)
    case Deleting(sid, stage, alive) => Deleting(sid, stage + 1, alive)
  }

  /** The job's statement has been refused: a run discards its snapshot, a delete gives up. */
  function Refuse(s: State, j: nat): State
    requires j < |s.jobs|
  {
    var job := s.jobs[j];
    var stopped := SetJob(s, j, job.(alive := false));
    if job.Writing? then stopped.(jobs := stopped.jobs + [Deleting(job.sid, 0, true)]) else stopped
  }

  function Step(s: State, a: Action): State
    requires WellFormed(s.store)
  {
    match a
    case BeginRun(sid, createdAt, trigger, todo) =>
      // The ids one manager issues strictly increase: an id that is not in the index is a new one.
      if sid in s.store.index || sid in s.known then s
      else State(Apply(s.store, InsertIndex(sid, IndexRow(createdAt, trigger, CountsOf(todo)))).value,
                 s.jobs + [Writing(sid, todo, true)], s.known + {sid})
    case BeginDelete(sid) =>
      if BeingWritten(s, sid) then s
      else s.(jobs := s.jobs + [Deleting(sid, 0, true)], known := s.known + {sid})
    case Next(j) =>
      if j >= |s.jobs| || !s.jobs[j].alive then s
      else
        var stmt := NextStmt(s.jobs[j]);
        if stmt.None? then SetJob(s, j, s.jobs[j].(alive := false))
        else
          var r := Apply(s.store, stmt.value);
          if r.None? then Refuse(s, j) else SetJob(s.(store := r.value), j, Advanced(s.jobs[j]))
    case Fail(j) => if j >= |s.jobs| || !s.jobs[j].alive then s else Refuse(s, j)
    case Crash(j) => if j >= |s.jobs| then s else SetJob(s, j, s.jobs[j].(alive := false))
  }

  function Run(s: State, actions: seq<Action>): (r: State)
    requires WellFormed(s.store)
    ensures WellFormed(r.store)
    decreases |actions|
  {
    if actions == [] then s
    else Step(Run(s, actions[..|actions| - 1]), actions[|actions| - 1])
  }

  // ------------------------------------------------------------------
  // No orphans

  ghost predicate JobInv(s: State, j: nat)
    requires WellFormed(s.store) && j < |s.jobs|
  {
    var job := s.jobs[j];
    && job.sid in s.known
    && (job.Writing? && job.alive ==>
          && job.sid in s.store.index
          && forall i :: 0 <= i < |s.jobs| && s.jobs[i].Deleting? ==> s.jobs[i].sid != job.sid)
    && (job.Deleting? ==>
          forall t :: 0 <= t < TABLES && t < job.stage ==> RowsOf(s.store.tables[t], job.sid) == [])
  }

  ghost predicate Inv(s: State) {
    && WellFormed(s.store) && NoOrphans(s.store) && s.store.index.Keys <= s.known
    && (forall j :: 0 <= j < |s.jobs| ==> JobInv(s, j))
    && (forall i, j :: 0 <= i < j < |s.jobs| && s.jobs[i].Writing? && s.jobs[j].Writing? ==>
          s.jobs[i].sid != s.jobs[j].sid)
  }

  lemma InsertKeepsNoOrphans(s: Store, t: nat, sid: string, row: ChildRow)
    requires WellFormed(s) && NoOrphans(s) && sid in s.index && Apply(s, InsertChild(t, sid, row)).Some?
    ensures NoOrphans(Apply(s, InsertChild(t, sid, row)).value)
  {
  }

  lemma DeleteKeepsNoOrphans(s: Store, t: nat, sid: string)
    requires WellFormed(s) && NoOrphans(s) && t < TABLES
    ensures NoOrphans(Apply(s, DeleteChildren(t, sid)).value)
    ensures RowsOf(Apply(s, DeleteChildren(t, sid)).value.tables[t], sid) == []
  {
    WithoutMembers(s.tables[t], {sid});
    WithoutRows(s.tables[t], {sid}, sid);
    var s' := Apply(s, DeleteChildren(t, sid)).value;
    forall i, k | 0 <= i < TABLES && 0 <= k < |s'.tables[i]| ensures s'.tables[i][k].sid in s'.index {
      if i == t {
        assert s'.tables[i][k] in Without(s.tables[t], {sid});
      }
    }
  }

  lemma DropIndexKeepsNoOrphans(s: Store, sid: string)
    requires WellFormed(s) && NoOrphans(s)
    requires forall t :: 0 <= t < TABLES ==> RowsOf(s.tables[t], sid) == []
    ensures NoOrphans(Apply(s, DeleteIndex(sid)).value)
  {
    forall t, i | 0 <= t < TABLES && 0 <= i < |s.tables[t]| ensures s.tables[t][i].sid != sid {
      NoRowsNoEntries(s.tables[t], sid);
      assert s.tables[t][i] in s.tables[t];
      assert s.tables[t][i].sid in SidsOf(s.tables[t]);
    }
  }

  /** Job `j` is alive, and its next statement works. */
  ghost predicate Enabled(s: State, j: nat) {
    && WellFormed(s.store) && j < |s.jobs| && s.jobs[j].alive && NextStmt(s.jobs[j]).Some?
    && Apply(s.store, NextStmt(s.jobs[j]).value).Some?
  }

  function StoreAfter(s: State, j: nat): Store
    requires Enabled(s, j)
  {
    Apply(s.store, NextStmt(s.jobs[j]).value).value
  }

  /** The statement of job `j` keeps every child row indexed. */
  lemma NextKeepsNoOrphans(s: State, j: nat)
    requires Inv(s) && Enabled(s, j)
    ensures NoOrphans(StoreAfter(s, j))
  {
    assert JobInv(s, j);
    match s.jobs[j] {
      case Writing(sid, todo, _) => InsertKeepsNoOrphans(s.store, todo[0].0, sid, todo[0].1);
      case Deleting(sid, stage, _) =>
        if stage < TABLES {
          DeleteKeepsNoOrphans(s.store, stage, sid);
        } else {
          DropIndexKeepsNoOrphans(s.store, sid);
        }
    }
  }

  /** A step leaves alone every snapshot but the one its job names. */
  lemma StepTouchesOnly(s: State, a: Action, x: string)
    requires WellFormed(s.store)
    requires match a
             case BeginRun(sid, _, _, _) => x != sid
             case BeginDelete(_) => true
             case Next(j) => j < |s.jobs| ==> x != s.jobs[j].sid
             case Fail(_) => true
             case Crash(_) => true
    ensures SameSnapshot(s.store, Step(s, a).store, x)
  {
    if a.Next? && Enabled(s, a.j) {
      ApplyTouchesOnly(s.store, NextStmt(s.jobs[a.j]).value, x);
    }
  }

  /** A table that a delete of a snapshot has emptied of it stays so. */
  lemma EmptiedStaysEmpty(s: State, j: nat, i: nat, t: nat)
    requires Inv(s) && Enabled(s, j) && i < |s.jobs| && s.jobs[i].Deleting? && t < TABLES && t < s.jobs[i].stage
    ensures RowsOf(StoreAfter(s, j).tables[t], s.jobs[i].sid) == []
  {
    assert JobInv(s, i) && JobInv(s, j);
    var stmt, x := NextStmt(s.jobs[j]).value, s.jobs[i].sid;
    if x != s.jobs[j].sid {
      ApplyTouchesOnly(s.store, stmt, x);
    } else if stmt.DeleteChildren? {
      WithoutRows(s.store.tables[stmt.t], {x}, x);
    }
  }

  lemma NextKeepsInv(s: State, j: nat)
    requires Inv(s) && Enabled(s, j)
    ensures Inv(Step(s, Next(j)))
  {
    var s' := Step(s, Next(j));
    NextKeepsNoOrphans(s, j);
    assert JobInv(s, j);
    forall i | 0 <= i < |s'.jobs| ensures JobInv(s', i) {
      assert JobInv(s, i);
      if s'.jobs[i].Deleting? {
        forall t | 0 <= t < TABLES && t < s'.jobs[i].stage
          ensures RowsOf(s'.store.tables[t], s'.jobs[i].sid) == []
        {
          if t < s.jobs[i].stage {
            EmptiedStaysEmpty(s, j, i, t);
          } else {
            WithoutRows(s.store.tables[t], {s.jobs[i].sid}, s.jobs[i].sid);
          }
        }
      }
    }
  }

  lemma BeginKeepsInv(s: State, a: Action)
    requires Inv(s) && (a.BeginRun? || a.BeginDelete?)
    ensures Inv(Step(s, a))
  {
    var s' := Step(s, a);
    if s' != s {
      forall k | 0 <= k < |s.jobs| ensures s.jobs[k].sid in s.known {
        assert JobInv(s, k);
      }
      forall k | 0 <= k < |s.jobs| && s.jobs[k].Writing? && s.jobs[k].alive && a.BeginDelete?
        ensures s.jobs[k].sid != a.sid
      {
        assert !BeingWritten(s, a.sid);
      }
      forall i | 0 <= i < |s'.jobs| ensures JobInv(s', i) {
        if i < |s.jobs| {
          assert JobInv(s, i);
        }
      }
    }
  }

  lemma StopKeepsInv(s: State, j: nat)
    requires Inv(s) && j < |s.jobs|
    ensures Inv(SetJob(s, j, s.jobs[j].(alive := false)))
  {
    var s' := SetJob(s, j, s.jobs[j].(alive := false));
    forall i | 0 <= i < |s'.jobs| ensures JobInv(s', i) {
      assert JobInv(s, i);
    }
  }

  lemma RefuseKeepsInv(s: State, j: nat)
    requires Inv(s) && j < |s.jobs| && s.jobs[j].alive
    ensures Inv(Refuse(s, j))
  {
    var stopped := SetJob(s, j, s.jobs[j].(alive := false));
    StopKeepsInv(s, j);
    assert JobInv(s, j);
    if s.jobs[j].Writing? {
      assert !BeingWritten(stopped, s.jobs[j].sid) by {
        forall i | 0 <= i < |s.jobs| && i != j && s.jobs[i].Writing? ensures s.jobs[i].sid != s.jobs[j].sid {
          assert i < j || j < i;
        }
      }
      BeginKeepsInv(stopped, BeginDelete(s.jobs[j].sid));
      assert stopped.known + {s.jobs[j].sid} == stopped.known;
      assert Refuse(s, j) == Step(stopped, BeginDelete(s.jobs[j].sid));
    }
  }

  /** A step is one of four things: nothing, a beginning, a statement that works, or a stop, which may
      make room for a discard. */
  lemma StepKinds(s: State, a: Action)
    requires WellFormed(s.store) && !a.BeginRun? && !a.BeginDelete?
    ensures var s' := Step(s, a);
            || s' == s
            || (a.Next? && Enabled(s, a.j))
            || (a.j < |s.jobs| && s' == SetJob(s, a.j, s.jobs[a.j].(alive := false)))
            || (a.j < |s.jobs| && s.jobs[a.j].alive && s' == Refuse(s, a.j))
  {
  }

  lemma StepKeepsInv(s: State, a: Action)
    requires Inv(s)
    ensures Inv(Step(s, a))
  {
    if a.BeginRun? || a.BeginDelete? {
      BeginKeepsInv(s, a);
    } else {
      StepKinds(s, a);
      if a.Next? && Enabled(s, a.j) {
        NextKeepsInv(s, a.j);
      } else if a.j < |s.jobs| {
        StopKeepsInv(s, a.j);
        if s.jobs[a.j].alive {
          RefuseKeepsInv(s, a.j);
        }
      }
    }
  }

  function Start(store: Store): State {
    State(store, [], store.index.Keys)
  }

  /** At every instant of every interleaving, every child row has its index row. */
  lemma {:induction false} NoOrphansEver(store: Store, actions: seq<Action>)
    requires WellFormed(store) && NoOrphans(store)
    ensures var s := Run(Start(store), actions);
            Inv(s) && NoOrphans(s.store)
    decreases |actions|
  {
    if actions != [] {
      NoOrphansEver(store, actions[..|actions| - 1]);
      StepKeepsInv(Run(Start(store), actions[..|actions| - 1]), actions[|actions| - 1]);
    }
  }

  // ------------------------------------------------------------------
  // Half snapshots

  predicate IsWriterOf(job: Job, sid: string) {
    job.Writing? && job.sid == sid
  }

  /** The job has deleted the snapshot's rows from table `t`. */
  predicate HasEmptied(job: Job, sid: string, t: nat) {
    job.Deleting? && job.sid == sid && t < job.stage
  }

  ghost predicate Emptied(s: State, sid: string, t: nat) {
    exists j :: 0 <= j < |s.jobs| && HasEmptied(s.jobs[j], sid, t)
  }

  /** Unless a delete has emptied it, table `t` holds what the index says, less what is still to write. */
  ghost predicate Tally(s: State, sid: string, t: nat)
    requires WellFormed(s.store) && sid in s.store.index && t < TABLES
  {
    var row, n := s.store.index[sid], |RowsOf(s.store.tables[t], sid)|;
    && |row.counts| == TABLES
    && (forall j :: 0 <= j < |s.jobs| && IsWriterOf(s.jobs[j], sid) ==>
          && RowsFor(s.jobs[j].todo, t) <= row.counts[t]
          && (!Emptied(s, sid, t) ==> n + RowsFor(s.jobs[j].todo, t) == row.counts[t]))
    && ((forall j :: 0 <= j < |s.jobs| ==> !IsWriterOf(s.jobs[j], sid)) && !Emptied(s, sid, t) ==> n == row.counts[t])
  }

  ghost predicate Tallies(s: State)
    requires WellFormed(s.store)
  {
    forall sid, t :: sid in s.store.index && 0 <= t < TABLES ==> Tally(s, sid, t)
  }

  lemma InsertTally(s: State, j: nat, sid: string, t: nat)
    requires Inv(s) && Enabled(s, j) && s.jobs[j].Writing? && s.jobs[j].sid == sid
    requires sid in s.store.index && t < TABLES && Tally(s, sid, t)
    ensures Tally(Step(s, Next(j)), sid, t)
  {
    var s', todo := Step(s, Next(j)), s.jobs[j].todo;
    assert JobInv(s, j);
    forall i | 0 <= i < |s.jobs| && i != j && s.jobs[i].Writing? ensures s.jobs[i].sid != sid {
      assert i < j || j < i;
    }
    var table := s.store.tables[todo[0].0];
    RowsConcat(table, [Entry(sid, todo[0].1)], sid);
    RowsCons(Entry(sid, todo[0].1), [], sid);
    assert [Entry(sid, todo[0].1)] + [] == [Entry(sid, todo[0].1)];
    assert IsWriterOf(s.jobs[j], sid) && IsWriterOf(s'.jobs[j], sid);
    assert RowsFor(todo, t) == (if todo[0].0 == t then 1 else 0) + RowsFor(todo[1..], t);
    forall i | 0 <= i < |s'.jobs| ensures !HasEmptied(s'.jobs[i], sid, t) {
    }
  }

  lemma DeleteTally(s: State, j: nat, sid: string, t: nat)
    requires Inv(s) && Enabled(s, j) && s.jobs[j].Deleting? && s.jobs[j].sid == sid
    requires sid in StoreAfter(s, j).index && sid in s.store.index && t < TABLES && Tally(s, sid, t)
    ensures Tally(Step(s, Next(j)), sid, t)
  {
    var s' := Step(s, Next(j));
    forall i | 0 <= i < |s.jobs| && HasEmptied(s.jobs[i], sid, t) ensures HasEmptied(s'.jobs[i], sid, t) {
    }
    if s.jobs[j].stage == t {
      assert HasEmptied(s'.jobs[j], sid, t);
    }
    assert !Emptied(s', sid, t) ==> !Emptied(s, sid, t);
    forall i | 0 <= i < |s.jobs| ensures IsWriterOf(s'.jobs[i], sid) <==> IsWriterOf(s.jobs[i], sid) {
    }
  }

  /** What the tally of a snapshot depends on. */
  ghost predicate SameJobs(s: State, s': State, sid: string) {
    && |s.jobs| <= |s'.jobs|
    && (forall j :: 0 <= j < |s.jobs| && s.jobs[j].sid == sid ==> s'.jobs[j] in {s.jobs[j], s.jobs[j].(alive := false)})
    && (forall j :: 0 <= j < |s.jobs| && s.jobs[j].sid != sid ==> s'.jobs[j].sid != sid)
    && (forall j :: |s.jobs| <= j < |s'.jobs| ==>
          s'.jobs[j].sid != sid || (s'.jobs[j].Deleting? && s'.jobs[j].stage == 0))
  }

  lemma SameTally(s: State, s': State, sid: string, t: nat)
    requires WellFormed(s.store) && WellFormed(s'.store) && sid in s.store.index && t < TABLES
    requires SameJobs(s, s', sid) && SameSnapshot(s.store, s'.store, sid) && Tally(s, sid, t)
    ensures Tally(s', sid, t)
  {
    forall j | 0 <= j < |s.jobs|
      ensures IsWriterOf(s.jobs[j], sid) <==> IsWriterOf(s'.jobs[j], sid)
      ensures HasEmptied(s.jobs[j], sid, t) <==> HasEmptied(s'.jobs[j], sid, t)
      ensures IsWriterOf(s.jobs[j], sid) ==> s'.jobs[j].todo == s.jobs[j].todo
    {
    }
    assert Emptied(s, sid, t) ==> Emptied(s', sid, t);
    assert Emptied(s', sid, t) ==> Emptied(s, sid, t);
  }

  /** A new run claims its id with the counts of what it is about to write. */
  lemma BeginRunTally(s: State, a: Action, t: nat)
    requires Inv(s) && a.BeginRun? && a.sid !in s.known && t < TABLES
    ensures Tally(Step(s, a), a.sid, t)
  {
    var s' := Step(s, a);
    forall j | 0 <= j < |s.jobs| ensures s'.jobs[j] == s.jobs[j] && s.jobs[j].sid != a.sid {
      assert JobInv(s, j);
    }
    NoRowsNoEntries(s.store.tables[t], a.sid);
    assert forall e :: e in s.store.tables[t] ==> e.sid in s.store.index;
    assert IsWriterOf(s'.jobs[|s.jobs|], a.sid);
  }

  /** A step that neither begins a run of the snapshot nor executes a statement on it. */
  lemma OtherSteps(s: State, a: Action, sid: string)
    requires WellFormed(s.store)
    requires a.BeginRun? && a.sid == sid ==> Step(s, a) == s
    requires a.Next? && Enabled(s, a.j) ==> s.jobs[a.j].sid != sid
    ensures SameJobs(s, Step(s, a), sid) && SameSnapshot(s.store, Step(s, a).store, sid)
  {
    if a.Next? && Enabled(s, a.j) {
      ApplyTouchesOnly(s.store, NextStmt(s.jobs[a.j]).value, sid);
    } else if !a.BeginRun? && !a.BeginDelete? {
      StepKinds(s, a);
    }
  }

  lemma StepKeepsTally(s: State, a: Action, sid: string, t: nat)
    requires Inv(s) && Tallies(s) && sid in Step(s, a).store.index && t < TABLES
    ensures Tally(Step(s, a), sid, t)
  {
    var s' := Step(s, a);
    if a.BeginRun? && a.sid !in s.known && sid == a.sid {
      BeginRunTally(s, a, t);
    } else if a.Next? && Enabled(s, a.j) && s.jobs[a.j].sid == sid {
      assert Tally(s, sid, t);
      if s.jobs[a.j].Writing? {
        InsertTally(s, a.j, sid, t);
      } else {
        DeleteTally(s, a.j, sid, t);
      }
    } else {
      OtherSteps(s, a, sid);
      assert Tally(s, sid, t);
      SameTally(s, s', sid, t);
    }
  }

  lemma {:induction false} TalliesEver(store: Store, actions: seq<Action>)
    requires WellFormed(store) && NoOrphans(store) && Complete(store)
    ensures Tallies(Run(Start(store), actions))
    decreases |actions|
  {
    if actions == [] {
      forall sid, t | sid in store.index && 0 <= t < TABLES ensures Tally(Start(store), sid, t) {
        assert CountsMatch(store, sid);
      }
    } else {
      var s, a := Run(Start(store), actions[..|actions| - 1]), actions[|actions| - 1];
      NoOrphansEver(store, actions[..|actions| - 1]);
      TalliesEver(store, actions[..|actions| - 1]);
      forall sid, t | sid in Step(s, a).store.index && 0 <= t < TABLES ensures Tally(Step(s, a), sid, t) {
        StepKeepsTally(s, a, sid, t);
      }
    }
  }

  /** A run of the snapshot has stopped, or still is, before its last row; or a delete of it has
      stopped, or still is, after taking rows out. */
  ghost predicate CutShort(s: State, sid: string)
    requires sid in s.store.index && |s.store.index[sid].counts| == TABLES
  {
    || (exists j :: 0 <= j < |s.jobs| && IsWriterOf(s.jobs[j], sid) && s.jobs[j].todo != [])
    || (exists t :: 0 <= t < TABLES && Emptied(s, sid, t) && s.store.index[sid].counts[t] > 0)
  }

  lemma CutShortIsHalf(s: State, sid: string)
    requires Inv(s) && Tallies(s) && sid in s.store.index
    ensures |s.store.index[sid].counts| == TABLES
    ensures CutShort(s, sid) ==> !CountsMatch(s.store, sid)
  {
    assert Tally(s, sid, 0);
    forall t | 0 <= t < TABLES && Emptied(s, sid, t) ensures RowsOf(s.store.tables[t], sid) == [] {
      var j :| 0 <= j < |s.jobs| && HasEmptied(s.jobs[j], sid, t);
      assert JobInv(s, j);
    }
    if j :| 0 <= j < |s.jobs| && IsWriterOf(s.jobs[j], sid) && s.jobs[j].todo != [] {
      var t := s.jobs[j].todo[0].0;
      assert Tally(s, sid, t) && RowsFor(s.jobs[j].todo, t) >= 1;
    }
  }

  lemma HalfIsCutShort(s: State, sid: string)
    requires Inv(s) && Tallies(s) && sid in s.store.index && |s.store.index[sid].counts| == TABLES
    requires !CutShort(s, sid)
    ensures CountsMatch(s.store, sid)
  {
    forall t | 0 <= t < TABLES ensures s.store.index[sid].counts[t] == |RowsOf(s.store.tables[t], sid)| {
      assert Tally(s, sid, t);
      if Emptied(s, sid, t) {
        var j :| 0 <= j < |s.jobs| && HasEmptied(s.jobs[j], sid, t);
        assert JobInv(s, j);
      } else if j :| 0 <= j < |s.jobs| && IsWriterOf(s.jobs[j], sid) {
        assert s.jobs[j].todo == [];
      }
    }
  }

  /** In every interleaving from a complete store, an indexed snapshot is a half one if and only if one
      of its jobs is midway or was cut short: its run before the last row, or a delete after taking
      rows out. */
  lemma HalfSnapshotExactly(store: Store, actions: seq<Action>, sid: string)
    requires WellFormed(store) && NoOrphans(store) && Complete(store)
    requires sid in Run(Start(store), actions).store.index
    ensures var s := Run(Start(store), actions);
            |s.store.index[sid].counts| == TABLES && (!CountsMatch(s.store, sid) <==> CutShort(s, sid))
  {
    var s := Run(Start(store), actions);
    NoOrphansEver(store, actions);
    TalliesEver(store, actions);
    CutShortIsHalf(s, sid);
    if !CutShort(s, sid) {
      HalfIsCutShort(s, sid);
    }
  }

  const EMPTY: Store := Store(map[], [[], [], [], []])

  /** A half snapshot is reachable: a run that dies right after its index insert leaves an indexed
      snapshot without any of its rows. */
  lemma CrashLeavesHalfSnapshot(sid: string, createdAt: string, trigger: string, todo: seq<(TableId, ChildRow)>)
    requires todo != []
    ensures WellFormed(EMPTY) && NoOrphans(EMPTY) && Complete(EMPTY)
    ensures var s := Run(Start(EMPTY), [BeginRun(sid, createdAt, trigger, todo), Crash(0)]);
            && sid in s.store.index && !CountsMatch(s.store, sid)
            && forall t :: 0 <= t < TABLES ==> RowsOf(s.store.tables[t], sid) == []
  {
    var begin := BeginRun(sid, createdAt, trigger, todo);
    var actions := [begin, Crash(0)];
    assert actions[..1] == [begin] && [begin][..0] == [];
    assert Run(Start(EMPTY), [begin]) == Step(Start(EMPTY), begin);
    var s := Run(Start(EMPTY), actions);
    assert IsWriterOf(s.jobs[0], sid) && s.jobs[0].todo == todo;
    HalfSnapshotExactly(EMPTY, actions, sid);
  }
}
