/**
  The backup store: the index `backup_snapshots` and the four snapshot tables, written and deleted
  one autocommitted statement at a time.
 */
module SnapshotStore {
  import opened Collections
  import opened Wrappers

  /** The columns of an account; `name` is its unique label. */
  datatype AccountRow = AccountRow(
    name: string, encAuthToken: string, encCt0: string, enabled: int, status: string,
    lastCheckedAt: Option<string>, lastCheckOk: Option<int>, lastError: Option<string>,
    meta: Option<string>, createdAt: string, updatedAt: string)

  datatype AuditEntry = AuditEntry(ts: string, action: string, detail: Option<string>, requestId: Option<string>)

  /** A row of one of the four snapshot tables, without its `snapshot_at`. */
  datatype ChildRow =
    | Account(account: AccountRow)
    | Migration(version: int, name: Option<string>, appliedAt: Option<string>)
    | Flag(toolName: string, enabled: int, updatedAt: string)
    | Audit(entry: AuditEntry)

  datatype Entry = Entry(sid: string, row: ChildRow)

  datatype IndexRow = IndexRow(createdAt: string, triggeredBy: string, counts: seq<nat>)

  const TABLES: nat := 4

  datatype Store = Store(index: map<string, IndexRow>, tables: seq<seq<Entry>>)

  predicate WellFormed(s: Store) {
    |s.tables| == TABLES
  }

  // ------------------------------------------------------------------
  // Rows of one snapshot, and everything but some snapshots

  function RowsOf(table: seq<Entry>, sid: string): seq<ChildRow> {
    if table == [] then []
    else (if table[0].sid == sid then [table[0].row] else []) + RowsOf(table[1..], sid)
  }

  function Without(table: seq<Entry>, ids: set<string>): seq<Entry> {
    if table == [] then []
    else (if table[0].sid in ids then [] else [table[0]]) + Without(table[1..], ids)
  }

  function Entries(sid: string, rows: seq<ChildRow>): (es: seq<Entry>)
    ensures |es| == |rows| && forall i :: 0 <= i < |rows| ==> es[i] == Entry(sid, rows[i])
  {
    seq(|rows|, i requires 0 <= i < |rows| => Entry(sid, rows[i]))
  }

  function SidsOf(table: seq<Entry>): set<string> {
    set e | e in table :: e.sid
  }

  lemma WithoutCons(e: Entry, table: seq<Entry>, ids: set<string>)
    ensures Without([e] + table, ids) == (if e.sid in ids then [] else [e]) + Without(table, ids)
  {
    assert ([e] + table)[0] == e && ([e] + table)[1..] == table;
  }

  lemma {:induction false} WithoutConcat(a: seq<Entry>, b: seq<Entry>, ids: set<string>)
    ensures Without(a + b, ids) == Without(a, ids) + Without(b, ids)
  {
    if a == [] {
      assert a + b == b;
    } else {
      WithoutConcat(a[1..], b, ids);
      ConcatCons(a, b);
      WithoutCons(a[0], a[1..] + b, ids);
      ConcatAssoc(if a[0].sid in ids then [] else [a[0]], Without(a[1..], ids), Without(b, ids));
    }
  }

  lemma RowsCons(e: Entry, table: seq<Entry>, sid: string)
    ensures RowsOf([e] + table, sid) == (if e.sid == sid then [e.row] else []) + RowsOf(table, sid)
  {
    assert ([e] + table)[0] == e && ([e] + table)[1..] == table;
  }

  lemma {:induction false} RowsConcat(a: seq<Entry>, b: seq<Entry>, sid: string)
    ensures RowsOf(a + b, sid) == RowsOf(a, sid) + RowsOf(b, sid)
  {
    if a == [] {
      assert a + b == b;
    } else {
      RowsConcat(a[1..], b, sid);
      ConcatCons(a, b);
      RowsCons(a[0], a[1..] + b, sid);
      ConcatAssoc(if a[0].sid == sid then [a[0].row] else [], RowsOf(a[1..], sid), RowsOf(b, sid));
    }
  }

  lemma {:induction false} RowsOfEntries(sid: string, rows: seq<ChildRow>, other: string)
    ensures RowsOf(Entries(sid, rows), other) == if other == sid then rows else []
    ensures Without(Entries(sid, rows), {sid}) == []
  {
    if rows != [] {
      RowsOfEntries(sid, rows[1..], other);
      assert Entries(sid, rows)[1..] == Entries(sid, rows[1..]);
    }
  }

  lemma {:induction false} WithoutMembers(table: seq<Entry>, ids: set<string>)
    ensures forall e :: e in Without(table, ids) <==> e in table && e.sid !in ids
    ensures (forall e :: e in table ==> e.sid !in ids) ==> Without(table, ids) == table
  {
    if table != [] {
      WithoutMembers(table[1..], ids);
    }
  }

  lemma {:induction false} WithoutRows(table: seq<Entry>, ids: set<string>, sid: string)
    ensures RowsOf(Without(table, ids), sid) == if sid in ids then [] else RowsOf(table, sid)
  {
    if table != [] {
      WithoutRows(table[1..], ids, sid);
      var head := if table[0].sid in ids then [] else [table[0]];
      RowsConcat(head, Without(table[1..], ids), sid);
      if head != [] {
        assert head[1..] == [];
      }
    }
  }

  lemma {:induction false} WithoutTwice(table: seq<Entry>, a: set<string>, b: set<string>)
    ensures Without(Without(table, a), b) == Without(table, a + b)
  {
    if table != [] {
      WithoutTwice(table[1..], a, b);
      var head := if table[0].sid in a then [] else [table[0]];
      WithoutConcat(head, Without(table[1..], a), b);
      if head != [] {
        assert head[1..] == [];
      }
    }
  }

  lemma {:induction false} NoRowsNoEntries(table: seq<Entry>, sid: string)
    ensures RowsOf(table, sid) == [] <==> sid !in SidsOf(table)
  {
    if table != [] {
      NoRowsNoEntries(table[1..], sid);
      assert SidsOf(table) == {table[0].sid} + SidsOf(table[1..]) by {
        assert forall e :: e in table <==> e == table[0] || e in table[1..];
      }
    }
  }

  /** The store without the index rows and child rows of `ids`. */
  function Dropped(s: Store, ids: set<string>): (r: Store)
    ensures |r.tables| == |s.tables|
  {
    Store(s.index - ids, seq(|s.tables|, t requires 0 <= t < |s.tables| => Without(s.tables[t], ids)))
  }

  lemma DroppedTwice(s: Store, a: set<string>, b: set<string>)
    ensures Dropped(Dropped(s, a), b) == Dropped(s, a + b)
  {
    forall t | 0 <= t < |s.tables| ensures Without(Without(s.tables[t], a), b) == Without(s.tables[t], a + b) {
      WithoutTwice(s.tables[t], a, b);
    }
    assert Dropped(Dropped(s, a), b).tables == Dropped(s, a + b).tables;
    assert s.index - a - b == s.index - (a + b);
  }

  /** Ids that occur anywhere in the store. */
  function AllIds(s: Store): set<string>
    requires WellFormed(s)
  {
    s.index.Keys + SidsOf(s.tables[0]) + SidsOf(s.tables[1]) + SidsOf(s.tables[2]) + SidsOf(s.tables[3])
  }

  lemma AllIdsMember(s: Store, sid: string)
    requires WellFormed(s)
    ensures sid in AllIds(s) <==>
            sid in s.index || exists t :: 0 <= t < TABLES && RowsOf(s.tables[t], sid) != []
  {
    forall t | 0 <= t < TABLES ensures RowsOf(s.tables[t], sid) != [] <==> sid in SidsOf(s.tables[t]) {
      NoRowsNoEntries(s.tables[t], sid);
    }
    if sid in SidsOf(s.tables[0]) { assert RowsOf(s.tables[0], sid) != []; }
    if sid in SidsOf(s.tables[1]) { assert RowsOf(s.tables[1], sid) != []; }
    if sid in SidsOf(s.tables[2]) { assert RowsOf(s.tables[2], sid) != []; }
    if sid in SidsOf(s.tables[3]) { assert RowsOf(s.tables[3], sid) != []; }
  }

  lemma DropAbsent(s: Store, ids: set<string>)
    requires WellFormed(s) && ids !! AllIds(s)
    ensures Dropped(s, ids) == s
  {
    forall t | 0 <= t < TABLES ensures Without(s.tables[t], ids) == s.tables[t] {
      assert SidsOf(s.tables[t]) <= AllIds(s);
      forall e | e in s.tables[t] ensures e.sid !in ids {
        assert e.sid in SidsOf(s.tables[t]);
      }
      WithoutMembers(s.tables[t], ids);
    }
    assert Dropped(s, ids).tables == s.tables;
    assert s.index - ids == s.index;
  }

  /** Index row and child rows of one snapshot. */
  ghost predicate SameSnapshot(a: Store, b: Store, sid: string)
    requires WellFormed(a) && WellFormed(b)
  {
    && (sid in a.index <==> sid in b.index)
    && (sid in a.index && sid in b.index ==> a.index[sid] == b.index[sid])
    && forall t :: 0 <= t < TABLES ==> RowsOf(a.tables[t], sid) == RowsOf(b.tables[t], sid)
  }

  /** Every child row has an index row. */
  ghost predicate NoOrphans(s: Store) {
    forall t, i :: 0 <= t < |s.tables| && 0 <= i < |s.tables[t]| ==> s.tables[t][i].sid in s.index
  }

  /** The snapshot has as many rows in each table as its index row says. */
  ghost predicate CountsMatch(s: Store, sid: string)
    requires WellFormed(s) && sid in s.index
  {
    && |s.index[sid].counts| == TABLES
    && forall t :: 0 <= t < TABLES ==> s.index[sid].counts[t] == |RowsOf(s.tables[t], sid)|
  }

  /** No indexed snapshot is a half one. */
  ghost predicate Complete(s: Store)
    requires WellFormed(s)
  {
    forall x :: x in s.index ==> CountsMatch(s, x)
  }

  // ------------------------------------------------------------------
  // Statements

  datatype Stmt =
    | InsertIndex(sid: string, row: IndexRow)
    | InsertChild(t: nat, sid: string, child: ChildRow)
    | DeleteChildren(t: nat, sid: string)
    | DeleteIndex(sid: string)

  /** The primary keys of the snapshot tables; the audit table has a serial id instead. */
  predicate SameKey(a: ChildRow, b: ChildRow) {
    match a
    case Account(x) => b.Account? && b.account.name == x.name
    case Migration(v, _, _) => b.Migration? && b.version == v
    case Flag(n, _, _) => b.Flag? && b.toolName == n
    case Audit(_) => false
  }

  predicate Conflicts(table: seq<Entry>, sid: string, row: ChildRow) {
    exists i :: 0 <= i < |table| && table[i].sid == sid && SameKey(table[i].row, row)
  }

  /** The store after a statement, or None when a primary key refuses it. */
  function Apply(s: Store, stmt: Stmt): (r: Option<Store>)
    requires WellFormed(s)
    ensures r.Some? ==> WellFormed(r.value)
  {
    match stmt
    case InsertIndex(sid, row) =>
      if sid in s.index then None else Some(s.(index := s.index[sid := row]))
    case InsertChild(t, sid, child) =>
      if t >= TABLES || Conflicts(s.tables[t], sid, child) then None
      else Some(s.(tables := s.tables[t := s.tables[t] + [Entry(sid, child)]]))
    case DeleteChildren(t, sid) =>
      if t >= TABLES then None else Some(s.(tables := s.tables[t := Without(s.tables[t], {sid})]))
    case DeleteIndex(sid) => Some(s.(index := s.index - {sid}))
  }

  /** A statement only touches the snapshot it names. */
  lemma ApplyTouchesOnly(s: Store, stmt: Stmt, sid: string)
    requires WellFormed(s) && Apply(s, stmt).Some? && sid != stmt.sid
    ensures SameSnapshot(s, Apply(s, stmt).value, sid)
  {
    match stmt {
      case InsertIndex(_, _) =>
      case InsertChild(t, x, child) =>
        RowsConcat(s.tables[t], [Entry(x, child)], sid);
        assert [Entry(x, child)][1..] == [];
      case DeleteChildren(t, x) => WithoutRows(s.tables[t], {x}, sid);
      case DeleteIndex(_) =>
    }
  }
}
