/**
  The `schema_migrations` table and the five guarded statements of the claim protocol, as pure
  functions on the table and as the methods of the object that executes them.
 */
module MigrationTable {
  import opened Wrappers

  /** A `name` column value: the claim marker of one runner on one version (its uuid token is
      modelled as the pair itself), or any other text. */
  datatype Name = Claim(runner: nat, version: nat) | Text(text: string)

  /** `name` and `applied_at` are nullable columns. */
  datatype Row = Row(name: Option<Name>, applied: Option<string>)

  type Table = map<nat, Row>

  predicate IsApplied(t: Table, v: nat) {
    v in t && t[v].applied.Some?
  }

  /** The row of `v` is unsettled and carries `name`: the guard of every write but the insert. */
  predicate HeldBy(t: Table, v: nat, name: Name) {
    v in t && t[v] == Row(Some(name), None)
  }

  /** `INSERT ... ON CONFLICT DO NOTHING` */
  function Inserted(t: Table, v: nat, claim: Name): Table {
    if v in t then t else t[v := Row(Some(claim), None)]
  }

  function Read(t: Table, v: nat): Option<Row> {
    if v in t then Some(t[v]) else None
  }

  /** `UPDATE ... SET name, applied_at WHERE version AND name = claim AND applied_at IS NULL` */
  function Finalised(t: Table, v: nat, claim: Name, name: string, at: string): Table {
    if HeldBy(t, v, claim) then t[v := Row(Some(Text(name)), Some(at))] else t
  }

  /** `DELETE ... WHERE version AND name = claim AND applied_at IS NULL` */
  function Released(t: Table, v: nat, claim: Name): Table {
    if HeldBy(t, v, claim) then t - {v} else t
  }

  /** `UPDATE ... SET name = claim WHERE version AND name = stale AND applied_at IS NULL`.
      A NULL stale name compares equal to nothing, so the statement then changes no row. */
  function TakenOver(t: Table, v: nat, stale: Option<Name>, claim: Name): Table {
    if stale.Some? && HeldBy(t, v, stale.value) then t[v := Row(Some(claim), None)] else t
  }

  /** `_PgMigrationIO` and its MySQL and sqlite twins: one connection to the table. */
  class MigrationIO {
    var rows: Table
    var executed: seq<(nat, nat)>  // the DDL statements that succeeded, as (version, position)
    const ddlWorks: (nat, nat) -> bool

    constructor (rows: Table, ddlWorks: (nat, nat) -> bool)
      ensures this.rows == rows && this.ddlWorks == ddlWorks && executed == []
    {
      this.rows, this.ddlWorks, executed := rows, ddlWorks, [];
    }

    method InsertClaim(v: nat, claim: Name)
      modifies this`rows
      ensures rows == Inserted(old(rows), v, claim)
    {
      if v !in rows {
        rows := rows[v := Row(Some(claim), None)];
      }
    }

    method ReadClaim(v: nat) returns (row: Option<Row>)
      ensures row == Read(rows, v)
    {
      row := if v in rows then Some(rows[v]) else None;
    }

    method Execute(v: nat, position: nat) returns (ok: bool)
      modifies this`executed
      ensures ok == ddlWorks(v, position)
      ensures executed == if ok then old(executed) + [(v, position)] else old(executed)
    {
      ok := ddlWorks(v, position);
      if ok {
        executed := executed + [(v, position)];
      }
    }

    method Finalise(v: nat, claim: Name, name: string, at: string)
      modifies this`rows
      ensures rows == Finalised(old(rows), v, claim, name, at)
    {
      if v in rows && rows[v].name == Some(claim) && rows[v].applied == None {
        rows := rows[v := Row(Some(Text(name)), Some(at))];
      }
    }

    method Release(v: nat, claim: Name)
      modifies this`rows
      ensures rows == Released(old(rows), v, claim)
    {
      if v in rows && rows[v].name == Some(claim) && rows[v].applied == None {
        rows := rows - {v};
      }
    }

    method TakeOver(v: nat, stale: Option<Name>, claim: Name)
      modifies this`rows
      ensures rows == TakenOver(old(rows), v, stale, claim)
    {
      if v in rows && stale.Some? && rows[v].name == stale && rows[v].applied == None {
        rows := rows[v := rows[v].(name := Some(claim))];
      }
    }
  }
}
