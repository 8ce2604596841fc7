/** The relational store behind the resolver, seen only through the two calls the
    resolver makes on its executor: the insert statement (`Exec` followed by
    `LastInsertId`) and the single-row lookup by name (`QueryRow(...).Scan`).

    The SQL text and the driver are not modelled. The store holds a table from
    namespace name to id; what the insert reports is an oracle of the executor
    (a function of the table and the name), and so is whether the lookup fails
    for a reason other than a missing row. */
module Store {
  import opened Wrappers

  /** The store's namespace table: name to id. */
  type Rows = map<string, int>

  /** What the insert reports: `Exec` itself failed, `Exec` succeeded but
      `LastInsertId` failed, or the generated id (zero when no row was created). */
  datatype Insertion = ExecFailed | LastIdFailed | Generated(lastId: int)

  /** The table after an insert that reported `reply`: a row `name -> id` is
      written exactly when a non-zero id was generated. */
  function AfterInsert(rows: Rows, name: string, reply: Insertion): (r: Rows)
    ensures reply.Generated? && reply.lastId != 0 ==> name in r && r[name] == reply.lastId
    ensures forall n :: n in rows && n != name ==> n in r && r[n] == rows[n]
    ensures forall n :: n in r && n != name ==> n in rows
  {
    if reply.Generated? && reply.lastId != 0 then rows[name := reply.lastId] else rows
  }

  /** The lookup by name: the row's id, or none when the row is missing
      (`sql.ErrNoRows`) or the store faults. */
  function Lookup(rows: Rows, name: string, fault: bool): (r: Option<int>)
    ensures r.Some? <==> !fault && name in rows
    ensures r.Some? ==> r.value == rows[name]
  {
    if fault || name !in rows then None else Some(rows[name])
  }

  /** Every id in the table is non-zero, as auto-generated ids are. */
  ghost predicate NonZeroIds(rows: Rows)
  {
    forall n :: n in rows ==> rows[n] != 0
  }

  /** An executor handle: the default connection or an ambient transaction. */
  class Executor {
    var rows: Rows
    /** What the insert reports for a name, given the table before it. */
    const onInsert: (Rows, string) -> Insertion
    /** Whether the lookup of a name fails with a store error. */
    const lookupFault: string -> bool
    /** Number of insert statements executed. */
    var execCalls: nat
    /** Number of lookups executed. */
    var lookupCalls: nat

    constructor (rows: Rows, onInsert: (Rows, string) -> Insertion, lookupFault: string -> bool)
      ensures this.rows == rows && this.onInsert == onInsert && this.lookupFault == lookupFault
      ensures execCalls == 0 && lookupCalls == 0
    {
      this.rows := rows;
      this.onInsert := onInsert;
      this.lookupFault := lookupFault;
      execCalls := 0;
      lookupCalls := 0;
    }

    /** `Exec(insertNamespace, name, name)` followed by `LastInsertId()`. */
    method Exec(name: string) returns (reply: Insertion)
      modifies this
      ensures reply == onInsert(old(rows), name)
      ensures rows == AfterInsert(old(rows), name, reply)
      ensures execCalls == old(execCalls) + 1 && lookupCalls == old(lookupCalls)
    {
      reply := onInsert(rows, name);
      rows := AfterInsert(rows, name, reply);
      execCalls := execCalls + 1;
    }

    /** `QueryRow(soiNamespace, name).Scan(&id)`. */
    method QueryRowScan(name: string) returns (found: Option<int>)
      modifies this`lookupCalls
      ensures found == Lookup(rows, name, lookupFault(name))
      ensures lookupCalls == old(lookupCalls) + 1
    {
      found := Lookup(rows, name, lookupFault(name));
      lookupCalls := lookupCalls + 1;
    }
  }
}
