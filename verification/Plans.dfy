/** Plans and the choice of a scan (sql/planner/planner.go), and the locks a plan takes (executor/executor.go). */
module Plans {
  import opened Types
  import opened Syntax
  import opened Locks
  import opened Transactions
  import C = CellCodec

  datatype Column = Column(name: Text, kind: C.ColumnType, primaryKey: bool)

  datatype Schema = Schema(table: Table, tableId: nat, columns: seq<Column>)

  /** Plan nodes; those that change a table keep only its name. */
  datatype PlanNode =
    | SequentialScan(table: Table, schema: Schema)
    | IndexScan(table: Table, schema: Schema, pkExpr: Expr)
    | Filter(child: PlanNode, condition: Expr)
    | Projection(child: PlanNode, columns: seq<Expr>)
    | NestedLoopJoin(left: PlanNode, right: PlanNode, condition: Expr)
    | Sort(child: PlanNode, column: Text, desc: bool)
    | Limit(child: PlanNode, count: int)
    | Insert(table: Table)
    | Update(table: Table)
    | Delete(table: Table)

  /** The first position from `i` on where the column is marked, or None. */
  function FirstKey(columns: seq<Column>, i: nat): (r: Option<nat>)
    requires i <= |columns|
    ensures r.Some? ==> i <= r.value < |columns| && columns[r.value].primaryKey
    decreases |columns| - i
  {
    if i == |columns| then None else if columns[i].primaryKey then Some(i) else FirstKey(columns, i + 1)
  }

  function PrimaryKeyIndex(s: Schema): (r: Option<nat>)
    ensures r.Some? ==> r.value < |s.columns| && s.columns[r.value].primaryKey
  {
    FirstKey(s.columns, 0)
  }

  /** extractPKExpr: a comparison other than != whose left side is the key column, whatever is on its right. */
  predicate IsKeyComparison(e: Expr, pkName: Text) {
    && e.Binary? && e.op in {OpEQ, OpLT, OpGT, OpLTE, OpGTE}
    && e.left.Identifier? && e.left.column == pkName
  }

  function ChooseScan(table: Table, schema: Schema, where: Option<Expr>): PlanNode {
    match where
    case Some(e) =>
      var pk := PrimaryKeyIndex(schema);
      if pk.Some? && IsKeyComparison(e, schema.columns[pk.value].name) then IndexScan(table, schema, e)
      else SequentialScan(table, schema)
    case None => SequentialScan(table, schema)
  }

  /** The scan and filter part of planSelect: an index scan is not filtered any more. */
  function PlanWhere(table: Table, schema: Schema, where: Option<Expr>): PlanNode {
    var scan := ChooseScan(table, schema, where);
    if where.Some? && !scan.IndexScan? then Filter(scan, where.value) else scan
  }

  // ---- Locks ----

  function TableNamesOf(node: PlanNode): seq<Table> {
    match node
    case SequentialScan(table, _) => [table]
    case IndexScan(table, _, _) => [table]
    case Filter(child, _) => TableNamesOf(child)
    case Projection(child, _) => TableNamesOf(child)
    case NestedLoopJoin(left, right, _) => TableNamesOf(left) + TableNamesOf(right)
    case Sort(child, _, _) => TableNamesOf(child)
    case Limit(child, _) => TableNamesOf(child)
    case _ => []
  }

  /** A node of the plan; every one of them becomes an executor. */
  ghost predicate Under(sub: PlanNode, node: PlanNode) {
    || sub == node
    || match node
       case Filter(child, _) => Under(sub, child)
       case Projection(child, _) => Under(sub, child)
       case NestedLoopJoin(left, right, _) => Under(sub, left) || Under(sub, right)
       case Sort(child, _, _) => Under(sub, child)
       case Limit(child, _) => Under(sub, child)
       case _ => false
  }

  /** Executing the plan reads the table: one of its nodes scans it, in full or by key. */
  ghost predicate Reads(node: PlanNode, table: Table) {
    exists scan | Under(scan, node) :: (scan.SequentialScan? || scan.IndexScan?) && scan.table == table
  }

  /** The tables that are named are those that are read. */
  lemma {:induction false} NamesAreReads(node: PlanNode, table: Table)
    ensures table in TableNamesOf(node) <==> Reads(node, table)
  {
    match node
    case Filter(child, _) => ReadBelow(node, child, table); NamesAreReads(child, table);
    case Projection(child, _) => ReadBelow(node, child, table); NamesAreReads(child, table);
    case Sort(child, _, _) => ReadBelow(node, child, table); NamesAreReads(child, table);
    case Limit(child, _) => ReadBelow(node, child, table); NamesAreReads(child, table);
    case NestedLoopJoin(left, right, _) =>
      ReadBelow(node, left, table);
      ReadBelow(node, right, table);
      NamesAreReads(left, table);
      NamesAreReads(right, table);
    case SequentialScan(_, _) => assert Under(node, node);
    case IndexScan(_, _, _) => assert Under(node, node);
    case _ =>
  }

  lemma ReadBelow(node: PlanNode, child: PlanNode, table: Table)
    requires forall sub | Under(sub, child) :: Under(sub, node)
    ensures Reads(child, table) ==> Reads(node, table)
  {}

  /** The locks allow the plan: its table may be changed, or every table that it reads be read. */
  ghost predicate Covers(entries: set<Entry>, node: PlanNode) {
    match node
    case Insert(table) => Entry(Write, table) in entries
    case Update(table) => Entry(Write, table) in entries
    case Delete(table) => Entry(Write, table) in entries
    case _ => forall table | Reads(node, table) :: CanRead(entries, table)
  }

  /** A lock that the plan needs. */
  ghost predicate Needs(node: PlanNode, e: Entry) {
    match node
    case Insert(table) => e == Entry(Write, table)
    case Update(table) => e == Entry(Write, table)
    case Delete(table) => e == Entry(Write, table)
    case _ => e.mode == Read && Reads(node, e.table)
  }

  /** The other transactions hold what they held, and this one nothing less. */
  ghost predicate Gained(before: Held, after: Held, id: nat) {
    && before.Keys == after.Keys && id in before && before[id] <= after[id]
    && forall u | u in before && u != id :: after[u] == before[u]
  }

  /**
    lockFor. Whether a request gets through in time is up to the others. Locks taken before one that
    does not stay with the transaction.
   */
  method LockFor(m: Manager, t: Txn, node: PlanNode) returns (s: LockStatus)
    requires m.Valid() && m.Mine(t)
    modifies m, t`locks
    ensures m.Valid() && m.Mine(t) && Gained(old(m.held), m.held, t.id)
    ensures s == Locked ==> Covers(m.held[t.id], node)
    ensures forall e | e in m.held[t.id] && e !in old(m.held)[t.id] :: Needs(node, e)
  {
    hide TableNamesOf, Reads, MutexesOk, Lists, Gained, CanReadAll, ReadsAdded;
    match node {
      case Insert(table) => s := LockTable(m, t, table);
      case Update(table) => s := LockTable(m, t, table);
      case Delete(table) => s := LockTable(m, t, table);
      case _ =>
        ghost var before := m.held[t.id];
        s := ReadLockTables(m, t, TableNamesOf(node));
        NamedReads(node, before, m.held[t.id]);
    }
  }

  lemma NamedReads(node: PlanNode, before: set<Entry>, after: set<Entry>)
    requires !node.Insert? && !node.Update? && !node.Delete?
    ensures CanReadAll(after, TableNamesOf(node)) ==> Covers(after, node)
    ensures ReadsAdded(before, after, TableNamesOf(node)) ==> forall e | e in after && e !in before :: Needs(node, e)
  {
    hide TableNamesOf, Reads;
    var tables := TableNamesOf(node);
    forall table ensures table in tables <==> Reads(node, table) { NamesAreReads(node, table); }
    if CanReadAll(after, tables) {
      forall table | Reads(node, table) ensures CanRead(after, table) {
        var i :| 0 <= i < |tables| && tables[i] == table;
      }
    }
  }

  method LockTable(m: Manager, t: Txn, table: Table) returns (s: LockStatus)
    requires m.Valid() && m.Mine(t)
    modifies m, t`locks
    ensures m.Valid() && m.Mine(t) && Gained(old(m.held), m.held, t.id)
    ensures s == Locked <==> Entry(Write, table) in m.held[t.id]
    ensures m.held[t.id] <= old(m.held)[t.id] + {Entry(Write, table)}
  {
    var inTime: bool := *;
    s := m.Lock(t, table, inTime && Free(MutexOf(m.tableLocks, table), Write));
  }

  method ReadLockTable(m: Manager, t: Txn, table: Table) returns (s: LockStatus)
    requires m.Valid() && m.Mine(t)
    modifies m, t`locks
    ensures m.Valid() && m.Mine(t) && Gained(old(m.held), m.held, t.id)
    ensures s == Locked <==> CanRead(m.held[t.id], table)
    ensures m.held[t.id] <= old(m.held)[t.id] + {Entry(Read, table)}
  {
    hide MutexesOk, Lists;
    var inTime: bool := *;
    s := m.RLock(t, table, inTime && Free(MutexOf(m.tableLocks, table), Read));
  }

  lemma GainedAgain(a: Held, b: Held, c: Held, id: nat)
    requires Gained(a, b, id) && Gained(b, c, id)
    ensures Gained(a, c, id)
  {}

  ghost predicate CanReadAll(entries: set<Entry>, tables: seq<Table>) {
    forall i | 0 <= i < |tables| :: CanRead(entries, tables[i])
  }

  /** At most read locks on these tables have been added. */
  ghost predicate ReadsAdded(before: set<Entry>, after: set<Entry>, tables: seq<Table>) {
    forall e | e in after && e !in before :: e.mode == Read && e.table in tables
  }

  lemma MoreAdded(a: set<Entry>, b: set<Entry>, c: set<Entry>, tables: seq<Table>, i: nat)
    requires i < |tables| && ReadsAdded(a, b, tables[..i]) && c <= b + {Entry(Read, tables[i])}
    ensures ReadsAdded(a, c, tables[..i + 1])
  {
    assert tables[..i + 1] == tables[..i] + [tables[i]];
  }

  lemma AddedAll(a: set<Entry>, b: set<Entry>, tables: seq<Table>, i: nat)
    requires i <= |tables| && ReadsAdded(a, b, tables[..i])
    ensures ReadsAdded(a, b, tables)
  {
    assert tables == tables[..i] + tables[i..];
  }

  lemma ReadMore(a: Held, b: Held, id: nat, tables: seq<Table>, i: nat)
    requires Gained(a, b, id) && i < |tables| && CanReadAll(a[id], tables[..i]) && CanRead(b[id], tables[i])
    ensures CanReadAll(b[id], tables[..i + 1])
  {
    var some := tables[..i + 1];
    forall j | 0 <= j < |some| ensures CanRead(b[id], some[j]) {
      if j < i { assert CanRead(a[id], tables[..i][j]); }
    }
  }

  method ReadLockTables(m: Manager, t: Txn, tables: seq<Table>) returns (s: LockStatus)
    requires m.Valid() && m.Mine(t)
    modifies m, t`locks
    ensures m.Valid() && m.Mine(t) && Gained(old(m.held), m.held, t.id)
    ensures s == Locked ==> CanReadAll(m.held[t.id], tables)
    ensures ReadsAdded(old(m.held)[t.id], m.held[t.id], tables)
  {
    hide MutexesOk, Lists, Gained, CanReadAll, CanRead, ReadsAdded;
    ghost var held0 := m.held;
    NothingGained(held0, t.id);
    for i := 0 to |tables|
      invariant m.Valid() && m.Mine(t) && Gained(held0, m.held, t.id)
      invariant t.id in m.held && CanReadAll(m.held[t.id], tables[..i])
      invariant ReadsAdded(held0[t.id], m.held[t.id], tables[..i])
    {
      ghost var held1 := m.held;
      s := ReadLockTable(m, t, tables[i]);
      GainedAgain(held0, held1, m.held, t.id);
      MoreAdded(held0[t.id], held1[t.id], m.held[t.id], tables, i);
      AddedAll(held0[t.id], m.held[t.id], tables, i + 1);
      if s != Locked { return s; }
      ReadMore(held1, m.held, t.id, tables, i);
    }
    assert tables[..|tables|] == tables;
    return Locked;
  }

  lemma NothingGained(held: Held, id: nat)
    requires id in held
    ensures Gained(held, held, id) && CanReadAll(held[id], []) && ReadsAdded(held[id], held[id], [])
  {}
}
