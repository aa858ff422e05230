/**
  SELECT * from one table: the plan for its WHERE condition, the executors built for the plan, and the rows that
  come out (sql/planner/planner.go, executor/executor.go).
 */
module Select {
  import opened Types
  import opened Syntax
  import opened Keys
  import opened Pages
  import opened TreeMap
  import opened Plans
  import opened Executor
  import opened IndexChoice

  /** The key of the table is the first column marked as such. */
  predicate IsKeyColumn(schema: Schema, name: Text) {
    exists p | 0 <= p < |schema.columns| ::
      schema.columns[p].primaryKey && schema.columns[p].name == name && forall i | 0 <= i < p :: !schema.columns[i].primaryKey
  }

  /** The key on the left of =, <, >, <= or >=, with anything on the right. */
  predicate ComparesKey(e: Expr, schema: Schema) {
    && e.Binary? && (e.op == OpEQ || e.op == OpLT || e.op == OpGT || e.op == OpLTE || e.op == OpGTE)
    && e.left.Identifier? && IsKeyColumn(schema, e.left.column)
  }

  lemma {:induction false} FirstKeyIs(columns: seq<Column>, i: nat)
    requires i <= |columns|
    ensures var r := FirstKey(columns, i);
            if r.Some? then forall j | i <= j < r.value :: !columns[j].primaryKey else forall j | i <= j < |columns| :: !columns[j].primaryKey
    decreases |columns| - i
  {
    if i < |columns| && !columns[i].primaryKey { FirstKeyIs(columns, i + 1); }
  }

  lemma KeyColumnIs(schema: Schema, name: Text)
    ensures IsKeyColumn(schema, name) <==> PrimaryKeyIndex(schema).Some? && schema.columns[PrimaryKeyIndex(schema).value].name == name
  {
    FirstKeyIs(schema.columns, 0);
  }

  /** The plan for a condition: a comparison of the key is searched for and not filtered; any other filters a full scan. */
  lemma ChosenPlan(table: Text, schema: Schema, where: Option<Expr>)
    ensures PlanWhere(table, schema, where) ==
            match where
            case None => SequentialScan(table, schema)
            case Some(e) => if ComparesKey(e, schema) then IndexScan(table, schema, e) else Filter(SequentialScan(table, schema), e)
  {
    if where.Some? && where.value.Binary? && where.value.left.Identifier? { KeyColumnIs(schema, where.value.left.column); }
  }

  /** The plan is made, its executors are built, and their rows are collected until there are no more. */
  method SelectRows(cells: seq<Cell>, find: Finder, table: Text, schema: Schema, where: Option<Expr>) returns (r: Evaluated<seq<Row>>)
    ensures r == EvalScan(PlanWhere(table, schema, where), cells, find)
    ensures r == match where
                 case None => Value(TableRows(cells, schema.tableId))
                 case Some(e) => if ComparesKey(e, schema) then IndexResult(find, e) else FilterRows(TableRows(cells, schema.tableId), e, schema)
  {
    ChosenPlan(table, schema, where);
    match PlanWhere(table, schema, where)
    case SequentialScan(_, s) =>
      var scan := new SeqScanExecutor(cells, s);
      var rows := scan.Drain();
      r := Value(rows);
    case IndexScan(_, _, e) =>
      var scan := new IndexScanExecutor(find, e);
      r := scan.Drain();
    case Filter(SequentialScan(_, s), e) =>
      var scan := new SeqScanExecutor(cells, s);
      var filter := new FilterExecutor(scan, e);
      r := filter.Drain();
    case _ => assert false;
  }

  /** The row with the key, if there is one. */
  function RowAt(cells: seq<Cell>, key: Key): seq<Row> {
    if key in AsMap(cells) then [AsMap(cells)[key]] else []
  }

  /**
    Any of these comparisons of the key with an integer or a string gives the row that the tree, as a map, has at this
    very key, and nothing else.
   */
  lemma KeyIsSearched(cells: seq<Cell>, find: Finder, table: Text, schema: Schema, e: Expr)
    requires ComparesKey(e, schema) && Searches(find, cells, schema.tableId)
    ensures match e.right
            case IntLiteral(i) =>
              Searchable(cells, Key(schema.tableId, IntKey(i))) ==>
                EvalScan(PlanWhere(table, schema, Some(e)), cells, find) == Value(RowAt(cells, Key(schema.tableId, IntKey(i))))
            case StringLiteral(s) =>
              Searchable(cells, Key(schema.tableId, StrKey(s))) ==>
                EvalScan(PlanWhere(table, schema, Some(e)), cells, find) == Value(RowAt(cells, Key(schema.tableId, StrKey(s))))
            case BoolLiteral(b) => EvalScan(PlanWhere(table, schema, Some(e)), cells, find) == Collected(find(BoolValue(b)))
            case NullLiteral => EvalScan(PlanWhere(table, schema, Some(e)), cells, find) == Collected(find(NullValue))
            case _ => EvalScan(PlanWhere(table, schema, Some(e)), cells, find) == Error
  {
    ChosenPlan(table, schema, Some(e));
    match e.right
    case IntLiteral(i) =>
      LookupInMap(cells, Key(schema.tableId, IntKey(i)));
    case StringLiteral(s) =>
      LookupInMap(cells, Key(schema.tableId, StrKey(s)));
    case _ =>
  }
}
