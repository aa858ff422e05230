/** When choosing an index scan keeps the meaning of a WHERE clause (sql/planner/planner.go, executor/executor.go). */
module IndexChoice {
  import opened Types
  import opened Syntax
  import opened Keys
  import opened Pages
  import opened Tree
  import opened TreeMap
  import opened Plans
  import opened Executor
  import C = CellCodec

  /** The result of a scan, with or without a filter above it. */
  function EvalScan(node: PlanNode, cells: seq<Cell>, find: Finder): Evaluated<seq<Row>> {
    match node
    case SequentialScan(_, schema) => Value(TableRows(cells, schema.tableId))
    case IndexScan(_, _, e) => IndexResult(find, e)
    case Filter(SequentialScan(_, schema), cond) => FilterRows(TableRows(cells, schema.tableId), cond, schema)
    case _ => Error
  }

  /** The schema's key column is the one its name finds. */
  predicate Keyed(schema: Schema) {
    var p := PrimaryKeyIndex(schema);
    p.Some? && ColIndex(schema.columns, schema.columns[p.value].name) == p
  }

  /** A cell of the table: it fits a page, and its row has a value for every column, in the key column the cell's key. */
  predicate CellFits(c: Cell, schema: Schema, ints: bool)
    requires Keyed(schema)
  {
    var p := PrimaryKeyIndex(schema).value;
    && c.body.Data? && C.KeyOk(c.key) && c.key.pk.IntKey? == ints
    && Weight(c) <= CAPACITY && |c.body.row.values| == |schema.columns| && c.body.row.values[p] == PkValue(c.key.pk)
  }

  ghost predicate TableFits(cells: seq<Cell>, schema: Schema, ints: bool)
    requires Keyed(schema)
  {
    SortedCells(cells) && forall i | 0 <= i < |cells| && cells[i].key.table == schema.tableId :: CellFits(cells[i], schema, ints)
  }

  /** A comparison of the key column with a literal of the kind of the table's keys. */
  predicate KeyTest(e: Expr, schema: Schema, ints: bool)
    requires Keyed(schema)
  {
    && IsKeyComparison(e, schema.columns[PrimaryKeyIndex(schema).value].name)
    && KeyLiteral(e).Some? && KeyLiteral(e).value.IntKey? == ints && C.KeyOk(Key(0, KeyLiteral(e).value))
  }

  function ComparePk(a: Pk, b: Pk): int
    requires a.IntKey? == b.IntKey?
  {
    Compare(Key(0, a), Key(0, b))
  }

  /** On a row of the table the condition compares the cell's key with the literal. */
  lemma CondComparesKey(e: Expr, schema: Schema, ints: bool, c: Cell)
    requires Keyed(schema) && KeyTest(e, schema, ints) && CellFits(c, schema, ints)
    ensures EvalCond(e, RowOf(c), schema) == Value(Holds(e.op, ComparePk(c.key.pk, KeyLiteral(e).value)))
  {}

  function RowsOf(ts: seq<Cell>): (rows: seq<Row>)
    ensures |rows| == |ts|
  {
    seq(|ts|, i requires 0 <= i < |ts| => RowOf(ts[i]))
  }

  ghost predicate AllFit(ts: seq<Cell>, schema: Schema, ints: bool)
    requires Keyed(schema)
  {
    forall i | 0 <= i < |ts| :: CellFits(ts[i], schema, ints) && ts[i].key.table == schema.tableId
  }

  /** The rows of the cells whose key compares as asked. */
  function RowsWhere(ts: seq<Cell>, op: Operator, pk: Pk): seq<Row>
    requires forall i | 0 <= i < |ts| :: ts[i].key.pk.IntKey? == pk.IntKey?
  {
    if ts == [] then []
    else
      var rest := RowsWhere(ts[1..], op, pk);
      if Holds(op, ComparePk(ts[0].key.pk, pk)) then [RowOf(ts[0])] + rest else rest
  }

  lemma {:induction false} FilterIsWhere(ts: seq<Cell>, e: Expr, schema: Schema, ints: bool)
    requires Keyed(schema) && KeyTest(e, schema, ints) && AllFit(ts, schema, ints)
    ensures FilterRows(RowsOf(ts), e, schema) == Value(RowsWhere(ts, e.op, KeyLiteral(e).value))
  {
    hide EvalCond, KeyTest, IsKeyComparison;
    if ts != [] {
      CondComparesKey(e, schema, ints, ts[0]);
      assert RowsOf(ts)[1..] == RowsOf(ts[1..]) && RowsOf(ts)[0] == RowOf(ts[0]);
      assert AllFit(ts[1..], schema, ints);
      FilterIsWhere(ts[1..], e, schema, ints);
    }
  }

  lemma FitsTable(cells: seq<Cell>, schema: Schema, ints: bool)
    requires Keyed(schema) && TableFits(cells, schema, ints)
    ensures AllFit(TableCells(cells, schema.tableId), schema, ints) && SortedCells(TableCells(cells, schema.tableId))
    ensures TableRows(cells, schema.tableId) == RowsOf(TableCells(cells, schema.tableId))
  {
    var ts := TableCells(cells, schema.tableId);
    TableCellsSorted(cells, schema.tableId);
    forall i | 0 <= i < |ts| ensures CellFits(ts[i], schema, ints) && ts[i].key.table == schema.tableId {
      TableCellsMember(cells, schema.tableId, ts[i]);
    }
  }

  /** Keys above the literal: none of them is equal to it. */
  lemma {:induction false} NoneEqual(ts: seq<Cell>, table: nat, pk: Pk)
    requires forall i | 0 <= i < |ts| :: ts[i].key.pk.IntKey? == pk.IntKey? && ts[i].key.table == table
    requires forall i | 0 <= i < |ts| :: ts[i].key != Key(table, pk)
    ensures RowsWhere(ts, OpEQ, pk) == []
  {
    if ts != [] {
      assert ComparePk(ts[0].key.pk, pk) != 0;
      NoneEqual(ts[1..], table, pk);
    }
  }

  lemma RestSorted(ts: seq<Cell>)
    requires SortedCells(ts) && ts != []
    ensures SortedCells(ts[1..]) && forall i | 0 <= i < |ts[1..]| :: ts[1..][i].key != ts[0].key
  {
    var rest := ts[1..];
    forall i, j | 0 <= i < j < |rest| ensures Lt(rest[i].key, rest[j].key) { assert Lt(ts[i + 1].key, ts[j + 1].key); }
    forall i | 0 <= i < |rest| ensures rest[i].key != ts[0].key {
      assert Lt(ts[0].key, ts[i + 1].key);
      KeyOrder(ts[0].key, ts[i + 1].key);
    }
  }

  /** With unique keys at most one row is equal to the literal, and it is the one a search finds. */
  lemma {:induction false} OneEqual(ts: seq<Cell>, table: nat, pk: Pk)
    requires forall i | 0 <= i < |ts| :: ts[i].key.pk.IntKey? == pk.IntKey? && ts[i].key.table == table
    requires SortedCells(ts)
    ensures RowsWhere(ts, OpEQ, pk) == match Lookup(ts, Key(table, pk)) case Some(row) => [row] case None => []
  {
    var key := Key(table, pk);
    if ts != [] {
      RestSorted(ts);
      if ts[0].key == key { NoneEqual(ts[1..], table, pk); } else { OneEqual(ts[1..], table, pk); }
    }
  }

  /** A search in the table's own cells finds what a search in the whole tree finds. */
  lemma LookupInTable(cells: seq<Cell>, table: nat, pk: Pk)
    requires SortedCells(cells)
    ensures Lookup(cells, Key(table, pk)) == Lookup(TableCells(cells, table), Key(table, pk))
  {
    var ts, key := TableCells(cells, table), Key(table, pk);
    TableCellsSorted(cells, table);
    var i, j := Find(cells, key), Find(ts, key);
    if i < |cells| {
      TableCellsMember(cells, table, cells[i]);
      var k :| 0 <= k < |ts| && ts[k] == cells[i];
      FindSorted(ts, k);
    } else if j < |ts| {
      TableCellsMember(cells, table, ts[j]);
    }
  }

  /** Both plans, on a table that fits: the row that is equal, and the rows that compare as asked. */
  lemma BothPlans(cells: seq<Cell>, find: Finder, table: Text, schema: Schema, e: Expr, ints: bool)
    requires Keyed(schema) && KeyTest(e, schema, ints) && TableFits(cells, schema, ints) && Searches(find, cells, schema.tableId)
    ensures var pk, ts := KeyLiteral(e).value, TableCells(cells, schema.tableId);
            && AllFit(ts, schema, ints)
            && EvalScan(PlanWhere(table, schema, Some(e)), cells, find) == Value(RowsWhere(ts, OpEQ, pk))
            && EvalScan(Filter(SequentialScan(table, schema), e), cells, find) == Value(RowsWhere(ts, e.op, pk))
  {
    hide EvalCond, RowsWhere, ComparePk, FilterRows, TableFits, AllFit, CellFits, Searches, Searchable, SortedCells, TableCells;
    var pk, ts := KeyLiteral(e).value, TableCells(cells, schema.tableId);
    FitsTable(cells, schema, ints);
    FitsKinds(cells, schema, ints, pk);
    IndexFindsKey(find, cells, schema, e);
    OneEqual(ts, schema.tableId, pk);
    LookupInTable(cells, schema.tableId, pk);
    FilterIsWhere(ts, e, schema, ints);
  }

  lemma FitsKinds(cells: seq<Cell>, schema: Schema, ints: bool, pk: Pk)
    requires Keyed(schema) && TableFits(cells, schema, ints) && pk.IntKey? == ints
    ensures Searchable(cells, Key(schema.tableId, pk)) && SortedCells(cells)
    ensures AllFit(TableCells(cells, schema.tableId), schema, ints) && SortedCells(TableCells(cells, schema.tableId))
    ensures var ts := TableCells(cells, schema.tableId); forall i | 0 <= i < |ts| :: ts[i].key.pk.IntKey? == pk.IntKey? && ts[i].key.table == schema.tableId
  {
    FitsTable(cells, schema, ints);
  }

  /** For `key = literal` the planner chooses the index scan, and it gives the rows the filtered scan gives, on every table. */
  lemma IndexScanIsFilter(cells: seq<Cell>, find: Finder, table: Text, schema: Schema, e: Expr, ints: bool)
    requires Keyed(schema) && KeyTest(e, schema, ints) && e.op == OpEQ
    requires TableFits(cells, schema, ints) && Searches(find, cells, schema.tableId)
    ensures PlanWhere(table, schema, Some(e)).IndexScan?
    ensures EvalScan(PlanWhere(table, schema, Some(e)), cells, find) == EvalScan(Filter(SequentialScan(table, schema), e), cells, find)
  {
    BothPlans(cells, find, table, schema, e, ints);
  }

  function SchemaOf(node: PlanNode): Option<Schema> {
    match node
    case SequentialScan(_, schema) => Some(schema)
    case IndexScan(_, schema, _) => Some(schema)
    case Filter(SequentialScan(_, schema), _) => Some(schema)
    case _ => None
  }

  /** A scan of the keys' kind depends on the cells of its own table only, the table that lockFor locks. */
  lemma ScanReadsItsTable(node: PlanNode, a: seq<Cell>, find: Finder, b: seq<Cell>, find': Finder)
    requires SchemaOf(node).Some? && SortedCells(a) && SortedCells(b)
    requires var id := SchemaOf(node).value.tableId;
             TableCells(a, id) == TableCells(b, id) && Searches(find, a, id) && Searches(find', b, id)
    requires node.IndexScan? ==> KeyLiteral(node.pkExpr).Some? && Searchable(a, Key(node.schema.tableId, KeyLiteral(node.pkExpr).value))
    ensures EvalScan(node, a, find) == EvalScan(node, b, find') && |TableNamesOf(node)| == 1
  {
    var id := SchemaOf(node).value.tableId;
    assert TableRows(a, id) == TableRows(b, id);
    if node.IndexScan? {
      var pk := KeyLiteral(node.pkExpr).value;
      SameKinds(a, b, id, pk);
      IndexFindsKey(find, a, node.schema, node.pkExpr);
      IndexFindsKey(find', b, node.schema, node.pkExpr);
      LookupInTable(a, id, pk);
      LookupInTable(b, id, pk);
    }
  }

  lemma SameKinds(a: seq<Cell>, b: seq<Cell>, table: nat, pk: Pk)
    requires TableCells(a, table) == TableCells(b, table) && Searchable(a, Key(table, pk))
    ensures Searchable(b, Key(table, pk))
  {
    forall i | 0 <= i < |b| && b[i].key.table == table ensures Comparable(b[i].key, Key(table, pk)) {
      TableCellsMember(b, table, b[i]);
      TableCellsMember(a, table, b[i]);
    }
  }

  // ---- The other comparisons ----

  ghost predicate ChoiceIsSafe(table: Text, schema: Schema, e: Expr, ints: bool)
    requires Keyed(schema)
  {
    forall cells, find | TableFits(cells, schema, ints) && Searches(find, cells, schema.tableId) ::
      EvalScan(PlanWhere(table, schema, Some(e)), cells, find) == EvalScan(Filter(SequentialScan(table, schema), e), cells, find)
  }

  predicate PkOk(pk: Pk) { C.KeyOk(Key(0, pk)) }

  /** Some row with the key fits a page: the one with nothing else in it. */
  predicate Storable(schema: Schema, pk: Pk)
    requires Keyed(schema)
  {
    PkOk(pk) && Weight(OneRow(schema, pk)) <= CAPACITY
  }

  /** No smaller key can be stored. */
  predicate Lowest(schema: Schema, pk: Pk)
    requires Keyed(schema)
  {
    match pk
    case IntKey(i) => i == -0x8000_0000_0000_0000 || !Storable(schema, IntKey(0))
    case StrKey(s) => s == [] || !Storable(schema, StrKey([]))
  }

  /** No greater key can be stored: a string cannot be made longer, and as far as a key can reach its bytes are 255. */
  predicate Highest(schema: Schema, pk: Pk)
    requires Keyed(schema)
  {
    match pk
    case IntKey(i) => i == 0x7FFF_FFFF_FFFF_FFFF || !Storable(schema, IntKey(0))
    case StrKey(s) =>
      && !Storable(schema, StrKey(s + [0]))
      && forall i | 0 <= i < |s| && Storable(schema, StrKey(s[..i + 1])) :: s[i] == 255
  }

  lemma {:induction false} NothingAbove(s: Text, t: Text)
    requires |t| <= |s| && forall i | 0 <= i < |t| :: s[i] == 255
    ensures !LtBytes(s, t)
  {
    if t != [] { NothingAbove(s[1..], t[1..]); }
  }

  lemma {:induction false} PrefixBelow(p: Text, a: Text, b: Text)
    requires LtBytes(a, b)
    ensures LtBytes(p + a, p + b)
  {
    if p == [] {
      assert p + a == a && p + b == b;
    } else {
      PrefixBelow(p[1..], a, b);
      assert (p + a)[1..] == p[1..] + a && (p + b)[1..] == p[1..] + b;
    }
  }

  /** The least row with a key: NULL in every other column. */
  function OneRow(schema: Schema, pk: Pk): Cell
    requires Keyed(schema)
  {
    var p := PrimaryKeyIndex(schema).value;
    Cell(Key(schema.tableId, pk), Data(Row(seq(|schema.columns|, i => if i == p then PkValue(pk) else NullValue))))
  }

  lemma {:induction false} LoneValue(vs: seq<Types.Value>, p: nat)
    requires p < |vs| && forall i | 0 <= i < |vs| && i != p :: vs[i] == NullValue
    ensures ValuesSize(vs) == ValueSize(vs[p])
  {
    if p > 0 {
      LoneValue(vs[1..], p - 1);
    } else {
      OnlyNulls(vs[1..]);
    }
  }

  lemma {:induction false} OnlyNulls(vs: seq<Types.Value>)
    requires forall i | 0 <= i < |vs| :: vs[i] == NullValue
    ensures ValuesSize(vs) == 0
  {
    if vs != [] { OnlyNulls(vs[1..]); }
  }

  lemma {:induction false} OneOfValues(vs: seq<Types.Value>, p: nat)
    requires p < |vs|
    ensures ValuesSize(vs) >= ValueSize(vs[p])
  {
    if p > 0 { OneOfValues(vs[1..], p - 1); }
  }

  function LeastWeight(schema: Schema, pk: Pk): nat
    requires Keyed(schema)
  {
    KeySize(Key(0, pk)) + BitmapSize(|schema.columns|) + 2 * |schema.columns| + ValueSize(PkValue(pk)) + SLOT_SIZE
  }

  lemma LeastRow(schema: Schema, pk: Pk)
    requires Keyed(schema)
    ensures Weight(OneRow(schema, pk)) == LeastWeight(schema, pk)
  {
    LoneValue(OneRow(schema, pk).body.row.values, PrimaryKeyIndex(schema).value);
  }

  /** A key that is in the table can be stored. */
  lemma StoredIsStorable(c: Cell, schema: Schema, ints: bool)
    requires Keyed(schema) && CellFits(c, schema, ints)
    ensures Storable(schema, c.key.pk)
  {
    LeastRow(schema, c.key.pk);
    OneOfValues(c.body.row.values, PrimaryKeyIndex(schema).value);
  }

  /** Whether a string can be stored depends on its length alone, and a shorter one can be if a longer one can. */
  lemma ShorterStorable(schema: Schema, s: Text, t: Text)
    requires Keyed(schema) && |s| <= |t| && Storable(schema, StrKey(t))
    ensures Storable(schema, StrKey(s))
  {
    LeastRow(schema, StrKey(s));
    LeastRow(schema, StrKey(t));
  }

  lemma IntsAlike(schema: Schema, i: int, j: int)
    requires Keyed(schema) && PkOk(IntKey(i)) && PkOk(IntKey(j))
    ensures Storable(schema, IntKey(i)) <==> Storable(schema, IntKey(j))
  {
    LeastRow(schema, IntKey(i));
    LeastRow(schema, IntKey(j));
  }

  lemma ExtremesBound(schema: Schema, pk: Pk, k: Pk)
    requires Keyed(schema) && PkOk(pk) && Storable(schema, k) && pk.IntKey? == k.IntKey?
    ensures Lowest(schema, pk) ==> ComparePk(k, pk) >= 0
    ensures Highest(schema, pk) ==> ComparePk(k, pk) <= 0
  {
    if pk.IntKey? {
      IntsAlike(schema, k.i, 0);
    } else {
      ShorterStorable(schema, [], k.s);
      if Highest(schema, pk) {
        if |k.s| > |pk.s| { ShorterStorable(schema, pk.s + [0], k.s); }
        forall i | 0 <= i < |k.s| ensures pk.s[i] == 255 { ShorterStorable(schema, pk.s[..i + 1], k.s); }
        NothingAbove(pk.s, k.s);
      }
    }
  }

  lemma SmallerKey(schema: Schema, pk: Pk) returns (k: Pk)
    requires Keyed(schema) && PkOk(pk) && !Lowest(schema, pk)
    ensures Storable(schema, k) && k.IntKey? == pk.IntKey? && ComparePk(k, pk) < 0
  {
    match pk
    case IntKey(i) =>
      IntsAlike(schema, i - 1, 0);
      k := IntKey(i - 1);
    case StrKey(s) => k := StrKey([]);
  }

  lemma LargerKey(schema: Schema, pk: Pk) returns (k: Pk)
    requires Keyed(schema) && PkOk(pk) && !Highest(schema, pk)
    ensures Storable(schema, k) && k.IntKey? == pk.IntKey? && ComparePk(k, pk) > 0
  {
    match pk
    case IntKey(i) =>
      IntsAlike(schema, i + 1, 0);
      k := IntKey(i + 1);
    case StrKey(s) =>
      if Storable(schema, StrKey(s + [0])) {
        k := StrKey(s + [0]);
        PrefixBelow(s, [], [0]);
        assert s + [] == s;
      } else {
        var i :| 0 <= i < |s| && Storable(schema, StrKey(s[..i + 1])) && s[i] != 255;
        k := StrKey(s[..i] + [s[i] + 1]);
        ShorterStorable(schema, s[..i] + [s[i] + 1], s[..i + 1]);
        PrefixBelow(s[..i], s[i..], [s[i] + 1]);
        assert s[..i] + s[i..] == s;
      }
  }

  lemma {:induction false} SameWhere(ts: seq<Cell>, op: Operator, pk: Pk)
    requires forall i | 0 <= i < |ts| :: ts[i].key.pk.IntKey? == pk.IntKey?
    requires forall i | 0 <= i < |ts| :: Holds(op, ComparePk(ts[i].key.pk, pk)) <==> Holds(OpEQ, ComparePk(ts[i].key.pk, pk))
    ensures RowsWhere(ts, op, pk) == RowsWhere(ts, OpEQ, pk)
  {
    if ts != [] { SameWhere(ts[1..], op, pk); }
  }

  /** A repository that panics on values of other kinds. */
  function TreeFinder(cells: seq<Cell>, table: nat): Finder {
    v => match PkOf(v) case Some(pk) => Value(Lookup(cells, Key(table, pk))) case None => Panic
  }

  lemma TreeSearches(cells: seq<Cell>, table: nat)
    ensures Searches(TreeFinder(cells, table), cells, table)
  {}

  lemma OneRowTable(schema: Schema, pk: Pk, table: Text, e: Expr, ints: bool)
    requires Keyed(schema) && KeyTest(e, schema, ints) && Storable(schema, pk) && pk.IntKey? == ints && schema.tableId < 0x1_0000_0000
    ensures var cells, cmp := [OneRow(schema, pk)], ComparePk(pk, KeyLiteral(e).value);
            var find := TreeFinder(cells, schema.tableId);
            && TableFits(cells, schema, ints) && Searches(find, cells, schema.tableId)
            && (EvalScan(PlanWhere(table, schema, Some(e)), cells, find) == EvalScan(Filter(SequentialScan(table, schema), e), cells, find)
                <==> (Holds(e.op, cmp) <==> cmp == 0))
  {
    var cells, lit := [OneRow(schema, pk)], KeyLiteral(e).value;
    var find := TreeFinder(cells, schema.tableId);
    TreeSearches(cells, schema.tableId);
    OneRowFits(schema, pk, ints);
    assert TableCells(cells, schema.tableId) == cells by { assert cells[..0] == []; }
    BothPlans(cells, find, table, schema, e, ints);
    hide EvalScan, KeyTest, Keyed, TableFits, Searches, TableCells, Storable, AllFit, FilterRows, PlanWhere;
    RowsWhereOne(cells[0], OpEQ, lit);
    RowsWhereOne(cells[0], e.op, lit);
  }

  lemma RowsWhereOne(c: Cell, op: Operator, pk: Pk)
    requires c.key.pk.IntKey? == pk.IntKey?
    ensures RowsWhere([c], op, pk) == if Holds(op, ComparePk(c.key.pk, pk)) then [RowOf(c)] else []
  {
    assert [c][1..] == [] && RowsWhere([], op, pk) == [];
  }

  lemma OneRowFits(schema: Schema, pk: Pk, ints: bool)
    requires Keyed(schema) && Storable(schema, pk) && pk.IntKey? == ints && schema.tableId < 0x1_0000_0000
    ensures TableFits([OneRow(schema, pk)], schema, ints)
  {}

  /** The operators and literals for which the equal row is all there can be. */
  predicate EqualIsAll(schema: Schema, op: Operator, pk: Pk)
    requires Keyed(schema)
  {
    || op == OpEQ
    || (op == OpLTE && Lowest(schema, pk))
    || (op == OpGTE && Highest(schema, pk))
    || (op == OpLT && Lowest(schema, pk) && !Storable(schema, pk))
    || (op == OpGT && Highest(schema, pk) && !Storable(schema, pk))
  }

  /** Without a literal on the right the index scan fails on every table, and the filtered scan not on an empty one. */
  lemma NoLiteralFails(table: Text, schema: Schema, e: Expr, ints: bool)
    requires Keyed(schema) && IsKeyComparison(e, schema.columns[PrimaryKeyIndex(schema).value].name) && !EvalLiteral(e.right).Value?
    ensures forall cells, find :: EvalScan(PlanWhere(table, schema, Some(e)), cells, find) == Error
    ensures !ChoiceIsSafe(table, schema, e, ints)
  {
    var find := TreeFinder([], schema.tableId);
    TreeSearches([], schema.tableId);
    assert TableFits([], schema, ints) && TableRows([], schema.tableId) == [];
    assert EvalScan(Filter(SequentialScan(table, schema), e), [], find) == Value([]);
  }

  /** `key = key`, for one: the filtered scan gives all rows of the table, the index scan an error. */
  lemma KeyWithItself(cells: seq<Cell>, find: Finder, table: Text, schema: Schema, e: Expr, ints: bool)
    requires Keyed(schema) && TableFits(cells, schema, ints) && e.Binary? && e.op == OpEQ
    requires var name := schema.columns[PrimaryKeyIndex(schema).value].name;
             e.left.Identifier? && e.left.column == name && e.right.Identifier? && e.right.column == name
    ensures EvalScan(PlanWhere(table, schema, Some(e)), cells, find) == Error
    ensures EvalScan(Filter(SequentialScan(table, schema), e), cells, find) == Value(TableRows(cells, schema.tableId))
  {
    NoLiteralFails(table, schema, e, ints);
    FitsTable(cells, schema, ints);
    AllEqualThemselves(TableCells(cells, schema.tableId), schema, e, ints);
  }

  lemma {:induction false} AllEqualThemselves(ts: seq<Cell>, schema: Schema, e: Expr, ints: bool)
    requires Keyed(schema) && AllFit(ts, schema, ints) && e.Binary? && e.op == OpEQ
    requires var name := schema.columns[PrimaryKeyIndex(schema).value].name;
             e.left.Identifier? && e.left.column == name && e.right.Identifier? && e.right.column == name
    ensures FilterRows(RowsOf(ts), e, schema) == Value(RowsOf(ts))
  {
    if ts != [] {
      EqualsItself(ts[0], schema, e, ints);
      hide EvalCond;
      assert RowsOf(ts)[1..] == RowsOf(ts[1..]) && RowsOf(ts)[0] == RowOf(ts[0]);
      assert AllFit(ts[1..], schema, ints);
      AllEqualThemselves(ts[1..], schema, e, ints);
      assert RowsOf(ts) == [RowOf(ts[0])] + RowsOf(ts[1..]);
    }
  }

  lemma EqualsItself(c: Cell, schema: Schema, e: Expr, ints: bool)
    requires Keyed(schema) && CellFits(c, schema, ints) && e.Binary? && e.op == OpEQ
    requires var name := schema.columns[PrimaryKeyIndex(schema).value].name;
             e.left.Identifier? && e.left.column == name && e.right.Identifier? && e.right.column == name
    ensures EvalCond(e, RowOf(c), schema) == Value(true)
  {}

  /**
    The planner drops the filter for every comparison of the key but !=, whatever is on the right, and the
    index scan looks for the row that is equal to a literal. That is right on every table exactly if there is a
    literal and the operator is =, or <= with the lowest key that can be stored, or >= with the highest, or < or >
    with one beyond these.
   */
  lemma IndexChoiceIff(table: Text, schema: Schema, e: Expr, ints: bool)
    requires Keyed(schema) && IsKeyComparison(e, schema.columns[PrimaryKeyIndex(schema).value].name) && schema.tableId < 0x1_0000_0000
    requires EvalLiteral(e.right).Value? ==> KeyTest(e, schema, ints)
    ensures ChoiceIsSafe(table, schema, e, ints) <==> EvalLiteral(e.right).Value? && EqualIsAll(schema, e.op, KeyLiteral(e).value)
  {
    if !EvalLiteral(e.right).Value? {
      NoLiteralFails(table, schema, e, ints);
    } else if EqualIsAll(schema, e.op, KeyLiteral(e).value) {
      forall cells, find | TableFits(cells, schema, ints) && Searches(find, cells, schema.tableId)
        ensures EvalScan(PlanWhere(table, schema, Some(e)), cells, find) == EvalScan(Filter(SequentialScan(table, schema), e), cells, find)
      {
        SafeOn(cells, find, table, schema, e, ints);
      }
    } else {
      var pk := KeyLiteral(e).value;
      var k := pk;
      if e.op == OpLTE || (e.op == OpLT && !Storable(schema, pk)) { k := SmallerKey(schema, pk); }
      if e.op == OpGTE || (e.op == OpGT && !Storable(schema, pk)) { k := LargerKey(schema, pk); }
      OneRowTable(schema, k, table, e, ints);
    }
  }

  lemma SafeOn(cells: seq<Cell>, find: Finder, table: Text, schema: Schema, e: Expr, ints: bool)
    requires Keyed(schema) && KeyTest(e, schema, ints) && TableFits(cells, schema, ints) && Searches(find, cells, schema.tableId)
    requires EqualIsAll(schema, e.op, KeyLiteral(e).value)
    ensures EvalScan(PlanWhere(table, schema, Some(e)), cells, find) == EvalScan(Filter(SequentialScan(table, schema), e), cells, find)
  {
    hide EvalScan, RowsWhere, ComparePk, EqualIsAll, TableFits, Searches, Storable, FilterRows, PlanWhere;
    var pk, ts := KeyLiteral(e).value, TableCells(cells, schema.tableId);
    BothPlans(cells, find, table, schema, e, ints);
    forall i | 0 <= i < |ts| ensures Holds(e.op, ComparePk(ts[i].key.pk, pk)) <==> Holds(OpEQ, ComparePk(ts[i].key.pk, pk)) {
      assert CellFits(ts[i], schema, ints);
      EqualOnly(ts[i], schema, e.op, pk, ints);
    }
    SameWhere(ts, e.op, pk);
  }

  lemma EqualOnly(c: Cell, schema: Schema, op: Operator, pk: Pk, ints: bool)
    requires Keyed(schema) && CellFits(c, schema, ints) && pk.IntKey? == ints && C.KeyOk(Key(0, pk)) && EqualIsAll(schema, op, pk)
    ensures Holds(op, ComparePk(c.key.pk, pk)) <==> Holds(OpEQ, ComparePk(c.key.pk, pk))
  {
    hide Storable;
    StoredIsStorable(c, schema, ints);
    ExtremesBound(schema, pk, c.key.pk);
  }
}
