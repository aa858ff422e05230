/** Expressions over rows and the scan executors (executor/executor.go). */
module Executor {
  import opened Types
  import opened Syntax
  import opened Keys
  import opened Pages
  import opened TreeMap
  import opened Plans

  /** A value, an error, or a failed type assertion that ends the process. */
  datatype Evaluated<+T> = Value(v: T) | Error | Panic

  function ColIndex(columns: seq<Column>, name: Text): (r: Option<nat>)
    ensures r.Some? ==> r.value < |columns| && columns[r.value].name == name && forall i | 0 <= i < r.value :: columns[i].name != name
    ensures r.None? ==> forall i | 0 <= i < |columns| :: columns[i].name != name
  {
    if columns == [] then None
    else match ColIndex(columns[..|columns| - 1], name)
      case Some(i) => Some(i)
      case None => if columns[|columns| - 1].name == name then Some(|columns| - 1) else None
  }

  function EvalLiteral(e: Expr): Evaluated<Types.Value> {
    match e
    case IntLiteral(i) => Value(IntValue(i))
    case StringLiteral(s) => Value(StringValue(s))
    case BoolLiteral(b) => Value(BoolValue(b))
    case NullLiteral => Value(NullValue)
    case _ => Error
  }

  function EvalValue(e: Expr, row: Row, schema: Schema): Evaluated<Types.Value> {
    match e
    case Identifier(_, column) =>
      (match ColIndex(schema.columns, column)
       case None => Error
       case Some(i) => if i < |row.values| then Value(row.values[i]) else Panic)
    case _ => EvalLiteral(e)
  }

  /** compareValues: other kinds than the left operand's fail, and booleans and NULL equal everything. */
  function CompareValues(a: Types.Value, b: Types.Value): Evaluated<int> {
    match a
    case IntValue(x) => if !b.IntValue? then Panic else Value(if x < b.i then -1 else if x > b.i then 1 else 0)
    case StringValue(x) => if !b.StringValue? then Panic else Value(CompareBytes(x, b.s))
    case _ => Value(0)
  }

  predicate Holds(op: Operator, cmp: int) {
    match op
    case OpEQ => cmp == 0
    case OpNEQ => cmp != 0
    case OpLT => cmp < 0
    case OpGT => cmp > 0
    case OpLTE => cmp <= 0
    case OpGTE => cmp >= 0
    case _ => false
  }

  function EvalCond(e: Expr, row: Row, schema: Schema): Evaluated<bool>
    decreases e, 1
  {
    match e
    case Binary(l, op, r) => EvalBinary(l, op, r, row, schema)
    case Not(x) => (match EvalCond(x, row, schema) case Value(b) => Value(!b) case other => other)
    case IsNull(x) => (match EvalValue(x, row, schema) case Value(v) => Value(v.NullValue?) case Error => Error case Panic => Panic)
    case IsNotNull(x) => (match EvalValue(x, row, schema) case Value(v) => Value(!v.NullValue?) case Error => Error case Panic => Panic)
    case _ => Error
  }

  /** AND and OR stop at a left side that decides. */
  function EvalBinary(l: Expr, op: Operator, r: Expr, row: Row, schema: Schema): Evaluated<bool>
    decreases Binary(l, op, r), 0
  {
    if op == OpAND || op == OpOR then
      (match EvalCond(l, row, schema)
       case Value(b) => if b == (op == OpOR) then Value(b) else EvalCond(r, row, schema)
       case other => other)
    else
      match (EvalValue(l, row, schema), EvalValue(r, row, schema))
      case (Value(a), Value(b)) =>
        (match CompareValues(a, b) case Value(cmp) => Value(Holds(op, cmp)) case Error => Error case Panic => Panic)
      case (Value(_), Error) => Error
      case (Value(_), Panic) => Panic
      case (Error, _) => Error
      case (Panic, _) => Panic
  }

  // ---- Whole results ----

  function Prepend(row: Row, o: Evaluated<seq<Row>>): Evaluated<seq<Row>> {
    match o case Value(rows) => Value([row] + rows) case other => other
  }

  /** The rows that satisfy the condition, or the first failure. */
  function FilterRows(rows: seq<Row>, cond: Expr, schema: Schema): Evaluated<seq<Row>> {
    if rows == [] then Value([])
    else match EvalCond(cond, rows[0], schema)
      case Value(b) =>
        var rest := FilterRows(rows[1..], cond, schema);
        if b then Prepend(rows[0], rest) else rest
      case Error => Error
      case Panic => Panic
  }

  /** A primary key as a value, and back; only integers and strings can be keys. */
  function PkValue(pk: Pk): Types.Value {
    match pk case IntKey(i) => IntValue(i) case StrKey(s) => StringValue(s)
  }

  function PkOf(v: Types.Value): Option<Pk> {
    match v case IntValue(i) => Some(IntKey(i)) case StringValue(s) => Some(StrKey(s)) case _ => None
  }

  /** The key that the right side of a comparison stands for, if it is an integer or string literal. */
  function KeyLiteral(e: Expr): Option<Pk> {
    if e.Binary? && EvalLiteral(e.right).Value? then PkOf(EvalLiteral(e.right).v) else None
  }

  /** What an index scan returns: the row with that key, whatever the operator of the comparison. */
  function IndexRows(cells: seq<Cell>, schema: Schema, pk: Pk): seq<Row> {
    match Lookup(cells, Key(schema.tableId, pk)) case Some(row) => [row] case None => []
  }

  // ---- The executors ----

  /** The cells are those of the tree when the statement runs; its table is locked meanwhile. */
  class SeqScanExecutor {
    const cells: seq<Cell>
    const schema: Schema
    var rows: seq<Row>
    var pos: nat
    var loaded: bool

    constructor (cells: seq<Cell>, schema: Schema)
      ensures this.cells == cells && this.schema == schema && Valid() && Remaining() == TableRows(cells, schema.tableId)
    {
      this.cells, this.schema, rows, pos, loaded := cells, schema, [], 0, false;
    }

    ghost predicate Valid()
      reads this
    {
      pos <= |rows|
    }

    ghost function Remaining(): seq<Row>
      requires Valid()
      reads this
    {
      if loaded then rows[pos..] else TableRows(cells, schema.tableId)
    }

    /** The next row; None at the end. */
    method Next() returns (row: Option<Row>)
      requires Valid()
      modifies this
      ensures Valid()
      ensures old(Remaining()) == [] ==> row == None && Remaining() == []
      ensures old(Remaining()) != [] ==> row == Some(old(Remaining())[0]) && Remaining() == old(Remaining())[1..]
    {
      if !loaded { rows, pos, loaded := TableRows(cells, schema.tableId), 0, true; }
      if pos >= |rows| { return None; }
      row := Some(rows[pos]);
      pos := pos + 1;
    }

    /** executeLocked on a plan that is a scan only. */
    method Drain() returns (all: seq<Row>)
      requires Valid()
      modifies this
      ensures Valid() && all == old(Remaining())
    {
      hide TableRows;
      all := [];
      ghost var whole := Remaining();
      Appended([], whole);
      while true
        invariant Valid() && whole == all + Remaining()
        decreases |Remaining()|
      {
        ghost var rest := Remaining();
        Appended(all, rest);
        var row := Next();
        if row == None { return all; }
        all := all + [row.value];
      }
    }
  }

  lemma Appended(all: seq<Row>, rest: seq<Row>)
    ensures all + rest == if rest == [] then all else all + [rest[0]] + rest[1..]
    ensures [] + rest == rest
  {}

  class FilterExecutor {
    const child: SeqScanExecutor
    const cond: Expr

    constructor (child: SeqScanExecutor, cond: Expr)
      ensures this.child == child && this.cond == cond
    {
      this.child, this.cond := child, cond;
    }

    ghost function Remaining(): Evaluated<seq<Row>>
      requires child.Valid()
      reads child
    {
      FilterRows(child.Remaining(), cond, child.schema)
    }

    /** Skips rows until one satisfies the condition. */
    method Next() returns (r: Evaluated<Option<Row>>)
      requires child.Valid()
      modifies child
      ensures child.Valid() && |child.Remaining()| <= |old(child.Remaining())|
      ensures match r
              case Value(Some(row)) => |child.Remaining()| < |old(child.Remaining())| && old(Remaining()) == Prepend(row, Remaining())
              case Value(None) => old(Remaining()) == Value([])
              case Error => old(Remaining()) == Error
              case Panic => old(Remaining()) == Panic
    {
      while true
        invariant child.Valid() && |child.Remaining()| <= |old(child.Remaining())| && Remaining() == old(Remaining())
        decreases |child.Remaining()|
      {
        var row := child.Next();
        if row == None { return Value(None); }
        var ok := EvalCond(cond, row.value, child.schema);
        match ok {
          case Error => return Error;
          case Panic => return Panic;
          case Value(b) => if b { return Value(row); }
        }
      }
    }

    /** executeLocked: collects rows until there are no more. */
    method Drain() returns (r: Evaluated<seq<Row>>)
      requires child.Valid()
      modifies child
      ensures r == old(Remaining())
    {
      var got: seq<Row> := [];
      PrependNone(Remaining());
      while true
        invariant child.Valid() && old(Remaining()) == PrependAll(got, Remaining())
        decreases |child.Remaining()|
      {
        ghost var rest := Remaining();
        var next := Next();
        match next {
          case Error => return Error;
          case Panic => return Panic;
          case Value(row) =>
            PrependNone(Value(got));
            if row == None { return Value(got); }
            PrependMore(got, row.value, Remaining());
            got := got + [row.value];
        }
      }
    }
  }

  function PrependAll(rows: seq<Row>, o: Evaluated<seq<Row>>): Evaluated<seq<Row>> {
    match o case Value(more) => Value(rows + more) case other => other
  }

  lemma PrependNone(o: Evaluated<seq<Row>>)
    ensures PrependAll([], o) == o && (o.Value? ==> PrependAll(o.v, Value([])) == o)
  {
    if o.Value? { assert [] + o.v == o.v && o.v + [] == o.v; }
  }

  lemma PrependMore(rows: seq<Row>, row: Row, o: Evaluated<seq<Row>>)
    ensures PrependAll(rows, Prepend(row, o)) == PrependAll(rows + [row], o)
  {
    if o.Value? { assert rows + ([row] + o.v) == rows + [row] + o.v; }
  }

  /** FindByPK of the table's repository. */
  type Finder = Types.Value -> Evaluated<Option<Row>>

  /** Searching for a key does not fail if the keys of the table are of its kind. */
  ghost predicate Searchable(cells: seq<Cell>, key: Key) {
    forall i | 0 <= i < |cells| :: Comparable(cells[i].key, key)
  }

  /** The repository searches these cells; for a value of another kind than the keys it may answer anything, or panic. */
  ghost predicate Searches(find: Finder, cells: seq<Cell>, table: nat) {
    && (forall i :: Searchable(cells, Key(table, IntKey(i))) ==> find(IntValue(i)) == Value(Lookup(cells, Key(table, IntKey(i)))))
    && (forall s :: Searchable(cells, Key(table, StrKey(s))) ==> find(StringValue(s)) == Value(Lookup(cells, Key(table, StrKey(s)))))
  }

  /** The answer to the right side of a comparison, whatever the operator. */
  function IndexAnswer(find: Finder, e: Expr): Evaluated<Option<Row>> {
    if e.Binary? && EvalLiteral(e.right).Value? then find(EvalLiteral(e.right).v) else Error
  }

  function IndexResult(find: Finder, e: Expr): Evaluated<seq<Row>> {
    Collected(IndexAnswer(find, e))
  }

  /** All rows, when a search has found at most one. */
  function Collected(answer: Evaluated<Option<Row>>): Evaluated<seq<Row>> {
    match answer
    case Value(Some(row)) => Value([row])
    case Value(None) => Value([])
    case Error => Error
    case Panic => Panic
  }

  /** For a key literal that is the row with that key. */
  lemma IndexFindsKey(find: Finder, cells: seq<Cell>, schema: Schema, e: Expr)
    requires Searches(find, cells, schema.tableId) && KeyLiteral(e).Some? && Searchable(cells, Key(schema.tableId, KeyLiteral(e).value))
    ensures IndexResult(find, e) == Value(IndexRows(cells, schema, KeyLiteral(e).value))
  {
    assert EvalLiteral(e.right).v == PkValue(KeyLiteral(e).value);
  }

  class IndexScanExecutor {
    const find: Finder
    const pkExpr: Expr
    var done: bool

    constructor (find: Finder, pkExpr: Expr)
      ensures this.find == find && this.pkExpr == pkExpr && !done
    {
      this.find, this.pkExpr, done := find, pkExpr, false;
    }

    /** One search, with the right side of the comparison; nothing on later calls. */
    method Next() returns (r: Evaluated<Option<Row>>)
      modifies this
      ensures done
      ensures r == if old(done) then Value(None) else IndexAnswer(find, pkExpr)
    {
      if done { return Value(None); }
      done := true;
      if !pkExpr.Binary? { return Error; }
      var pkVal := EvalLiteral(pkExpr.right);
      if !pkVal.Value? { return Error; }
      return find(pkVal.v);
    }

    /** executeLocked: collects rows until there are no more. */
    method Drain() returns (r: Evaluated<seq<Row>>)
      requires !done
      modifies this
      ensures r == IndexResult(find, pkExpr)
    {
      var got := [];
      while true
        invariant if done then |got| == 1 && IndexAnswer(find, pkExpr) == Value(Some(got[0])) else got == []
        decreases !done
      {
        if done { assert got == [got[0]]; }
        var next := Next();
        match next {
          case Error => return Error;
          case Panic => return Panic;
          case Value(row) =>
            if row == None { return Value(got); }
            got := got + [row.value];
        }
      }
    }
  }
}
