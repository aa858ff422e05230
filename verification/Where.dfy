/**
  What a WHERE condition means for the rows that come out of a filter: AND, OR and NOT, the comparisons of a
  column with a literal, IS NULL, and failures (executor/executor.go).
 */
module Where {
  import opened Types
  import opened Syntax
  import opened Keys
  import opened Plans
  import opened Executor

  /** The rows of the list that are among the given ones, in order. */
  function Those(rows: seq<Row>, keep: set<Row>): seq<Row> {
    if rows == [] then [] else (if rows[0] in keep then [rows[0]] else []) + Those(rows[1..], keep)
  }

  function Among(rows: seq<Row>): set<Row> { set row | row in rows }

  /** The rows of the list but those of the other. */
  function Without(rows: seq<Row>, gone: seq<Row>): seq<Row> { Those(rows, Among(rows) - Among(gone)) }

  ghost predicate Evaluates(rows: seq<Row>, cond: Expr, schema: Schema) {
    forall row | row in rows :: EvalCond(cond, row, schema).Value?
  }

  ghost function Satisfying(rows: seq<Row>, cond: Expr, schema: Schema): set<Row> {
    set row | row in rows && EvalCond(cond, row, schema) == Value(true)
  }

  // ---- Filtering is row by row ----

  lemma {:induction false} ThoseAlike(rows: seq<Row>, a: set<Row>, b: set<Row>)
    requires forall row | row in rows :: row in a <==> row in b
    ensures Those(rows, a) == Those(rows, b)
  {
    if rows != [] { ThoseAlike(rows[1..], a, b); }
  }

  lemma {:induction false} AmongThose(rows: seq<Row>, keep: set<Row>)
    ensures Among(Those(rows, keep)) == Among(rows) * keep
  {
    if rows != [] {
      var rest := rows[1..];
      AmongThose(rest, keep);
      assert rows == [rows[0]] + rest;
      assert Among(rows) == {rows[0]} + Among(rest);
      assert Among([rows[0]] + Those(rest, keep)) == {rows[0]} + Among(Those(rest, keep));
      assert [] + Those(rest, keep) == Those(rest, keep);
    }
  }

  lemma {:induction false} ThoseOfThose(rows: seq<Row>, a: set<Row>, b: set<Row>)
    ensures Those(Those(rows, a), b) == Those(rows, a * b)
  {
    if rows != [] {
      ThoseOfThose(rows[1..], a, b);
      var rest := Those(rows[1..], a);
      if rows[0] in a { assert ([rows[0]] + rest)[1..] == rest; } else { assert [] + rest == rest; }
    }
  }

  lemma {:induction false} RowWise(rows: seq<Row>, cond: Expr, schema: Schema)
    ensures FilterRows(rows, cond, schema).Value? <==> Evaluates(rows, cond, schema)
    ensures FilterRows(rows, cond, schema).Value? ==> FilterRows(rows, cond, schema).v == Those(rows, Satisfying(rows, cond, schema))
  {
    hide EvalCond;
    if rows != [] {
      RowWise(rows[1..], cond, schema);
      assert rows == [rows[0]] + rows[1..];
      ThoseAlike(rows[1..], Satisfying(rows, cond, schema), Satisfying(rows[1..], cond, schema));
    }
  }

  /** One filter does what another does, failures included, if it does so on every single row. */
  lemma {:induction false} SameFilter(rows: seq<Row>, a: Expr, b: Expr, schema: Schema)
    requires forall row | row in rows :: EvalCond(a, row, schema) == EvalCond(b, row, schema)
    ensures FilterRows(rows, a, schema) == FilterRows(rows, b, schema)
  {
    hide EvalCond;
    if rows != [] { SameFilter(rows[1..], a, b, schema); }
  }

  lemma OneRow(row: Row, cond: Expr, schema: Schema)
    ensures FilterRows([row], cond, schema) ==
            match EvalCond(cond, row, schema) case Value(b) => Value(if b then [row] else []) case Error => Error case Panic => Panic
  {
    hide EvalCond;
    assert [row][1..] == [];
    assert FilterRows([], cond, schema) == Value([]);
    assert [row] + [] == [row];
  }

  /** A filter fails exactly as it does on the first row on which it fails. */
  lemma {:induction false} FirstFailure(rows: seq<Row>, cond: Expr, schema: Schema, i: nat)
    requires i < |rows| && FilterRows(rows[..i], cond, schema).Value? && !FilterRows([rows[i]], cond, schema).Value?
    ensures FilterRows(rows, cond, schema) == FilterRows([rows[i]], cond, schema)
  {
    hide EvalCond;
    OneRow(rows[i], cond, schema);
    if i > 0 {
      assert rows[..i][0] == rows[0] && rows[..i][1..] == rows[1..][..i - 1];
      FirstFailure(rows[1..], cond, schema, i - 1);
    }
  }

  // ---- AND, OR, NOT ----

  /**
    On one row: if the left side decides, the right side makes no difference, whether it fails or not. Otherwise it
    alone decides.
   */
  lemma OneRowLogic(row: Row, l: Expr, r: Expr, schema: Schema)
    ensures FilterRows([row], Binary(l, OpAND, r), schema) == FilterRows([row], if FilterRows([row], l, schema) == Value([row]) then r else l, schema)
    ensures FilterRows([row], Binary(l, OpOR, r), schema) == FilterRows([row], if FilterRows([row], l, schema) == Value([]) then r else l, schema)
  {
    OneRow(row, l, schema);
    OneRow(row, r, schema);
    OneRow(row, Binary(l, OpAND, r), schema);
    OneRow(row, Binary(l, OpOR, r), schema);
    hide FilterRows;
    assert [row] != [];
  }

  lemma Logic(rows: seq<Row>, l: Expr, r: Expr, schema: Schema)
    ensures forall row | row in rows ::
              && EvalCond(Binary(l, OpAND, r), row, schema) ==
                 (if EvalCond(l, row, schema) == Value(true) then EvalCond(r, row, schema) else EvalCond(l, row, schema))
              && EvalCond(Binary(l, OpOR, r), row, schema) ==
                 (if EvalCond(l, row, schema) == Value(false) then EvalCond(r, row, schema) else EvalCond(l, row, schema))
  {
    forall row | row in rows
      ensures EvalCond(Binary(l, OpAND, r), row, schema) ==
              if EvalCond(l, row, schema) == Value(true) then EvalCond(r, row, schema) else EvalCond(l, row, schema)
      ensures EvalCond(Binary(l, OpOR, r), row, schema) ==
              if EvalCond(l, row, schema) == Value(false) then EvalCond(r, row, schema) else EvalCond(l, row, schema)
    {
      LogicOne(row, l, r, schema);
    }
  }

  lemma Decided(c: Evaluated<bool>)
    requires c.Value?
    ensures c == Value(true) || c == Value(false)
  {
    if c.v { assert c == Value(true); } else { assert c == Value(false); }
  }

  lemma LogicOne(row: Row, l: Expr, r: Expr, schema: Schema)
    ensures EvalCond(Binary(l, OpAND, r), row, schema) ==
            if EvalCond(l, row, schema) == Value(true) then EvalCond(r, row, schema) else EvalCond(l, row, schema)
    ensures EvalCond(Binary(l, OpOR, r), row, schema) ==
            if EvalCond(l, row, schema) == Value(false) then EvalCond(r, row, schema) else EvalCond(l, row, schema)
  {
    assert EvalCond(Binary(l, OpAND, r), row, schema) == EvalBinary(l, OpAND, r, row, schema);
    assert EvalCond(Binary(l, OpOR, r), row, schema) == EvalBinary(l, OpOR, r, row, schema);
  }

  /** AND filters by the left side, and what is left by the right side; it fails if and only if one of these does. */
  lemma AndFilters(rows: seq<Row>, l: Expr, r: Expr, schema: Schema)
    ensures FilterRows(rows, Binary(l, OpAND, r), schema).Value? <==>
            FilterRows(rows, l, schema).Value? && FilterRows(FilterRows(rows, l, schema).v, r, schema).Value?
    ensures FilterRows(rows, Binary(l, OpAND, r), schema).Value? ==>
              FilterRows(rows, Binary(l, OpAND, r), schema) == FilterRows(FilterRows(rows, l, schema).v, r, schema)
  {
    hide FilterRows, Those, EvalCond, EvalBinary;
    var e := Binary(l, OpAND, r);
    Logic(rows, l, r, schema);
    RowWise(rows, e, schema);
    RowWise(rows, l, schema);
    if FilterRows(rows, l, schema).Value? {
      var keep := Satisfying(rows, l, schema);
      var some := Those(rows, keep);
      AmongThose(rows, keep);
      RowWise(some, r, schema);
      forall row | row in some ensures row in rows && row in keep { assert row in Among(some); }
      forall row | row in keep ensures row in some { assert row in Among(some); }
      ThoseOfThose(rows, keep, Satisfying(some, r, schema));
      ThoseAlike(rows, keep * Satisfying(some, r, schema), Satisfying(rows, e, schema));
    }
  }

  /** NOT keeps the rows that its operand drops, and fails with it. */
  lemma NotFilters(rows: seq<Row>, x: Expr, schema: Schema)
    ensures match FilterRows(rows, x, schema)
            case Value(kept) => FilterRows(rows, Not(x), schema) == Value(Without(rows, kept))
            case failure => FilterRows(rows, Not(x), schema) == failure
  {
    hide FilterRows, Those;
    RowWise(rows, x, schema);
    RowWise(rows, Not(x), schema);
    if FilterRows(rows, x, schema).Value? {
      AmongThose(rows, Satisfying(rows, x, schema));
      ThoseAlike(rows, Satisfying(rows, Not(x), schema), Among(rows) - Among(FilterRows(rows, x, schema).v));
    } else {
      NotFails(rows, x, schema);
    }
  }

  lemma {:induction false} NotFails(rows: seq<Row>, x: Expr, schema: Schema)
    requires !FilterRows(rows, x, schema).Value?
    ensures FilterRows(rows, Not(x), schema) == FilterRows(rows, x, schema)
  {
    if rows != [] && EvalCond(x, rows[0], schema).Value? { NotFails(rows[1..], x, schema); }
  }

  /**
    OR keeps the rows that the left side keeps and, of the others, those that the right side keeps; it fails if and
    only if the left side fails on some row or the right side on one that the left side drops.
   */
  lemma OrFilters(rows: seq<Row>, l: Expr, r: Expr, schema: Schema)
    ensures FilterRows(rows, Binary(l, OpOR, r), schema).Value? <==>
            FilterRows(rows, l, schema).Value? && FilterRows(Without(rows, FilterRows(rows, l, schema).v), r, schema).Value?
    ensures FilterRows(rows, Binary(l, OpOR, r), schema).Value? ==>
              var kept := FilterRows(rows, l, schema).v;
              FilterRows(rows, Binary(l, OpOR, r), schema) ==
              Value(Those(rows, Among(kept) + Among(FilterRows(Without(rows, kept), r, schema).v)))
  {
    hide FilterRows, Those, EvalCond, EvalBinary;
    var e := Binary(l, OpOR, r);
    Logic(rows, l, r, schema);
    RowWise(rows, e, schema);
    RowWise(rows, l, schema);
    if FilterRows(rows, l, schema).Value? {
      var keep := Satisfying(rows, l, schema);
      var kept := Those(rows, keep);
      AmongThose(rows, keep);
      var others := Without(rows, kept);
      AmongThose(rows, Among(rows) - Among(kept));
      RowWise(others, r, schema);
      AmongThose(others, Satisfying(others, r, schema));
      forall row | row in others ensures row in rows && row !in keep { assert row in Among(others); }
      forall row | row in rows && row !in keep ensures row in others && EvalCond(l, row, schema) == Value(false) {
        assert row in Among(others);
        Decided(EvalCond(l, row, schema));
      }
      if FilterRows(others, r, schema).Value? {
        var more := Among(FilterRows(others, r, schema).v);
        forall row | row in rows ensures row in Satisfying(rows, e, schema) <==> row in Among(kept) + more {
          Decided(EvalCond(l, row, schema));
          assert row in Among(rows) && (row in Among(kept) <==> row in keep) && (row in more <==> row in others && row in Satisfying(others, r, schema));
        }
        ThoseAlike(rows, Satisfying(rows, e, schema), Among(kept) + more);
      }
    }
  }

  /** When both sides evaluate on every row: the rows of either filter, in order. */
  lemma OrUnites(rows: seq<Row>, l: Expr, r: Expr, schema: Schema)
    requires FilterRows(rows, l, schema).Value? && FilterRows(rows, r, schema).Value?
    ensures FilterRows(rows, Binary(l, OpOR, r), schema) ==
            Value(Those(rows, Among(FilterRows(rows, l, schema).v) + Among(FilterRows(rows, r, schema).v)))
    ensures FilterRows(rows, Binary(l, OpAND, r), schema) ==
            Value(Those(rows, Among(FilterRows(rows, l, schema).v) * Among(FilterRows(rows, r, schema).v)))
  {
    hide FilterRows, Those, EvalCond, EvalBinary;
    var e, f := Binary(l, OpOR, r), Binary(l, OpAND, r);
    Logic(rows, l, r, schema);
    RowWise(rows, l, schema);
    RowWise(rows, r, schema);
    RowWise(rows, e, schema);
    RowWise(rows, f, schema);
    AmongThose(rows, Satisfying(rows, l, schema));
    AmongThose(rows, Satisfying(rows, r, schema));
    var a, b := Among(FilterRows(rows, l, schema).v), Among(FilterRows(rows, r, schema).v);
    forall row | row in rows
      ensures row in Satisfying(rows, e, schema) <==> row in a + b
      ensures row in Satisfying(rows, f, schema) <==> row in a * b
    {
      Decided(EvalCond(l, row, schema));
      assert row in Among(rows) && (row in a <==> row in Satisfying(rows, l, schema)) && (row in b <==> row in Satisfying(rows, r, schema));
    }
    ThoseAlike(rows, Satisfying(rows, e, schema), a + b);
    ThoseAlike(rows, Satisfying(rows, f, schema), a * b);
  }

  // ---- Comparisons ----

  /** != is NOT =, <= is < or =, >= is > or =, and > is NOT <=: on all rows, failures included. */
  lemma ComparisonLaws(rows: seq<Row>, l: Expr, r: Expr, schema: Schema)
    ensures FilterRows(rows, Binary(l, OpNEQ, r), schema) == FilterRows(rows, Not(Binary(l, OpEQ, r)), schema)
    ensures FilterRows(rows, Binary(l, OpLTE, r), schema) == FilterRows(rows, Binary(Binary(l, OpLT, r), OpOR, Binary(l, OpEQ, r)), schema)
    ensures FilterRows(rows, Binary(l, OpGTE, r), schema) == FilterRows(rows, Binary(Binary(l, OpGT, r), OpOR, Binary(l, OpEQ, r)), schema)
    ensures FilterRows(rows, Binary(l, OpGT, r), schema) == FilterRows(rows, Not(Binary(l, OpLTE, r)), schema)
  {
    hide EvalCond, EvalBinary;
    forall row | row in rows
      ensures EvalCond(Binary(l, OpNEQ, r), row, schema) == EvalCond(Not(Binary(l, OpEQ, r)), row, schema)
      ensures EvalCond(Binary(l, OpLTE, r), row, schema) == EvalCond(Binary(Binary(l, OpLT, r), OpOR, Binary(l, OpEQ, r)), row, schema)
      ensures EvalCond(Binary(l, OpGTE, r), row, schema) == EvalCond(Binary(Binary(l, OpGT, r), OpOR, Binary(l, OpEQ, r)), row, schema)
      ensures EvalCond(Binary(l, OpGT, r), row, schema) == EvalCond(Not(Binary(l, OpLTE, r)), row, schema)
    {
      OneComparison(row, l, r, schema);
    }
    SameFilter(rows, Binary(l, OpNEQ, r), Not(Binary(l, OpEQ, r)), schema);
    SameFilter(rows, Binary(l, OpLTE, r), Binary(Binary(l, OpLT, r), OpOR, Binary(l, OpEQ, r)), schema);
    SameFilter(rows, Binary(l, OpGTE, r), Binary(Binary(l, OpGT, r), OpOR, Binary(l, OpEQ, r)), schema);
    SameFilter(rows, Binary(l, OpGT, r), Not(Binary(l, OpLTE, r)), schema);
  }

  lemma OneComparison(row: Row, l: Expr, r: Expr, schema: Schema)
    ensures EvalCond(Binary(l, OpNEQ, r), row, schema) == EvalCond(Not(Binary(l, OpEQ, r)), row, schema)
    ensures EvalCond(Binary(l, OpLTE, r), row, schema) == EvalCond(Binary(Binary(l, OpLT, r), OpOR, Binary(l, OpEQ, r)), row, schema)
    ensures EvalCond(Binary(l, OpGTE, r), row, schema) == EvalCond(Binary(Binary(l, OpGT, r), OpOR, Binary(l, OpEQ, r)), row, schema)
    ensures EvalCond(Binary(l, OpGT, r), row, schema) == EvalCond(Not(Binary(l, OpLTE, r)), row, schema)
  {
    hide EvalBinary, EvalValue, CompareValues;
    LogicOne(row, Binary(l, OpLT, r), Binary(l, OpEQ, r), schema);
    LogicOne(row, Binary(l, OpGT, r), Binary(l, OpEQ, r), schema);
    var _ := Compared(row, l, r, schema);
  }

  /** How the two sides compare, once for all operators. */
  lemma Compared(row: Row, l: Expr, r: Expr, schema: Schema) returns (c: Evaluated<int>)
    ensures forall op | op != OpAND && op != OpOR ::
              EvalCond(Binary(l, op, r), row, schema) == match c case Value(cmp) => Value(Holds(op, cmp)) case Error => Error case Panic => Panic
  {
    c := match (EvalValue(l, row, schema), EvalValue(r, row, schema))
         case (Value(a), Value(b)) => CompareValues(a, b)
         case (Value(_), Error) => Error
         case (Value(_), Panic) => Panic
         case (Error, _) => Error
         case (Panic, _) => Panic;
  }

  /** The position of a column: the first one with the name. */
  predicate ColumnAt(schema: Schema, name: Text, p: nat) {
    p < |schema.columns| && schema.columns[p].name == name && forall i | 0 <= i < p :: schema.columns[i].name != name
  }

  /** The rows have a value in the column. */
  predicate Have(rows: seq<Row>, p: nat) {
    forall row | row in rows :: p < |row.values|
  }

  /** A value against an integer: truth values and NULL count as equal to it. */
  predicate IntTest(v: Types.Value, op: Operator, i: int) {
    match op
    case OpEQ => v == IntValue(i) || v.BoolValue? || v.NullValue?
    case OpNEQ => v.IntValue? && v.i != i
    case OpLT => v.IntValue? && v.i < i
    case OpGT => v.IntValue? && v.i > i
    case OpLTE => (v.IntValue? && v.i <= i) || v.BoolValue? || v.NullValue?
    case OpGTE => (v.IntValue? && v.i >= i) || v.BoolValue? || v.NullValue?
    case _ => false
  }

  /** A value against a string, byte by byte; the same about truth values and NULL. */
  ghost predicate StringTest(v: Types.Value, op: Operator, s: Text) {
    match op
    case OpEQ => v == StringValue(s) || v.BoolValue? || v.NullValue?
    case OpNEQ => v.StringValue? && v.s != s
    case OpLT => v.StringValue? && Precedes(v.s, s)
    case OpGT => v.StringValue? && Precedes(s, v.s)
    case OpLTE => (v.StringValue? && (v.s == s || Precedes(v.s, s))) || v.BoolValue? || v.NullValue?
    case OpGTE => (v.StringValue? && (v.s == s || Precedes(s, v.s))) || v.BoolValue? || v.NullValue?
    case _ => false
  }

  /**
    A column compared with an integer: the process panics if and only if a row has a string there; otherwise
    exactly the rows are kept whose integer compares as asked, and for =, <= and >= those with a truth value or NULL.
   */
  lemma IntColumn(rows: seq<Row>, table: Text, name: Text, p: nat, op: Operator, i: int, schema: Schema)
    requires ColumnAt(schema, name, p) && Have(rows, p) && op != OpAND && op != OpOR
    ensures FilterRows(rows, Binary(Identifier(table, name), op, IntLiteral(i)), schema) ==
            if exists row | row in rows :: row.values[p].StringValue? then Panic
            else Value(Those(rows, set row | row in rows && IntTest(row.values[p], op, i)))
  {
    hide Those, FilterRows;
    var e := Binary(Identifier(table, name), op, IntLiteral(i));
    forall row | row in rows
      ensures EvalCond(e, row, schema) == if row.values[p].StringValue? then Panic else Value(IntTest(row.values[p], op, i))
    {
      ColumnValue(row, table, name, p, schema);
    }
    TestedColumn(rows, e, schema, set row | row in rows && row.values[p].StringValue?, set row | row in rows && IntTest(row.values[p], op, i));
  }

  lemma StringColumn(rows: seq<Row>, table: Text, name: Text, p: nat, op: Operator, s: Text, schema: Schema)
    requires ColumnAt(schema, name, p) && Have(rows, p) && op != OpAND && op != OpOR
    ensures FilterRows(rows, Binary(Identifier(table, name), op, StringLiteral(s)), schema) ==
            if exists row | row in rows :: row.values[p].IntValue? then Panic
            else Value(Those(rows, set row | row in rows && StringTest(row.values[p], op, s)))
  {
    hide Those, FilterRows;
    var e := Binary(Identifier(table, name), op, StringLiteral(s));
    forall row | row in rows
      ensures EvalCond(e, row, schema) == if row.values[p].IntValue? then Panic else Value(StringTest(row.values[p], op, s))
    {
      ColumnValue(row, table, name, p, schema);
      if row.values[p].StringValue? {
        LtIsPrecedes(row.values[p].s, s);
        LtIsPrecedes(s, row.values[p].s);
      }
    }
    TestedColumn(rows, e, schema, set row | row in rows && row.values[p].IntValue?, set row | row in rows && StringTest(row.values[p], op, s));
  }

  lemma ColumnValue(row: Row, table: Text, name: Text, p: nat, schema: Schema)
    requires ColumnAt(schema, name, p) && p < |row.values|
    ensures EvalValue(Identifier(table, name), row, schema) == Value(row.values[p])
  {}

  lemma {:induction false} TestedColumn(rows: seq<Row>, e: Expr, schema: Schema, panics: set<Row>, keep: set<Row>)
    requires forall row | row in rows :: EvalCond(e, row, schema) == if row in panics then Panic else Value(row in keep)
    ensures FilterRows(rows, e, schema) == if exists row | row in rows :: row in panics then Panic else Value(Those(rows, keep))
  {
    hide EvalCond;
    if rows != [] {
      var rest := rows[1..];
      assert rows == [rows[0]] + rest && rows[0] in rows;
      TestedColumn(rest, e, schema, panics, keep);
      if rows[0] !in panics {
        assert (exists row | row in rows :: row in panics) <==> (exists row | row in rest :: row in panics);
        Decided(EvalCond(e, rows[0], schema));
        assert FilterRows(rows, e, schema) == if rows[0] in keep then Prepend(rows[0], FilterRows(rest, e, schema)) else FilterRows(rest, e, schema);
        assert [] + Those(rest, keep) == Those(rest, keep);
      }
    }
  }

  /** IS NULL keeps exactly the rows with NULL in the column, IS NOT NULL the others. */
  lemma NullColumn(rows: seq<Row>, table: Text, name: Text, p: nat, schema: Schema)
    requires ColumnAt(schema, name, p) && Have(rows, p)
    ensures FilterRows(rows, IsNull(Identifier(table, name)), schema) == Value(Those(rows, set row | row in rows && row.values[p] == NullValue))
    ensures FilterRows(rows, IsNotNull(Identifier(table, name)), schema) == Value(Those(rows, set row | row in rows && row.values[p] != NullValue))
  {
    hide Those, FilterRows;
    forall row | row in rows ensures EvalValue(Identifier(table, name), row, schema) == Value(row.values[p]) { ColumnValue(row, table, name, p, schema); }
    TestedColumn(rows, IsNull(Identifier(table, name)), schema, {}, set row | row in rows && row.values[p] == NullValue);
    TestedColumn(rows, IsNotNull(Identifier(table, name)), schema, {}, set row | row in rows && row.values[p] != NullValue);
  }

  /** A truth value or NULL in the column is equal to every literal: `flag = FALSE` keeps all rows, `flag != TRUE` none. */
  lemma EqualToAll(rows: seq<Row>, table: Text, name: Text, p: nat, op: Operator, lit: Expr, schema: Schema)
    requires ColumnAt(schema, name, p) && Have(rows, p) && op != OpAND && op != OpOR
    requires forall row | row in rows :: row.values[p].BoolValue? || row.values[p].NullValue?
    requires lit.IntLiteral? || lit.StringLiteral? || lit.BoolLiteral? || lit.NullLiteral?
    ensures FilterRows(rows, Binary(Identifier(table, name), op, lit), schema) == Value(if op in {OpEQ, OpLTE, OpGTE} then rows else [])
  {
    hide FilterRows;
    forall row | row in rows ensures EvalValue(Identifier(table, name), row, schema) == Value(row.values[p]) { ColumnValue(row, table, name, p, schema); }
    TestedColumn(rows, Binary(Identifier(table, name), op, lit), schema, {}, if op in {OpEQ, OpLTE, OpGTE} then Among(rows) else {});
    AllOrNone(rows, Among(rows));
  }

  lemma {:induction false} AllOrNone(rows: seq<Row>, all: set<Row>)
    requires forall row | row in rows :: row in all
    ensures Those(rows, all) == rows && Those(rows, {}) == []
  {
    if rows != [] {
      AllOrNone(rows[1..], all);
      assert rows == [rows[0]] + rows[1..];
      var none: set<Row> := {};
      assert rows[0] !in none && Those(rows, none) == [] + Those(rows[1..], none);
    }
  }

  /** With the integer on the left any other kind of value in the column panics, NULL included. */
  lemma IntBeforeColumn(rows: seq<Row>, table: Text, name: Text, p: nat, op: Operator, i: int, schema: Schema)
    requires ColumnAt(schema, name, p) && Have(rows, p) && op != OpAND && op != OpOR
    ensures FilterRows(rows, Binary(IntLiteral(i), op, Identifier(table, name)), schema) ==
            if exists row | row in rows :: !row.values[p].IntValue? then Panic
            else Value(Those(rows, set row | row in rows && IntTest(IntValue(i), op, row.values[p].i)))
  {
    hide Those, FilterRows;
    var e := Binary(IntLiteral(i), op, Identifier(table, name));
    forall row | row in rows
      ensures EvalCond(e, row, schema) == if !row.values[p].IntValue? then Panic else Value(IntTest(IntValue(i), op, row.values[p].i))
    {
      ColumnValue(row, table, name, p, schema);
    }
    TestedColumn(rows, e, schema, set row | row in rows && !row.values[p].IntValue?,
                 set row | row in rows && row.values[p].IntValue? && IntTest(IntValue(i), op, row.values[p].i));
    if forall row | row in rows :: row.values[p].IntValue? {
      ThoseAlike(rows, set row | row in rows && row.values[p].IntValue? && IntTest(IntValue(i), op, row.values[p].i),
                 set row | row in rows && IntTest(IntValue(i), op, row.values[p].i));
    }
  }

  /** Errors, unless there are no rows: a column that does not exist, and an expression that is no condition. */
  lemma NoSuchCondition(rows: seq<Row>, table: Text, name: Text, op: Operator, r: Expr, e: Expr, schema: Schema)
    requires rows != [] && op != OpAND && op != OpOR && forall i | 0 <= i < |schema.columns| :: schema.columns[i].name != name
    ensures FilterRows(rows, Binary(Identifier(table, name), op, r), schema) == Error
    ensures FilterRows(rows, IsNull(Identifier(table, name)), schema) == FilterRows(rows, IsNotNull(Identifier(table, name)), schema) == Error
    ensures !e.Binary? && !e.Not? && !e.IsNull? && !e.IsNotNull? ==> FilterRows(rows, e, schema) == Error
  {
    assert EvalValue(Identifier(table, name), rows[0], schema) == Error;
    assert EvalBinary(Identifier(table, name), op, r, rows[0], schema) == Error;
  }

  /** A row without a value for the column ends the process. */
  lemma ShortRow(rows: seq<Row>, table: Text, name: Text, p: nat, op: Operator, r: Expr, schema: Schema)
    requires rows != [] && op != OpAND && op != OpOR && ColumnAt(schema, name, p) && |rows[0].values| <= p
    ensures FilterRows(rows, Binary(Identifier(table, name), op, r), schema) == Panic
    ensures FilterRows(rows, IsNull(Identifier(table, name)), schema) == FilterRows(rows, IsNotNull(Identifier(table, name)), schema) == Panic
  {
    assert EvalValue(Identifier(table, name), rows[0], schema) == Panic;
    assert EvalBinary(Identifier(table, name), op, r, rows[0], schema) == Panic;
  }
}
