/**
  The grammar of expressions in terms of tokens, and that the parser follows it exactly: which operator takes
  which operands, and where IS NULL ends an operand (sql/parser/parser.go).
 */
module Grammar {
  import opened Types
  import opened Syntax
  import opened Parser

  predicate Compares(k: TokenType) { k in {EQ, NEQ, LT, GT, LTE, GTE} }

  /** Where an expression stands: by itself or in parentheses, or to the right of an operator. */
  datatype Place = Whole | RightOf(kind: TokenType)

  /** The operators that an expression in this place takes in, each with an operand on its right. */
  predicate Takes(at: Place, k: TokenType) {
    match at
    case Whole => k == OR || k == AND || Compares(k)
    case RightOf(OR) => k == AND || Compares(k)
    case RightOf(AND) => Compares(k)
    case RightOf(NOT) => Compares(k)
    case RightOf(_) => false
  }

  /** The operator that a token stands for. */
  predicate Stands(k: TokenType, op: Operator) {
    match op
    case OpEQ => k == EQ
    case OpNEQ => k == NEQ
    case OpLT => k == LT
    case OpGT => k == GT
    case OpLTE => k == LTE
    case OpGTE => k == GTE
    case OpAND => k == AND
    case OpOR => k == OR
  }

  // ---- The grammar: the tokens `ts`, before a token of the kind `next`, stand for the expression ----

  /** A literal or a name. */
  predicate Atom(ts: seq<Token>, e: Expr, next: TokenType) {
    match e
    case IntLiteral(i) => |ts| == 1 && ts[0].kind == INT_LIT && i == ParseInt(ts[0].literal)
    case StringLiteral(s) => |ts| == 1 && ts[0].kind == STR_LIT && s == ts[0].literal
    case BoolLiteral(b) => |ts| == 1 && ts[0].kind == if b then TRUE else FALSE
    case NullLiteral => |ts| == 1 && ts[0].kind == NULL
    case Wildcard => |ts| == 1 && ts[0].kind == ASTERISK
    case Identifier(table, column) =>
      || (|ts| == 1 && ts[0].kind == IDENT && table == [] && column == ts[0].literal && next != DOT)
      || (|ts| == 3 && ts[0].kind == IDENT && ts[1].kind == DOT && ts[2].kind == IDENT && table == ts[0].literal && column == ts[2].literal)
    case _ => false
  }

  /** An expression in parentheses. */
  ghost predicate Group(ts: seq<Token>, e: Expr)
    decreases |ts|, 0
  {
    var n := |ts| - 1;
    n > 0 && ts[0].kind == LPAREN && ts[n].kind == RPAREN && Derives(Whole, ts[1..n], e, RPAREN)
  }

  /** An atom, a group, or NOT with all that follows and NOT takes in. */
  ghost predicate Operand(ts: seq<Token>, e: Expr, next: TokenType)
    decreases |ts|, 1
  {
    || (ts != [] && ts[0].kind == NOT && e.Not? && Derives(RightOf(NOT), ts[1..], e.operand, next))
    || Atom(ts, e, next) || Group(ts, e)
  }

  /** A first operand and then, from left to right, operators that this place takes in with what is right of them. */
  ghost predicate Chain(at: Place, ts: seq<Token>, e: Expr, next: TokenType)
    decreases |ts|, 2
  {
    || (Operand(ts, e, next) && next != IS)
    || (e.Binary? && exists k | 0 <= k < |ts| ::
          && Takes(at, ts[k].kind) && Stands(ts[k].kind, e.op)
          && Chain(at, ts[..k], e.left, ts[k].kind) && Derives(RightOf(ts[k].kind), ts[k + 1..], e.right, next))
  }

  /** IS NULL or IS NOT NULL behind a first operand. */
  ghost predicate Test(ts: seq<Token>, e: Expr)
    decreases |ts|, 2
  {
    var n := |ts|;
    || (e.IsNull? && n > 2 && ts[n - 2].kind == IS && ts[n - 1].kind == NULL && Operand(ts[..n - 2], e.operand, IS))
    || (e.IsNotNull? && n > 3 && ts[n - 3].kind == IS && ts[n - 2].kind == NOT && ts[n - 1].kind == NULL && Operand(ts[..n - 3], e.operand, IS))
  }

  /** A test ends the expression at once; otherwise it takes in all that it can. */
  ghost predicate Derives(at: Place, ts: seq<Token>, e: Expr, next: TokenType)
    decreases |ts|, 3
  {
    Test(ts, e) || (Chain(at, ts, e, next) && !Takes(at, next))
  }

  // ---- The parser's precedences order the places ----

  function MinPrec(at: Place): Precedence {
    match at
    case Whole => LOWEST
    case RightOf(OR) => PREC_OR
    case RightOf(AND) => PREC_AND
    case RightOf(NOT) => PREC_NOT
    case RightOf(_) => PREC_COMPARE
  }

  lemma TakesTighter(at: Place, k: TokenType)
    ensures Takes(at, k) <==> TokenPrec(k) > MinPrec(at)
    ensures Takes(at, k) ==> Takes(Whole, k)
    ensures Takes(Whole, k) ==> MinPrec(RightOf(k)) == TokenPrec(k) && (forall op :: Stands(k, op) <==> op == TokenToOp(k))
  {}

  // ---- What the parser accepts, the grammar derives ----

  /** The first tokens have been read, and these are left. */
  predicate Splits(toks: seq<Token>, n: nat, rest: seq<Token>) {
    n <= |toks| && rest == toks[n..]
  }

  lemma PrimarySound(toks: seq<Token>) returns (n: nat)
    requires ParsePrimary(toks).errs == []
    ensures var r := ParsePrimary(toks); 0 < n && Splits(toks, n, r.rest) && (Atom(toks[..n], r.expr, Head(r.rest).kind) || Group(toks[..n], r.expr))
    decreases |toks|, 0
  {
    hide ParsePrimary, Atom, Group, Derives;
    var r := ParsePrimary(toks);
    n := |toks| - |r.rest|;
    if Head(toks).kind == LPAREN {
      GroupNext(toks);
      var m := Sound(toks[1..], Whole);
      assert toks[1..][m..] == toks[m + 1..];
      GroupRead(toks, m, r.expr);
    } else {
      AtomRead(toks);
    }
  }

  lemma GroupNext(toks: seq<Token>)
    requires Head(toks).kind == LPAREN && ParsePrimary(toks).errs == []
    ensures var inner := ParseExpr(toks[1..], LOWEST);
            && inner.errs == [] && Head(inner.rest).kind == RPAREN && ParsePrimary(toks) == Result(inner.expr, inner.rest[1..], [])
  {
    hide ParseExpr;
  }

  lemma GroupRead(toks: seq<Token>, m: nat, e: Expr)
    requires 0 < m && m + 1 < |toks| && toks[0].kind == LPAREN && toks[m + 1].kind == RPAREN && Derives(Whole, toks[1..][..m], e, RPAREN)
    ensures Group(toks[..m + 2], e)
  {
    hide Derives;
    assert toks[..m + 2][1..m + 1] == toks[1..][..m];
  }

  lemma AtomRead(toks: seq<Token>)
    requires Head(toks).kind != LPAREN && ParsePrimary(toks).errs == []
    ensures var r := ParsePrimary(toks);
            var n := |toks| - |r.rest|;
            0 < n && Splits(toks, n, r.rest) && Atom(toks[..n], r.expr, Head(r.rest).kind)
  {
    hide ParsePrimary, ParseName, Atom;
    if Head(toks).kind == IDENT {
      IdentPrimary(toks);
      NameRead(toks);
    } else {
      LiteralRead(toks);
    }
  }

  lemma IdentPrimary(toks: seq<Token>)
    requires Head(toks).kind == IDENT
    ensures toks != [] && ParsePrimary(toks) == ParseName(toks[0].literal, toks[1..])
  {
    hide ParseExpr, ParseName;
  }

  lemma LiteralRead(toks: seq<Token>)
    requires Head(toks).kind !in {LPAREN, IDENT} && ParsePrimary(toks).errs == []
    ensures var r := ParsePrimary(toks);
            toks != [] && r.rest == toks[1..] && Splits(toks, 1, r.rest) && Atom(toks[..1], r.expr, Head(r.rest).kind)
  {
    hide ParseInt, ParseExpr, ParseName;
    if toks != [] { assert toks[..1][0] == toks[0]; }
  }

  lemma NameRead(toks: seq<Token>)
    requires Head(toks).kind == IDENT && ParseName(toks[0].literal, toks[1..]).errs == []
    ensures var r := ParseName(toks[0].literal, toks[1..]);
            var n := |toks| - |r.rest|;
            0 < n && Splits(toks, n, r.rest) && Atom(toks[..n], r.expr, Head(r.rest).kind)
  {
    if Head(toks[1..]).kind == DOT {
      assert toks[1] == toks[1..][0] && toks[1..][1..] == toks[2..];
      assert Head(toks[2..]).kind == IDENT;
      assert toks[2] == toks[2..][0] && toks[2..][1..] == toks[3..];
    }
  }

  lemma PrefixSound(toks: seq<Token>) returns (n: nat)
    requires ParsePrefix(toks).errs == []
    ensures var r := ParsePrefix(toks); 0 < n && Splits(toks, n, r.rest) && Operand(toks[..n], r.expr, Head(r.rest).kind)
    decreases |toks|, 1
  {
    hide ParsePrimary, ParseExpr, Atom, Group, Derives;
    if Head(toks).kind == NOT {
      var m := Sound(toks[1..], RightOf(NOT));
      n := m + 1;
      assert toks[..n][1..] == toks[1..][..m];
    } else {
      n := PrimarySound(toks);
    }
  }

  /** In every place: what is read is derived there, and the next token is one that it does not take in. */
  lemma Sound(toks: seq<Token>, at: Place) returns (n: nat)
    requires ParseExpr(toks, MinPrec(at)).errs == []
    ensures var r := ParseExpr(toks, MinPrec(at)); 0 < n && Splits(toks, n, r.rest) && Derives(at, toks[..n], r.expr, Head(r.rest).kind)
    decreases |toks|, 3
  {
    hide ParsePrefix, ParseLoop, Operand, Chain, MinPrec;
    var l := ParsePrefix(toks);
    var m := PrefixSound(toks);
    if Head(l.rest).kind == IS {
      n := TestSound(toks, m, l.expr);
    } else {
      assert Chain(at, toks[..m], l.expr, Head(l.rest).kind) by { FirstOperand(at, toks[..m], l.expr, Head(l.rest).kind); }
      var k := LoopSound(toks, m, l.expr, at);
      n := k;
    }
  }

  lemma FirstOperand(at: Place, ts: seq<Token>, e: Expr, next: TokenType)
    requires Operand(ts, e, next) && next != IS
    ensures Chain(at, ts, e, next)
  {}

  lemma TestSound(toks: seq<Token>, m: nat, left: Expr) returns (n: nat)
    requires m < |toks| && 0 < m && toks[m].kind == IS && Operand(toks[..m], left, IS) && ParseTest(left, toks[m + 1..]).errs == []
    ensures var r := ParseTest(left, toks[m + 1..]); m < n && Splits(toks, n, r.rest) && Test(toks[..n], r.expr)
  {
    hide Operand, ParseTest;
    var r := ParseTest(left, toks[m + 1..]);
    n := |toks| - |r.rest|;
    TestTokens(toks, m, left);
    assert toks[..n][..m] == toks[..m];
  }

  lemma TestTokens(toks: seq<Token>, m: nat, left: Expr)
    requires m < |toks| && ParseTest(left, toks[m + 1..]).errs == []
    ensures var r := ParseTest(left, toks[m + 1..]);
            || (m + 1 < |toks| && toks[m + 1].kind == NULL && r == Result(IsNull(left), toks[m + 2..], []))
            || (m + 2 < |toks| && toks[m + 1].kind == NOT && toks[m + 2].kind == NULL && r == Result(IsNotNull(left), toks[m + 3..], []))
  {
    var next := toks[m + 1..];
    if next != [] {
      assert next[0] == toks[m + 1] && next[1..] == toks[m + 2..];
      if |next| > 1 { assert toks[m + 2..][0] == toks[m + 2] && toks[m + 2..][1..] == toks[m + 3..]; }
    }
  }

  /** The loop: an operator that is taken in joins what has been read with what is right of it. */
  lemma LoopSound(toks: seq<Token>, m: nat, left: Expr, at: Place) returns (n: nat)
    requires m <= |toks| && Chain(at, toks[..m], left, Head(toks[m..]).kind)
    requires ParseLoop(left, toks[m..], MinPrec(at)).errs == []
    ensures var r := ParseLoop(left, toks[m..], MinPrec(at));
            && m <= n && Splits(toks, n, r.rest)
            && Chain(at, toks[..n], r.expr, Head(r.rest).kind) && !Takes(at, Head(r.rest).kind)
    decreases |toks| - m, 2
  {
    hide ParseExpr, ParseLoop, Chain, MinPrec, Derives, TokenPrec, TokenToOp, Stands, Takes;
    var tok := Head(toks[m..]);
    TakesTighter(at, tok.kind);
    LoopNext(left, toks[m..], MinPrec(at));
    if !Takes(at, tok.kind) {
      n := m;
    } else {
      assert toks[m..][1..] == toks[m + 1..];
      var right := ParseExpr(toks[m + 1..], TokenPrec(tok.kind));
      var k := Sound(toks[m + 1..], RightOf(tok.kind));
      var e := Binary(left, TokenToOp(tok.kind), right.expr);
      Longer(at, toks, m, m + 1 + k, e, Head(right.rest).kind);
      assert toks[m + 1..][k..] == toks[m + 1 + k..];
      n := LoopSound(toks, m + 1 + k, e, at);
    }
  }

  /** One turn of the loop, when there is no error. */
  lemma LoopNext(left: Expr, toks: seq<Token>, minPrec: Precedence)
    requires ParseLoop(left, toks, minPrec).errs == []
    ensures var k := Head(toks).kind;
            if TokenPrec(k) <= minPrec then ParseLoop(left, toks, minPrec) == Result(left, toks, [])
            else
              && toks != [] && ParseExpr(toks[1..], TokenPrec(k)).errs == []
              && var right := ParseExpr(toks[1..], TokenPrec(k));
                 ParseLoop(left, toks, minPrec) == ParseLoop(Binary(left, TokenToOp(k), right.expr), right.rest, minPrec)
  {
    hide ParseExpr, TokenToOp;
  }

  lemma Longer(at: Place, toks: seq<Token>, m: nat, n: nat, e: Expr, next: TokenType)
    requires m < n <= |toks| && e.Binary? && Takes(at, toks[m].kind) && Stands(toks[m].kind, e.op)
    requires Chain(at, toks[..m], e.left, toks[m].kind) && Derives(RightOf(toks[m].kind), toks[m + 1..][..n - m - 1], e.right, next)
    ensures Chain(at, toks[..n], e, next)
  {
    hide Chain, Derives;
    var ts := toks[..n];
    assert ts[..m] == toks[..m] && ts[m + 1..] == toks[m + 1..][..n - m - 1] && ts[m] == toks[m];
    OneMore(at, ts, m, e, next);
  }

  lemma OneMore(at: Place, ts: seq<Token>, k: nat, e: Expr, next: TokenType)
    requires k < |ts| && e.Binary? && Takes(at, ts[k].kind) && Stands(ts[k].kind, e.op)
    requires Chain(at, ts[..k], e.left, ts[k].kind) && Derives(RightOf(ts[k].kind), ts[k + 1..], e.right, next)
    ensures Chain(at, ts, e, next)
  {
    hide Operand, Derives;
  }

  // ---- What the grammar derives, the parser accepts ----

  lemma AtomParses(ts: seq<Token>, e: Expr, rest: seq<Token>)
    requires Atom(ts, e, Head(rest).kind)
    ensures ts != [] && ParsePrefix(ts + rest) == Result(e, rest, [])
  {
    hide ParseInt, ParseExpr, ParseLoop;
    var toks := ts + rest;
    assert toks[0] == ts[0] && toks[|ts|..] == rest;
    if |ts| == 3 { assert toks[1..][0] == ts[1] && toks[1..][1..][0] == ts[2] && toks[1..][1..][1..] == rest; }
  }

  lemma {:induction false} OperandParses(ts: seq<Token>, e: Expr, rest: seq<Token>)
    requires Operand(ts, e, Head(rest).kind)
    ensures ts != [] && ParsePrefix(ts + rest) == Result(e, rest, [])
    decreases |ts|, 1
  {
    hide ParseExpr, ParseLoop, Derives, Atom, ParsePrimary;
    if Atom(ts, e, Head(rest).kind) {
      AtomParses(ts, e, rest);
    } else if Group(ts, e) {
      var n := |ts| - 1;
      var close := [ts[n]] + rest;
      Complete(Whole, ts[1..n], e, close);
      assert ts + rest == [ts[0]] + (ts[1..n] + close);
      GroupParses(ts[0], ts[1..n] + close, e, rest);
    } else {
      Complete(RightOf(NOT), ts[1..], e.operand, rest);
      assert (ts + rest)[1..] == ts[1..] + rest;
    }
  }

  lemma GroupParses(open: Token, inner: seq<Token>, e: Expr, rest: seq<Token>)
    requires open.kind == LPAREN && ParseExpr(inner, LOWEST).expr == e && ParseExpr(inner, LOWEST).errs == []
    requires var left := ParseExpr(inner, LOWEST).rest; left != [] && left[0].kind == RPAREN && left[1..] == rest
    ensures ParsePrefix([open] + inner) == Result(e, rest, [])
  {
    hide ParseExpr;
    Prepend(open, inner);
  }

  /** After a chain the parser goes on as after a left operand. */
  lemma {:induction false} ChainParses(at: Place, ts: seq<Token>, e: Expr, rest: seq<Token>)
    requires Chain(at, ts, e, Head(rest).kind)
    ensures ParseExpr(ts + rest, MinPrec(at)) == ParseLoop(e, rest, MinPrec(at))
    decreases |ts|, 2
  {
    hide ParseExpr, ParsePrefix, ParseLoop, Operand, Derives, MinPrec, Chain;
    var k := ChainCase(at, ts, e, Head(rest).kind);
    if k == |ts| {
      OperandParses(ts, e, rest);
      OperandThenLoop(ts + rest, e, rest, MinPrec(at));
    } else {
      var more := ts[k + 1..] + rest;
      assert ts + rest == ts[..k] + ([ts[k]] + more);
      ChainParses(at, ts[..k], e.left, [ts[k]] + more);
      Complete(RightOf(ts[k].kind), ts[k + 1..], e.right, rest);
      TakesTighter(at, ts[k].kind);
      LoopOnce(e, ts[k], more, rest, MinPrec(at));
    }
  }

  /** The position of the last operator of a chain, or its length if it is an operand. */
  lemma ChainCase(at: Place, ts: seq<Token>, e: Expr, next: TokenType) returns (k: nat)
    requires Chain(at, ts, e, next)
    ensures k <= |ts| && (k == |ts| ==> Operand(ts, e, next) && next != IS)
    ensures k < |ts| ==>
              && e.Binary? && Takes(at, ts[k].kind) && Stands(ts[k].kind, e.op)
              && Chain(at, ts[..k], e.left, ts[k].kind) && Derives(RightOf(ts[k].kind), ts[k + 1..], e.right, next)
  {
    hide Operand, Derives;
    if Operand(ts, e, next) && next != IS { k := |ts|; } else {
      k :| 0 <= k < |ts| && Takes(at, ts[k].kind) && Stands(ts[k].kind, e.op)
           && Chain(at, ts[..k], e.left, ts[k].kind) && Derives(RightOf(ts[k].kind), ts[k + 1..], e.right, next);
    }
  }

  lemma OperandThenLoop(toks: seq<Token>, l: Expr, rest: seq<Token>, minPrec: Precedence)
    requires ParsePrefix(toks) == Result(l, rest, []) && Head(rest).kind != IS
    ensures ParseExpr(toks, minPrec) == ParseLoop(l, rest, minPrec)
  {
    hide ParsePrefix, ParseLoop;
  }

  lemma LoopOnce(e: Expr, tok: Token, more: seq<Token>, rest: seq<Token>, minPrec: Precedence)
    requires e.Binary? && TokenPrec(tok.kind) > minPrec && TokenToOp(tok.kind) == e.op
    requires ParseExpr(more, TokenPrec(tok.kind)) == Result(e.right, rest, [])
    ensures ParseLoop(e.left, [tok] + more, minPrec) == ParseLoop(e, rest, minPrec)
  {
    hide ParseExpr, TokenPrec, TokenToOp;
    Prepend(tok, more);
  }

  lemma {:induction false} TestParses(ts: seq<Token>, e: Expr, rest: seq<Token>, minPrec: Precedence)
    requires Test(ts, e)
    ensures ParseExpr(ts + rest, minPrec) == Result(e, rest, [])
    decreases |ts|, 2
  {
    hide Operand, ParsePrefix, ParseLoop;
    var m := if e.IsNull? then |ts| - 2 else |ts| - 3;
    var tail := ts[m + 1..] + rest;
    OperandParses(ts[..m], e.operand, [ts[m]] + tail);
    assert ts + rest == ts[..m] + ([ts[m]] + tail);
    Prepend(ts[m], tail);
    if e.IsNotNull? {
      assert tail == [ts[m + 1]] + ([ts[m + 2]] + rest);
      Prepend(ts[m + 1], [ts[m + 2]] + rest);
    } else {
      assert tail == [ts[m + 1]] + rest;
    }
    Prepend(ts[|ts| - 1], rest);
  }

  lemma {:induction false} Complete(at: Place, ts: seq<Token>, e: Expr, rest: seq<Token>)
    requires Derives(at, ts, e, Head(rest).kind)
    ensures ParseExpr(ts + rest, MinPrec(at)) == Result(e, rest, [])
    decreases |ts|, 3
  {
    hide Test, Chain, ParseExpr;
    if Test(ts, e) { TestParses(ts, e, rest, MinPrec(at)); } else {
      ChainParses(at, ts, e, rest);
      TakesTighter(at, Head(rest).kind);
    }
  }

  /**
    The parser accepts exactly the grammar: tokens are read as an expression, with no error and nothing but these
    read, if and only if the grammar derives it from them before what comes next.
   */
  lemma ParsedIffDerived(ts: seq<Token>, rest: seq<Token>, e: Expr)
    ensures ParseExpr(ts + rest, LOWEST) == Result(e, rest, []) <==> Derives(Whole, ts, e, Head(rest).kind)
  {
    hide ParseExpr, Derives;
    if ParseExpr(ts + rest, LOWEST) == Result(e, rest, []) {
      var n := Sound(ts + rest, Whole);
      assert n == |ts| && (ts + rest)[..n] == ts;
    }
    if Derives(Whole, ts, e, Head(rest).kind) { Complete(Whole, ts, e, rest); }
  }

  /** A text stands for at most one expression. */
  lemma OneReading(ts: seq<Token>, rest: seq<Token>, e: Expr, f: Expr)
    requires Derives(Whole, ts, e, Head(rest).kind) && Derives(Whole, ts, f, Head(rest).kind)
    ensures e == f
  {
    hide Derives;
    ParsedIffDerived(ts, rest, e);
    ParsedIffDerived(ts, rest, f);
  }
}
