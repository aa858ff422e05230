/** The Pratt expression parser (sql/parser/parser.go). */
module Parser {
  import opened Types
  import opened Syntax

  type Precedence = nat

  const LOWEST: Precedence := 0
  const PREC_OR: Precedence := 1
  const PREC_AND: Precedence := 2
  const PREC_NOT: Precedence := 3
  const PREC_COMPARE: Precedence := 4

  function TokenPrec(tt: TokenType): Precedence {
    match tt
    case OR => PREC_OR
    case AND => PREC_AND
    case EQ | NEQ | LT | GT | LTE | GTE => PREC_COMPARE
    case _ => LOWEST
  }

  function TokenToOp(tt: TokenType): Operator {
    match tt
    case EQ => OpEQ
    case NEQ => OpNEQ
    case LT => OpLT
    case GT => OpGT
    case LTE => OpLTE
    case GTE => OpGTE
    case AND => OpAND
    case OR => OpOR
    case _ => OpEQ
  }

  datatype ErrorKind = UnexpectedToken | MissingToken

  datatype ParseError = ParseError(kind: ErrorKind, tok: Token)

  function Symbol(kind: TokenType): Token { Token(kind, []) }

  const END := Symbol(EOF)

  // ---- What the parser computes: an expression, the tokens left, and the errors recorded ----

  datatype Result = Result(expr: Expr, rest: seq<Token>, errs: seq<ParseError>)

  function Head(toks: seq<Token>): Token {
    if toks == [] then END else toks[0]
  }

  function Tail(toks: seq<Token>): seq<Token> {
    if toks == [] then [] else toks[1..]
  }

  /** Expect: the tokens left, and the error if the token is not the next one. */
  function Expect(toks: seq<Token>, tt: TokenType): (seq<Token>, seq<ParseError>) {
    if Head(toks).kind == tt then (Tail(toks), []) else (toks, [ParseError(MissingToken, Head(toks))])
  }

  function ParsePrimary(toks: seq<Token>): (r: Result)
    ensures |r.rest| <= |toks| && (toks != [] ==> |r.rest| < |toks|)
    decreases |toks|, 0
  {
    var tok, rest := Head(toks), Tail(toks);
    match tok.kind
    case INT_LIT => Result(IntLiteral(ParseInt(tok.literal)), rest, [])
    case STR_LIT => Result(StringLiteral(tok.literal), rest, [])
    case TRUE => Result(BoolLiteral(true), rest, [])
    case FALSE => Result(BoolLiteral(false), rest, [])
    case NULL => Result(NullLiteral, rest, [])
    case ASTERISK => Result(Wildcard, rest, [])
    case IDENT => ParseName(tok.literal, rest)
    case LPAREN =>
      var inner := ParseExpr(rest, LOWEST);
      var (left, errs) := Expect(inner.rest, RPAREN);
      Result(inner.expr, left, inner.errs + errs)
    case _ => Result(NullLiteral, rest, [ParseError(UnexpectedToken, tok)])
  }

  /** What follows an identifier: possibly a dot and a column. */
  function ParseName(name: Text, toks: seq<Token>): (r: Result)
    ensures |r.rest| <= |toks|
  {
    if Head(toks).kind != DOT then Result(Identifier([], name), toks, [])
    else
      var rest := Tail(toks);
      if Head(rest).kind == IDENT then Result(Identifier(name, Head(rest).literal), Tail(rest), [])
      else Result(Identifier(name, []), rest, [ParseError(UnexpectedToken, Head(rest))])
  }

  function ParsePrefix(toks: seq<Token>): (r: Result)
    ensures |r.rest| <= |toks| && (toks != [] ==> |r.rest| < |toks|)
    decreases |toks|, 1
  {
    if Head(toks).kind == NOT then
      var r := ParseExpr(Tail(toks), PREC_NOT);
      r.(expr := Not(r.expr))
    else ParsePrimary(toks)
  }

  function ParseExpr(toks: seq<Token>, minPrec: Precedence): (r: Result)
    ensures |r.rest| <= |toks| && (toks != [] ==> |r.rest| < |toks|)
    decreases |toks|, 3
  {
    var l := ParsePrefix(toks);
    var r := if Head(l.rest).kind == IS then ParseTest(l.expr, Tail(l.rest)) else ParseLoop(l.expr, l.rest, minPrec);
    r.(errs := l.errs + r.errs)
  }

  /** What follows IS. */
  function ParseTest(left: Expr, toks: seq<Token>): (r: Result)
    ensures |r.rest| <= |toks|
  {
    if Head(toks).kind == NOT then
      var (rest, errs) := Expect(Tail(toks), NULL);
      Result(IsNotNull(left), rest, errs)
    else
      var (rest, errs) := Expect(toks, NULL);
      Result(IsNull(left), rest, errs)
  }

  /** The binary operators that follow a left operand and bind tighter than `minPrec`. */
  function ParseLoop(left: Expr, toks: seq<Token>, minPrec: Precedence): (r: Result)
    ensures |r.rest| <= |toks|
    decreases |toks|, 2
  {
    var tok := Head(toks);
    if TokenPrec(tok.kind) <= minPrec then Result(left, toks, [])
    else
      var right := ParseExpr(Tail(toks), TokenPrec(tok.kind));
      var r := ParseLoop(Binary(left, TokenToOp(tok.kind), right.expr), right.rest, minPrec);
      r.(errs := right.errs + r.errs)
  }

  // ---- The code ----

  class Parser {
    const tokens: seq<Token>
    var pos: nat
    var errors: seq<ParseError>

    constructor (tokens: seq<Token>)
      ensures this.tokens == tokens && pos == 0 && errors == []
    {
      this.tokens, pos, errors := tokens, 0, [];
    }

    ghost predicate Valid()
      reads this
    {
      pos <= |tokens|
    }

    ghost function Ahead(): seq<Token>
      requires Valid()
      reads this
    {
      tokens[pos..]
    }

    /** The expression parsed, with the tokens still ahead and all errors so far. */
    ghost function Now(e: Expr): Result
      requires Valid()
      reads this
    {
      Result(e, Ahead(), errors)
    }

    function Cur(): Token
      requires Valid()
      reads this
      ensures Cur() == Head(Ahead())
    {
      if pos >= |tokens| then END else tokens[pos]
    }

    method Advance()
      requires Valid()
      modifies this
      ensures Valid() && Ahead() == Tail(old(Ahead())) && errors == old(errors)
    {
      if pos < |tokens| { pos := pos + 1; }
    }

    method AddError(kind: ErrorKind, tok: Token)
      modifies this
      ensures pos == old(pos) && errors == old(errors) + [ParseError(kind, tok)]
    {
      errors := errors + [ParseError(kind, tok)];
    }

    method ExpectToken(tt: TokenType) returns (ok: bool)
      requires Valid()
      modifies this
      ensures Valid() && ok == (old(Cur()).kind == tt)
      ensures Ahead() == Expect(old(Ahead()), tt).0 && errors == old(errors) + Expect(old(Ahead()), tt).1
    {
      if Cur().kind == tt {
        Advance();
        return true;
      }
      AddError(MissingToken, Cur());
      return false;
    }

    method ExpectIdent() returns (name: Text)
      requires Valid()
      modifies this
      ensures Valid()
      ensures old(Cur()).kind == IDENT ==>
                name == old(Cur()).literal && Ahead() == Tail(old(Ahead())) && errors == old(errors)
      ensures old(Cur()).kind != IDENT ==>
                name == [] && pos == old(pos) && errors == old(errors) + [ParseError(UnexpectedToken, old(Cur()))]
    {
      var tok := Cur();
      if tok.kind != IDENT {
        AddError(UnexpectedToken, tok);
        return [];
      }
      Advance();
      return tok.literal;
    }

    method Primary() returns (e: Expr)
      requires Valid()
      modifies this
      ensures Valid() && Now(e) == Since(old(errors), ParsePrimary(old(Ahead())))
      decreases |tokens| - pos, 0
    {
      hide ParseExpr, ParsePrefix, ParseLoop, ParseInt, ParseName;
      var tok := Cur();
      match tok.kind
      case INT_LIT =>
        Advance();
        e := IntLiteral(ParseInt(tok.literal));
      case STR_LIT =>
        Advance();
        e := StringLiteral(tok.literal);
      case TRUE =>
        Advance();
        e := BoolLiteral(true);
      case FALSE =>
        Advance();
        e := BoolLiteral(false);
      case NULL =>
        Advance();
        e := NullLiteral;
      case ASTERISK =>
        Advance();
        e := Wildcard;
      case IDENT =>
        Advance();
        e := Name(tok.literal);
      case LPAREN =>
        Advance();
        e := Expression(LOWEST);
        var ok := ExpectToken(RPAREN);
      case _ =>
        AddError(UnexpectedToken, tok);
        Advance();
        e := NullLiteral;
    }

    method Name(name: Text) returns (e: Expr)
      requires Valid()
      modifies this
      ensures Valid() && Now(e) == Since(old(errors), ParseName(name, old(Ahead())))
    {
      if Cur().kind == DOT {
        Advance();
        var column := ExpectIdent();
        e := Identifier(name, column);
      } else {
        e := Identifier([], name);
      }
    }

    method Prefix() returns (e: Expr)
      requires Valid()
      modifies this
      ensures Valid() && Now(e) == Since(old(errors), ParsePrefix(old(Ahead())))
      decreases |tokens| - pos, 1
    {
      if Cur().kind == NOT {
        Advance();
        var operand := Expression(PREC_NOT);
        e := Not(operand);
      } else {
        e := Primary();
      }
    }

    /** parseExpr: terminates, and computes ParseExpr of the tokens ahead. */
    method Expression(minPrec: Precedence) returns (e: Expr)
      requires Valid()
      modifies this
      ensures Valid() && Now(e) == Since(old(errors), ParseExpr(old(Ahead()), minPrec))
      decreases |tokens| - pos, 3
    {
      hide ParsePrefix, ParseTest, ParseLoop;
      ghost var l := ParsePrefix(Ahead());
      e := Prefix();
      if Cur().kind == IS {
        SinceSince(old(errors), l.errs, ParseTest(l.expr, Tail(l.rest)));
        e := NullTest(e);
      } else {
        SinceSince(old(errors), l.errs, ParseLoop(l.expr, l.rest, minPrec));
        e := Operators(e, minPrec);
      }
    }

    /** IS NULL and IS NOT NULL. */
    method NullTest(left: Expr) returns (e: Expr)
      requires Valid() && Cur().kind == IS
      modifies this
      ensures Valid() && Now(e) == Since(old(errors), ParseTest(left, Tail(old(Ahead()))))
    {
      Advance();
      if Cur().kind == NOT {
        Advance();
        var ok := ExpectToken(NULL);
        return IsNotNull(left);
      }
      var ok := ExpectToken(NULL);
      return IsNull(left);
    }

    /** The loop of parseExpr. */
    method Operators(left: Expr, minPrec: Precedence) returns (e: Expr)
      requires Valid()
      modifies this
      ensures Valid() && Now(e) == Since(old(errors), ParseLoop(left, old(Ahead()), minPrec))
      decreases |tokens| - pos, 2
    {
      hide ParseExpr, ParseLoop, Since;
      e := left;
      while true
        invariant Valid() && pos >= old(pos)
        invariant Since(errors, ParseLoop(e, Ahead(), minPrec)) == Since(old(errors), ParseLoop(left, old(Ahead()), minPrec))
        decreases |tokens| - pos
      {
        LoopStep(errors, e, Ahead(), minPrec);
        var prec := TokenPrec(Cur().kind);
        if prec <= minPrec { break; }
        var op := TokenToOp(Cur().kind);
        Advance();
        ghost var errs, r := errors, ParseExpr(Ahead(), prec);
        var right := Expression(prec);
        SinceFields(errs, r);
        e := Binary(e, op, right);
      }
    }
  }

  /** The errors recorded before, then those of the result. */
  function Since(errs: seq<ParseError>, r: Result): Result { r.(errs := errs + r.errs) }

  lemma SinceSince(a: seq<ParseError>, b: seq<ParseError>, r: Result)
    ensures Since(a, r.(errs := b + r.errs)) == Since(a + b, r)
  {
    assert a + (b + r.errs) == a + b + r.errs;
  }

  lemma SinceFields(errs: seq<ParseError>, r: Result)
    ensures Since(errs, r) == Result(r.expr, r.rest, errs + r.errs)
  {}

  lemma LoopStep(errs: seq<ParseError>, left: Expr, toks: seq<Token>, minPrec: Precedence)
    ensures var tok := Head(toks);
            var right := ParseExpr(Tail(toks), TokenPrec(tok.kind));
            Since(errs, ParseLoop(left, toks, minPrec)) ==
            if TokenPrec(tok.kind) <= minPrec then Result(left, toks, errs)
            else Since(errs + right.errs, ParseLoop(Binary(left, TokenToOp(tok.kind), right.expr), right.rest, minPrec))
  {
    hide ParseExpr;
    var tok := Head(toks);
    if TokenPrec(tok.kind) <= minPrec {
      assert errs + [] == errs;
    } else {
      var right := ParseExpr(Tail(toks), TokenPrec(tok.kind));
      SinceSince(errs, right.errs, ParseLoop(Binary(left, TokenToOp(tok.kind), right.expr), right.rest, minPrec));
    }
  }

  // ---- Printing ----

  function OpPrec(op: Operator): Precedence {
    match op
    case OpAND => PREC_AND
    case OpOR => PREC_OR
    case _ => PREC_COMPARE
  }

  function OpToken(op: Operator): Token {
    match op
    case OpEQ => Symbol(EQ)
    case OpNEQ => Symbol(NEQ)
    case OpLT => Symbol(LT)
    case OpGT => Symbol(GT)
    case OpLTE => Symbol(LTE)
    case OpGTE => Symbol(GTE)
    case OpAND => Symbol(AND)
    case OpOR => Symbol(OR)
  }

  /** How tightly an expression holds together; atoms are tighter than any operator. */
  function ExprPrec(e: Expr): Precedence {
    match e
    case Binary(_, op, _) => OpPrec(op)
    case Not(_) => PREC_NOT
    case _ => 5
  }

  predicate IsTest(e: Expr) { e.IsNull? || e.IsNotNull? }

  predicate IsAtom(e: Expr) { !IsTest(e) && !e.Binary? && !e.Not? }

  function Parens(toks: seq<Token>): seq<Token> {
    [Symbol(LPAREN)] + toks + [Symbol(RPAREN)]
  }

  /** Integer literals are what an INT_LIT token can stand for; there is no sign. */
  predicate Printable(e: Expr) {
    match e
    case IntLiteral(i) => 0 <= i <= MAX_INT64
    case Binary(l, _, r) => Printable(l) && Printable(r)
    case Not(x) => Printable(x)
    case IsNull(x) => Printable(x)
    case IsNotNull(x) => Printable(x)
    case _ => true
  }

  /**
    Parentheses where the precedences ask for them. IS NULL is bare as a right operand, because the
    parser returns from it at once, and for that very reason never as a left operand.
   */
  function Print(e: Expr): seq<Token>
    requires Printable(e)
    decreases e, 0
  {
    match e
    case Identifier(table, column) =>
      if table == [] then [Token(IDENT, column)] else [Token(IDENT, table), Symbol(DOT), Token(IDENT, column)]
    case Wildcard => [Symbol(ASTERISK)]
    case IntLiteral(i) => [Token(INT_LIT, Decimal(i))]
    case StringLiteral(s) => [Token(STR_LIT, s)]
    case BoolLiteral(b) => [if b then Symbol(TRUE) else Symbol(FALSE)]
    case NullLiteral => [Symbol(NULL)]
    case Binary(l, op, r) =>
      PrintLeft(l, OpPrec(op)) + [OpToken(op)] + PrintRight(r, OpPrec(op))
    case Not(x) => [Symbol(NOT)] + PrintRight(x, PREC_NOT)
    case IsNull(x) => PrintTested(x) + [Symbol(IS), Symbol(NULL)]
    case IsNotNull(x) => PrintTested(x) + [Symbol(IS), Symbol(NOT), Symbol(NULL)]
  }

  function PrintLeft(e: Expr, prec: Precedence): seq<Token>
    requires Printable(e)
    decreases e, 1
  {
    if ExprPrec(e) >= prec && !IsTest(e) then Print(e) else Parens(Print(e))
  }

  function PrintRight(e: Expr, prec: Precedence): seq<Token>
    requires Printable(e)
    decreases e, 1
  {
    if ExprPrec(e) > prec then Print(e) else Parens(Print(e))
  }

  function PrintTested(e: Expr): seq<Token>
    requires Printable(e)
    decreases e, 1
  {
    if IsAtom(e) then Print(e) else Parens(Print(e))
  }

  // ---- Round trip ----

  /** A token that ends an expression of the given precedence. */
  predicate Ends(rest: seq<Token>, prec: Precedence) {
    Head(rest).kind != DOT && Head(rest).kind != IS && TokenPrec(Head(rest).kind) <= prec
  }

  lemma Prepend(t: Token, toks: seq<Token>)
    ensures Head([t] + toks) == t && Tail([t] + toks) == toks
  {}

  /** The expression a one-token literal stands for. */
  function LiteralOf(t: Token): Expr {
    match t.kind
    case INT_LIT => IntLiteral(ParseInt(t.literal))
    case STR_LIT => StringLiteral(t.literal)
    case TRUE => BoolLiteral(true)
    case FALSE => BoolLiteral(false)
    case ASTERISK => Wildcard
    case _ => NullLiteral
  }

  lemma LiteralRoundTrip(t: Token, rest: seq<Token>)
    requires t.kind in {INT_LIT, STR_LIT, TRUE, FALSE, NULL, ASTERISK}
    ensures ParsePrimary([t] + rest) == Result(LiteralOf(t), rest, [])
    ensures Head([t] + rest).kind != NOT
  {
    hide ParseExpr, ParsePrefix, ParseLoop, ParseInt;
    Prepend(t, rest);
  }

  lemma AtomRoundTrip(e: Expr, rest: seq<Token>)
    requires Printable(e) && IsAtom(e) && Head(rest).kind != DOT
    ensures ParsePrimary(Print(e) + rest) == Result(e, rest, [])
    ensures Head(Print(e) + rest).kind != NOT
  {
    hide ParsePrimary, ParseExpr, ParsePrefix, ParseLoop, Head;
    match e
    case Identifier(table, column) =>
      if table == [] { NameRoundTrip(column, rest); } else { QualifiedRoundTrip(table, column, rest); }
    case IntLiteral(i) =>
      DecimalValue(i);
      LiteralRoundTrip(Token(INT_LIT, Decimal(i)), rest);
    case StringLiteral(s) => LiteralRoundTrip(Token(STR_LIT, s), rest);
    case BoolLiteral(b) => LiteralRoundTrip(if b then Symbol(TRUE) else Symbol(FALSE), rest);
    case NullLiteral => LiteralRoundTrip(Symbol(NULL), rest);
    case Wildcard => LiteralRoundTrip(Symbol(ASTERISK), rest);
  }

  lemma NameRoundTrip(column: Text, rest: seq<Token>)
    requires Head(rest).kind != DOT
    ensures ParsePrimary([Token(IDENT, column)] + rest) == Result(Identifier([], column), rest, [])
    ensures Head([Token(IDENT, column)] + rest).kind != NOT
  {
    hide ParseExpr, ParsePrefix, ParseLoop;
    Prepend(Token(IDENT, column), rest);
  }

  lemma QualifiedRoundTrip(table: Text, column: Text, rest: seq<Token>)
    requires table != []
    ensures ParsePrimary(Print(Identifier(table, column)) + rest) == Result(Identifier(table, column), rest, [])
    ensures Head(Print(Identifier(table, column)) + rest).kind != NOT
  {
    hide ParseExpr, ParsePrefix, ParseLoop;
    var t2 := [Token(IDENT, column)] + rest;
    assert Print(Identifier(table, column)) + rest == [Token(IDENT, table)] + ([Symbol(DOT)] + t2);
    Prepend(Token(IDENT, table), [Symbol(DOT)] + t2);
    Prepend(Symbol(DOT), t2);
    Prepend(Token(IDENT, column), rest);
  }

  lemma {:induction false} ParensRoundTrip(e: Expr, rest: seq<Token>)
    requires Printable(e)
    ensures ParsePrimary(Parens(Print(e)) + rest) == Result(e, rest, [])
    ensures Head(Parens(Print(e)) + rest).kind != NOT
    decreases e, 3
  {
    hide ParsePrimary, ParseExpr, Print;
    var close := [Symbol(RPAREN)] + rest;
    Prepend(Symbol(RPAREN), rest);
    PrintParse(e, close, LOWEST);
    assert Parens(Print(e)) + rest == [Symbol(LPAREN)] + (Print(e) + close);
    GroupRoundTrip(Print(e) + close, e, rest);
    Prepend(Symbol(LPAREN), Print(e) + close);
  }

  lemma GroupRoundTrip(inner: seq<Token>, e: Expr, rest: seq<Token>)
    requires ParseExpr(inner, LOWEST) == Result(e, [Symbol(RPAREN)] + rest, [])
    ensures ParsePrimary([Symbol(LPAREN)] + inner) == Result(e, rest, [])
  {
    hide ParseExpr;
    Prepend(Symbol(LPAREN), inner);
    Prepend(Symbol(RPAREN), rest);
  }

  lemma PrimaryThenLoop(toks: seq<Token>, l: Expr, rest: seq<Token>, minPrec: Precedence)
    requires Head(toks).kind != NOT && ParsePrimary(toks) == Result(l, rest, []) && Head(rest).kind != IS
    ensures ParseExpr(toks, minPrec) == ParseLoop(l, rest, minPrec)
  {
    hide ParsePrimary, ParseLoop;
  }

  lemma OperatorThenLoop(l: Expr, op: Operator, more: seq<Token>, r: Expr, rest: seq<Token>, minPrec: Precedence)
    requires minPrec < OpPrec(op) && ParseExpr(more, OpPrec(op)) == Result(r, rest, [])
    ensures ParseLoop(l, [OpToken(op)] + more, minPrec) == ParseLoop(Binary(l, op, r), rest, minPrec)
  {
    hide ParsePrimary, ParsePrefix, ParseExpr;
    OperatorToken(op);
    hide OpToken, OpPrec, TokenPrec, TokenToOp;
    Prepend(OpToken(op), more);
  }

  lemma OperatorToken(op: Operator)
    ensures TokenToOp(OpToken(op).kind) == op && TokenPrec(OpToken(op).kind) == OpPrec(op)
  {}

  lemma NotThenLoop(more: seq<Token>, x: Expr, rest: seq<Token>, minPrec: Precedence)
    requires ParseExpr(more, PREC_NOT) == Result(x, rest, []) && Head(rest).kind != IS
    ensures ParseExpr([Symbol(NOT)] + more, minPrec) == ParseLoop(Not(x), rest, minPrec)
  {
    hide ParsePrimary, ParseLoop;
    Prepend(Symbol(NOT), more);
  }

  /** The parser continues after a printed expression as after a left operand. */
  lemma {:induction false} PrintThenLoop(e: Expr, rest: seq<Token>, minPrec: Precedence)
    requires Printable(e) && !IsTest(e) && minPrec < ExprPrec(e) && Ends(rest, ExprPrec(e))
    ensures ParseExpr(Print(e) + rest, minPrec) == ParseLoop(e, rest, minPrec)
    decreases e, 1
  {
    hide ParseExpr, ParsePrefix, ParsePrimary, ParseLoop, PrintRight;
    if e.Binary? {
      BinaryThenLoop(e.left, e.op, e.right, rest, minPrec);
    } else if e.Not? {
      RightRoundTrip(e.operand, rest, PREC_NOT);
      NotThenLoop(PrintRight(e.operand, PREC_NOT) + rest, e.operand, rest, minPrec);
      assert Print(e) + rest == [Symbol(NOT)] + (PrintRight(e.operand, PREC_NOT) + rest);
    } else {
      AtomRoundTrip(e, rest);
      PrimaryThenLoop(Print(e) + rest, e, rest, minPrec);
    }
  }

  lemma {:induction false} BinaryThenLoop(l: Expr, op: Operator, r: Expr, rest: seq<Token>, minPrec: Precedence)
    requires Printable(l) && Printable(r) && minPrec < OpPrec(op) && Ends(rest, OpPrec(op))
    ensures ParseExpr(Print(Binary(l, op, r)) + rest, minPrec) == ParseLoop(Binary(l, op, r), rest, minPrec)
    decreases Binary(l, op, r), 0
  {
    hide ParseExpr, ParsePrefix, ParsePrimary, ParseLoop, PrintRight, PrintLeft;
    var more := PrintRight(r, OpPrec(op)) + rest;
    RightRoundTrip(r, rest, OpPrec(op));
    OperatorThenLoop(l, op, more, r, rest, minPrec);
    OperatorEnds(op, more);
    LeftThenLoop(l, [OpToken(op)] + more, OpPrec(op), minPrec);
    assert Print(Binary(l, op, r)) + rest == PrintLeft(l, OpPrec(op)) + ([OpToken(op)] + more);
  }

  lemma OperatorEnds(op: Operator, more: seq<Token>)
    ensures Ends([OpToken(op)] + more, OpPrec(op))
  {
    Prepend(OpToken(op), more);
  }

  lemma {:induction false} LeftThenLoop(l: Expr, tail: seq<Token>, prec: Precedence, minPrec: Precedence)
    requires Printable(l) && minPrec < prec && Ends(tail, prec)
    ensures ParseExpr(PrintLeft(l, prec) + tail, minPrec) == ParseLoop(l, tail, minPrec)
    decreases l, 4
  {
    hide ParseExpr, ParsePrefix, ParsePrimary, ParseLoop, Print;
    if ExprPrec(l) >= prec && !IsTest(l) {
      PrintThenLoop(l, tail, minPrec);
    } else {
      ParensRoundTrip(l, tail);
      PrimaryThenLoop(Parens(Print(l)) + tail, l, tail, minPrec);
    }
  }

  lemma {:induction false} RightRoundTrip(e: Expr, rest: seq<Token>, prec: Precedence)
    requires Printable(e) && Ends(rest, prec) && prec < 5
    ensures ParseExpr(PrintRight(e, prec) + rest, prec) == Result(e, rest, [])
    decreases e, 4
  {
    if ExprPrec(e) > prec {
      PrintParse(e, rest, prec);
    } else {
      ParensRoundTrip(e, rest);
    }
  }

  /** An IS NULL ends the expression: whatever follows is left to the caller, unread and without an error. */
  lemma {:induction false} TestEndsExpr(e: Expr, rest: seq<Token>, minPrec: Precedence)
    requires Printable(e) && IsTest(e)
    ensures ParseExpr(Print(e) + rest, minPrec) == Result(e, rest, [])
    decreases e, 0
  {
    var x := e.operand;
    var end := if e.IsNull? then [Symbol(NULL)] + rest else [Symbol(NOT)] + ([Symbol(NULL)] + rest);
    var tail := [Symbol(IS)] + end;
    assert Print(e) + rest == PrintTested(x) + tail;
    Prepend(Symbol(IS), end);
    Prepend(Symbol(NULL), rest);
    if IsAtom(x) { AtomRoundTrip(x, tail); } else { ParensRoundTrip(x, tail); }
    if e.IsNotNull? { Prepend(Symbol(NOT), [Symbol(NULL)] + rest); }
  }

  /**
    Printing and parsing gives the same tree back, consumes exactly the printed tokens and records no
    error, before any token that cannot continue the expression.
   */
  lemma {:induction false} PrintParse(e: Expr, rest: seq<Token>, minPrec: Precedence)
    requires Printable(e) && minPrec < ExprPrec(e) && Ends(rest, minPrec)
    ensures ParseExpr(Print(e) + rest, minPrec) == Result(e, rest, [])
    decreases e, 2
  {
    if IsTest(e) {
      TestEndsExpr(e, rest, minPrec);
    } else {
      PrintThenLoop(e, rest, minPrec);
    }
  }

  /** Different expressions have different printings. */
  lemma PrintInjective(e: Expr, f: Expr)
    requires Printable(e) && Printable(f) && Print(e) == Print(f)
    ensures e == f
  {
    assert Print(e) + [] == Print(e) && Print(f) + [] == Print(f);
    PrintParse(e, [], LOWEST);
    PrintParse(f, [], LOWEST);
  }

  // ---- Which expressions come out of the parser ----

  lemma {:induction false} ParsedPrimary(toks: seq<Token>)
    ensures Printable(ParsePrimary(toks).expr)
    decreases |toks|, 0
  {
    if Head(toks).kind == LPAREN { Parsed(Tail(toks), LOWEST); }
  }

  lemma {:induction false} Parsed(toks: seq<Token>, minPrec: Precedence)
    ensures Printable(ParseExpr(toks, minPrec).expr)
    decreases |toks|, 3
  {
    if Head(toks).kind == NOT { Parsed(Tail(toks), PREC_NOT); } else { ParsedPrimary(toks); }
    var l := ParsePrefix(toks);
    if Head(l.rest).kind != IS { ParsedLoop(l.expr, l.rest, minPrec); }
  }

  lemma {:induction false} ParsedLoop(left: Expr, toks: seq<Token>, minPrec: Precedence)
    requires Printable(left)
    ensures Printable(ParseLoop(left, toks, minPrec).expr)
    decreases |toks|, 2
  {
    var tok := Head(toks);
    if TokenPrec(tok.kind) > minPrec {
      Parsed(Tail(toks), TokenPrec(tok.kind));
      var right := ParseExpr(Tail(toks), TokenPrec(tok.kind));
      ParsedLoop(Binary(left, TokenToOp(tok.kind), right.expr), right.rest, minPrec);
    }
  }

  /** The expressions that some text without errors stands for are exactly the printable ones. */
  lemma ParsedIffPrintable(e: Expr)
    ensures (exists toks :: ParseExpr(toks, LOWEST) == Result(e, [], [])) <==> Printable(e)
  {
    if Printable(e) {
      assert Print(e) + [] == Print(e);
      PrintParse(e, [], LOWEST);
    }
    forall toks | ParseExpr(toks, LOWEST) == Result(e, [], []) ensures Printable(e) { Parsed(toks, LOWEST); }
  }
}
