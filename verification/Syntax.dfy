/** Tokens and expressions (sql/lexer/lexer.go, sql/ast/ast.go). */
module Syntax {
  import opened Types

  /** OTHER stands for the token types no expression can begin with or contain. */
  datatype TokenType =
    | AND | OR | NOT | IS | NULL | TRUE | FALSE
    | IDENT | INT_LIT | STR_LIT
    | EQ | NEQ | LT | GT | LTE | GTE | ASTERISK | DOT | LPAREN | RPAREN
    | EOF | OTHER

  /** The literal matters for identifiers and literals only; for the other tokens it is empty here. */
  datatype Token = Token(kind: TokenType, literal: Text)

  datatype Operator = OpEQ | OpNEQ | OpLT | OpGT | OpLTE | OpGTE | OpAND | OpOR

  /** An identifier without a table qualifier has the empty string as its table. */
  datatype Expr =
    | Identifier(table: Text, column: Text)
    | Wildcard
    | IntLiteral(i: int)
    | StringLiteral(s: Text)
    | BoolLiteral(b: bool)
    | NullLiteral
    | Binary(left: Expr, op: Operator, right: Expr)
    | Not(operand: Expr)
    | IsNull(operand: Expr)
    | IsNotNull(operand: Expr)

  // ---- Integer literals: strconv.ParseInt with its error ignored ----

  const MAX_INT64: nat := 0x7FFF_FFFF_FFFF_FFFF

  predicate IsDigit(c: byte) { 48 <= c < 58 }

  function DigitsValue(s: Text): nat
    requires forall c | c in s :: IsDigit(c)
  {
    if s == [] then 0
    else
      assert IsDigit(s[|s| - 1]);
      10 * DigitsValue(s[..|s| - 1]) + (s[|s| - 1] - 48)
  }

  /** Out of range is the largest value, anything but digits zero; the lexer only makes digits. */
  function ParseInt(s: Text): (v: int)
    ensures 0 <= v <= MAX_INT64
    ensures (s == [] || exists c | c in s :: !IsDigit(c)) ==> v == 0
  {
    if s == [] || exists c | c in s :: !IsDigit(c) then 0
    else if DigitsValue(s) > MAX_INT64 then MAX_INT64 else DigitsValue(s)
  }

  function Decimal(n: nat): (s: Text)
    ensures s != [] && forall c | c in s :: IsDigit(c)
  {
    if n < 10 then [48 + n] else Decimal(n / 10) + [48 + n % 10]
  }

  lemma {:induction false} DecimalValue(n: nat)
    ensures DigitsValue(Decimal(n)) == n
  {
    var s := Decimal(n);
    if n < 10 {
      assert s[..0] == [];
    } else {
      DecimalValue(n / 10);
      assert s[..|s| - 1] == Decimal(n / 10);
    }
  }

  /** A decimal literal is its number, or the largest one if it is too large. */
  lemma ParsesDecimal(n: nat)
    ensures ParseInt(Decimal(n)) == if n <= MAX_INT64 then n else MAX_INT64
  {
    DecimalValue(n);
  }
}
