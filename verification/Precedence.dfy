/**
  What the grammar means for texts without IS: lists of OR, of lists of AND, of negated comparisons. And what an
  IS NULL does to this (sql/parser/parser.go).
 */
module Precedence {
  import opened Types
  import opened Syntax
  import opened Parser
  import opened Grammar

  // ---- Layers: each operator has looser ones neither on its left nor, outside parentheses, on its right ----

  ghost predicate OrList(ts: seq<Token>, e: Expr)
    decreases |ts|, 4
  {
    || AndList(ts, e)
    || (e.Binary? && e.op == OpOR && exists k | 0 <= k < |ts| ::
          ts[k].kind == OR && OrList(ts[..k], e.left) && AndList(ts[k + 1..], e.right))
  }

  ghost predicate AndList(ts: seq<Token>, e: Expr)
    decreases |ts|, 3
  {
    || Negation(ts, e)
    || (e.Binary? && e.op == OpAND && exists k | 0 <= k < |ts| ::
          ts[k].kind == AND && AndList(ts[..k], e.left) && Negation(ts[k + 1..], e.right))
  }

  /** NOT takes all of the comparison behind it, and so does a NOT that is itself the last thing compared. */
  ghost predicate Negation(ts: seq<Token>, e: Expr)
    decreases |ts|, 2
  {
    || Comparison(ts, e)
    || (ts != [] && ts[0].kind == NOT && e.Not? && Negation(ts[1..], e.operand))
    || (e.Binary? && exists k | 0 <= k < |ts| - 1 ::
          && Compares(ts[k].kind) && Stands(ts[k].kind, e.op) && Comparison(ts[..k], e.left)
          && ts[k + 1].kind == NOT && e.right.Not? && Negation(ts[k + 2..], e.right.operand))
  }

  ghost predicate Comparison(ts: seq<Token>, e: Expr)
    decreases |ts|, 1
  {
    || Simple(ts, e)
    || (e.Binary? && exists k | 0 <= k < |ts| ::
          Compares(ts[k].kind) && Stands(ts[k].kind, e.op) && Comparison(ts[..k], e.left) && Simple(ts[k + 1..], e.right))
  }

  ghost predicate Simple(ts: seq<Token>, e: Expr)
    decreases |ts|, 0
  {
    var n := |ts| - 1;
    Atom(ts, e, EOF) || (n > 0 && ts[0].kind == LPAREN && ts[n].kind == RPAREN && OrList(ts[1..n], e))
  }

  predicate NoTests(ts: seq<Token>) {
    forall i | 0 <= i < |ts| :: ts[i].kind != IS
  }

  /** What can stand behind a whole expression. */
  predicate Ending(k: TokenType) { k !in {DOT, IS, OR, AND} && !Compares(k) }

  // ---- From the layers to the grammar ----

  lemma {:induction false} SimpleIsOperand(ts: seq<Token>, e: Expr, next: TokenType)
    requires Simple(ts, e) && next != DOT
    ensures Operand(ts, e, next)
    decreases |ts|, 0
  {
    if !Atom(ts, e, EOF) {
      OrListDerives(ts[1..|ts| - 1], e, RPAREN);
      assert Group(ts, e);
    }
  }

  predicate TakesComparisons(at: Place) {
    at == Whole || at == RightOf(OR) || at == RightOf(AND) || at == RightOf(NOT)
  }

  lemma {:induction false} ComparisonDerives(at: Place, ts: seq<Token>, e: Expr, next: TokenType)
    requires Comparison(ts, e) && next !in {DOT, IS} && TakesComparisons(at)
    ensures Chain(at, ts, e, next)
    decreases |ts|, 1
  {
    hide Simple, Operand;
    if Simple(ts, e) { SimpleIsOperand(ts, e, next); } else {
      var k :| 0 <= k < |ts| && Compares(ts[k].kind) && Stands(ts[k].kind, e.op) && Comparison(ts[..k], e.left) && Simple(ts[k + 1..], e.right);
      ComparisonDerives(at, ts[..k], e.left, ts[k].kind);
      SimpleIsOperand(ts[k + 1..], e.right, next);
      Joined(at, ts, k, e, next);
    }
  }

  lemma Joined(at: Place, ts: seq<Token>, k: nat, e: Expr, next: TokenType)
    requires k < |ts| && e.Binary? && Compares(ts[k].kind) && Stands(ts[k].kind, e.op) && TakesComparisons(at)
    requires Chain(at, ts[..k], e.left, ts[k].kind) && Operand(ts[k + 1..], e.right, next) && next != IS
    ensures Chain(at, ts, e, next)
  {
    hide Operand, Test;
    assert Chain(RightOf(ts[k].kind), ts[k + 1..], e.right, next);
    assert Derives(RightOf(ts[k].kind), ts[k + 1..], e.right, next);
  }

  lemma NegatedOperand(ts: seq<Token>, e: Expr, next: TokenType)
    requires ts != [] && ts[0].kind == NOT && e.Not? && Chain(RightOf(NOT), ts[1..], e.operand, next) && !Compares(next)
    ensures Operand(ts, e, next)
  {
    hide Chain, Test, Group;
    assert Derives(RightOf(NOT), ts[1..], e.operand, next);
  }

  lemma {:induction false} NegationDerives(at: Place, ts: seq<Token>, e: Expr, next: TokenType)
    requires Negation(ts, e) && next !in {DOT, IS} && !Compares(next) && TakesComparisons(at)
    ensures Chain(at, ts, e, next)
    decreases |ts|, 2
  {
    hide Comparison, Test, Atom, Group;
    if Comparison(ts, e) { ComparisonDerives(at, ts, e, next); }
    else if ts[0].kind == NOT && e.Not? && Negation(ts[1..], e.operand) {
      NegationDerives(RightOf(NOT), ts[1..], e.operand, next);
      NegatedOperand(ts, e, next);
    } else {
      var k :| 0 <= k < |ts| - 1 && Compares(ts[k].kind) && Stands(ts[k].kind, e.op) && Comparison(ts[..k], e.left)
               && ts[k + 1].kind == NOT && e.right.Not? && Negation(ts[k + 2..], e.right.operand);
      NegationDerives(RightOf(NOT), ts[k + 2..], e.right.operand, next);
      ComparisonDerives(at, ts[..k], e.left, ts[k].kind);
      assert ts[k + 1..][1..] == ts[k + 2..];
      NegatedOperand(ts[k + 1..], e.right, next);
      Joined(at, ts, k, e, next);
    }
  }

  lemma {:induction false} AndListDerives(at: Place, ts: seq<Token>, e: Expr, next: TokenType)
    requires AndList(ts, e) && next !in {DOT, IS} && !Compares(next) && (at == Whole || at == RightOf(OR))
    ensures Chain(at, ts, e, next)
    decreases |ts|, 3
  {
    hide Negation, Operand, Test;
    if Negation(ts, e) { NegationDerives(at, ts, e, next); } else {
      var k :| 0 <= k < |ts| && ts[k].kind == AND && AndList(ts[..k], e.left) && Negation(ts[k + 1..], e.right);
      AndListDerives(at, ts[..k], e.left, AND);
      NegationDerives(RightOf(AND), ts[k + 1..], e.right, next);
    }
  }

  lemma {:induction false} OrListDerives(ts: seq<Token>, e: Expr, next: TokenType)
    requires OrList(ts, e) && next !in {DOT, IS, AND} && !Compares(next)
    ensures Chain(Whole, ts, e, next) && (next != OR ==> Derives(Whole, ts, e, next))
    decreases |ts|, 4
  {
    hide AndList, Operand, Test;
    if AndList(ts, e) { AndListDerives(Whole, ts, e, next); } else {
      var k :| 0 <= k < |ts| && ts[k].kind == OR && OrList(ts[..k], e.left) && AndList(ts[k + 1..], e.right);
      OrListDerives(ts[..k], e.left, OR);
      AndListDerives(RightOf(OR), ts[k + 1..], e.right, next);
    }
  }

  // ---- From the grammar to the layers ----

  predicate RealPlace(at: Place) {
    TakesComparisons(at) || Compares(at.kind)
  }

  /** Each place has its layer, and what an operator takes as its left operand is of a layer at least as tight. */
  ghost predicate Layered(at: Place, ts: seq<Token>, e: Expr, next: TokenType) {
    && OrList(ts, e)
    && (at != Whole || next == AND ==> AndList(ts, e))
    && (at != Whole && at != RightOf(OR) ==> Negation(ts, e))
    && (Compares(next) ==> Comparison(ts, e))
  }

  lemma {:induction false} OperandLayers(at: Place, ts: seq<Token>, e: Expr, next: TokenType)
    requires Operand(ts, e, next) && NoTests(ts)
    ensures Layered(at, ts, e, next)
    ensures Simple(ts, e) || (ts != [] && ts[0].kind == NOT && e.Not? && Negation(ts[1..], e.operand) && !Compares(next))
    decreases |ts|, 0
  {
    hide Test, Chain;
    if Atom(ts, e, next) {
      assert Atom(ts, e, EOF);
      SimpleLayers(at, ts, e, next);
    } else if Group(ts, e) {
      var inner := ts[1..|ts| - 1];
      NoTest(inner, e);
      InnerChain(ts, e);
      ChainLayers(Whole, inner, e, RPAREN);
      SimpleLayers(at, ts, e, next);
    } else {
      NoTest(ts[1..], e.operand);
      ChainLayers(RightOf(NOT), ts[1..], e.operand, next);
      NegationLayers(at, ts, e, next);
    }
  }

  lemma InnerChain(ts: seq<Token>, e: Expr)
    requires Group(ts, e)
    ensures |ts| > 1 && ts[0].kind == LPAREN && ts[|ts| - 1].kind == RPAREN
    ensures Test(ts[1..|ts| - 1], e) || Chain(Whole, ts[1..|ts| - 1], e, RPAREN)
  {}

  lemma SimpleLayers(at: Place, ts: seq<Token>, e: Expr, next: TokenType)
    requires Simple(ts, e)
    ensures Layered(at, ts, e, next) && Comparison(ts, e)
  {
    hide Simple;
    assert Comparison(ts, e);
    NegationLayers(at, ts, e, EOF);
  }

  lemma NegationLayers(at: Place, ts: seq<Token>, e: Expr, next: TokenType)
    requires Negation(ts, e) && !Compares(next)
    ensures Layered(at, ts, e, next) && AndList(ts, e)
  {
    hide Negation;
    assert AndList(ts, e);
  }

  lemma NoTest(ts: seq<Token>, e: Expr)
    requires NoTests(ts)
    ensures !Test(ts, e)
  {
    hide Operand;
  }

  lemma {:induction false} ChainLayers(at: Place, ts: seq<Token>, e: Expr, next: TokenType)
    requires Chain(at, ts, e, next) && NoTests(ts) && RealPlace(at)
    ensures Layered(at, ts, e, next)
    decreases |ts|, 1
  {
    hide Operand, Test, Chain;
    var k := ChainCase(at, ts, e, next);
    if k == |ts| { OperandLayers(at, ts, e, next); } else {
      var o := ts[k].kind;
      ChainLayers(at, ts[..k], e.left, o);
      NoTest(ts[k + 1..], e.right);
      ChainLayers(RightOf(o), ts[k + 1..], e.right, next);
      if Compares(o) { ComparedLayers(at, ts, k, e, next); } else { ListLayers(at, ts, k, e, next); }
    }
  }

  lemma ListLayers(at: Place, ts: seq<Token>, k: nat, e: Expr, next: TokenType)
    requires k < |ts| && e.Binary? && Takes(at, ts[k].kind) && !Compares(ts[k].kind) && Stands(ts[k].kind, e.op) && RealPlace(at)
    requires Layered(at, ts[..k], e.left, ts[k].kind) && Layered(RightOf(ts[k].kind), ts[k + 1..], e.right, next) && !Takes(RightOf(ts[k].kind), next)
    ensures Layered(at, ts, e, next)
  {
    hide Negation;
    if ts[k].kind == AND { assert AndList(ts, e); }
  }

  lemma ComparedLayers(at: Place, ts: seq<Token>, k: nat, e: Expr, next: TokenType)
    requires k < |ts| && e.Binary? && Compares(ts[k].kind) && Stands(ts[k].kind, e.op) && NoTests(ts)
    requires Comparison(ts[..k], e.left) && Chain(RightOf(ts[k].kind), ts[k + 1..], e.right, next)
    ensures Layered(at, ts, e, next)
    decreases |ts|, 0
  {
    hide Operand, Simple, Chain;
    var right := ts[k + 1..];
    var m := ChainCase(RightOf(ts[k].kind), right, e.right, next);
    OperandLayers(at, right, e.right, next);
    if Simple(right, e.right) {
      assert Comparison(ts, e) && Negation(ts, e);
      NegationLayers(at, ts, e, EOF);
    } else {
      assert right[1..] == ts[k + 2..] && right[0] == ts[k + 1];
      assert Negation(ts, e);
      NegationLayers(at, ts, e, next);
    }
  }

  /**
    Without IS the parser accepts exactly the layers: OR is looser than AND, AND looser than NOT, NOT looser
    than a comparison, and equal operators group to the left.
   */
  lemma LayersParse(ts: seq<Token>, rest: seq<Token>, e: Expr)
    requires NoTests(ts) && Ending(Head(rest).kind)
    ensures ParseExpr(ts + rest, LOWEST) == Result(e, rest, []) <==> OrList(ts, e)
  {
    hide ParseExpr, OrList, Chain, Test;
    var next := Head(rest).kind;
    ParsedIffDerived(ts, rest, e);
    if OrList(ts, e) { OrListDerives(ts, e, next); }
    if Derives(Whole, ts, e, next) {
      NoTest(ts, e);
      ChainLayers(Whole, ts, e, next);
    }
  }

  // ---- What a test does to this ----

  /**
    An operand of OR that ends in IS NULL ends there, even before AND: `l OR x IS NULL AND r` is read as
    `(l OR x IS NULL) AND r`, for all operands.
   */
  lemma TestEndsOperand(l: seq<Token>, or: Token, x: seq<Token>, and: Token, r: seq<Token>, rest: seq<Token>, le: Expr, xe: Expr, re: Expr)
    requires or.kind == OR && and.kind == AND && OrList(l, le) && Test(x, xe) && Negation(r, re) && Ending(Head(rest).kind)
    ensures ParseExpr(l + [or] + x + [and] + r + rest, LOWEST) == Result(Binary(Binary(le, OpOR, xe), OpAND, re), rest, [])
  {
    hide ParseExpr, OrList, Test, Chain, Negation, Derives;
    var next, front := Head(rest).kind, l + [or] + x;
    OrListDerives(l, le, OR);
    Extended(Whole, l, or, x, le, OpOR, xe, AND);
    NegationDerives(RightOf(AND), r, re, next);
    Extended(Whole, front, and, r, Binary(le, OpOR, xe), OpAND, re, next);
    var all := front + [and] + r;
    assert Derives(Whole, all, Binary(Binary(le, OpOR, xe), OpAND, re), next) by { ChainDerives(all, Binary(Binary(le, OpOR, xe), OpAND, re), next); }
    ParsedIffDerived(all, rest, Binary(Binary(le, OpOR, xe), OpAND, re));
  }

  lemma ChainDerives(ts: seq<Token>, e: Expr, next: TokenType)
    requires Chain(Whole, ts, e, next) && !Takes(Whole, next)
    ensures Derives(Whole, ts, e, next)
  {}

  /** One more operator and what is right of it. */
  lemma Extended(at: Place, l: seq<Token>, o: Token, r: seq<Token>, le: Expr, op: Operator, re: Expr, next: TokenType)
    requires Takes(at, o.kind) && Stands(o.kind, op) && Chain(at, l, le, o.kind)
    requires Test(r, re) || (Chain(RightOf(o.kind), r, re, next) && !Takes(RightOf(o.kind), next))
    ensures Chain(at, l + [o] + r, Binary(le, op, re), next)
  {
    hide Chain, Test;
    assert Derives(RightOf(o.kind), r, re, next);
    hide Derives;
    var ts := l + [o] + r;
    assert ts[..|l|] == l && ts[|l|] == o && ts[|l| + 1..] == r;
    OneMore(at, ts, |l|, Binary(le, op, re), next);
  }
}
