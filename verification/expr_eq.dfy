/** Cancelling common operands and comparing expressions
    (expr_eliminate_eq and expr_eq in scripts/config/expr.c). */
module EliminateEq {
  import opened Options
  import opened Tristates
  import opened Symbols
  import opened Exprs
  import opened EliminateYn

  /** `__expr_eliminate_eq`: every operand of `x` at the level of `op` meets
      every operand of `y`; two equal ones both become the neutral constant. */
  function Cancel(op: Op, x: Expr, y: Expr): (r: (Expr, Expr))
    ensures Size(r.0) <= Size(x) && Size(r.1) <= Size(y)
    ensures Is(op, x) ==> Is(op, r.0)
    ensures Is(op, y) ==> Is(op, r.1)
    ensures !Is(op, x) ==> r.0 == x || r.0 == Neutral(op)
    ensures !Is(op, y) ==> r.1 == y || r.1 == Neutral(op)
    decreases Size(x) + Size(y), if Is(op, x) || Is(op, y) then 0 else 3
  {
    if Is(op, x) then
      var (l, y1) := Cancel(op, x.l, y);
      var (r, y2) := Cancel(op, x.r, y1);
      (Node(op, l, r), y2)
    else if Is(op, y) then
      var (x1, l) := Cancel(op, x, y.l);
      var (x2, r) := Cancel(op, x1, y.r);
      (x2, Node(op, l, r))
    else if x == y && IsYn(x) then (x, y)
    else if ExprEq(x, y) then (Neutral(op), Neutral(op))
    else (x, y)
  }

  /** `expr_eliminate_eq` for two present expressions. */
  function ElimEq(x: Expr, y: Expr): (r: (Expr, Expr))
    decreases Size(x) + Size(y), 1
  {
    var (x1, y1) := if IsNode(x) then Cancel(OpOf(x), x, y) else (x, y);
    var (x2, y2) := if IsNode(y1) && !Is(OpOf(y1), x1) then Cancel(OpOf(y1), x1, y1) else (x1, y1);
    (ElimYn(x2), ElimYn(y2))
  }

  /** `expr_eq` for two present expressions. */
  predicate ExprEq(x: Expr, y: Expr)
    decreases Size(x) + Size(y), 2
  {
    match (x, y)
    case (Comp(p, a, b), Comp(q, c, d)) => p == q && a == c && b == d
    case (Sym(s), Sym(t)) => s == t
    case (Not(u), Not(v)) => ExprEq(u, v)
    case (And(_, _), And(_, _)) => var (u, v) := ElimEq(x, y); u.Sym? && v.Sym? && u.s == v.s
    case (Or(_, _), Or(_, _)) => var (u, v) := ElimEq(x, y); u.Sym? && v.Sym? && u.s == v.s
    case _ => false
  }

  predicate IsYes(e: Option<Expr>) {
    e.None? || e.value == E_YES
  }

  /** `expr_eq`; an absent expression is equal only to y. */
  predicate ExprEqOpt(x: Option<Expr>, y: Option<Expr>) {
    if x.None? || y.None? then IsYes(x) && IsYes(y) else ExprEq(x.value, y.value)
  }

  // ----- meaning -----

  predicate FactorAt(op: Op, x: Expr, before: Expr, after: Expr, env: Env) {
    Eval(before, env) == Combine(op, Eval(x, env), Eval(after, env))
  }

  /** `before` is `x op after` under every assignment. */
  ghost predicate Factor(op: Op, x: Expr, before: Expr, after: Expr) {
    forall env: Env :: FactorAt(op, x, before, after, env)
  }

  /** A single operand is left alone together with the other side, or both
      sides lose it; y and n are always left alone. */
  lemma {:induction false} CancelLeaf(op: Op, x: Expr, y: Expr)
    requires !Is(op, y)
    ensures Cancel(op, x, y) == (x, y) ||
            (!IsYn(y) && Cancel(op, x, y).1 == Neutral(op) && Cancel(op, x, y).0 != x)
    decreases x
  {
    if Is(op, x) {
      var (l, y1) := Cancel(op, x.l, y);
      CancelLeaf(op, x.l, y);
      CancelLeaf(op, x.r, y1);
      assert Cancel(op, x, y) == (Node(op, l, Cancel(op, x.r, y1).0), Cancel(op, x.r, y1).1);
    }
  }

  lemma EvalNode(op: Op, l: Expr, r: Expr, env: Env)
    ensures Eval(Node(op, l, r), env) == Combine(op, Eval(l, env), Eval(r, env))
  {
  }

  lemma CombineShuffle(op: Op, a: Tristate, b: Tristate, c: Tristate, d: Tristate)
    ensures Combine(op, Combine(op, a, c), Combine(op, b, d)) == Combine(op, Combine(op, a, b), Combine(op, c, d))
    ensures Combine(op, a, Combine(op, b, d)) == Combine(op, Combine(op, a, b), d)
  {
  }

  lemma FactorBothAt(op: Op, f: Expr, g: Expr, l: Expr, l': Expr, r: Expr, r': Expr, y: Expr, y1: Expr, y2: Expr,
          env: Env)
    requires FactorAt(op, f, l, l', env) && FactorAt(op, g, r, r', env)
    requires FactorAt(op, f, y, y1, env) && FactorAt(op, g, y1, y2, env)
    ensures FactorAt(op, Node(op, f, g), Node(op, l, r), Node(op, l', r'), env)
    ensures FactorAt(op, Node(op, f, g), y, y2, env)
  {
    EvalNode(op, f, g, env);
    EvalNode(op, l, r, env);
    EvalNode(op, l', r', env);
    CombineShuffle(op, Eval(f, env), Eval(g, env), Eval(l', env), Eval(r', env));
    CombineShuffle(op, Eval(f, env), Eval(g, env), Eval(l', env), Eval(y2, env));
  }

  lemma FactorBoth(op: Op, f: Expr, g: Expr, l: Expr, l': Expr, r: Expr, r': Expr, y: Expr, y1: Expr, y2: Expr)
    requires Factor(op, f, l, l') && Factor(op, g, r, r')
    requires Factor(op, f, y, y1) && Factor(op, g, y1, y2)
    ensures Factor(op, Node(op, f, g), Node(op, l, r), Node(op, l', r'))
    ensures Factor(op, Node(op, f, g), y, y2)
  {
    forall env: Env
      ensures FactorAt(op, Node(op, f, g), Node(op, l, r), Node(op, l', r'), env)
      ensures FactorAt(op, Node(op, f, g), y, y2, env)
    {
      assert FactorAt(op, f, l, l', env) && FactorAt(op, g, r, r', env);
      assert FactorAt(op, f, y, y1, env) && FactorAt(op, g, y1, y2, env);
      FactorBothAt(op, f, g, l, l', r, r', y, y1, y2, env);
    }
  }

  lemma {:induction false} CancelFactor(op: Op, x: Expr, y: Expr) returns (f: Expr)
    ensures Factor(op, f, x, Cancel(op, x, y).0)
    ensures Factor(op, f, y, Cancel(op, x, y).1)
    decreases Size(x) + Size(y), if Is(op, x) || Is(op, y) then 0 else 3
  {
    if Is(op, x) {
      var (l, y1) := Cancel(op, x.l, y);
      var f1 := CancelFactor(op, x.l, y);
      var (r, y2) := Cancel(op, x.r, y1);
      var f2 := CancelFactor(op, x.r, y1);
      f := Node(op, f1, f2);
      FactorBoth(op, f1, f2, x.l, l, x.r, r, y, y1, y2);
      assert Cancel(op, x, y) == (Node(op, l, r), y2) && x == Node(op, x.l, x.r);
    } else if Is(op, y) {
      var (x1, l) := Cancel(op, x, y.l);
      var f1 := CancelFactor(op, x, y.l);
      var (x2, r) := Cancel(op, x1, y.r);
      var f2 := CancelFactor(op, x1, y.r);
      f := Node(op, f1, f2);
      FactorBoth(op, f1, f2, y.l, l, y.r, r, x, x1, x2);
      assert Cancel(op, x, y) == (x2, Node(op, l, r)) && y == Node(op, y.l, y.r);
    } else if !(x == y && IsYn(x)) && ExprEq(x, y) {
      ExprEqSound(x, y);
      f := x;
    } else {
      f := Neutral(op);
    }
  }

  /** What `expr_eliminate_eq` removes is a true common factor. */
  lemma {:induction false} ElimEqFactor(x: Expr, y: Expr) returns (op: Op, f: Expr)
    ensures Factor(op, f, x, ElimEq(x, y).0)
    ensures Factor(op, f, y, ElimEq(x, y).1)
    decreases Size(x) + Size(y), 1
  {
    var (x1, y1) := if IsNode(x) then Cancel(OpOf(x), x, y) else (x, y);
    var (x2, y2) := if IsNode(y1) && !Is(OpOf(y1), x1) then Cancel(OpOf(y1), x1, y1) else (x1, y1);
    if IsNode(y1) && !Is(OpOf(y1), x1) {
      if IsNode(x) {
        CancelLeaf(OpOf(x), x, y);
      }
      assert x1 == x && y1 == y;
      op := OpOf(y);
      f := CancelFactor(op, x, y);
    } else if IsNode(x) {
      op := OpOf(x);
      f := CancelFactor(op, x, y);
    } else {
      op, f := OpAnd, E_YES;
    }
    forall env: Env
      ensures FactorAt(op, f, x, ElimYn(x2), env) && FactorAt(op, f, y, ElimYn(y2), env)
    {
      assert FactorAt(op, f, x, x2, env) && FactorAt(op, f, y, y2, env);
      ElimYnValue(x2, env);
      ElimYnValue(y2, env);
    }
  }

  /** Expressions that `expr_eq` calls equal have the same value under every
      assignment. */
  lemma {:induction false} ExprEqSound(x: Expr, y: Expr)
    requires ExprEq(x, y)
    ensures Equivalent(x, y)
    decreases Size(x) + Size(y), 2
  {
    if x.Not? {
      ExprEqSound(x.e, y.e);
    } else if IsNode(x) {
      var op, f := ElimEqFactor(x, y);
      forall env: Env ensures Eval(x, env) == Eval(y, env) {
        assert FactorAt(op, f, x, ElimEq(x, y).0, env) && FactorAt(op, f, y, ElimEq(x, y).1, env);
      }
    }
  }

  lemma ExprEqOptSound(x: Option<Expr>, y: Option<Expr>, env: Env)
    requires ExprEqOpt(x, y)
    ensures EvalOpt(x, env) == EvalOpt(y, env)
  {
    if x.Some? && y.Some? {
      ExprEqSound(x.value, y.value);
    }
  }

  /** An absent expression is equal to another absent one and to what is equal
      to y. */
  lemma AbsentIsYes(x: Option<Expr>)
    ensures ExprEqOpt(x, None) <==> x.None? || ExprEqOpt(x, Some(E_YES))
    ensures ExprEqOpt(None, x) <==> x.None? || ExprEqOpt(x, Some(E_YES))
  {
  }
}
