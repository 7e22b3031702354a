/** Rewriting to negation normal form (expr_transform in
    scripts/config/expr.c). */
module Transforms {
  import opened Tristates
  import opened Symbols
  import opened Exprs
  import opened Joins

  /** The termination weight.  De Morgan adds nodes, so a NOT doubles what is
      under it: 2(a + b + 1) > 2a + 2b + 1. */
  function Weight(e: Expr): (w: nat)
    ensures w > 0
  {
    match e
    case Sym(_) => 1
    case Comp(_, _, _) => 2
    case Not(x) => 2 * Weight(x)
    case And(l, r) => Weight(l) + Weight(r) + 1
    case Or(l, r) => Weight(l) + Weight(r) + 1
  }

  lemma DeMorganWeight(l: Expr, r: Expr)
    ensures Weight(And(Not(l), Not(r))) == Weight(Or(Not(l), Not(r))) < Weight(Not(Or(l, r)))
    ensures Weight(Not(Or(l, r))) == Weight(Not(And(l, r)))
  {
    assert Weight(Not(l)) == 2 * Weight(l) && Weight(Not(r)) == 2 * Weight(r);
  }

  /** The comparison of a boolean symbol with y, m or n as a symbol or its
      negation. */
  function TransformComp(e: Expr): Expr
    requires e.Comp?
  {
    if !e.a.Type().Boolean? then e
    else if e.rel.Eq? then
      if e.b == SymNo then Not(Sym(e.a))
      else if e.b == SymMod then E_NO
      else if e.b == SymYes then Sym(e.a)
      else e
    else if e.rel.Ne? then
      if e.b == SymNo then Sym(e.a)
      else if e.b == SymMod then E_YES
      else if e.b == SymYes then Not(Sym(e.a))
      else e
    else e
  }

  function Opposite(rel: Rel): Rel {
    match rel
    case Eq => Ne
    case Ne => Eq
    case Le => Gt
    case Ge => Lt
    case Lt => Ge
    case Gt => Le
  }

  /** `expr_transform`: the operands first, then the node itself; a rewritten
      NOT is transformed again. */
  function Transform(e: Expr): (r: Expr)
    ensures Weight(r) <= Weight(e)
    decreases Weight(e)
  {
    match e
    case Sym(_) => e
    case Comp(_, _, _) => TransformComp(e)
    case And(l, r) => And(Transform(l), Transform(r))
    case Or(l, r) => Or(Transform(l), Transform(r))
    case Not(x) =>
      match Transform(x)
      case Not(y) => Transform(y)
      case Comp(rel, a, b) => Comp(Opposite(rel), a, b)
      case Or(l, r) => DeMorganWeight(l, r); Transform(And(Not(l), Not(r)))
      case And(l, r) => DeMorganWeight(l, r); Transform(Or(Not(l), Not(r)))
      case Sym(s) =>
        if s == SymYes then E_NO
        else if s == SymMod then Sym(SymMod)
        else if s == SymNo then E_YES
        else Not(Sym(s))
  }

  lemma TransformCompValue(e: Expr, env: Env)
    requires e.Comp?
    ensures Eval(TransformComp(e), env) == Eval(e, env)
  {
    if IsBoolTest(e) {
      CompLogic(env, e.rel, e.a, e.b);
    }
  }

  lemma DeMorganValue(l: Expr, r: Expr, env: Env)
    ensures Eval(And(Not(l), Not(r)), env) == Eval(Not(Or(l, r)), env)
    ensures Eval(Or(Not(l), Not(r)), env) == Eval(Not(And(l, r)), env)
  {
    assert Eval(Not(l), env) == TriNot(Eval(l, env)) && Eval(Not(r), env) == TriNot(Eval(r, env));
  }

  /** The rewritten expression has the value of the original under every
      assignment. */
  lemma {:induction false} TransformValue(e: Expr, env: Env)
    ensures Eval(Transform(e), env) == Eval(e, env)
    decreases Weight(e), 1
  {
    match e
    case Sym(_) =>
    case Comp(rel, a, b) =>
      TransformCompValue(e, env);
    case And(l, r) =>
      TransformValue(l, env);
      TransformValue(r, env);
    case Or(l, r) =>
      TransformValue(l, env);
      TransformValue(r, env);
    case Not(x) =>
      TransformNotValue(x, env);
  }

  lemma {:induction false} TransformNotValue(x: Expr, env: Env)
    ensures Eval(Transform(Not(x)), env) == TriNot(Eval(x, env))
    decreases Weight(Not(x)), 0
  {
    TransformValue(x, env);
    match Transform(x)
    case Not(y) => TransformValue(y, env);
    case Comp(rel, a, b) => OppositeHolds(rel, Compare(env, a, b));
    case Sym(_) =>
    case Or(l, r) => DeMorganWeight(l, r); DeMorganValue(l, r, env); TransformValue(And(Not(l), Not(r)), env);
    case And(l, r) => DeMorganWeight(l, r); DeMorganValue(l, r, env); TransformValue(Or(Not(l), Not(r)), env);
  }

  lemma OppositeHolds(rel: Rel, res: int)
    ensures RelHolds(Opposite(rel), res) == !RelHolds(rel, res)
  {
  }

  lemma {:induction false} TransformNormal(e: Expr)
    ensures Normal(Transform(e))
    decreases Weight(e)
  {
    match e
    case Sym(_) =>
    case Comp(_, _, _) =>
    case And(l, r) =>
      TransformNormal(l);
      TransformNormal(r);
    case Or(l, r) =>
      TransformNormal(l);
      TransformNormal(r);
    case Not(x) =>
      TransformNormal(x);
      match Transform(x) {
        case Not(y) => TransformNormal(y);
        case Comp(_, _, _) =>
        case Sym(_) =>
        case Or(l, r) => DeMorganWeight(l, r); TransformNormal(And(Not(l), Not(r)));
        case And(l, r) => DeMorganWeight(l, r); TransformNormal(Or(Not(l), Not(r)));
      }
  }

  /** A normal expression is left as it is. */
  lemma {:induction false} TransformKeepsNormal(e: Expr)
    requires Normal(e)
    ensures Transform(e) == e
  {
    if IsNode(e) {
      TransformKeepsNormal(e.l);
      TransformKeepsNormal(e.r);
    }
  }

  lemma TransformIdempotent(e: Expr)
    ensures Transform(Transform(e)) == Transform(e)
  {
    TransformNormal(e);
    TransformKeepsNormal(Transform(e));
  }

  /** De Morgan adds nodes, so their number is no termination measure:
      !(a || (b || c)) has six nodes, its normal form eight. */
  lemma TransformMayGrow(a: Symbol, b: Symbol, c: Symbol)
    requires !a.IsTri() && !b.IsTri() && !c.IsTri()
    ensures var e := Not(Or(Sym(a), Or(Sym(b), Sym(c)))); Size(Transform(e)) > Size(e)
  {
    var inner := Or(Sym(b), Sym(c));
    var notA, notB, notC := Not(Sym(a)), Not(Sym(b)), Not(Sym(c));
    var notInner := And(notB, notC);
    TransformNotOr(Sym(b), Sym(c), notInner);
    TransformKeepsNormal(notInner);
    TransformNotOr(Sym(a), inner, And(notA, Not(inner)));
    TransformKeepsNormal(notA);
    assert Transform(And(notA, Not(inner))) == And(notA, notInner);
    assert Size(Sym(a)) == 1 && Size(Sym(b)) == 1 && Size(Sym(c)) == 1;
    assert Size(notA) == 2 && Size(notB) == 2 && Size(notC) == 2;
    assert Size(notInner) == 1 + Size(notB) + Size(notC);
    assert Size(inner) == 3;
  }

  lemma TransformNotOr(l: Expr, r: Expr, demorgan: Expr)
    requires Normal(l) && Normal(r) && demorgan == And(Not(l), Not(r))
    ensures Transform(Not(Or(l, r))) == Transform(demorgan)
  {
    TransformKeepsNormal(Or(l, r));
  }

  /** No comparison of a tristate symbol with a constant is added. */
  lemma {:induction false} TransformTests(e: Expr)
    ensures TestsIn(Transform(e)) <= TestsIn(e)
    decreases Weight(e)
  {
    match e
    case Sym(_) =>
    case Comp(_, _, _) =>
    case And(l, r) =>
      TransformTests(l);
      TransformTests(r);
    case Or(l, r) =>
      TransformTests(l);
      TransformTests(r);
    case Not(x) =>
      TransformTests(x);
      match Transform(x) {
        case Not(y) => TransformTests(y);
        case Comp(_, _, _) =>
        case Sym(_) =>
        case Or(l, r) => DeMorganWeight(l, r); TransformTests(And(Not(l), Not(r)));
        case And(l, r) => DeMorganWeight(l, r); TransformTests(Or(Not(l), Not(r)));
      }
  }
}
