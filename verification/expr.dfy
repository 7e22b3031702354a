/** Dependency expressions and their value (scripts/config/expr.h, expr.c). */
module Exprs {
  import opened Options
  import opened Tristates
  import opened Symbols

  datatype Rel = Eq | Ne | Lt | Le | Gt | Ge

  datatype Expr =
    | Sym(s: Symbol)
    | Not(e: Expr)
    | And(l: Expr, r: Expr)
    | Or(l: Expr, r: Expr)
    | Comp(rel: Rel, a: Symbol, b: Symbol)

  const E_YES := Sym(SymYes)
  const E_NO := Sym(SymNo)

  function RelHolds(rel: Rel, res: int): bool {
    match rel
    case Eq => res == 0
    case Ne => res != 0
    case Lt => res < 0
    case Le => res <= 0
    case Gt => res > 0
    case Ge => res >= 0
  }

  /** The value of an expression when every symbol holds what `env` says. */
  function Eval(e: Expr, env: Env): Tristate {
    match e
    case Sym(s) => TriOf(env, s)
    case Not(x) => TriNot(Eval(x, env))
    case And(l, r) => TriAnd(Eval(l, env), Eval(r, env))
    case Or(l, r) => TriOr(Eval(l, env), Eval(r, env))
    case Comp(rel, a, b) => Bool(RelHolds(rel, Compare(env, a, b)))
  }

  /** An absent expression counts as y. */
  function EvalOpt(e: Option<Expr>, env: Env): Tristate {
    match e
    case None => YES
    case Some(x) => Eval(x, env)
  }

  ghost predicate Equivalent(x: Expr, y: Expr) {
    forall env: Env :: Eval(x, env) == Eval(y, env)
  }

  /** Number of nodes. */
  function Size(e: Expr): (n: nat)
    ensures n > 0
  {
    match e
    case Sym(_) => 1
    case Comp(_, _, _) => 1
    case Not(x) => 1 + Size(x)
    case And(l, r) => 1 + Size(l) + Size(r)
    case Or(l, r) => 1 + Size(l) + Size(r)
  }

  /** A comparison of a boolean symbol with y, m or n. */
  predicate IsBoolTest(e: Expr) {
    e.Comp? && (e.rel.Eq? || e.rel.Ne?) && e.a.Type().Boolean? && e.b.IsTri()
  }

  /** Negation normal form: a NOT stands only above a symbol other than
      y, m, n, and no boolean symbol is compared with y, m or n. */
  predicate Normal(e: Expr) {
    match e
    case Sym(_) => true
    case Comp(_, _, _) => !IsBoolTest(e)
    case Not(x) => x.Sym? && !x.s.IsTri()
    case And(l, r) => Normal(l) && Normal(r)
    case Or(l, r) => Normal(l) && Normal(r)
  }

  /** The two operators that combine a level of operands. */
  datatype Op = OpAnd | OpOr

  function Combine(op: Op, x: Tristate, y: Tristate): Tristate {
    if op.OpAnd? then TriAnd(x, y) else TriOr(x, y)
  }

  function Node(op: Op, l: Expr, r: Expr): Expr {
    if op.OpAnd? then And(l, r) else Or(l, r)
  }

  /** The operand that changes nothing: y for &&, n for ||. */
  function Neutral(op: Op): Expr {
    if op.OpAnd? then E_YES else E_NO
  }

  predicate Is(op: Op, e: Expr) {
    if op.OpAnd? then e.And? else e.Or?
  }

  predicate IsNode(e: Expr) {
    e.And? || e.Or?
  }

  function OpOf(e: Expr): Op
    requires IsNode(e)
  {
    if e.And? then OpAnd else OpOr
  }

  function AllocAnd(x: Option<Expr>, y: Option<Expr>): (r: Option<Expr>)
    ensures forall env :: EvalOpt(r, env) == TriAnd(EvalOpt(x, env), EvalOpt(y, env))
  {
    match (x, y)
    case (None, _) => y
    case (_, None) => x
    case (Some(p), Some(q)) => Some(And(p, q))
  }
}
