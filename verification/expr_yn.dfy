/** Removal of constant operands (expr_eliminate_yn in scripts/config/expr.c). */
module EliminateYn {
  import opened Symbols
  import opened Exprs

  /** `expr_eliminate_yn`: the operands first, then the four tests of the
      source in its order. */
  function ElimYn(e: Expr): Expr {
    match e
    case And(l0, r0) =>
      var l, r := ElimYn(l0), ElimYn(r0);
      if l == E_NO then E_NO
      else if l == E_YES then r
      else if r == E_NO then E_NO
      else if r == E_YES then l
      else And(l, r)
    case Or(l0, r0) =>
      var l, r := ElimYn(l0), ElimYn(r0);
      if l == E_NO then r
      else if l == E_YES then E_YES
      else if r == E_NO then l
      else if r == E_YES then E_YES
      else Or(l, r)
    case _ => e
  }

  predicate IsYn(e: Expr) {
    e == E_YES || e == E_NO
  }

  /** No && or || that can be reached through && and || has y or n as an
      operand. */
  predicate Reduced(e: Expr) {
    IsNode(e) ==> !IsYn(e.l) && !IsYn(e.r) && Reduced(e.l) && Reduced(e.r)
  }

  lemma {:induction false} ElimYnValue(e: Expr, env: Env)
    ensures Eval(ElimYn(e), env) == Eval(e, env)
  {
    if IsNode(e) {
      ElimYnValue(e.l, env);
      ElimYnValue(e.r, env);
    }
  }

  lemma {:induction false} ElimYnReduces(e: Expr)
    ensures Reduced(ElimYn(e))
    ensures ElimYn(e) == e <==> Reduced(e)
    ensures Size(ElimYn(e)) <= Size(e)
    ensures !Reduced(e) ==> Size(ElimYn(e)) < Size(e)
  {
    if IsNode(e) {
      ElimYnReduces(e.l);
      ElimYnReduces(e.r);
    }
  }
}
