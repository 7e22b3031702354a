/** Joining two operands of one level (expr_join_or and expr_join_and in
    scripts/config/expr.c). */
module Joins {
  import opened Options
  import opened Texts
  import opened Tristates
  import opened Symbols
  import opened Exprs
  import opened EliminateYn
  import opened EliminateEq

  predicate Joinable(e: Expr) {
    e.Sym? || e.Not? || (e.Comp? && (e.rel.Eq? || e.rel.Ne?))
  }

  /** The symbol an operand talks about; `first` tells the left operand of a
      join, which may also be a negated comparison. */
  function Subject(e: Expr, first: bool): Option<Symbol> {
    match e
    case Sym(s) => Some(s)
    case Comp(_, a, _) => Some(a)
    case Not(Sym(s)) => Some(s)
    case Not(Comp(rel, a, _)) => if first && (rel.Eq? || rel.Ne?) then Some(a) else None
    case _ => None
  }

  /** The symbol both operands talk about, when the source goes on to look
      for a rule. */
  function CommonSubject(x: Expr, y: Expr): Option<Symbol> {
    if !Joinable(x) || !Joinable(y) then None
    else
      match (Subject(x, true), Subject(y, false))
      case (Some(s), Some(t)) => if s == t && s.IsLogic() then Some(s) else None
      case _ => None
  }

  predicate IsComp(e: Expr, rel: Rel, c: Symbol) {
    e.Comp? && e.rel == rel && e.b == c
  }

  predicate BothComp(x: Expr, y: Expr, rel: Rel, c: Symbol, d: Symbol) {
    (IsComp(x, rel, c) && IsComp(y, rel, d)) || (IsComp(x, rel, d) && IsComp(y, rel, c))
  }

  predicate OneSymOneComp(x: Expr, y: Expr, rel: Rel, c: Symbol) {
    (x.Sym? && IsComp(y, rel, c)) || (y.Sym? && IsComp(x, rel, c))
  }

  function JoinOr(x: Expr, y: Expr): Option<Expr> {
    if ExprEq(x, y) then Some(x)
    else
      match CommonSubject(x, y)
      case None => None
      case Some(s) =>
        if s.Type().Tristated? && BothComp(x, y, Eq, SymYes, SymMod) then Some(Comp(Ne, s, SymNo))
        else if s.Type().Tristated? && BothComp(x, y, Eq, SymYes, SymNo) then Some(Comp(Ne, s, SymMod))
        else if s.Type().Tristated? && BothComp(x, y, Eq, SymMod, SymNo) then Some(Comp(Ne, s, SymYes))
        else if s.Type().Boolean? && ((x.Not? && x.e.Sym? && y.Sym?) || (y.Not? && y.e.Sym? && x.Sym?)) then Some(E_YES)
        else None
  }

  /** `(a='b') && (a!='c')` for two constants, in either order: the constants
      b and c. */
  function EqualUnequal(x: Expr, y: Expr): Option<(Symbol, Symbol)> {
    if x.Comp? && y.Comp? && x.rel.Eq? && y.rel.Ne? && x.b.IsConst() && y.b.IsConst() then Some((x.b, y.b))
    else if x.Comp? && y.Comp? && x.rel.Ne? && y.rel.Eq? && x.b.IsConst() && y.b.IsConst() then Some((y.b, x.b))
    else None
  }

  function JoinAnd(x: Expr, y: Expr): Option<Expr> {
    if ExprEq(x, y) then Some(x)
    else
      match CommonSubject(x, y)
      case None => None
      case Some(s) => AndRule(s, x, y)
  }

  /** The rules of `expr_join_and` in the source's order. */
  function AndRule(s: Symbol, x: Expr, y: Expr): Option<Expr> {
    if OneSymOneComp(x, y, Eq, SymYes) then Some(Comp(Eq, s, SymYes))
    else if OneSymOneComp(x, y, Ne, SymNo) then Some(Sym(s))
    else if OneSymOneComp(x, y, Ne, SymMod) then Some(Comp(Eq, s, SymYes))
    else if !s.Type().Tristated? then None
    else
      match EqualUnequal(x, y)
      case Some((b, c)) => if b != c then Some(Comp(Eq, s, b)) else Some(E_NO)
      case None =>
        if BothComp(x, y, Ne, SymYes, SymNo) then Some(Comp(Eq, s, SymMod))
        else if BothComp(x, y, Ne, SymYes, SymMod) then Some(Comp(Eq, s, SymNo))
        else if BothComp(x, y, Ne, SymMod, SymNo) then Some(Comp(Eq, s, SymYes))
        else None
  }

  function Join(op: Op, x: Expr, y: Expr): Option<Expr> {
    if op.OpAnd? then JoinAnd(x, y) else JoinOr(x, y)
  }

  // ----- constants a tristate symbol may be compared with -----

  /** A tristate symbol that holds `v` compares equal to the constant `c`. */
  predicate Meets(c: Symbol, v: Tristate)
    requires c.IsConst()
  {
    CompareTexts(Tristated, TriText(v), Unknown, ConstText(c)) == 0
  }

  function ConstText(c: Symbol): string
    requires c.IsConst()
  {
    match c
    case SymYes => "y"
    case SymMod => "m"
    case SymNo => "n"
    case Const(text) => text
  }

  /** Two different constants that the same tristate value equals: 'n' and
      '0', say, because a number is compared numerically. */
  predicate Clash(b: Symbol, c: Symbol)
    requires b.IsConst() && c.IsConst()
  {
    b != c && ((Meets(b, NO) && Meets(c, NO)) || (Meets(b, MOD) && Meets(c, MOD)) || (Meets(b, YES) && Meets(c, YES)))
  }

  /** What an expression uses of tristate symbols: (a, 'n') for a comparison of
      a with a constant, (a, a) for a as a truth value. */
  type Tests = set<(Symbol, Symbol)>

  /** The uses of tristate symbols in `e`. */
  function TestsIn(e: Expr): Tests {
    match e
    case Sym(s) => if s.Type().Tristated? then {(s, s)} else {}
    case Not(x) => TestsIn(x)
    case And(l, r) => TestsIn(l) + TestsIn(r)
    case Or(l, r) => TestsIn(l) + TestsIn(r)
    case Comp(_, a, b) => if a.Type().Tristated? && b.IsConst() then {(a, b)} else {}
  }

  /** Joins turn two of y, m and n into the third, and m next to the symbol
      itself into y, which leaves all three. */
  predicate Spreads(tests: Tests, s: Symbol) {
    ((s, SymMod) in tests && ((s, s) in tests || (s, SymYes) in tests || (s, SymNo) in tests)) ||
    ((s, SymYes) in tests && (s, SymNo) in tests)
  }

  /** The tests with all that joins can make of them. */
  function WithJoins(tests: Tests): Tests {
    tests + set p, c | p in tests && Spreads(tests, p.0) && c in {SymYes, SymMod, SymNo} :: (p.0, c)
  }

  /** No symbol is compared with two constants that clash. */
  predicate NoClash(tests: Tests) {
    forall p, q :: p in tests && q in tests && p.0 == q.0 && p.1.IsConst() && q.1.IsConst() ==> !Clash(p.1, q.1)
  }

  /** Tests among which all joins keep the value. */
  predicate Peaceful(tests: Tests) {
    NoClash(tests) && forall p :: p in tests && Spreads(tests, p.0) ==>
      (p.0, SymYes) in tests && (p.0, SymMod) in tests && (p.0, SymNo) in tests
  }

  /** Tests and all that joins can make of them are peaceful. */
  lemma JoinsPeaceful(tests: Tests)
    requires NoClash(WithJoins(tests))
    ensures Peaceful(WithJoins(tests))
  {
  }

  /** An operand with comparisons in `tests`, in negation normal form if `nf` says so. */
  predicate Fine(nf: bool, tests: Tests, e: Expr) {
    TestsIn(e) <= tests && (nf ==> Normal(e))
  }

  lemma MeetsTri(c: Symbol, v: Tristate)
    requires c.IsTri()
    ensures Meets(c, v) <==> TriOf(Env(true, map[], map[]), c) == v
  {
    var env := Env(true, map[], map[]);
    TriConstIsText(env, c);
    StrCmpZero(TriText(v), ConstText(c));
  }

  lemma TriNeverClash(b: Symbol, c: Symbol)
    requires b.IsTri() && c.IsTri()
    ensures !Clash(b, c)
  {
    forall v: Tristate ensures Meets(b, v) && Meets(c, v) ==> b == c {
      MeetsTri(b, v);
      MeetsTri(c, v);
    }
  }

  /** Comparisons with y, m and n alone never clash. */
  lemma TriNoClash(tests: Tests)
    requires forall p :: p in tests && p.1.IsConst() ==> p.1.IsTri()
    ensures NoClash(tests)
  {
    forall p, q | p in tests && q in tests && p.0 == q.0 && p.1.IsConst() && q.1.IsConst() ensures !Clash(p.1, q.1) {
      TriNeverClash(p.1, q.1);
    }
  }

  // ----- meaning -----

  /** Replacing `x op y` by `z` changes no value. */
  ghost predicate JoinKeeps(op: Op, x: Expr, y: Expr, z: Expr) {
    forall env: Env :: Eval(z, env) == Combine(op, Eval(x, env), Eval(y, env))
  }

  lemma CompLogic(env: Env, rel: Rel, s: Symbol, c: Symbol)
    requires s.IsLogic() && c.IsTri() && (rel.Eq? || rel.Ne?)
    ensures Eval(Comp(rel, s, c), env) == Bool((TriOf(env, s) == TriOf(env, c)) == rel.Eq?)
  {
    CompareTriConst(env, s, c);
  }

  lemma JoinOrKeeps(x: Expr, y: Expr)
    requires JoinOr(x, y).Some?
    ensures JoinKeeps(OpOr, x, y, JoinOr(x, y).value)
  {
    if ExprEq(x, y) {
      ExprEqSound(x, y);
    } else {
      var s := CommonSubject(x, y).value;
      forall env: Env ensures Eval(JoinOr(x, y).value, env) == TriOr(Eval(x, env), Eval(y, env)) {
        if s.Type().Boolean? {
          OrBooleanValue(s, x, y, env);
        } else {
          OrCompValue(s, x, y, env);
        }
      }
    }
  }

  lemma OrBooleanValue(s: Symbol, x: Expr, y: Expr, env: Env)
    requires !ExprEq(x, y) && CommonSubject(x, y) == Some(s) && s.Type().Boolean? && JoinOr(x, y).Some?
    ensures Eval(JoinOr(x, y).value, env) == TriOr(Eval(x, env), Eval(y, env))
  {
    var positive := if x.Not? then y else x;
    assert positive == Sym(s) && (x == Not(Sym(s)) || y == Not(Sym(s)));
  }

  lemma OrCompValue(s: Symbol, x: Expr, y: Expr, env: Env)
    requires !ExprEq(x, y) && CommonSubject(x, y) == Some(s) && s.Type().Tristated? && JoinOr(x, y).Some?
    ensures Eval(JoinOr(x, y).value, env) == TriOr(Eval(x, env), Eval(y, env))
  {
    var z := JoinOr(x, y).value;
    assert x.Comp? && y.Comp? && z.Comp? && x.rel == y.rel == Eq && z.rel == Ne;
    assert x.a == y.a == z.a == s && x.b.IsTri() && y.b.IsTri() && z.b.IsTri();
    CompLogic(env, Eq, s, x.b);
    CompLogic(env, Eq, s, y.b);
    CompLogic(env, Ne, s, z.b);
  }

  /** Every rule of `expr_join_and` but one changes no value. */
  lemma JoinAndKeeps(x: Expr, y: Expr)
    requires JoinAnd(x, y).Some?
    requires !ExprEq(x, y) && CommonSubject(x, y).Some? ==> EqualUnequal(x, y).None?
    ensures JoinKeeps(OpAnd, x, y, JoinAnd(x, y).value)
  {
    if ExprEq(x, y) {
      ExprEqSound(x, y);
    } else {
      var s := CommonSubject(x, y).value;
      forall env: Env ensures Eval(JoinAnd(x, y).value, env) == TriAnd(Eval(x, env), Eval(y, env)) {
        AndRuleValue(s, x, y, env);
      }
    }
  }

  lemma AndRuleValue(s: Symbol, x: Expr, y: Expr, env: Env)
    requires CommonSubject(x, y) == Some(s)
    requires EqualUnequal(x, y).None? && AndRule(s, x, y).Some?
    ensures Eval(AndRule(s, x, y).value, env) == TriAnd(Eval(x, env), Eval(y, env))
  {
    if x.Sym? || y.Sym? {
      AndSymValue(s, x, y, env);
    } else {
      AndCompValue(s, x, y, env);
    }
  }

  lemma AndSymValue(s: Symbol, x: Expr, y: Expr, env: Env)
    requires CommonSubject(x, y) == Some(s)
    requires (x.Sym? || y.Sym?) && AndRule(s, x, y).Some?
    ensures Eval(AndRule(s, x, y).value, env) == TriAnd(Eval(x, env), Eval(y, env))
  {
    var comp := if x.Sym? then y else x;
    assert comp.Comp? && comp.a == s && comp.b.IsTri();
    CompLogic(env, comp.rel, s, comp.b);
    CompLogic(env, Eq, s, SymYes);
  }

  lemma AndCompValue(s: Symbol, x: Expr, y: Expr, env: Env)
    requires CommonSubject(x, y) == Some(s)
    requires !x.Sym? && !y.Sym? && EqualUnequal(x, y).None? && AndRule(s, x, y).Some?
    ensures Eval(AndRule(s, x, y).value, env) == TriAnd(Eval(x, env), Eval(y, env))
  {
    var z := AndRule(s, x, y).value;
    assert x.Comp? && y.Comp? && z.Comp? && x.rel == y.rel == Ne && z.rel == Eq;
    assert x.a == y.a == z.a == s && x.b.IsTri() && y.b.IsTri() && z.b.IsTri();
    CompLogic(env, Ne, s, x.b);
    CompLogic(env, Ne, s, y.b);
    CompLogic(env, Eq, s, z.b);
  }

  lemma MeetsCompare(env: Env, s: Symbol, c: Symbol)
    requires s.Type().Tristated? && c.IsConst()
    ensures Compare(env, s, c) == 0 <==> Meets(c, TriOf(env, s))
  {
  }

  /** The remaining rule, `(a='b') && (a!='c')` for a tristate a and two
      constants, changes no value exactly when no tristate value equals both
      constants although they differ. */
  lemma EqualUnequalKeepsIff(x: Expr, y: Expr, b: Symbol, c: Symbol)
    requires !ExprEq(x, y) && CommonSubject(x, y).Some? && CommonSubject(x, y).value.Type().Tristated?
    requires EqualUnequal(x, y) == Some((b, c))
    ensures JoinAnd(x, y).Some?
    ensures JoinKeeps(OpAnd, x, y, JoinAnd(x, y).value) <==> !Clash(b, c)
  {
    var s := CommonSubject(x, y).value;
    var z := JoinAnd(x, y).value;
    if Clash(b, c) {
      ClashBreaks(x, y, s, b, c);
    } else {
      forall env: Env ensures Eval(z, env) == TriAnd(Eval(x, env), Eval(y, env)) {
        MeetsCompare(env, s, b);
        MeetsCompare(env, s, c);
      }
    }
  }

  /** At a value that equals both constants the operands together are n, and
      the join is y. */
  lemma ClashBreaks(x: Expr, y: Expr, s: Symbol, b: Symbol, c: Symbol)
    requires !ExprEq(x, y) && CommonSubject(x, y) == Some(s) && s.Type().Tristated?
    requires EqualUnequal(x, y) == Some((b, c)) && Clash(b, c)
    ensures JoinAnd(x, y).Some? && !JoinKeeps(OpAnd, x, y, JoinAnd(x, y).value)
  {
    var v := if Meets(b, NO) && Meets(c, NO) then NO else if Meets(b, MOD) && Meets(c, MOD) then MOD else YES;
    var env := Env(true, map[s := v], map[]);
    assert TriOf(env, s) == v;
    MeetsCompare(env, s, b);
    MeetsCompare(env, s, c);
    assert Eval(JoinAnd(x, y).value, env) == YES && TriAnd(Eval(x, env), Eval(y, env)) == NO;
  }

  // ----- the rules that are there -----

  /** Two of y, m and n and the third. */
  predicate AllThree(t: Symbol, u: Symbol, b: Symbol) {
    t.IsTri() && u.IsTri() && b.IsTri() && t != u && t != b && u != b
  }

  /** `a = t || a = u` is `a != b`, and a boolean or its negation is y. */
  lemma OrRules(s: Symbol, t: Symbol, u: Symbol, b: Symbol)
    ensures s.Type().Tristated? && AllThree(t, u, b) ==> JoinOr(Comp(Eq, s, t), Comp(Eq, s, u)) == Some(Comp(Ne, s, b))
    ensures s.Type().Boolean? ==>
              JoinOr(Sym(s), Not(Sym(s))) == Some(E_YES) && JoinOr(Not(Sym(s)), Sym(s)) == Some(E_YES)
  {
  }

  /** `a != t && a != u` is `a = b`; of `a = b && a != c` for constants the
      first remains, or n if they are the same. */
  lemma AndRules(s: Symbol, t: Symbol, u: Symbol, b: Symbol, c: Symbol)
    requires s.Type().Tristated?
    ensures AllThree(t, u, b) ==> JoinAnd(Comp(Ne, s, t), Comp(Ne, s, u)) == Some(Comp(Eq, s, b))
    ensures b.IsConst() && c.IsConst() ==>
              var z := if b != c then Comp(Eq, s, b) else E_NO;
              JoinAnd(Comp(Eq, s, b), Comp(Ne, s, c)) == Some(z) && JoinAnd(Comp(Ne, s, c), Comp(Eq, s, b)) == Some(z)
  {
  }

  /** A symbol and a comparison of it, in either order. */
  lemma AndSymbolRules(s: Symbol)
    requires s.IsLogic()
    ensures JoinAnd(Sym(s), Comp(Eq, s, SymYes)) == JoinAnd(Comp(Eq, s, SymYes), Sym(s)) == Some(Comp(Eq, s, SymYes))
    ensures JoinAnd(Sym(s), Comp(Ne, s, SymNo)) == JoinAnd(Comp(Ne, s, SymNo), Sym(s)) == Some(Sym(s))
    ensures JoinAnd(Sym(s), Comp(Ne, s, SymMod)) == JoinAnd(Comp(Ne, s, SymMod), Sym(s)) == Some(Comp(Eq, s, SymYes))
  {
  }

  // ----- joins among given tests -----

  /** On peaceful tests a join changes no value, adds no test and keeps
      normal form. */
  lemma JoinSound(nf: bool, tests: Tests, op: Op, x: Expr, y: Expr)
    requires Peaceful(tests) && Fine(nf, tests, x) && Fine(nf, tests, y) && Join(op, x, y).Some?
    ensures JoinKeeps(op, x, y, Join(op, x, y).value)
    ensures Fine(nf, tests, Join(op, x, y).value)
  {
    JoinTests(nf, tests, op, x, y);
    if op.OpOr? {
      JoinOrKeeps(x, y);
    } else if !ExprEq(x, y) && CommonSubject(x, y).Some? && EqualUnequal(x, y).Some? {
      var (b, c) := EqualUnequal(x, y).value;
      var s := CommonSubject(x, y).value;
      assert x.a == s && y.a == s;
      if s.Type().Tristated? {
        assert (s, b) in tests && (s, c) in tests;
        EqualUnequalKeepsIff(x, y, b, c);
      }
    } else {
      JoinAndKeeps(x, y);
    }
  }

  lemma JoinTests(nf: bool, tests: Tests, op: Op, x: Expr, y: Expr)
    requires Peaceful(tests) && Fine(nf, tests, x) && Fine(nf, tests, y) && Join(op, x, y).Some?
    ensures Fine(nf, tests, Join(op, x, y).value)
  {
    var z := Join(op, x, y).value;
    if z != x && z.Comp? && z.a.Type().Tristated? {
      var w := if x.Comp? && x.b.IsConst() then x else y;
      assert w.Comp? && w.a == z.a && (w.a, w.b) in tests;
    }
  }

  lemma JoinShape(op: Op, x: Expr, y: Expr)
    requires Join(op, x, y).Some?
    ensures Join(op, x, y).value == x || Size(Join(op, x, y).value) == 1
    ensures IsYn(y) ==> x == y && Join(op, x, y).value == x
  {
  }

  lemma ZeroMeetsNo()
    ensures Meets(Const("0"), NO)
  {
    assert SkipSpaces("0") == "0";
    assert Digits("0", 8) == Digits("", 8) * 8 + 0;
    assert ParseText(Unknown, "0") == Signed(0);
  }

  /** A tristate symbol that holds n equals both 'n' and '0', so joining
      `a = n && a != "0"` into `a = n` turns n into y. */
  lemma NumericConstantBreaksJoin(s: Symbol)
    requires s.Type().Tristated?
    ensures var x, y := Comp(Eq, s, SymNo), Comp(Ne, s, Const("0"));
            JoinAnd(x, y) == Some(x) && !JoinKeeps(OpAnd, x, y, x)
  {
    MeetsTri(SymNo, NO);
    ZeroMeetsNo();
    EqualUnequalKeepsIff(Comp(Eq, s, SymNo), Comp(Ne, s, Const("0")), SymNo, Const("0"));
  }
}
