/** Explicit comparisons, and the tests that read a dependency (expr_trans_*,
    expr_contains_symbol and expr_depends_symbol in scripts/config/expr.c; the
    submenu test of menu.c). */
module Comparisons {
  import opened Options
  import opened Tristates
  import opened Symbols
  import opened Exprs
  import opened EliminateEq
  import opened Joins
  import opened EliminateDups
  import opened DupsExact
  import opened Transforms

  // ----- expr_trans_compare -----

  /** `expr_trans_compare(e, E_UNEQUAL or E_EQUAL, sym)` for sym one of y, m
      and n.  With m the source leaves && and || as they are. */
  function TransCompare(e: Expr, unequal: bool, sym: Symbol): Expr
    requires sym.IsTri()
  {
    match e
    case And(l, r) =>
      var x, y := TransCompare(l, false, sym), TransCompare(r, false, sym);
      var both := if sym == SymYes then And(x, y) else if sym == SymNo then Or(x, y) else e;
      if unequal then Not(both) else both
    case Or(l, r) =>
      var x, y := TransCompare(l, false, sym), TransCompare(r, false, sym);
      var both := if sym == SymYes then Or(x, y) else if sym == SymNo then And(x, y) else e;
      if unequal then Not(both) else both
    case Not(x) => TransCompare(x, !unequal, sym)
    case Comp(_, _, _) =>
      if sym == SymMod then (if unequal then E_YES else E_NO)
      else if (sym == SymYes) != unequal then e
      else Not(e)
    case Sym(s) => Comp(if unequal then Ne else Eq, s, sym)
  }

  /** An absent expression counts as y. */
  function TransCompareOpt(e: Option<Expr>, unequal: bool, sym: Symbol): Expr
    requires sym.IsTri()
  {
    match e
    case None => if unequal then Not(Sym(sym)) else Sym(sym)
    case Some(x) => TransCompare(x, unequal, sym)
  }

  /** The expression read in two-valued logic: at level y a symbol is true
      when it reads y, at level m when it does not read n. */
  predicate AtLeast(e: Expr, env: Env, level: Tristate) {
    match e
    case Sym(s) => if level == YES then TextOf(env, s) == "y" else TextOf(env, s) != "n"
    case Not(x) => !AtLeast(x, env, level)
    case And(l, r) => AtLeast(l, env, level) && AtLeast(r, env, level)
    case Or(l, r) => AtLeast(l, env, level) || AtLeast(r, env, level)
    case Comp(_, _, _) => Eval(e, env) == YES
  }

  function Level(sym: Symbol): Tristate {
    if sym == SymYes then YES else MOD
  }

  /** The text of every symbol used as a truth value tells whether its value
      is at least `level`. */
  predicate TextsTell(e: Expr, env: Env, level: Tristate) {
    match e
    case Sym(s) => AtLeast(e, env, level) <==> TriOf(env, s) >= level
    case Not(x) => TextsTell(x, env, level)
    case And(l, r) => TextsTell(l, env, level) && TextsTell(r, env, level)
    case Or(l, r) => TextsTell(l, env, level) && TextsTell(r, env, level)
    case Comp(_, _, _) => true
  }

  /** That of a boolean or tristate symbol and of y, m and n always does, and
      that of another one does if it is n. */
  lemma TextTells(s: Symbol, env: Env)
    ensures s.IsLogic() || s.IsTri() ==> TextsTell(Sym(s), env, MOD) && TextsTell(Sym(s), env, YES)
    ensures !s.IsLogic() && !s.IsTri() ==> (TextsTell(Sym(s), env, MOD) <==> TextOf(env, s) == "n")
  {
  }

  /** What the inserted comparisons compute, for every expression: compared
      with n, the two-valued reading in which m counts as true; compared with
      y, the one in which m counts as false. */
  lemma {:induction false} TransCompareExact(e: Expr, unequal: bool, sym: Symbol, env: Env)
    requires sym == SymYes || sym == SymNo
    ensures Eval(TransCompare(e, unequal, sym), env)
            == Bool((AtLeast(e, env, Level(sym)) == (sym == SymYes)) != unequal)
  {
    match e
    case Sym(s) => CompareTriConst(env, s, sym);
    case Not(x) => TransCompareExact(x, !unequal, sym, env);
    case And(l, r) =>
      TransCompareExact(l, false, sym, env);
      TransCompareExact(r, false, sym, env);
      EvalNot(TransCompare(e, false, sym), env);
    case Or(l, r) =>
      TransCompareExact(l, false, sym, env);
      TransCompareExact(r, false, sym, env);
      EvalNot(TransCompare(e, false, sym), env);
    case Comp(_, _, _) => EvalNot(e, env);
  }

  lemma EvalNot(e: Expr, env: Env)
    ensures Eval(Not(e), env) == TriNot(Eval(e, env))
  {
  }

  /** Compared with m, a symbol is tested for m, a comparison never is m, and
      && and || are left as they are. */
  lemma TransCompareMod(e: Expr, env: Env)
    ensures e.Sym? ==> Eval(TransCompare(e, false, SymMod), env) == Bool(TextOf(env, e.s) == "m")
    ensures e.Comp? ==> Eval(TransCompare(e, false, SymMod), env) == NO
    ensures IsNode(e) ==> Eval(TransCompare(e, false, SymMod), env) == Eval(e, env)
    ensures !e.Not? ==> Eval(TransCompare(e, true, SymMod), env) == TriNot(Eval(TransCompare(e, false, SymMod), env))
    ensures e.Not? ==> Eval(TransCompare(e, false, SymMod), env) == Eval(TransCompare(e.e, true, SymMod), env)
  {
    if e.Sym? {
      CompareTriConst(env, e.s, SymMod);
    }
  }

  predicate NotFree(e: Expr) {
    !e.Not? && (IsNode(e) ==> NotFree(e.l) && NotFree(e.r))
  }

  /** The two-valued reading agrees with the value on y and on n; without a
      NOT it agrees everywhere. */
  lemma {:induction false} AtLeastReading(e: Expr, env: Env, level: Tristate)
    requires level == YES || level == MOD
    requires TextsTell(e, env, level)
    ensures Eval(e, env) == YES ==> AtLeast(e, env, level)
    ensures Eval(e, env) == NO ==> !AtLeast(e, env, level)
    ensures NotFree(e) ==> (AtLeast(e, env, level) <==> Eval(e, env) >= level)
  {
    match e
    case Not(x) => AtLeastReading(x, env, level);
    case And(l, r) =>
      AtLeastReading(l, env, level);
      AtLeastReading(r, env, level);
    case Or(l, r) =>
      AtLeastReading(l, env, level);
      AtLeastReading(r, env, level);
    case _ =>
  }

  /** `e != n` in explicit comparisons is always y or n.  If the texts tell, it
      is y where e is y and n where e is n, and without a NOT it is y exactly
      where e is not n. */
  lemma TransCompareNotNo(e: Expr, env: Env)
    ensures var v := Eval(TransCompare(e, true, SymNo), env);
            (v == YES || v == NO) &&
            (TextsTell(e, env, MOD) ==>
               (Eval(e, env) == YES ==> v == YES) &&
               (Eval(e, env) == NO ==> v == NO) &&
               (NotFree(e) ==> (v == YES <==> Eval(e, env) != NO)))
  {
    TransCompareExact(e, true, SymNo, env);
    if TextsTell(e, env, MOD) {
      AtLeastReading(e, env, MOD);
    }
  }

  /** For a symbol by itself that is also needed: the inserted comparison of
      a string or number symbol, whose value is n, is right only if its text
      is n. */
  lemma TransCompareSymbol(s: Symbol, env: Env)
    ensures Eval(TransCompare(Sym(s), true, SymNo), env) == Bool(TriOf(env, s) != NO) <==> TextsTell(Sym(s), env, MOD)
    ensures !s.IsLogic() && !s.IsTri() ==> (TextsTell(Sym(s), env, MOD) <==> TextOf(env, s) == "n")
  {
    TransCompareExact(Sym(s), true, SymNo, env);
    TextTells(s, env);
  }

  /** Under a NOT the test is too strict: `!x` is not n whenever x is not y,
      but its inserted comparison holds only where x is n.  For an x without
      NOT the two agree exactly where x is not m. */
  lemma TransCompareUnderNot(x: Expr, env: Env)
    requires NotFree(x) && TextsTell(x, env, MOD)
    ensures Eval(TransCompare(Not(x), true, SymNo), env) == Bool(Eval(Not(x), env) != NO) <==> Eval(x, env) != MOD
  {
    TransCompareExact(Not(x), true, SymNo, env);
    AtLeastReading(x, env, MOD);
    EvalNot(x, env);
  }

  // ----- expr_contains_symbol, expr_depends_symbol -----

  predicate Contains(e: Expr, s: Symbol) {
    match e
    case Sym(t) => t == s
    case Comp(_, a, b) => a == s || b == s
    case Not(x) => Contains(x, s)
    case And(l, r) => Contains(l, s) || Contains(r, s)
    case Or(l, r) => Contains(l, s) || Contains(r, s)
  }

  predicate Depends(e: Expr, s: Symbol) {
    match e
    case And(l, r) => Depends(l, s) || Depends(r, s)
    case Sym(t) => t == s
    case Comp(rel, a, b) =>
      a == s && ((rel.Eq? && (b == SymYes || b == SymMod)) || (rel.Ne? && b == SymNo))
    case _ => false
  }

  ghost predicate AgreeExcept(s: Symbol, env: Env, env': Env) {
    forall t: Symbol :: t != s ==> TriOf(env, t) == TriOf(env', t) && TextOf(env, t) == TextOf(env', t)
  }

  /** A symbol an expression does not contain has no influence on its value. */
  lemma {:induction false} ContainsFrame(e: Expr, s: Symbol, env: Env, env': Env)
    requires !Contains(e, s) && AgreeExcept(s, env, env')
    ensures Eval(e, env) == Eval(e, env')
  {
    match e
    case Not(x) => ContainsFrame(x, s, env, env');
    case And(l, r) =>
      ContainsFrame(l, s, env, env');
      ContainsFrame(r, s, env, env');
    case Or(l, r) =>
      ContainsFrame(l, s, env, env');
      ContainsFrame(r, s, env, env');
    case _ =>
  }

  /** `x` is `e` or part of it. */
  predicate Part(x: Expr, e: Expr) {
    x == e ||
    match e
    case Not(y) => Part(x, y)
    case And(l, r) => Part(x, l) || Part(x, r)
    case Or(l, r) => Part(x, l) || Part(x, r)
    case _ => false
  }

  predicate Names(x: Expr, s: Symbol) {
    x == Sym(s) || (x.Comp? && (x.a == s || x.b == s))
  }

  /** The symbols found are those that some part of the expression names. */
  lemma {:induction false} ContainsIff(e: Expr, s: Symbol)
    ensures Contains(e, s) <==> exists x :: Part(x, e) && Names(x, s)
  {
    match e
    case Not(y) =>
      ContainsIff(y, s);
      assert forall x :: Part(x, y) ==> Part(x, e);
    case And(l, r) =>
      ContainsIff(l, s);
      ContainsIff(r, s);
      assert forall x :: Part(x, l) || Part(x, r) ==> Part(x, e);
    case Or(l, r) =>
      ContainsIff(l, s);
      ContainsIff(r, s);
      assert forall x :: Part(x, l) || Part(x, r) ==> Part(x, e);
    case _ =>
      assert forall x :: Part(x, e) ==> x == e;
      assert Part(e, e) && (Contains(e, s) <==> Names(e, s));
  }

  /** An operand that is n wherever `s` is: s, s = y, s = m or s != n. */
  predicate NeedsSymbol(x: Expr, s: Symbol) {
    x == Sym(s) || x == Comp(Eq, s, SymYes) || x == Comp(Eq, s, SymMod) || x == Comp(Ne, s, SymNo)
  }

  predicate SomeNeeds(ls: seq<Expr>, s: Symbol) {
    exists k :: 0 <= k < |ls| && NeedsSymbol(ls[k], s)
  }

  lemma SomeNeedsConcat(a: seq<Expr>, b: seq<Expr>, s: Symbol)
    ensures SomeNeeds(a + b, s) <==> SomeNeeds(a, s) || SomeNeeds(b, s)
  {
    if k :| 0 <= k < |a| && NeedsSymbol(a[k], s) {
      assert NeedsSymbol((a + b)[k], s);
    }
    if k :| 0 <= k < |b| && NeedsSymbol(b[k], s) {
      assert NeedsSymbol((a + b)[|a| + k], s);
    }
  }

  /** A dependency is accepted exactly if one of its && operands is such a one. */
  lemma {:induction false} DependsIff(e: Expr, s: Symbol)
    ensures Depends(e, s) <==> SomeNeeds(Operands(OpAnd, e), s)
    ensures Depends(e, s) ==> Contains(e, s)
  {
    if e.And? {
      DependsIff(e.l, s);
      DependsIff(e.r, s);
      SomeNeedsConcat(Operands(OpAnd, e.l), Operands(OpAnd, e.r), s);
    } else {
      assert Operands(OpAnd, e) == [e] && (SomeNeeds([e], s) <==> NeedsSymbol([e][0], s));
    }
  }

  /** An accepted dependency is n whenever the symbol reads n. */
  lemma {:induction false} DependsSound(e: Expr, s: Symbol, env: Env)
    requires Depends(e, s) && TextOf(env, s) == "n"
    ensures Eval(e, env) == NO
    ensures Contains(e, s)
  {
    match e
    case And(l, r) =>
      if Depends(l, s) {
        DependsSound(l, s, env);
      } else {
        DependsSound(r, s, env);
      }
    case Comp(_, a, b) => CompareTriConst(env, a, b);
    case _ =>
  }

  // ----- the submenu test -----

  /** A condition as the submenu test rewrites it. */
  function Rewritten(e: Option<Expr>): Expr {
    Dups(Transform(TransCompareOpt(e, true, SymNo)))
  }

  /** The item's dependency covers the rewritten dependency `base` of the
      menu entry: nothing of `base` is left after cancelling. */
  predicate Superset(dep: Option<Expr>, base: Expr) {
    ElimEq(Rewritten(dep), base).1 == E_YES
  }

  /** Whether an item that follows `s` goes into the submenu of `s`. */
  predicate GoesIntoSubmenu(dep: Option<Expr>, s: Symbol, base: Expr) {
    dep.Some? && Contains(dep.value, s) && (Depends(dep.value, s) || Superset(dep, base))
  }

  /** The superset test is sound: the item's rewritten dependency is at most
      that of the menu entry. */
  lemma SupersetSound(dep: Option<Expr>, base: Expr, env: Env)
    requires Superset(dep, base)
    ensures Eval(Rewritten(dep), env) <= Eval(base, env)
  {
    var op, f := ElimEqFactor(Rewritten(dep), base);
    assert FactorAt(op, f, Rewritten(dep), ElimEq(Rewritten(dep), base).0, env);
    assert FactorAt(op, f, base, E_YES, env);
  }

  predicate AtLeastOpt(e: Option<Expr>, env: Env) {
    e.Some? ==> AtLeast(e.value, env, MOD)
  }

  /** The comparisons of tristate symbols with constants that the rewriting
      meets: those of `e`, and with n for each tristate truth value, which
      itself is gone by then. */
  function TestsMet(e: Expr): Tests {
    match e
    case Sym(s) => if s.Type().Tristated? then {(s, SymNo)} else {}
    case Not(x) => TestsMet(x)
    case And(l, r) => TestsMet(l) + TestsMet(r)
    case Or(l, r) => TestsMet(l) + TestsMet(r)
    case Comp(_, _, _) => TestsIn(e)
  }

  /** The comparisons met by the rewriting of `e` cannot clash. */
  predicate Rewritable(e: Option<Expr>) {
    e.Some? ==> NoClash(WithJoins(TestsMet(e.value)))
  }

  /** The rewritten condition is the two-valued reading of the condition. */
  lemma RewrittenValue(e: Option<Expr>, env: Env)
    requires Rewritable(e)
    ensures Eval(Rewritten(e), env) == Bool(AtLeastOpt(e, env))
  {
    var c := TransCompareOpt(e, true, SymNo);
    var tests := if e.Some? then WithJoins(TestsMet(e.value)) else {};
    if e.Some? {
      TransCompareExact(e.value, true, SymNo, env);
      TransCompareTests(e.value, true);
    }
    TransformValue(c, env);
    TransformTests(c);
    if e.Some? { JoinsPeaceful(TestsMet(e.value)); }
    DupsValue(false, tests, Transform(c), env);
  }

  lemma {:induction false} TransCompareTests(e: Expr, unequal: bool)
    ensures TestsIn(TransCompare(e, unequal, SymNo)) <= TestsMet(e)
  {
    match e
    case Not(x) => TransCompareTests(x, !unequal);
    case And(l, r) =>
      TransCompareTests(l, false);
      TransCompareTests(r, false);
    case Or(l, r) =>
      TransCompareTests(l, false);
      TransCompareTests(r, false);
    case _ =>
  }

  // ----- which comparisons the rewriting needs -----

  /** Only comparisons, without NOT and with tristate symbols on the left. */
  predicate Comparing(e: Expr) {
    match e
    case And(l, r) => Comparing(l) && Comparing(r)
    case Or(l, r) => Comparing(l) && Comparing(r)
    case Comp(_, a, _) => a.Type().Tristated?
    case _ => false
  }

  function Negated(e: Expr): (r: Expr)
    requires Comparing(e)
    ensures Comparing(r)
  {
    match e
    case And(l, r) => Or(Negated(l), Negated(r))
    case Or(l, r) => And(Negated(l), Negated(r))
    case Comp(rel, a, b) => Comp(Opposite(rel), a, b)
  }

  lemma {:induction false} NegatedTwice(e: Expr)
    requires Comparing(e)
    ensures Negated(Negated(e)) == e
  {
    if IsNode(e) {
      NegatedTwice(e.l);
      NegatedTwice(e.r);
    }
  }

  lemma {:induction false} ComparingKept(e: Expr)
    requires Comparing(e)
    ensures Normal(e) && Transform(e) == e && Transform(Not(e)) == Negated(e)
  {
    if IsNode(e) {
      ComparingKept(e.l);
      ComparingKept(e.r);
    }
  }

  /** On bare comparisons the first two rewritings cancel out. */
  lemma {:induction false} CompareAndBack(e: Expr, unequal: bool)
    requires Comparing(e)
    ensures Transform(TransCompare(e, unequal, SymNo)) == if unequal then e else Negated(e)
  {
    if IsNode(e) {
      CompareAndBack(e.l, false);
      CompareAndBack(e.r, false);
      if unequal {
        ComparingKept(Negated(e.l));
        ComparingKept(Negated(e.r));
        NegatedTwice(e);
      }
    } else {
      ComparingKept(e);
    }
  }

  lemma {:induction false} ComparingReads(e: Expr, env: Env)
    requires Comparing(e)
    ensures Bool(AtLeast(e, env, MOD)) == Eval(e, env) && TestsMet(e) == TestsIn(e)
  {
    if IsNode(e) {
      ComparingReads(e.l, env);
      ComparingReads(e.r, env);
    }
  }

  lemma {:induction false} PlainComparing(tests: Tests, e: Expr)
    requires Over(tests, e) && forall p :: p in tests ==> p.1.IsConst()
    ensures Comparing(e)
  {
    match e
    case And(l, r) =>
      PlainComparing(tests, l);
      PlainComparing(tests, r);
    case Or(l, r) =>
      PlainComparing(tests, l);
      PlainComparing(tests, r);
    case _ =>
  }

  /** The rewritten condition is the two-valued reading, under one assignment. */
  predicate ReadsRight(e: Expr, env: Env) {
    Eval(Rewritten(Some(e)), env) == Bool(AtLeast(e, env, MOD))
  }

  /** All conditions that meet some comparisons are rewritten to their
      two-valued reading exactly if the comparisons cannot clash. */
  lemma {:induction false} RewrittenValueIff(tests: Tests)
    requires forall p :: p in tests ==> p.0.Type().Tristated? && p.1.IsConst()
    ensures (forall e, env {:induction false} :: TestsMet(e) <= tests ==> ReadsRight(e, env))
            <==> NoClash(WithJoins(tests))
  {
    if NoClash(WithJoins(tests)) {
      forall e, env | TestsMet(e) <= tests ensures ReadsRight(e, env) {
        assert WithJoins(TestsMet(e)) <= WithJoins(tests);
        RewrittenValue(Some(e), env);
      }
    } else {
      ClashChanges(tests);
      var e, env :| Over(tests, e) && !Kept(e, env);
      PlainComparing(tests, e);
      ComparingReads(e, env);
      CompareAndBack(e, true);
      assert !ReadsRight(e, env);
    }
  }

  // ----- what the submenu test means -----

  /** In terms of the two conditions themselves: wherever the item's condition
      holds in the two-valued reading, so does the menu entry's. */
  lemma SubmenuImplies(dep: Option<Expr>, prompt: Option<Expr>, env: Env)
    requires Superset(dep, Rewritten(prompt))
    requires Rewritable(dep) && Rewritable(prompt)
    ensures AtLeastOpt(dep, env) ==> AtLeastOpt(prompt, env)
  {
    SupersetSound(dep, Rewritten(prompt), env);
    RewrittenValue(dep, env);
    RewrittenValue(prompt, env);
  }

  /** The whole test for an item that follows `s`: an accepted item mentions
      `s`, and it is n wherever `s` is n, or it never holds without the prompt
      of `s`. */
  lemma SubmenuSound(dep: Option<Expr>, s: Symbol, prompt: Option<Expr>)
    requires GoesIntoSubmenu(dep, s, Rewritten(prompt))
    requires Rewritable(dep) && Rewritable(prompt)
    ensures Contains(dep.value, s)
    ensures (forall env: Env :: TextOf(env, s) == "n" ==> EvalOpt(dep, env) == NO) ||
            (forall env: Env :: AtLeastOpt(dep, env) ==> AtLeastOpt(prompt, env))
  {
    if Depends(dep.value, s) {
      forall env: Env | TextOf(env, s) == "n" ensures EvalOpt(dep, env) == NO {
        DependsSound(dep.value, s, env);
      }
    } else {
      forall env: Env ensures AtLeastOpt(dep, env) ==> AtLeastOpt(prompt, env) {
        SubmenuImplies(dep, prompt, env);
      }
    }
  }

  // ----- expr_trans_bool -----

  /** `expr_trans_bool`: FOO!=n becomes FOO for a tristate FOO. */
  function TransBool(e: Expr): Expr {
    match e
    case And(l, r) => And(TransBool(l), TransBool(r))
    case Or(l, r) => Or(TransBool(l), TransBool(r))
    case Not(x) => Not(TransBool(x))
    case Comp(rel, a, b) => if rel.Ne? && a.Type().Tristated? && b == SymNo then Sym(a) else e
    case Sym(_) => e
  }

  /** On a normal form it may lower y to m but never changes whether the
      condition is n. */
  lemma {:induction false} TransBoolKeepsNo(e: Expr, env: Env)
    requires Normal(e)
    ensures Eval(TransBool(e), env) == NO <==> Eval(e, env) == NO
    ensures Eval(TransBool(e), env) <= Eval(e, env)
    ensures Normal(TransBool(e))
  {
    match e
    case And(l, r) =>
      TransBoolKeepsNo(l, env);
      TransBoolKeepsNo(r, env);
    case Or(l, r) =>
      TransBoolKeepsNo(l, env);
      TransBoolKeepsNo(r, env);
    case Comp(_, a, b) =>
      if a.Type().Tristated? && b == SymNo { CompareTriConst(env, a, b); }
    case _ =>
  }

  /** The tristate symbols that `e` tests for `!= n`. */
  function TestedNotNo(e: Expr): set<Symbol> {
    match e
    case And(l, r) => TestedNotNo(l) + TestedNotNo(r)
    case Or(l, r) => TestedNotNo(l) + TestedNotNo(r)
    case Not(x) => TestedNotNo(x)
    case Comp(rel, a, b) => if rel.Ne? && a.Type().Tristated? && b == SymNo then {a} else {}
    case Sym(_) => {}
  }

  /** Where none of these holds m, the rewriting changes no value, in normal
      form or not. */
  lemma {:induction false} TransBoolSame(e: Expr, env: Env)
    requires forall s :: s in TestedNotNo(e) ==> TriOf(env, s) != MOD
    ensures Eval(TransBool(e), env) == Eval(e, env)
  {
    match e
    case And(l, r) =>
      TransBoolSame(l, env);
      TransBoolSame(r, env);
    case Or(l, r) =>
      TransBoolSame(l, env);
      TransBoolSame(r, env);
    case Not(x) => TransBoolSame(x, env);
    case Comp(_, a, b) =>
      if e.rel.Ne? && a.Type().Tristated? && b == SymNo { CompareTriConst(env, a, b); }
    case Sym(_) =>
  }

  /** A single test changes its value exactly where its symbol holds m. */
  lemma TransBoolTest(s: Symbol, env: Env)
    requires s.Type().Tristated?
    ensures Eval(TransBool(Comp(Ne, s, SymNo)), env) == Eval(Comp(Ne, s, SymNo), env) <==> TriOf(env, s) != MOD
  {
    CompareTriConst(env, s, SymNo);
  }

  /** So all expressions over a set of such tests keep their value exactly if
      none of the symbols holds m. */
  lemma TransBoolSameIff(syms: set<Symbol>, env: Env)
    requires forall s :: s in syms ==> s.Type().Tristated?
    ensures (forall e: Expr :: TestedNotNo(e) <= syms ==> Eval(TransBool(e), env) == Eval(e, env))
            <==> forall s :: s in syms ==> TriOf(env, s) != MOD
  {
    if forall s :: s in syms ==> TriOf(env, s) != MOD {
      forall e: Expr | TestedNotNo(e) <= syms ensures Eval(TransBool(e), env) == Eval(e, env) {
        TransBoolSame(e, env);
      }
    } else {
      var s :| s in syms && TriOf(env, s) == MOD;
      var e := Comp(Ne, s, SymNo);
      assert TestedNotNo(e) == {s};
      TransBoolTest(s, env);
    }
  }

  /** The tests of tristate symbols are among the comparisons with constants. */
  lemma {:induction false} TestedNotNoIn(e: Expr)
    ensures forall s :: s in TestedNotNo(e) ==> (s, SymNo) in TestsIn(e)
  {
    match e
    case And(l, r) =>
      TestedNotNoIn(l);
      TestedNotNoIn(r);
    case Or(l, r) =>
      TestedNotNoIn(l);
      TestedNotNoIn(r);
    case Not(x) => TestedNotNoIn(x);
    case _ =>
  }

  /** Above a NOT that is not in normal form the rewriting turns n into m. */
  lemma TransBoolNeedsNormal(s: Symbol)
    requires s.Type().Tristated?
    ensures var env := Env(true, map[s := MOD], map[]);
            var e := Not(Comp(Ne, s, SymNo));
            Eval(e, env) == NO && Eval(TransBool(e), env) == MOD
  {
    var env := Env(true, map[s := MOD], map[]);
    CompareTriConst(env, s, SymNo);
    EvalNot(Comp(Ne, s, SymNo), env);
    EvalNot(Sym(s), env);
  }
}
