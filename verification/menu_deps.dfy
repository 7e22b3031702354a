/** How dependencies travel down the menu tree into conditions, and from
    there into the dependencies of symbols (rewrite_m and the first half of
    menu_finalize in scripts/config/menu.c). */
module MenuDeps {
  import opened Options
  import opened Tristates
  import opened Symbols
  import opened Exprs
  import opened Joins
  import opened EliminateDups
  import opened DupsExact
  import opened Transforms
  import opened Comparisons
  import opened SymbolGraph
  import opened SymbolRules

  // ----- m without modules -----

  /** `rewrite_m`: 'm' becomes 'm' && MODULES. */
  function RewriteM(e: Expr, modules: Symbol): Expr {
    match e
    case Not(x) => Not(RewriteM(x, modules))
    case And(l, r) => And(RewriteM(l, modules), RewriteM(r, modules))
    case Or(l, r) => Or(RewriteM(l, modules), RewriteM(r, modules))
    case Sym(s) => if s == SymMod then And(e, Sym(modules)) else e
    case Comp(_, _, _) => e
  }

  /** The expression with n in place of every 'm' that is a truth value. */
  function NoForM(e: Expr): Expr {
    match e
    case Not(x) => Not(NoForM(x))
    case And(l, r) => And(NoForM(l), NoForM(r))
    case Or(l, r) => Or(NoForM(l), NoForM(r))
    case Sym(s) => if s == SymMod then E_NO else e
    case Comp(_, _, _) => e
  }

  /** With modules the rewriting changes nothing, without them m reads n. */
  lemma {:induction false} RewriteMValue(e: Expr, modules: Symbol, env: Env)
    ensures Eval(RewriteM(e, modules), env)
            == if TriOf(env, modules) != NO then Eval(e, env) else Eval(NoForM(e), env)
  {
    match e
    case Not(x) => RewriteMValue(x, modules, env);
    case And(l, r) =>
      RewriteMValue(l, modules, env);
      RewriteMValue(r, modules, env);
    case Or(l, r) =>
      RewriteMValue(l, modules, env);
      RewriteMValue(r, modules, env);
    case Sym(s) =>
      if s == SymMod { assert Eval(Sym(modules), env) == TriOf(env, modules); }
    case Comp(_, _, _) =>
  }

  // ----- conditions -----

  function DupsOpt(e: Option<Expr>): Option<Expr> {
    if e.None? then None else Some(Dups(e.value))
  }

  /** What a node or a property makes of its own condition below `base`. */
  function Propagate(base: Option<Expr>, cond: Option<Expr>, modules: Symbol): Option<Expr> {
    DupsOpt(AllocAnd(base, if cond.None? then None else Some(Transform(RewriteM(cond.value, modules)))))
  }

  /** A condition with comparisons in `tests`, in normal form. */
  predicate FineOpt(tests: Tests, e: Option<Expr>) {
    e.Some? ==> Fine(true, tests, e.value)
  }

  /** A condition as it was parsed, with comparisons in `tests`. */
  predicate RawOpt(tests: Tests, e: Option<Expr>, modules: Symbol) {
    e.Some? ==> TestsIn(RewriteM(e.value, modules)) <= tests
  }

  /** The own condition of a node or property, with m read as it is meant. */
  function OwnValue(cond: Option<Expr>, modules: Symbol, env: Env): Tristate {
    if cond.None? then YES else Eval(RewriteM(cond.value, modules), env)
  }

  /** Propagation is conjunction: the value is that of the parent's condition
      and the own one together, and negation normal form is kept. */
  lemma PropagateValue(tests: Tests, base: Option<Expr>, cond: Option<Expr>, modules: Symbol, env: Env)
    requires Peaceful(tests) && FineOpt(tests, base) && RawOpt(tests, cond, modules)
    ensures EvalOpt(Propagate(base, cond, modules), env) == TriAnd(EvalOpt(base, env), OwnValue(cond, modules, env))
    ensures FineOpt(tests, Propagate(base, cond, modules))
  {
    if cond.Some? {
      var e := RewriteM(cond.value, modules);
      RewriteMValue(cond.value, modules, env);
      TransformValue(e, env);
      TransformNormal(e);
      TransformTests(e);
    }
    var all := AllocAnd(base, if cond.None? then None else Some(Transform(RewriteM(cond.value, modules))));
    if all.Some? {
      DupsValue(true, tests, all.value, env);
    }
  }

  lemma {:induction false} PlainKept(e: Expr, modules: Symbol)
    requires Plain(e)
    ensures RewriteM(e, modules) == e && Normal(e) && Transform(e) == e
  {
    if IsNode(e) {
      PlainKept(e.l, modules);
      PlainKept(e.r, modules);
    }
  }

  /** The propagated condition is the conjunction, under one assignment. */
  predicate Conjoins(base: Option<Expr>, cond: Option<Expr>, modules: Symbol, env: Env) {
    EvalOpt(Propagate(base, cond, modules), env) == TriAnd(EvalOpt(base, env), OwnValue(cond, modules, env))
  }

  lemma FineGrows(tests: Tests, all: Tests, e: Option<Expr>)
    requires FineOpt(tests, e) && tests <= all
    ensures FineOpt(all, e)
  {
  }

  lemma ChangedFails(e: Expr, modules: Symbol, env: Env)
    requires Plain(e) && !Kept(e, env)
    ensures !Conjoins(None, Some(e), modules, env) && RewriteM(e, modules) == e
  {
    PlainKept(e, modules);
    assert Propagate(None, Some(e), modules) == Some(Dups(e));
    assert EvalOpt(Propagate(None, Some(e), modules), env) == Eval(Dups(e), env);
    assert OwnValue(Some(e), modules, env) == Eval(e, env) && EvalOpt(None, env) == YES;
  }

  /** For all conditions over some uses of tristate symbols propagation is
      conjunction exactly if no symbol is compared with clashing constants. */
  lemma {:induction false} PropagateValueIff(tests: Tests, modules: Symbol)
    requires OfTristates(tests)
    ensures (forall base, cond, env {:induction false} :: FineOpt(tests, base) && RawOpt(tests, cond, modules) ==>
              Conjoins(base, cond, modules, env)) <==> NoClash(WithJoins(tests))
  {
    if NoClash(WithJoins(tests)) {
      JoinsPeaceful(tests);
      forall base, cond, env | FineOpt(tests, base) && RawOpt(tests, cond, modules)
        ensures Conjoins(base, cond, modules, env)
      {
        FineGrows(tests, WithJoins(tests), base);
        PropagateValue(WithJoins(tests), base, cond, modules, env);
      }
    } else {
      ClashChanges(tests);
      var e, env :| Over(tests, e) && !Kept(e, env);
      ChangedFails(e, modules, env);
      assert FineOpt(tests, None) && RawOpt(tests, Some(e), modules);
    }
  }

  /** The condition of a property below the dependency `base` of its node;
      the conditions of a symbol that is not tristate are read as booleans. */
  function PropCond(base: Option<Expr>, cond: Option<Expr>, modules: Symbol, tristated: bool): Option<Expr> {
    var c := Propagate(base, cond, modules);
    if tristated || c.None? then c else Some(TransBool(c.value))
  }

  /** A property's condition is never more than the dependency of its node,
      and the boolean reading does not change whether it is n. */
  lemma PropCondBelow(tests: Tests, base: Option<Expr>, cond: Option<Expr>, modules: Symbol, tristated: bool, env: Env)
    requires Peaceful(tests) && FineOpt(tests, base) && RawOpt(tests, cond, modules)
    ensures EvalOpt(PropCond(base, cond, modules, tristated), env) <= EvalOpt(base, env)
    ensures EvalOpt(PropCond(base, cond, modules, tristated), env) == NO
            <==> EvalOpt(Propagate(base, cond, modules), env) == NO
  {
    PropagateValue(tests, base, cond, modules, env);
    var c := Propagate(base, cond, modules);
    if c.Some? {
      TransBoolKeepsNo(c.value, env);
    }
  }

  /** In a tristate symbol a property's condition is the conjunction itself. */
  lemma PropCondTristate(tests: Tests, base: Option<Expr>, cond: Option<Expr>, modules: Symbol, env: Env)
    requires Peaceful(tests) && FineOpt(tests, base) && RawOpt(tests, cond, modules)
    ensures EvalOpt(PropCond(base, cond, modules, true), env)
            == TriAnd(EvalOpt(base, env), OwnValue(cond, modules, env))
  {
    PropagateValue(tests, base, cond, modules, env);
  }

  /** A boolean symbol is as visible under the boolean reading of a prompt's
      condition as under the condition itself. */
  lemma BooleanVisibility(tests: Tests, base: Option<Expr>, cond: Option<Expr>, modules: Symbol, env: Env)
    requires Peaceful(tests) && FineOpt(tests, base) && RawOpt(tests, cond, modules)
    ensures Promote(EvalOpt(PropCond(base, cond, modules, false), env), true)
            == Promote(EvalOpt(Propagate(base, cond, modules), env), true)
  {
    PropagateValue(tests, base, cond, modules, env);
    var c := Propagate(base, cond, modules);
    if c.Some? {
      TransBoolKeepsNo(c.value, env);
    }
  }

  /** The boolean reading of all conditions over some comparisons is the
      condition itself exactly if no symbol that they compare with n holds m. */
  lemma BooleanReadingSameIff(tests: Tests, modules: Symbol, env: Env)
    requires Peaceful(tests) && forall p :: p in tests ==> p.0.Type().Tristated?
    ensures (forall base, cond :: FineOpt(tests, base) && RawOpt(tests, cond, modules) ==>
              EvalOpt(PropCond(base, cond, modules, false), env) == EvalOpt(Propagate(base, cond, modules), env))
            <==> forall p :: p in tests && p.1 == SymNo ==> TriOf(env, p.0) != MOD
  {
    if forall p :: p in tests && p.1 == SymNo ==> TriOf(env, p.0) != MOD {
      forall base, cond | FineOpt(tests, base) && RawOpt(tests, cond, modules)
        ensures EvalOpt(PropCond(base, cond, modules, false), env) == EvalOpt(Propagate(base, cond, modules), env)
      {
        BooleanReadingSame(tests, base, cond, modules, env);
      }
    } else {
      var p :| p in tests && p.1 == SymNo && TriOf(env, p.0) == MOD;
      var cond := Some(Comp(Ne, p.0, SymNo));
      BooleanReadingDiffers(p.0, modules, env);
      assert FineOpt(tests, None) && RawOpt(tests, cond, modules);
    }
  }

  /** A select keeps the boolean reading, so `select B if FOO != n` in a
      boolean symbol asks for m instead of y exactly while FOO is m. */
  lemma BooleanReadingDiffers(s: Symbol, modules: Symbol, env: Env)
    requires s.Type().Tristated?
    ensures var cond := Some(Comp(Ne, s, SymNo));
            var read, own := PropCond(None, cond, modules, false), Propagate(None, cond, modules);
            (EvalOpt(read, env) == EvalOpt(own, env) <==> TriOf(env, s) != MOD) &&
            (TriOf(env, s) == MOD ==> EvalOpt(own, env) == YES && EvalOpt(read, env) == MOD)
  {
    var cond := Some(Comp(Ne, s, SymNo));
    assert Propagate(None, cond, modules) == cond;
    CompareTriConst(env, s, SymNo);
    TransBoolTest(s, env);
  }

  lemma BooleanReadingSame(tests: Tests, base: Option<Expr>, cond: Option<Expr>, modules: Symbol, env: Env)
    requires Peaceful(tests) && FineOpt(tests, base) && RawOpt(tests, cond, modules)
    requires forall p :: p in tests && p.1 == SymNo ==> TriOf(env, p.0) != MOD
    ensures EvalOpt(PropCond(base, cond, modules, false), env) == EvalOpt(Propagate(base, cond, modules), env)
  {
    PropagateValue(tests, base, cond, modules, env);
    var c := Propagate(base, cond, modules);
    if c.Some? {
      TestedNotNoIn(c.value);
      TransBoolSame(c.value, env);
    }
  }

  // ----- what symbols collect -----

  function AllocOr(x: Option<Expr>, y: Option<Expr>): Option<Expr> {
    match (x, y)
    case (None, _) => y
    case (_, None) => x
    case (Some(p), Some(q)) => Some(Or(p, q))
  }

  /** A reverse dependency that is absent counts as n. */
  function RevValue(e: Option<Expr>, env: Env): Tristate {
    if e.None? then NO else Eval(e.value, env)
  }

  /** A select or imply by `source` under the condition `cond`. */
  function AddReverse(rev: Option<Expr>, source: Symbol, cond: Option<Expr>): Option<Expr> {
    AllocOr(rev, AllocAnd(Some(Sym(source)), cond))
  }

  lemma AddReverseValue(rev: Option<Expr>, source: Symbol, cond: Option<Expr>, env: Env)
    ensures RevValue(AddReverse(rev, source, cond), env)
            == TriOr(RevValue(rev, env), TriAnd(TriOf(env, source), EvalOpt(cond, env)))
  {
    var s := AllocAnd(Some(Sym(source)), cond);
    assert EvalOpt(s, env) == TriAnd(EvalOpt(Some(Sym(source)), env), EvalOpt(cond, env));
  }

  /** A select or imply in a symbol that is not tristate asks for the same
      under the boolean reading as under the condition itself, exactly if the
      symbol is n, y is asked for already, or the two readings agree. */
  lemma BooleanReverseIff(tests: Tests, rev: Option<Expr>, source: Symbol,
                          base: Option<Expr>, cond: Option<Expr>, modules: Symbol, env: Env)
    requires Peaceful(tests) && FineOpt(tests, base) && RawOpt(tests, cond, modules)
    requires source.Config? && !source.Type().Tristated?
    ensures var read, own := PropCond(base, cond, modules, false), Propagate(base, cond, modules);
            RevValue(AddReverse(rev, source, read), env) == RevValue(AddReverse(rev, source, own), env) <==>
            TriOf(env, source) == NO || RevValue(rev, env) == YES || EvalOpt(read, env) == EvalOpt(own, env)
  {
    var read, own := PropCond(base, cond, modules, false), Propagate(base, cond, modules);
    PropagateValue(tests, base, cond, modules, env);
    if own.Some? {
      TransBoolKeepsNo(own.value, env);
    }
    AddReverseValue(rev, source, read, env);
    AddReverseValue(rev, source, own, env);
  }

  /** The direct dependency of a symbol defined at nodes with the given
      dependencies. */
  function DirectDep(deps: seq<Option<Expr>>): Option<Expr> {
    if deps == [] then None else AllocOr(DirectDep(deps[..|deps| - 1]), deps[|deps| - 1])
  }

  /** The best value among the nodes' dependencies. */
  function BestDep(deps: seq<Option<Expr>>, env: Env): Tristate {
    if deps == [] then NO else TriOr(BestDep(deps[..|deps| - 1], env), EvalOpt(deps[|deps| - 1], env))
  }

  predicate AllAbsent(deps: seq<Option<Expr>>) {
    forall i :: 0 <= i < |deps| ==> deps[i].None?
  }

  predicate AllPresent(deps: seq<Option<Expr>>) {
    forall i :: 0 <= i < |deps| ==> deps[i].Some?
  }

  lemma {:induction false} DirectDepAbsent(deps: seq<Option<Expr>>)
    ensures DirectDep(deps).None? <==> AllAbsent(deps)
  {
    if deps != [] {
      DirectDepAbsent(deps[..|deps| - 1]);
    }
  }

  /** A node with a dependency is never above the direct dependency. */
  lemma {:induction false} DirectDepCovers(deps: seq<Option<Expr>>, i: nat, env: Env)
    requires i < |deps| && deps[i].Some?
    ensures EvalOpt(deps[i], env) <= EvalOpt(DirectDep(deps), env)
  {
    if i < |deps| - 1 {
      DirectDepCovers(deps[..|deps| - 1], i, env);
      DirectDepAbsent(deps[..|deps| - 1]);
      assert deps[..|deps| - 1][i].Some?;
    }
  }

  lemma {:induction false} DirectDepBest(deps: seq<Option<Expr>>, env: Env)
    requires deps != []
    ensures AllPresent(deps) || AllAbsent(deps) ==> EvalOpt(DirectDep(deps), env) == BestDep(deps, env)
    ensures EvalOpt(DirectDep(deps), env) <= BestDep(deps, env)
  {
    var front := deps[..|deps| - 1];
    DirectDepAbsent(front);
    if front != [] {
      DirectDepBest(front, env);
    }
  }

  lemma {:induction false} AbsentIsBest(deps: seq<Option<Expr>>, i: nat, env: Env)
    requires i < |deps| && deps[i].None?
    ensures BestDep(deps, env) == YES
  {
    if i < |deps| - 1 {
      AbsentIsBest(deps[..|deps| - 1], i, env);
    }
  }

  /** A node without a dependency counts as y for itself and is dropped from
      the disjunction, so the direct dependency is the best of the nodes'
      dependencies exactly when no node lacks one, all do, or the others
      already reach y. */
  lemma DirectDepBestIff(deps: seq<Option<Expr>>, env: Env)
    requires deps != []
    ensures EvalOpt(DirectDep(deps), env) == BestDep(deps, env) <==>
            AllPresent(deps) || AllAbsent(deps) || EvalOpt(DirectDep(deps), env) == YES
  {
    DirectDepBest(deps, env);
    if !AllPresent(deps) {
      var i :| 0 <= i < |deps| && deps[i].None?;
      AbsentIsBest(deps, i, env);
    }
  }

  /** A condition built at node `i` is gated by the direct dependency exactly
      if the direct dependency is met, the node has a dependency, or the own
      condition is n anyway. */
  lemma PropGateIff(tests: Tests, deps: seq<Option<Expr>>, i: nat, cond: Option<Expr>,
                    modules: Symbol, tristated: bool, env: Env)
    requires i < |deps| && Peaceful(tests) && FineOpt(tests, deps[i]) && RawOpt(tests, cond, modules)
    ensures (EvalOpt(DirectDep(deps), env) == NO ==>
            EvalOpt(PropCond(deps[i], cond, modules, tristated), env) == NO) <==>
            EvalOpt(DirectDep(deps), env) != NO || deps[i].Some? || OwnValue(cond, modules, env) == NO
  {
    PropCondBelow(tests, deps[i], cond, modules, tristated, env);
    PropagateValue(tests, deps[i], cond, modules, env);
    if deps[i].Some? {
      DirectDepCovers(deps, i, env);
    }
  }

  /** Where a property comes from: its node and its own condition. */
  datatype Origin = Origin(node: nat, cond: Option<Expr>)

  /** The prompts and defaults of `d` got their conditions where `from` says. */
  ghost predicate Built(tests: Tests, d: SymDef, deps: seq<Option<Expr>>, from: map<Property, Origin>,
                        modules: Symbol, tristated: bool) {
    Peaceful(tests) && d.dirDep == DirectDep(deps) && (forall i :: 0 <= i < |deps| ==> FineOpt(tests, deps[i])) &&
    forall p :: p in d.props && (p.hasText || p.kind.Default?) ==>
      p in from && from[p].node < |deps| && RawOpt(tests, from[p].cond, modules) &&
      p.visible == PropCond(deps[from[p].node], from[p].cond, modules, tristated)
  }

  /** The prompts and defaults of a symbol are gated by its direct dependency
      exactly if that is met, or each of them comes from a node with a
      dependency or is n by its own condition. */
  lemma MenuGates(tests: Tests, d: SymDef, deps: seq<Option<Expr>>, from: map<Property, Origin>,
                  modules: Symbol, tristated: bool, env: Env)
    requires Built(tests, d, deps, from, modules, tristated)
    ensures Gated(d, env) <==>
            EvalOpt(d.dirDep, env) != NO ||
            forall p :: p in d.props && (p.hasText || p.kind.Default?) ==>
              deps[from[p].node].Some? || OwnValue(from[p].cond, modules, env) == NO
  {
    forall p | p in d.props && (p.hasText || p.kind.Default?)
      ensures (EvalOpt(d.dirDep, env) == NO ==> EvalOpt(p.visible, env) == NO) <==>
              EvalOpt(d.dirDep, env) != NO || deps[from[p].node].Some? || OwnValue(from[p].cond, modules, env) == NO
    {
      PropGateIff(tests, deps, from[p].node, from[p].cond, modules, tristated, env);
    }
  }

  /** A symbol defined at a node with the dependency n and at one without
      dependencies, where it has a prompt. */
  function MixedNodes(rev: Option<Expr>, modules: Symbol): SymDef {
    var deps := [Some(E_NO), None];
    var prompt := Property(Prompt, true, None, PropCond(deps[1], None, modules, true), None);
    SymDef([prompt], DirectDep(deps), rev, None, false)
  }

  lemma MixedNodesParts(rev: Option<Expr>, modules: Symbol)
    ensures var d := MixedNodes(rev, modules);
            d.dirDep == Some(E_NO) && |d.props| == 1 && d.props[0] == Property(Prompt, true, None, None, None) &&
            forall env :: PromptVisibility(d.props, env) == YES && FirstActive(d.props, Default, env).None?
  {
    var deps := [Some(E_NO), None];
    assert deps[..1] == [Some(E_NO)] && deps[..1][..0] == [];
    assert DirectDep(deps[..1]) == Some(E_NO);
    var ps := MixedNodes(rev, modules).props;
    assert ps[..0] == [] && ps[1..] == [];
  }

  /** The prompt there stays visible although the direct dependency is n, and
      the user's y is the symbol's value. */
  lemma MixedNodesNotGated(s: Symbol, modules: Symbol)
    requires s.Config? && s.kind.Tristated?
    ensures var d := MixedNodes(None, modules);
            var g := Graph(true, map[s := d], map[s := UserValue(YES, "")]);
            var v := map[s := Calc(YES, "n", YES, NO, NO, NO, true)];
            Solution(g, v) && !Gated(d, EnvOf(true, v))
  {
    MixedNodesParts(None, modules);
    var d := MixedNodes(None, modules);
    var g := Graph(true, map[s := d], map[s := UserValue(YES, "")]);
    var v := map[s := Calc(YES, "n", YES, NO, NO, NO, true)];
    assert v[s] == Local(g, s, v);
    assert d.props[0] in d.props;
  }

  /** If it is selected up to m, setting it to y is accepted and has no
      effect: it stays n. */
  lemma SetExceptionArises(s: Symbol, modules: Symbol)
    requires s.Config? && s.kind.Tristated?
    ensures var g := Graph(true, map[s := MixedNodes(Some(Sym(SymMod)), modules)], map[]);
            var v := map[s := Calc(NO, "n", YES, NO, MOD, NO, true)];
            Solution(g, v) && CanBeSet(g.modules, s, v[s], YES) && Solution(WithUser(g, s, YES), v)
  {
    MixedNodesParts(Some(Sym(SymMod)), modules);
    var g := Graph(true, map[s := MixedNodes(Some(Sym(SymMod)), modules)], map[]);
    var v := map[s := Calc(NO, "n", YES, NO, MOD, NO, true)];
    assert v[s] == Local(g, s, v);
    assert v[s] == Local(WithUser(g, s, YES), s, v);
  }

  /** The reverse dependency a visible choice that is not optional gets:
      its own visibility, at most m. */
  lemma ChoiceFloor(rev: Option<Expr>, prompt: Option<Expr>, env: Env)
    ensures RevValue(AllocOr(rev, AllocAnd(prompt, Some(Sym(SymMod)))), env)
            == TriOr(RevValue(rev, env), TriAnd(EvalOpt(prompt, env), MOD))
  {
    var c := AllocAnd(prompt, Some(Sym(SymMod)));
    assert EvalOpt(c, env) == TriAnd(EvalOpt(prompt, env), EvalOpt(Some(Sym(SymMod)), env));
  }
}
