/** The value of an evaluated symbol, read off its properties one by one
    (sym_calc_visibility, sym_calc_value, sym_validate_range and others in
    scripts/config/symbol.c). */
module SymbolLaws {
  import opened Options
  import opened Tristates
  import opened Symbols
  import opened Exprs
  import opened Joins
  import opened SymbolGraph
  import opened SymbolRules

  // ----- the first active property -----

  ghost predicate Active(ps: seq<Property>, kind: PropKind, i: nat, env: Env) {
    i < |ps| && ps[i].kind == kind && EvalOpt(ps[i].visible, env) != NO
  }

  /** Property `i` is active, and none before it. */
  ghost predicate TheFirst(ps: seq<Property>, kind: PropKind, i: nat, env: Env) {
    Active(ps, kind, i, env) && forall j {:trigger Active(ps, kind, j, env)} :: 0 <= j < i ==> !Active(ps, kind, j, env)
  }

  ghost predicate NoneActive(ps: seq<Property>, kind: PropKind, env: Env) {
    forall j {:trigger Active(ps, kind, j, env)} :: 0 <= j < |ps| ==> !Active(ps, kind, j, env)
  }

  lemma {:induction false} FirstByIndex(ps: seq<Property>, kind: PropKind, i: nat, env: Env)
    requires TheFirst(ps, kind, i, env)
    ensures FirstActive(ps, kind, env) == Some(ps[i])
  {
    assert ps[0].kind == kind && EvalOpt(ps[0].visible, env) != NO <==> Active(ps, kind, 0, env);
    if i > 0 {
      forall j | 0 <= j < i - 1 ensures !Active(ps[1..], kind, j, env) {
        assert !Active(ps, kind, j + 1, env);
      }
      assert Active(ps[1..], kind, i - 1, env);
      FirstByIndex(ps[1..], kind, i - 1, env);
    }
  }

  lemma {:induction false} NoneByIndex(ps: seq<Property>, kind: PropKind, env: Env)
    requires NoneActive(ps, kind, env)
    ensures FirstActive(ps, kind, env).None?
  {
    if ps != [] {
      assert !Active(ps, kind, 0, env);
      forall j | 0 <= j < |ps[1..]| ensures !Active(ps[1..], kind, j, env) {
        assert !Active(ps, kind, j + 1, env);
      }
      NoneByIndex(ps[1..], kind, env);
    }
  }

  lemma {:induction false} FirstOrNone(ps: seq<Property>, kind: PropKind, env: Env) returns (i: nat)
    ensures TheFirst(ps, kind, i, env) || NoneActive(ps, kind, env)
  {
    i := 0;
    while i < |ps| && !Active(ps, kind, i, env)
      invariant i <= |ps|
      invariant forall j {:trigger Active(ps, kind, j, env)} :: 0 <= j < i ==> !Active(ps, kind, j, env)
    {
      i := i + 1;
    }
  }

  // ----- visibility and dependencies -----

  /** The symbol can only be n or y. */
  predicate TwoValued(modules: bool, s: Symbol) {
    s.Type().Boolean? || (s.Type().Tristated? && !modules)
  }

  lemma {:induction false} BestPrompt(ps: seq<Property>, env: Env)
    ensures forall i :: 0 <= i < |ps| && ps[i].hasText ==> EvalOpt(ps[i].visible, env) <= PromptVisibility(ps, env)
    ensures PromptVisibility(ps, env) != NO ==>
              exists i :: 0 <= i < |ps| && ps[i].hasText && EvalOpt(ps[i].visible, env) == PromptVisibility(ps, env)
  {
    if ps != [] {
      var n := |ps| - 1;
      BestPrompt(ps[..n], env);
      if PromptVisibility(ps, env) != NO && PromptVisibility(ps[..n], env) == PromptVisibility(ps, env) {
        var i :| 0 <= i < n && ps[..n][i].hasText &&
          EvalOpt(ps[..n][i].visible, env) == PromptVisibility(ps[..n], env);
        assert ps[i] == ps[..n][i];
      }
      forall i | 0 <= i < |ps| && ps[i].hasText ensures EvalOpt(ps[i].visible, env) <= PromptVisibility(ps, env) {
        if i < n { assert ps[i] == ps[..n][i]; }
      }
    }
  }

  /** A condition of value `t` makes a symbol visible at `visible`. */
  predicate Shows(t: Tristate, full: bool, visible: Tristate) {
    visible == if t == MOD && !full then YES else t
  }

  /** The visibility is that of the most visible prompt; unless the symbol is a
      tristate one with modules, m counts as y. */
  lemma VisibilityLaw(g: Graph, v: Values, s: Symbol)
    requires Solution(g, v) && s in g.defs && !s.Type().Unknown?
    ensures var ps, env, full := g.defs[s].props, EnvOf(g.modules, v), s.Type().Tristated? && g.modules;
            (forall i :: 0 <= i < |ps| && ps[i].hasText ==> EvalOpt(ps[i].visible, env) <= v[s].visible) &&
            (v[s].visible != NO ==>
              exists i :: 0 <= i < |ps| && ps[i].hasText && Shows(EvalOpt(ps[i].visible, env), full, v[s].visible)) &&
            (!full ==> v[s].visible != MOD)
  {
    SolutionAt(g, v, s);
    BestPrompt(g.defs[s].props, EnvOf(g.modules, v));
  }

  /** The three dependencies have the values of their expressions; an absent
      direct dependency is met, an absent reverse or implied one is n. */
  lemma DependencyLaw(g: Graph, v: Values, s: Symbol)
    requires Solution(g, v) && s in g.defs && !s.Type().Unknown?
    ensures var d, env, two := g.defs[s], EnvOf(g.modules, v), TwoValued(g.modules, s);
            var dir := if d.dirDep.None? then YES else Eval(d.dirDep.value, env);
            var rev := if d.revDep.None? then NO else Eval(d.revDep.value, env);
            var imp := if d.implied.None? then NO else Eval(d.implied.value, env);
            v[s].dirDep == (if dir == MOD && two then YES else dir) &&
            v[s].revDep == (if rev == MOD && two then YES else rev) &&
            v[s].implied == (if imp == MOD && two then YES else imp)
  {
    SolutionAt(g, v, s);
  }

  // ----- boolean and tristate symbols -----

  /** Default `i` is the first active one, and `t` its value under its
      condition. */
  ghost predicate DefaultAt(ps: seq<Property>, i: nat, env: Env, t: Tristate) {
    TheFirst(ps, Default, i, env) && t == TriAnd(EvalOpt(ps[i].expr, env), EvalOpt(ps[i].visible, env))
  }

  ghost predicate IsDefault(ps: seq<Property>, env: Env, t: Tristate) {
    (NoneActive(ps, Default, env) && t == NO) || exists i: nat :: DefaultAt(ps, i, env, t)
  }

  /** An imply raises the default `t` as far as the direct dependency allows. */
  predicate IsImplied(c: Calc, t: Tristate, b: Tristate) {
    b == if c.implied == NO then t else TriAnd(TriOr(t, c.implied), c.dirDep)
  }

  /** The value before the selects: the user's up to the visibility, or the
      default with the imply. */
  ghost predicate IsBase(g: Graph, v: Values, s: Symbol, b: Tristate)
    requires s in g.defs && s in v
  {
    var c := v[s];
    if c.visible != NO && s in g.user then b == TriAnd(g.user[s].tri, c.visible)
    else exists t: Tristate :: IsDefault(g.defs[s].props, EnvOf(g.modules, v), t) && IsImplied(c, t, b)
  }

  lemma DefaultIs(d: SymDef, env: Env)
    ensures IsDefault(d.props, env, DefaultTri(d, env))
    ensures forall t: Tristate :: IsDefault(d.props, env, t) ==> t == DefaultTri(d, env)
  {
    var i := FirstOrNone(d.props, Default, env);
    if TheFirst(d.props, Default, i, env) {
      FirstByIndex(d.props, Default, i, env);
      assert DefaultAt(d.props, i, env, DefaultTri(d, env));
    } else {
      NoneByIndex(d.props, Default, env);
    }
    forall t: Tristate | IsDefault(d.props, env, t) ensures t == DefaultTri(d, env) {
      if j: nat :| DefaultAt(d.props, j, env, t) {
        FirstByIndex(d.props, Default, j, env);
      } else {
        NoneByIndex(d.props, Default, env);
      }
    }
  }

  /** The whole rule: a select against an unmet direct dependency gives n,
      any other is a floor, and m becomes y where the symbol has two values. */
  lemma LogicLaw(g: Graph, v: Values, s: Symbol, b: Tristate)
    requires Solution(g, v) && s in g.defs && s.IsLogic() && IsBase(g, v, s, b)
    ensures var c := v[s];
            var r := if c.revDep == NO then b else if c.dirDep == NO then NO else TriOr(b, c.revDep);
            c.tri == if r == MOD && TwoValued(g.modules, s) then YES else r
  {
    SolutionAt(g, v, s);
    DefaultIs(g.defs[s], EnvOf(g.modules, v));
  }

  lemma BaseExists(g: Graph, v: Values, s: Symbol) returns (b: Tristate)
    requires Solution(g, v) && s in g.defs && s.IsLogic()
    ensures IsBase(g, v, s, b)
  {
    DefaultIs(g.defs[s], EnvOf(g.modules, v));
    b := LogicBase(g.defs[s], UserOf(g, s), EnvOf(g.modules, v), v[s]);
  }

  /** So without a user's value, imply and select the first active default
      decides, and no active default means n. */
  lemma FirstDefaultDecides(g: Graph, v: Values, s: Symbol)
    requires Solution(g, v) && s in g.defs && s.IsLogic()
    requires (v[s].visible == NO || s !in g.user) && v[s].implied == NO && v[s].revDep == NO
    ensures var ps, env := g.defs[s].props, EnvOf(g.modules, v);
            (NoneActive(ps, Default, env) ==> v[s].tri == NO) &&
            forall i: nat :: TheFirst(ps, Default, i, env) ==>
              var r := TriAnd(EvalOpt(ps[i].expr, env), EvalOpt(ps[i].visible, env));
              v[s].tri == if r == MOD && TwoValued(g.modules, s) then YES else r
  {
    var ps, env := g.defs[s].props, EnvOf(g.modules, v);
    if NoneActive(ps, Default, env) {
      assert IsDefault(ps, env, NO) && IsImplied(v[s], NO, NO);
      LogicLaw(g, v, s, NO);
    }
    forall i: nat | TheFirst(ps, Default, i, env)
      ensures var r := TriAnd(EvalOpt(ps[i].expr, env), EvalOpt(ps[i].visible, env));
              v[s].tri == if r == MOD && TwoValued(g.modules, s) then YES else r
    {
      var r := TriAnd(EvalOpt(ps[i].expr, env), EvalOpt(ps[i].visible, env));
      assert DefaultAt(ps, i, env, r) && IsDefault(ps, env, r) && IsImplied(v[s], r, r);
      LogicLaw(g, v, s, r);
    }
  }

  // ----- text and number symbols -----

  /** The text that a default gives: that of its symbol, if it is one. */
  function SymbolText(v: Values, e: Option<Expr>): string {
    if e.None? || !e.value.Sym? then ""
    else if e.value.s.IsConst() then ConstText(e.value.s)
    else if e.value.s in v then v[e.value.s].text
    else ""
  }

  /** The text before the range is looked at. */
  ghost predicate IsText(g: Graph, v: Values, s: Symbol, r: string)
    requires s in g.defs && s in v
  {
    var ps, env := g.defs[s].props, EnvOf(g.modules, v);
    if v[s].visible != NO && s in g.user then r == g.user[s].text
    else (NoneActive(ps, Default, env) && r == "") ||
         exists i: nat :: TheFirst(ps, Default, i, env) && r == SymbolText(v, ps[i].expr)
  }

  lemma PlainIs(g: Graph, v: Values, s: Symbol, r: string)
    requires s in g.defs && s in v && IsText(g, v, s, r)
    ensures r == PlainText(g.defs[s], UserOf(g, s), EnvOf(g.modules, v), v, v[s].visible)
  {
    var ps, env := g.defs[s].props, EnvOf(g.modules, v);
    if v[s].visible != NO && s in g.user {
    } else if i: nat :| TheFirst(ps, Default, i, env) && r == SymbolText(v, ps[i].expr) {
      FirstByIndex(ps, Default, i, env);
    } else {
      NoneByIndex(ps, Default, env);
    }
  }

  lemma PlainSolution(g: Graph, v: Values, s: Symbol, r: string)
    requires Solution(g, v) && s in g.defs && !s.IsLogic() && !s.Type().Unknown? && IsText(g, v, s, r)
    ensures v[s].text == InRange(s, g.defs[s], EnvOf(g.modules, v), v, r)
  {
    SolutionAt(g, v, s);
    PlainIs(g, v, s, r);
  }

  /** A string symbol holds the user's text if it is visible, otherwise that of
      the first active default; so does a number without an active range. */
  lemma TextLaw(g: Graph, v: Values, s: Symbol, r: string)
    requires Solution(g, v) && s in g.defs && IsText(g, v, s, r)
    requires s.Type().String? ||
             ((s.Type().Int? || s.Type().Hex?) && NoneActive(g.defs[s].props, Range, EnvOf(g.modules, v)))
    ensures v[s].text == r
  {
    PlainSolution(g, v, s, r);
    if !s.Type().String? {
      NoneByIndex(g.defs[s].props, Range, EnvOf(g.modules, v));
    }
  }

  /** The number a symbol stands for, read in its own base or in `base`. */
  function Number(v: Values, t: Symbol, base: nat): int {
    StrToLL(SymbolText(v, Some(Sym(t))), if t.Type().Int? then 10 else if t.Type().Hex? then 16 else base)
  }

  /** A number below the first active range becomes its lower bound, otherwise
      one above it the upper bound, and any other stays as it is. */
  lemma RangeLaw(g: Graph, v: Values, s: Symbol, r: string, i: nat)
    requires Solution(g, v) && s in g.defs && (s.Type().Int? || s.Type().Hex?) && IsText(g, v, s, r)
    requires TheFirst(g.defs[s].props, Range, i, EnvOf(g.modules, v)) && g.defs[s].props[i].bounds.Some?
    ensures var (lo, hi) := g.defs[s].props[i].bounds.value;
            var base := if s.Type().Int? then 10 else 16;
            var n := StrToLL(r, base);
            (n < Number(v, lo, base) ==> v[s].text == SymbolText(v, Some(Sym(lo)))) &&
            (Number(v, lo, base) <= n && Number(v, hi, base) < n ==> v[s].text == SymbolText(v, Some(Sym(hi)))) &&
            (Number(v, lo, base) <= n <= Number(v, hi, base) ==> v[s].text == r)
  {
    var (lo, hi) := g.defs[s].props[i].bounds.value;
    RangeText(g, v, s, r, i);
    BoundedByNumbers(s, v, lo, hi, r);
  }

  lemma RangeText(g: Graph, v: Values, s: Symbol, r: string, i: nat)
    requires Solution(g, v) && s in g.defs && (s.Type().Int? || s.Type().Hex?) && IsText(g, v, s, r)
    requires TheFirst(g.defs[s].props, Range, i, EnvOf(g.modules, v)) && g.defs[s].props[i].bounds.Some?
    ensures var (lo, hi) := g.defs[s].props[i].bounds.value;
            v[s].text == BoundedText(s, v, lo, hi, r)
  {
    PlainSolution(g, v, s, r);
    FirstByIndex(g.defs[s].props, Range, i, EnvOf(g.modules, v));
  }

  lemma BoundedByNumbers(s: Symbol, v: Values, lo: Symbol, hi: Symbol, r: string)
    requires s.Type().Int? || s.Type().Hex?
    ensures var base := if s.Type().Int? then 10 else 16;
            var n, t := StrToLL(r, base), BoundedText(s, v, lo, hi, r);
            (n < Number(v, lo, base) ==> t == SymbolText(v, Some(Sym(lo)))) &&
            (Number(v, lo, base) <= n && Number(v, hi, base) < n ==> t == SymbolText(v, Some(Sym(hi)))) &&
            (Number(v, lo, base) <= n <= Number(v, hi, base) ==> t == r)
  {
    assert RawText(v, lo) == SymbolText(v, Some(Sym(lo))) && RawText(v, hi) == SymbolText(v, Some(Sym(hi)));
  }

  // ----- whether the symbol is written -----

  /** A symbol is written if it is visible, or a boolean or tristate one is
      selected or implied or has an active default, or the first active
      default of another one is a symbol; unless it is never written. */
  lemma WriteLaw(g: Graph, v: Values, s: Symbol)
    requires Solution(g, v) && s in g.defs && !s.Type().Unknown?
    ensures var ps, env, c := g.defs[s].props, EnvOf(g.modules, v), v[s];
            var found :=
              if s.IsLogic() then c.revDep != NO || c.implied != NO || !NoneActive(ps, Default, env)
              else exists i: nat :: TheFirst(ps, Default, i, env) && ps[i].expr.Some? && ps[i].expr.value.Sym?;
            c.write <==> !g.defs[s].noWrite && (c.visible != NO || found)
  {
    var ps, env := g.defs[s].props, EnvOf(g.modules, v);
    SolutionAt(g, v, s);
    var i := FirstOrNone(ps, Default, env);
    if TheFirst(ps, Default, i, env) {
      FirstByIndex(ps, Default, i, env);
      forall j: nat | TheFirst(ps, Default, j, env) ensures ps[j] == ps[i] {
        FirstByIndex(ps, Default, j, env);
      }
    } else {
      NoneByIndex(ps, Default, env);
    }
  }

  // ----- setting a value -----

  /** A visible symbol that is not selected against an unmet direct dependency
      may be set to a value exactly if evaluation then yields it and the
      symbol has a choice at all, which selects up to the visibility take. */
  lemma MayBeSetIff(g: Graph, rank: map<Symbol, nat>, s: Symbol, val: Tristate, v: Values, w: Values)
    requires GraphOk(g) && Ranked(g.defs, rank)
    requires Solution(g, v) && Solution(WithUser(g, s, val), w)
    requires s in g.defs && s.IsLogic() && v[s].visible != NO && !(v[s].dirDep == NO && v[s].revDep != NO)
    ensures CanBeSet(g.modules, s, v[s], val) <==> w[s].tri == val && v[s].revDep < v[s].visible
  {
    SetKeepsInputs(g, rank, s, val, v, w);
  }

  /** The values between the floor and the visibility, without m where the
      symbol has two values. */
  lemma MayBeSetRange(modules: bool, s: Symbol, c: Calc, val: Tristate)
    ensures CanBeSet(modules, s, c, val) <==>
            s.IsLogic() && c.revDep < c.visible && c.revDep <= val <= c.visible &&
            (TwoValued(modules, s) ==> val != MOD)
  {
  }
}
