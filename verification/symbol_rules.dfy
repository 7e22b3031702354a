/** What holds of evaluated symbols, and of setting one of them
    (scripts/config/symbol.c). */
module SymbolRules {
  import opened Options
  import opened Tristates
  import opened Symbols
  import opened Exprs
  import opened SymbolGraph

  /** Prompts and defaults are no more active than the direct dependency
      allows: where it is n, so are their conditions. */
  ghost predicate Gated(d: SymDef, env: Env) {
    EvalOpt(d.dirDep, env) == NO ==>
      forall p :: p in d.props && (p.hasText || p.kind.Default?) ==> EvalOpt(p.visible, env) == NO
  }

  lemma {:induction false} NoPromptVisible(ps: seq<Property>, env: Env)
    requires forall p :: p in ps && p.hasText ==> EvalOpt(p.visible, env) == NO
    ensures PromptVisibility(ps, env) == NO
  {
    if ps != [] {
      NoPromptVisible(ps[..|ps| - 1], env);
      assert ps[|ps| - 1] in ps;
    }
  }

  lemma {:induction false} NoDefaultActive(ps: seq<Property>, env: Env)
    requires forall p :: p in ps && p.kind.Default? ==> EvalOpt(p.visible, env) == NO
    ensures FirstActive(ps, Default, env).None?
  {
    if ps != [] {
      assert ps[0] in ps;
      NoDefaultActive(ps[1..], env);
    }
  }

  /** The value of a boolean or tristate symbol: a select does not override an
      unmet direct dependency, and otherwise sets a floor. */
  lemma LogicValueRules(g: Graph, v: Values, s: Symbol)
    requires Solution(g, v) && s in g.defs && s.IsLogic()
    ensures v[s].dirDep == NO && v[s].revDep != NO ==> v[s].tri == NO
    ensures v[s].dirDep != NO || v[s].revDep == NO ==> v[s].tri >= v[s].revDep
    ensures EffectiveType(g.modules, s).Boolean? ==> v[s].tri != MOD
  {
    SolutionAt(g, v, s);
  }

  /** An imply raises a symbol as far as its direct dependency allows, and not
      above it; a user's value for a visible symbol is not bound by it and not
      above the visibility.  Only selects go further. */
  lemma ImplyAndUserBounds(g: Graph, v: Values, s: Symbol)
    requires Solution(g, v) && s in g.defs && s.IsLogic()
    requires !(v[s].dirDep == NO && v[s].revDep != NO)
    ensures var c, boolean := v[s], EffectiveType(g.modules, s).Boolean?;
            if c.visible != NO && s in g.user then
              TriAnd(g.user[s].tri, c.visible) <= c.tri <= Promote(TriOr(c.visible, c.revDep), boolean)
            else
              TriAnd(c.implied, c.dirDep) <= c.tri &&
              (c.implied != NO ==> c.tri <= Promote(TriOr(c.dirDep, c.revDep), boolean))
  {
    SolutionAt(g, v, s);
  }

  /** What an unmet direct dependency leaves of a symbol without the gate: it
      is n exactly if a select asks for it, or its user's value for a visible
      prompt is n, or without one it is implied or its default is n. */
  lemma UnmetDependencyIff(g: Graph, v: Values, s: Symbol)
    requires Solution(g, v) && s in g.defs && s.IsLogic() && v[s].dirDep == NO
    ensures v[s].tri == NO <==>
            v[s].revDep != NO ||
            if v[s].visible != NO && s in g.user then g.user[s].tri == NO
            else v[s].implied != NO || DefaultTri(g.defs[s], EnvOf(g.modules, v)) == NO
  {
    SolutionAt(g, v, s);
  }

  /** With gated prompts and defaults an unmet direct dependency always forces
      n, whether or not the symbol is selected or implied. */
  lemma UnmetDependencyIsNo(g: Graph, v: Values, s: Symbol)
    requires Solution(g, v) && s in g.defs && s.IsLogic()
    requires Gated(g.defs[s], EnvOf(g.modules, v))
    ensures v[s].dirDep == NO ==> v[s].tri == NO && v[s].visible == NO
  {
    SolutionAt(g, v, s);
    var d, env := g.defs[s], EnvOf(g.modules, v);
    if v[s].dirDep == NO {
      assert EvalOpt(d.dirDep, env) == NO;
      NoPromptVisible(d.props, env);
      NoDefaultActive(d.props, env);
      assert v[s].visible == NO && DefaultTri(d, env) == NO;
    }
  }

  // ----- setting a value -----

  /** The graph after the user's value of `s` became `val`. */
  function WithUser(g: Graph, s: Symbol, val: Tristate): Graph {
    g.(user := g.user[s := UserValue(val, if s in g.user then g.user[s].text else "")])
  }

  lemma LocalUser(g: Graph, h: Graph, t: Symbol, v: Values)
    requires g.modules == h.modules && g.defs == h.defs && t in g.defs
    requires UserOf(g, t) == UserOf(h, t)
    ensures Local(g, t, v) == Local(h, t, v)
  {
    var c := Visibility(g.modules, t, g.defs[t], EnvOf(g.modules, v), BLANK);
    assert LocalLogic(g, t, g.defs[t], v, c) == LocalLogic(h, t, g.defs[t], v, c);
    assert LocalPlain(g, t, g.defs[t], v, c) == LocalPlain(h, t, g.defs[t], v, c);
  }

  /** A symbol that comes no later than `s` in the evaluation order is not
      affected by the user's value of `s`. */
  lemma {:induction false} OthersKeep(g: Graph, rank: map<Symbol, nat>, s: Symbol, val: Tristate, v: Values,
          w: Values, t: Symbol)
    requires GraphOk(g) && Ranked(g.defs, rank)
    requires Solution(g, v) && Solution(WithUser(g, s, val), w)
    requires s in g.defs && t in g.defs && t != s && rank[t] <= rank[s]
    ensures w[t] == v[t]
    decreases rank[t]
  {
    forall u | u in Reads(g.defs[t]) && u in g.defs ensures w[u] == v[u] {
      OthersKeep(g, rank, s, val, v, w, u);
    }
    SolutionAt(g, v, t);
    SolutionAt(WithUser(g, s, val), w, t);
    LocalUser(g, WithUser(g, s, val), t, v);
    LocalFrame(WithUser(g, s, val), t, v, w);
  }

  /** What evaluating `s` again finds: the same visibility and dependencies. */
  lemma SetKeepsInputs(g: Graph, rank: map<Symbol, nat>, s: Symbol, val: Tristate, v: Values, w: Values)
    requires GraphOk(g) && Ranked(g.defs, rank)
    requires Solution(g, v) && Solution(WithUser(g, s, val), w)
    requires s in g.defs && s.IsLogic()
    ensures v[s] == Local(g, s, v)
    ensures w[s] == Local(WithUser(g, s, val), s, v)
  {
    var h := WithUser(g, s, val);
    forall u | u in Reads(g.defs[s]) && u in g.defs ensures w[u] == v[u] {
      OthersKeep(g, rank, s, val, v, w, u);
    }
    SolutionAt(g, v, s);
    SolutionAt(h, w, s);
    LocalFrame(h, s, v, w);
  }

  /** A value within the range is what evaluation then yields, unless the
      direct dependency is n while the symbol is selected. */
  lemma SetInRangeTakesEffect(g: Graph, rank: map<Symbol, nat>, s: Symbol, val: Tristate, v: Values, w: Values)
    requires GraphOk(g) && Ranked(g.defs, rank)
    requires Solution(g, v) && Solution(WithUser(g, s, val), w)
    requires s in g.defs && s.IsLogic() && CanBeSet(g.modules, s, v[s], val)
    ensures w[s].tri == val <==> !(v[s].dirDep == NO && v[s].revDep != NO)
  {
    SetKeepsInputs(g, rank, s, val, v, w);
  }

  /** With gated prompts the exception cannot occur. */
  lemma SetGatedTakesEffect(g: Graph, rank: map<Symbol, nat>, s: Symbol, val: Tristate, v: Values, w: Values)
    requires GraphOk(g) && Ranked(g.defs, rank)
    requires Solution(g, v) && Solution(WithUser(g, s, val), w)
    requires s in g.defs && s.IsLogic() && CanBeSet(g.modules, s, v[s], val)
    requires Gated(g.defs[s], EnvOf(g.modules, v))
    ensures w[s].tri == val
  {
    UnmetDependencyIsNo(g, v, s);
    SetInRangeTakesEffect(g, rank, s, val, v, w);
  }

  /** Setting the value a symbol already has is accepted without a range
      check.  The value survives the next evaluation exactly when the symbol
      is invisible, the value is not above the visibility, or it is what the
      selects ask for. */
  lemma SetSameKeepsIff(g: Graph, rank: map<Symbol, nat>, s: Symbol, v: Values, w: Values)
    requires s in g.defs && s.IsLogic() && s in v
    requires GraphOk(g) && Ranked(g.defs, rank)
    requires Solution(g, v) && Solution(WithUser(g, s, v[s].tri), w)
    ensures w[s].tri == v[s].tri <==>
            v[s].visible == NO || v[s].tri <= v[s].visible || v[s].revDep == v[s].tri
  {
    SetKeepsInputs(g, rank, s, v[s].tri, v, w);
  }

  /** A tristate symbol with the default y and a prompt that is visible at m
      holds y; setting it to y is accepted and leaves it at m. */
  lemma SetSameMayLower(s: Symbol)
    requires s.Config? && s.kind.Tristated?
    ensures var p := Property(Prompt, true, None, Some(Sym(SymMod)), None);
            var q := Property(Default, false, Some(E_YES), None, None);
            var g := Graph(true, map[s := SymDef([p, q], None, None, None, false)], map[]);
            var v := map[s := Calc(YES, "n", MOD, YES, NO, NO, true)];
            var w := map[s := Calc(MOD, "n", MOD, YES, NO, NO, true)];
            Solution(g, v) && Solution(WithUser(g, s, v[s].tri), w)
  {
    var p := Property(Prompt, true, None, Some(Sym(SymMod)), None);
    var q := Property(Default, false, Some(E_YES), None, None);
    var d := SymDef([p, q], None, None, None, false);
    var g := Graph(true, map[s := d], map[]);
    var v := map[s := Calc(YES, "n", MOD, YES, NO, NO, true)];
    var w := map[s := Calc(MOD, "n", MOD, YES, NO, NO, true)];
    forall env: Env ensures PromptVisibility(d.props, env) == MOD && DefaultTri(d, env) == YES {
      assert [p, q][..1] == [p] && [p][..0] == [];
      assert PromptVisibility([p], env) == MOD;
      assert [p, q][1..] == [q];
      assert FirstActive([q], Default, env) == Some(q);
    }
    assert v[s] == Local(g, s, v);
    assert w[s] == Local(WithUser(g, s, YES), s, w);
  }

  /** The clamped text lies between the bounds if they are in order and are
      read in the symbol's own base. */
  lemma BoundedBetween(s: Symbol, v: Values, lo: Symbol, hi: Symbol, text: string)
    requires var base := NumberBase(s.Type(), 10);
             NumberBase(lo.Type(), base) == NumberBase(hi.Type(), base) == base &&
             BoundValue(v, lo, base) <= BoundValue(v, hi, base)
    ensures var base := NumberBase(s.Type(), 10);
            BoundValue(v, lo, base) <= StrToLL(BoundedText(s, v, lo, hi, text), base) <= BoundValue(v, hi, base)
  {
  }

  /** A number or hex symbol lies between the bounds of its active range. */
  lemma ValueInRange(g: Graph, v: Values, s: Symbol, p: Property)
    requires Solution(g, v) && s in g.defs && (s.Type().Int? || s.Type().Hex?)
    requires FirstActive(g.defs[s].props, Range, EnvOf(g.modules, v)) == Some(p) && p.bounds.Some?
    requires var base := NumberBase(s.Type(), 10);
             var (lo, hi) := p.bounds.value;
             NumberBase(lo.Type(), base) == NumberBase(hi.Type(), base) == base &&
             BoundValue(v, lo, base) <= BoundValue(v, hi, base)
    ensures var base := NumberBase(s.Type(), 10);
            var (lo, hi) := p.bounds.value;
            BoundValue(v, lo, base) <= StrToLL(v[s].text, base) <= BoundValue(v, hi, base)
  {
    var d, env := g.defs[s], EnvOf(g.modules, v);
    var c := Visibility(g.modules, s, d, env, BLANK);
    var text := PlainText(d, UserOf(g, s), env, v, c.visible);
    assert v[s].text == InRange(s, d, env, v, text) by {
      SolutionAt(g, v, s);
    }
    BoundedBetween(s, v, p.bounds.value.0, p.bounds.value.1, text);
  }
}
