/** Symbols, and what one evaluation of a symbol computes from the values of
    the others (sym_calc_value and what it calls in scripts/config/symbol.c).
    Choices have a module of their own. */
module SymbolGraph {
  import opened Options
  import opened Texts
  import opened Tristates
  import opened Symbols
  import opened Exprs
  import opened Joins

  datatype PropKind = Prompt | Comment | Menu | Default | ChoiceValue | Select | Imply | Range | Definition | Reset

  /** A property.  `bounds` are the two symbols of a range. */
  datatype Property = Property(
    kind: PropKind, hasText: bool, expr: Option<Expr>, visible: Option<Expr>, bounds: Option<(Symbol, Symbol)>)

  datatype SymDef = SymDef(
    props: seq<Property>, dirDep: Option<Expr>, revDep: Option<Expr>, implied: Option<Expr>, noWrite: bool)

  /** The value a user gave to a symbol. */
  datatype UserValue = UserValue(tri: Tristate, text: string)

  datatype Graph = Graph(modules: bool, defs: map<Symbol, SymDef>, user: map<Symbol, UserValue>)

  /** What evaluating a symbol leaves in it.  `text` is `curr.val`, which for
      a boolean or tristate symbol is not its string value. */
  datatype Calc = Calc(
    tri: Tristate, text: string, visible: Tristate, dirDep: Tristate, revDep: Tristate, implied: Tristate, write: bool)

  type Values = map<Symbol, Calc>

  // ----- which symbols a symbol reads -----

  function SymbolsOf(e: Expr): set<Symbol> {
    match e
    case Sym(s) => {s}
    case Comp(_, a, b) => {a, b}
    case Not(x) => SymbolsOf(x)
    case And(l, r) => SymbolsOf(l) + SymbolsOf(r)
    case Or(l, r) => SymbolsOf(l) + SymbolsOf(r)
  }

  function SymbolsOfOpt(e: Option<Expr>): set<Symbol> {
    if e.Some? then SymbolsOf(e.value) else {}
  }

  /** What the dependency check follows in a property. */
  function PropEdges(p: Property): set<Symbol> {
    if p.kind.ChoiceValue? || p.kind.Select? || p.kind.Imply? then {}
    else SymbolsOfOpt(p.visible) + (if p.kind.Default? then SymbolsOfOpt(p.expr) else {})
  }

  function BoundSymbols(p: Property): set<Symbol> {
    if p.kind.Range? && p.bounds.Some? then {p.bounds.value.0, p.bounds.value.1} else {}
  }

  function AllPropEdges(ps: seq<Property>): set<Symbol> {
    if ps == [] then {} else PropEdges(ps[0]) + AllPropEdges(ps[1..])
  }

  function AllBoundSymbols(ps: seq<Property>): set<Symbol> {
    if ps == [] then {} else BoundSymbols(ps[0]) + AllBoundSymbols(ps[1..])
  }

  /** The edges the dependency check follows from a symbol. */
  function Edges(d: SymDef): set<Symbol> {
    SymbolsOfOpt(d.dirDep) + SymbolsOfOpt(d.revDep) + SymbolsOfOpt(d.implied) + AllPropEdges(d.props)
  }

  /** The symbols an evaluation may read: the edges and the range bounds. */
  function Reads(d: SymDef): set<Symbol> {
    Edges(d) + AllBoundSymbols(d.props)
  }

  /** Every configuration symbol that is read has an entry. */
  ghost predicate Closed(defs: map<Symbol, SymDef>) {
    (forall s :: s in defs ==> s.Config?) &&
    (forall s, t {:trigger t in Reads(defs[s])} :: s in defs && t in Reads(defs[s]) && t.Config? ==> t in defs)
  }

  /** `rank` decreases along every read: the graph has no cycle. */
  ghost predicate Ranked(defs: map<Symbol, SymDef>, rank: map<Symbol, nat>) {
    rank.Keys == defs.Keys &&
    forall s, t {:trigger t in Reads(defs[s])} :: s in defs && t in Reads(defs[s]) && t in defs ==> rank[t] < rank[s]
  }

  // ----- one evaluation -----

  function EnvOf(modules: bool, v: Values): Env {
    Env(modules, map s | s in v :: v[s].tri, map s | s in v :: v[s].text)
  }

  /** `sym_get_type` for a symbol that is no choice value. */
  function EffectiveType(modules: bool, s: Symbol): SymType {
    if s.Type().Tristated? && !modules then Boolean else s.Type()
  }

  /** m counts as y for a symbol that can only be n or y. */
  function Promote(t: Tristate, boolean: bool): Tristate {
    if t == MOD && boolean then YES else t
  }

  /** The best visibility among the prompts. */
  function PromptVisibility(ps: seq<Property>, env: Env): Tristate {
    if ps == [] then NO
    else
      var rest := PromptVisibility(ps[..|ps| - 1], env);
      var p := ps[|ps| - 1];
      if p.hasText then TriOr(rest, EvalOpt(p.visible, env)) else rest
  }

  lemma PromptStep(ps: seq<Property>, i: nat, env: Env)
    requires i < |ps|
    ensures PromptVisibility(ps[..i + 1], env)
            == TriOr(PromptVisibility(ps[..i], env), if ps[i].hasText then EvalOpt(ps[i].visible, env) else NO)
  {
    assert ps[..i + 1][..i] == ps[..i];
  }

  /** The first property of a kind whose condition is not n. */
  function FirstActive(ps: seq<Property>, kind: PropKind, env: Env): (r: Option<Property>)
    ensures r.Some? ==> r.value in ps && r.value.kind == kind
  {
    if ps == [] then None
    else if ps[0].kind == kind && EvalOpt(ps[0].visible, env) != NO then Some(ps[0])
    else FirstActive(ps[1..], kind, env)
  }

  /** A direct, reverse or implied dependency as `sym_calc_visibility` reads it. */
  function DepValue(modules: bool, s: Symbol, e: Option<Expr>, absent: Tristate, env: Env): Tristate {
    Promote(if e.None? then absent else EvalOpt(e, env), EffectiveType(modules, s).Boolean?)
  }

  function PromptValue(modules: bool, s: Symbol, d: SymDef, env: Env): Tristate {
    Promote(PromptVisibility(d.props, env), !s.Type().Tristated? || !modules)
  }

  /** `sym_calc_visibility`, on top of what the symbol held before. */
  function Visibility(modules: bool, s: Symbol, d: SymDef, env: Env, base: Calc): Calc {
    base.(
      visible := PromptValue(modules, s, d, env),
      dirDep := DepValue(modules, s, d.dirDep, YES, env),
      revDep := DepValue(modules, s, d.revDep, NO, env),
      implied := DepValue(modules, s, d.implied, NO, env))
  }

  /** The value of a default of a boolean or tristate symbol. */
  function DefaultTri(d: SymDef, env: Env): Tristate {
    match FirstActive(d.props, Default, env)
    case None => NO
    case Some(p) => TriAnd(EvalOpt(p.expr, env), EvalOpt(p.visible, env))
  }

  /** The final rule: a select does not override an unmet direct dependency. */
  function ApplySelect(newval: Tristate, c: Calc): Tristate {
    if c.dirDep == NO && c.revDep != NO then NO else TriOr(newval, c.revDep)
  }

  /** The value before the reverse dependency: the user's, limited by the
      visibility, or the default and the implied value. */
  function LogicBase(d: SymDef, user: Option<UserValue>, env: Env, c: Calc): Tristate {
    if c.visible != NO && user.Some? then TriAnd(user.value.tri, c.visible)
    else if c.implied != NO then TriAnd(TriOr(DefaultTri(d, env), c.implied), c.dirDep)
    else DefaultTri(d, env)
  }

  function LogicTri(modules: bool, s: Symbol, d: SymDef, user: Option<UserValue>, env: Env, c: Calc): Tristate {
    Promote(ApplySelect(LogicBase(d, user, env, c), c), EffectiveType(modules, s).Boolean?)
  }

  function LogicWrite(d: SymDef, env: Env, c: Calc): bool {
    c.visible != NO || c.revDep != NO || FirstActive(d.props, Default, env).Some? || c.implied != NO
  }

  /** The current value and text play no part in the new ones. */
  lemma LogicIgnoresValue(g: Graph, s: Symbol, d: SymDef, env: Env, c: Calc, tri: Tristate, text: string)
    ensures var c' := c.(tri := tri, text := text);
            LogicTri(g.modules, s, d, UserOf(g, s), env, c') == LogicTri(g.modules, s, d, UserOf(g, s), env, c) &&
            LogicWrite(d, env, c') == LogicWrite(d, env, c)
  {
  }

  /** `curr.val` of a symbol. */
  function RawText(v: Values, s: Symbol): string {
    if s.IsConst() then ConstText(s) else if s in v then v[s].text else ""
  }

  function PropSymbol(p: Property): Option<Symbol> {
    if p.expr.Some? && p.expr.value.Sym? then Some(p.expr.value.s) else None
  }

  /** The symbol a text, number or hex symbol takes its value from when the
      user gave none. */
  function DefaultSymbol(d: SymDef, env: Env): Option<Symbol> {
    match FirstActive(d.props, Default, env)
    case None => None
    case Some(p) => PropSymbol(p)
  }

  function PlainText(d: SymDef, user: Option<UserValue>, env: Env, v: Values, visible: Tristate): string {
    if visible != NO && user.Some? then user.value.text
    else
      match DefaultSymbol(d, env)
      case None => ""
      case Some(t) => RawText(v, t)
  }

  function PlainWrite(d: SymDef, env: Env, visible: Tristate): bool {
    visible != NO || DefaultSymbol(d, env).Some?
  }

  // ----- ranges -----

  function LeadingDigits(s: string, base: nat): string {
    if s != "" && DigitValue(s[0]) < base then [s[0]] + LeadingDigits(s[1..], base) else ""
  }

  /** `strtoll` in base 10 or 16: the number at the front of a text, limited
      to 64 bits. */
  function StrToLL(s: string, base: nat): int {
    var t := SkipSpaces(s);
    var negative := t != "" && t[0] == '-';
    var body := if t != "" && (t[0] == '-' || t[0] == '+') then t[1..] else t;
    var digits := LeadingDigits(if base == 16 && HasHexPrefix(body) then body[2..] else body, base);
    var v := if negative then 0 - (Digits(digits, base) as int) else Digits(digits, base) as int;
    if v < -TWO63 then -TWO63 else if v >= TWO63 then TWO63 - 1 else v
  }

  function NumberBase(k: SymType, otherwise: nat): nat {
    if k.Int? then 10 else if k.Hex? then 16 else otherwise
  }

  /** The number a range bound stands for. */
  function BoundValue(v: Values, t: Symbol, base: nat): int {
    StrToLL(RawText(v, t), NumberBase(t.Type(), base))
  }

  /** The text, or the text of the bound it violates. */
  function BoundedText(s: Symbol, v: Values, lo: Symbol, hi: Symbol, text: string): string {
    var base := NumberBase(s.Type(), 10);
    var val := StrToLL(text, base);
    if val < BoundValue(v, lo, base) then RawText(v, lo)
    else if val > BoundValue(v, hi, base) then RawText(v, hi)
    else text
  }

  /** `sym_validate_range` */
  function InRange(s: Symbol, d: SymDef, env: Env, v: Values, text: string): string {
    if !s.Type().Int? && !s.Type().Hex? then text
    else
      match FirstActive(d.props, Range, env)
      case None => text
      case Some(p) => if p.bounds.None? then text else BoundedText(s, v, p.bounds.value.0, p.bounds.value.1, text)
  }

  const BLANK := Calc(NO, "", NO, NO, NO, NO, false)

  function UserOf(g: Graph, s: Symbol): Option<UserValue> {
    if s in g.user then Some(g.user[s]) else None
  }

  function LocalLogic(g: Graph, s: Symbol, d: SymDef, v: Values, c: Calc): Calc {
    var env := EnvOf(g.modules, v);
    c.(tri := LogicTri(g.modules, s, d, UserOf(g, s), env, c),
       text := "n",
       write := LogicWrite(d, env, c) && !d.noWrite)
  }

  function LocalPlain(g: Graph, s: Symbol, d: SymDef, v: Values, c: Calc): Calc {
    var env := EnvOf(g.modules, v);
    c.(text := InRange(s, d, env, v, PlainText(d, UserOf(g, s), env, v, c.visible)),
       write := PlainWrite(d, env, c.visible) && !d.noWrite)
  }

  /** What an evaluation of `s` leaves in it, from the values of the symbols
      it reads. */
  function Local(g: Graph, s: Symbol, v: Values): Calc
    requires s in g.defs
  {
    var d := g.defs[s];
    if s.Type().Unknown? then BLANK.(text := if s.Config? then s.name else "")
    else
      var c := Visibility(g.modules, s, d, EnvOf(g.modules, v), BLANK);
      if s.IsLogic() then LocalLogic(g, s, d, v, c) else LocalPlain(g, s, d, v, c)
  }

  /** Values in which every symbol is what its evaluation yields from the
      others. */
  ghost predicate Solution(g: Graph, v: Values) {
    v.Keys == g.defs.Keys && forall s {:trigger Local(g, s, v)} :: s in g.defs ==> v[s] == Local(g, s, v)
  }

  // ----- an evaluation reads only what it should -----

  ghost predicate Agree(v: Values, w: Values, on: set<Symbol>) {
    forall s :: s in on ==> (s in v <==> s in w) && (s in v ==> v[s] == w[s])
  }

  lemma {:induction false} EvalFrame(e: Expr, modules: bool, v: Values, w: Values)
    requires Agree(v, w, SymbolsOf(e))
    ensures Eval(e, EnvOf(modules, v)) == Eval(e, EnvOf(modules, w))
  {
    match e
    case Not(x) => EvalFrame(x, modules, v, w);
    case And(l, r) =>
      EvalFrame(l, modules, v, w);
      EvalFrame(r, modules, v, w);
    case Or(l, r) =>
      EvalFrame(l, modules, v, w);
      EvalFrame(r, modules, v, w);
    case Sym(s) => SymbolFrame(s, modules, v, w);
    case Comp(_, a, b) =>
      SymbolFrame(a, modules, v, w);
      SymbolFrame(b, modules, v, w);
  }

  lemma SymbolFrame(s: Symbol, modules: bool, v: Values, w: Values)
    requires Agree(v, w, {s})
    ensures TriOf(EnvOf(modules, v), s) == TriOf(EnvOf(modules, w), s)
    ensures TextOf(EnvOf(modules, v), s) == TextOf(EnvOf(modules, w), s)
  {
    assert s in {s};
  }

  lemma EvalOptFrame(e: Option<Expr>, modules: bool, v: Values, w: Values)
    requires Agree(v, w, SymbolsOfOpt(e))
    ensures EvalOpt(e, EnvOf(modules, v)) == EvalOpt(e, EnvOf(modules, w))
  {
    if e.Some? {
      EvalFrame(e.value, modules, v, w);
    }
  }

  lemma {:induction false} PropReads(ps: seq<Property>, p: Property)
    requires p in ps
    ensures PropEdges(p) <= AllPropEdges(ps)
    ensures BoundSymbols(p) <= AllBoundSymbols(ps)
  {
    if p != ps[0] {
      PropReads(ps[1..], p);
    }
  }

  lemma DirectReads(d: SymDef)
    ensures SymbolsOfOpt(d.dirDep) <= Reads(d) && SymbolsOfOpt(d.revDep) <= Reads(d) &&
            SymbolsOfOpt(d.implied) <= Reads(d)
  {
  }

  lemma ConditionReads(d: SymDef, p: Property)
    requires p in d.props && !p.kind.ChoiceValue? && !p.kind.Select? && !p.kind.Imply?
    ensures SymbolsOfOpt(p.visible) <= Reads(d)
    ensures p.kind.Default? ==> SymbolsOfOpt(p.expr) <= Reads(d)
    ensures p.kind.Default? && PropSymbol(p).Some? ==> PropSymbol(p).value in Reads(d)
    ensures p.kind.Range? && p.bounds.Some? ==> p.bounds.value.0 in Reads(d) && p.bounds.value.1 in Reads(d)
  {
    PropReads(d.props, p);
    assert PropEdges(p) <= Reads(d) && BoundSymbols(p) <= Reads(d);
    if p.kind.Default? && PropSymbol(p).Some? {
      assert PropSymbol(p).value in PropEdges(p);
    }
    if p.kind.Range? && p.bounds.Some? {
      assert p.bounds.value.0 in BoundSymbols(p) && p.bounds.value.1 in BoundSymbols(p);
    }
  }

  /** A property that has a prompt text is a prompt, a menu or a comment. */
  predicate TextKind(p: Property) {
    p.hasText ==> p.kind.Prompt? || p.kind.Menu? || p.kind.Comment?
  }

  lemma {:induction false} PromptFrame(ps: seq<Property>, modules: bool, v: Values, w: Values)
    requires forall p :: p in ps ==> TextKind(p)
    requires forall p :: p in ps ==> Agree(v, w, PropEdges(p))
    ensures PromptVisibility(ps, EnvOf(modules, v)) == PromptVisibility(ps, EnvOf(modules, w))
  {
    if ps != [] {
      PromptFrame(ps[..|ps| - 1], modules, v, w);
      var p := ps[|ps| - 1];
      if p.hasText {
        assert TextKind(p);
        EvalOptFrame(p.visible, modules, v, w);
      }
    }
  }

  lemma {:induction false} ActiveFrame(ps: seq<Property>, kind: PropKind, modules: bool, v: Values, w: Values)
    requires kind.Default? || kind.Range?
    requires forall p :: p in ps ==> Agree(v, w, PropEdges(p))
    ensures FirstActive(ps, kind, EnvOf(modules, v)) == FirstActive(ps, kind, EnvOf(modules, w))
  {
    if ps != [] {
      if ps[0].kind == kind {
        assert ps[0] in ps && Agree(v, w, PropEdges(ps[0]));
        EvalOptFrame(ps[0].visible, modules, v, w);
      }
      ActiveFrame(ps[1..], kind, modules, v, w);
    }
  }

  predicate WellTyped(d: SymDef) {
    forall p :: p in d.props ==> TextKind(p)
  }

  lemma PropsFrame(d: SymDef, v: Values, w: Values)
    requires Agree(v, w, Reads(d))
    ensures forall p :: p in d.props ==> Agree(v, w, PropEdges(p)) && Agree(v, w, BoundSymbols(p))
  {
    forall p | p in d.props
      ensures Agree(v, w, PropEdges(p)) && Agree(v, w, BoundSymbols(p))
    {
      PropReads(d.props, p);
    }
  }

  lemma VisibilityFrame(modules: bool, s: Symbol, d: SymDef, v: Values, w: Values, base: Calc)
    requires WellTyped(d) && Agree(v, w, Reads(d))
    ensures Visibility(modules, s, d, EnvOf(modules, v), base) == Visibility(modules, s, d, EnvOf(modules, w), base)
  {
    PropsFrame(d, v, w);
    EvalOptFrame(d.dirDep, modules, v, w);
    EvalOptFrame(d.revDep, modules, v, w);
    EvalOptFrame(d.implied, modules, v, w);
    PromptFrame(d.props, modules, v, w);
  }

  lemma DefaultFrame(modules: bool, d: SymDef, v: Values, w: Values)
    requires Agree(v, w, Reads(d))
    ensures FirstActive(d.props, Default, EnvOf(modules, v)) == FirstActive(d.props, Default, EnvOf(modules, w))
    ensures DefaultTri(d, EnvOf(modules, v)) == DefaultTri(d, EnvOf(modules, w))
    ensures DefaultSymbol(d, EnvOf(modules, v)) == DefaultSymbol(d, EnvOf(modules, w))
    ensures DefaultSymbol(d, EnvOf(modules, v)).Some? ==>
              RawText(v, DefaultSymbol(d, EnvOf(modules, v)).value)
              == RawText(w, DefaultSymbol(d, EnvOf(modules, v)).value)
  {
    PropsFrame(d, v, w);
    ActiveFrame(d.props, Default, modules, v, w);
    match FirstActive(d.props, Default, EnvOf(modules, v)) {
      case None =>
      case Some(p) =>
        EvalOptFrame(p.visible, modules, v, w);
        EvalOptFrame(p.expr, modules, v, w);
        if PropSymbol(p).Some? {
          assert PropSymbol(p).value in PropEdges(p);
        }
    }
  }

  lemma RangeFrame(modules: bool, s: Symbol, d: SymDef, v: Values, w: Values, text: string)
    requires Agree(v, w, Reads(d))
    ensures InRange(s, d, EnvOf(modules, v), v, text) == InRange(s, d, EnvOf(modules, w), w, text)
  {
    PropsFrame(d, v, w);
    ActiveFrame(d.props, Range, modules, v, w);
    match FirstActive(d.props, Range, EnvOf(modules, v)) {
      case None =>
      case Some(p) =>
        if p.bounds.Some? {
          var (lo, hi) := p.bounds.value;
          assert lo in BoundSymbols(p) && hi in BoundSymbols(p);
          assert RawText(v, lo) == RawText(w, lo) && RawText(v, hi) == RawText(w, hi);
        }
    }
  }

  lemma LogicFrame(g: Graph, s: Symbol, d: SymDef, v: Values, w: Values, c: Calc)
    requires Agree(v, w, Reads(d))
    ensures LocalLogic(g, s, d, v, c) == LocalLogic(g, s, d, w, c)
  {
    DefaultFrame(g.modules, d, v, w);
  }

  lemma PlainFrame(g: Graph, s: Symbol, d: SymDef, v: Values, w: Values, c: Calc)
    requires Agree(v, w, Reads(d))
    ensures LocalPlain(g, s, d, v, c) == LocalPlain(g, s, d, w, c)
  {
    DefaultFrame(g.modules, d, v, w);
    RangeFrame(g.modules, s, d, v, w, PlainText(d, UserOf(g, s), EnvOf(g.modules, v), v, c.visible));
  }

  /** An evaluation depends only on the symbols it reads. */
  lemma LocalFrame(g: Graph, s: Symbol, v: Values, w: Values)
    requires s in g.defs && WellTyped(g.defs[s])
    requires Agree(v, w, Reads(g.defs[s]))
    ensures Local(g, s, v) == Local(g, s, w)
  {
    var d := g.defs[s];
    VisibilityFrame(g.modules, s, d, v, w, BLANK);
    var c := Visibility(g.modules, s, d, EnvOf(g.modules, v), BLANK);
    if s.IsLogic() {
      LogicFrame(g, s, d, v, w, c);
    } else {
      PlainFrame(g, s, d, v, w, c);
    }
  }

  // ----- the pure evaluator -----

  /** The value of a symbol by plain recursion over the symbols it reads. */
  ghost function Pure(g: Graph, rank: map<Symbol, nat>, s: Symbol): Calc
    requires Ranked(g.defs, rank)
    requires s in g.defs
    decreases rank[s]
  {
    Local(g, s, map t | t in Reads(g.defs[s]) && t in g.defs :: Pure(g, rank, t))
  }

  ghost function PureValues(g: Graph, rank: map<Symbol, nat>): Values
    requires Ranked(g.defs, rank)
  {
    map s | s in g.defs :: Pure(g, rank, s)
  }

  ghost predicate GraphOk(g: Graph) {
    Closed(g.defs) && forall s {:trigger WellTyped(g.defs[s])} :: s in g.defs ==> WellTyped(g.defs[s])
  }

  /** Recursion gives a solution. */
  lemma PureIsSolution(g: Graph, rank: map<Symbol, nat>)
    requires GraphOk(g) && Ranked(g.defs, rank)
    ensures Solution(g, PureValues(g, rank))
  {
    var all := PureValues(g, rank);
    forall s | s in g.defs ensures all[s] == Local(g, s, all) {
      PureIsLocal(g, rank, s);
    }
  }

  lemma SolutionAt(g: Graph, v: Values, s: Symbol)
    requires Solution(g, v) && s in g.defs
    ensures v[s] == Local(g, s, v)
  {
  }

  lemma PureIsLocal(g: Graph, rank: map<Symbol, nat>, s: Symbol)
    requires GraphOk(g) && Ranked(g.defs, rank) && s in g.defs
    ensures Pure(g, rank, s) == Local(g, s, PureValues(g, rank))
  {
    var part := map t | t in Reads(g.defs[s]) && t in g.defs :: Pure(g, rank, t);
    assert Pure(g, rank, s) == Local(g, s, part);
    LocalFrame(g, s, part, PureValues(g, rank));
  }

  /** An acyclic graph has only one solution, so the recursion order, and with
      it `rank`, does not matter. */
  lemma {:induction false} SolutionUnique(g: Graph, rank: map<Symbol, nat>, v: Values, w: Values, s: Symbol)
    requires GraphOk(g) && Ranked(g.defs, rank)
    requires Solution(g, v) && Solution(g, w)
    requires s in g.defs
    ensures v[s] == w[s]
    decreases rank[s]
  {
    forall t | t in Reads(g.defs[s]) && t in g.defs ensures v[t] == w[t] {
      SolutionUnique(g, rank, v, w, t);
    }
    SolutionAt(g, v, s);
    SolutionAt(g, w, s);
    LocalFrame(g, s, v, w);
  }

  // ----- what every solution satisfies -----

  /** A boolean symbol, or a tristate one without modules, never holds m; a
      symbol of another type holds n. */
  lemma SolutionTypes(g: Graph, v: Values, s: Symbol)
    requires Solution(g, v) && s in g.defs
    ensures EffectiveType(g.modules, s).Boolean? ==> v[s].tri != MOD
    ensures !s.IsLogic() ==> v[s].tri == NO
    ensures s.Config? && s.kind.Unknown? ==> v[s].text == s.name
  {
    SolutionAt(g, v, s);
  }

  /** The values the user may give to a symbol that was evaluated to `c`. */
  predicate CanBeSet(modules: bool, s: Symbol, c: Calc, val: Tristate) {
    var kind := EffectiveType(modules, s);
    if c.visible == NO then false
    else if !kind.Boolean? && !kind.Tristated? then false
    else if kind.Boolean? && val == MOD then false
    else if c.visible <= c.revDep then false
    else c.revDep <= val <= c.visible
  }
}
