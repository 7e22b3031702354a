/** The memoised evaluation of symbols and the setting of a symbol's value
    (sym_calc_value and sym_set_tristate_value in scripts/config/symbol.c). */
module SymbolCalc {
  import opened Options
  import opened Tristates
  import opened Symbols
  import opened Exprs
  import opened Joins
  import opened SymbolGraph
  import opened SymbolRules

  /** All symbols with what they currently hold.  `valid` are the symbols
      with the SYMBOL_VALID flag, `user` those with SYMBOL_DEF_USER. */
  class SymbolTable {
    const modules: bool
    const defs: map<Symbol, SymDef>
    var user: map<Symbol, UserValue>
    var st: Values
    var valid: set<Symbol>

    function TheGraph(): Graph
      reads this`user
    {
      Graph(modules, defs, user)
    }

    /** `vals` are the values this table is to compute. */
    ghost predicate Target(vals: Values)
      reads this`user
    {
      GraphOk(TheGraph()) && Solution(TheGraph(), vals)
    }

    /** The valid symbols hold the values `vals`, except for those in `open`,
        whose evaluation is under way. */
    ghost predicate Holds(vals: Values, open: set<Symbol>)
      reads this`st, this`valid
    {
      (forall s :: s in defs ==> s in st && s in vals) &&
      (forall s :: s in valid ==> s in defs) &&
      (forall s :: s in open ==> s in valid) &&
      (forall s :: s in valid && s !in open ==> st[s] == vals[s])
    }

    /** Store into a symbol under way. */
    method Put(s: Symbol, c: Calc, ghost vals: Values, ghost open: set<Symbol>)
      requires Holds(vals, open) && s in open
      modifies this`st
      ensures Holds(vals, open) && st[s] == c
      ensures forall o :: o in open && o != s ==> st[o] == old(st)[o]
    {
      st := st[s := c];
    }

    /** The symbols may be evaluated below `bound`: none of them is under way. */
    ghost predicate Below(syms: set<Symbol>, rank: map<Symbol, nat>, bound: nat, open: set<Symbol>)
    {
      Ranked(defs, rank) &&
      (forall t :: t in syms && t.Config? ==> t in defs && rank[t] < bound) &&
      (forall o :: o in open ==> o in defs && rank[o] >= bound)
    }

    constructor (modules: bool, defs: map<Symbol, SymDef>, user: map<Symbol, UserValue>)
      ensures this.modules == modules && this.defs == defs && this.user == user
      ensures valid == {} && st == map s | s in defs :: BLANK
    {
      this.modules, this.defs, this.user := modules, defs, user;
      this.st, this.valid := (map s | s in defs :: BLANK), {};
    }

    function CurrTri(s: Symbol): Tristate
      requires s in st || s.IsConst()
      reads this
    {
      if s == SymYes then YES else if s == SymMod then MOD else if s.IsConst() then NO else st[s].tri
    }

    /** `sym_get_string_value` */
    function CurrText(s: Symbol): string
      requires s in st || s.IsConst()
      reads this
    {
      if s.IsConst() then ConstText(s)
      else if s.IsLogic() then TriText(st[s].tri)
      else st[s].text
    }

    lemma CurrentValue(s: Symbol, vals: Values, open: set<Symbol>)
      requires Target(vals) && Holds(vals, open)
      requires s.IsConst() || (s in valid && s !in open)
      ensures CurrTri(s) == TriOf(EnvOf(modules, vals), s)
      ensures CurrText(s) == TextOf(EnvOf(modules, vals), s)
      ensures s.IsConst() || st[s].text == vals[s].text
    {
      if s in defs {
        SolutionTypes(TheGraph(), vals, s);
      }
    }

    /** `expr_calc_value` */
    method CalcExpr(e: Expr, ghost vals: Values, ghost rank: map<Symbol, nat>, ghost bound: nat,
            ghost open: set<Symbol>)
      returns (t: Tristate)
      requires Target(vals) && Holds(vals, open) && Below(SymbolsOf(e), rank, bound, open)
      modifies this`st, this`valid
      ensures Holds(vals, open) && (forall o :: o in old(valid) ==> o in valid)
      ensures forall o :: o in open ==> st[o] == old(st)[o]
      ensures t == Eval(e, EnvOf(modules, vals))
      decreases bound, 1, Size(e)
    {
      match e
      case Sym(s) =>
        CalcValue(s, vals, rank, open);
        CurrentValue(s, vals, open);
        t := CurrTri(s);
      case And(l, r) =>
        var v1 := CalcExpr(l, vals, rank, bound, open);
        var v2 := CalcExpr(r, vals, rank, bound, open);
        t := TriAnd(v1, v2);
      case Or(l, r) =>
        var v1 := CalcExpr(l, vals, rank, bound, open);
        var v2 := CalcExpr(r, vals, rank, bound, open);
        t := TriOr(v1, v2);
      case Not(x) =>
        var v1 := CalcExpr(x, vals, rank, bound, open);
        t := TriNot(v1);
      case Comp(rel, a, b) =>
        CalcValue(a, vals, rank, open);
        CalcValue(b, vals, rank, open);
        CurrentValue(a, vals, open);
        CurrentValue(b, vals, open);
        t := Bool(RelHolds(rel, CompareTexts(a.Type(), CurrText(a), b.Type(), CurrText(b))));
    }

    /** What `s` reads may be evaluated while `s` itself is under way. */
    ghost predicate MayRead(s: Symbol, rank: map<Symbol, nat>, open: set<Symbol>)
    {
      s in open && s in defs && rank.Keys == defs.Keys && Below(Reads(defs[s]), rank, rank[s], open)
    }

    /** `sym_get_default_prop` and `sym_get_range_prop` */
    method ActiveProp(s: Symbol, kind: PropKind, ghost vals: Values, ghost rank: map<Symbol, nat>,
            ghost open: set<Symbol>)
      returns (r: Option<Property>)
      requires kind.Default? || kind.Range?
      requires Target(vals) && Holds(vals, open) && MayRead(s, rank, open)
      modifies this`st, this`valid
      ensures Holds(vals, open) && (forall o :: o in old(valid) ==> o in valid)
      ensures forall o :: o in open ==> st[o] == old(st)[o]
      ensures r == FirstActive(defs[s].props, kind, EnvOf(modules, vals))
      decreases rank[s], 3
    {
      var ps := defs[s].props;
      ghost var env := EnvOf(modules, vals);
      var i := 0;
      while i < |ps|
        invariant i <= |ps|
        invariant Holds(vals, open) && (forall o :: o in old(valid) ==> o in valid)
        invariant forall o :: o in open ==> st[o] == old(st)[o]
        invariant FirstActive(ps, kind, env) == FirstActive(ps[i..], kind, env)
      {
        if ps[i].kind == kind {
          ConditionReads(defs[s], ps[i]);
          var t := CalcRead(s, ps[i].visible, YES, vals, rank, open);
          if t != NO {
            return Some(ps[i]);
          }
        }
        i := i + 1;
      }
      r := None;
    }

    /** An expression of the symbol `s` under way. */
    method CalcRead(s: Symbol, e: Option<Expr>, absent: Tristate, ghost vals: Values,
            ghost rank: map<Symbol, nat>, ghost open: set<Symbol>)
      returns (t: Tristate)
      requires Target(vals) && Holds(vals, open) && MayRead(s, rank, open)
      requires SymbolsOfOpt(e) <= Reads(defs[s])
      modifies this`st, this`valid
      ensures Holds(vals, open) && (forall o :: o in old(valid) ==> o in valid)
      ensures forall o :: o in open ==> st[o] == old(st)[o]
      ensures t == if e.None? then absent else EvalOpt(e, EnvOf(modules, vals))
      decreases rank[s], 2
    {
      match e
      case None => t := absent;
      case Some(x) => t := CalcExpr(x, vals, rank, rank[s], open);
    }

    /** `sym_calc_visibility` */
    method CalcVisibility(s: Symbol, ghost vals: Values, ghost rank: map<Symbol, nat>, ghost open: set<Symbol>)
      requires Target(vals) && Holds(vals, open) && MayRead(s, rank, open) && !s.Type().Unknown?
      modifies this`st, this`valid
      ensures Holds(vals, open) && (forall o :: o in old(valid) ==> o in valid)
      ensures forall o :: o in open && o != s ==> st[o] == old(st)[o]
      ensures st[s] == Visibility(modules, s, defs[s], EnvOf(modules, vals), old(st)[s])
      decreases rank[s], 4
    {
      var tri := CalcPrompts(s, vals, rank, open);
      if tri == MOD && (!s.Type().Tristated? || !modules) {
        tri := YES;
      }
      Put(s, st[s].(visible := tri), vals, open);
      CalcDeps(s, vals, rank, open);
    }

    /** The three dependencies. */
    method CalcDeps(s: Symbol, ghost vals: Values, ghost rank: map<Symbol, nat>, ghost open: set<Symbol>)
      requires Target(vals) && Holds(vals, open) && MayRead(s, rank, open)
      modifies this`st, this`valid
      ensures Holds(vals, open) && (forall o :: o in old(valid) ==> o in valid)
      ensures forall o :: o in open && o != s ==> st[o] == old(st)[o]
      ensures var env := EnvOf(modules, vals);
              st[s] == old(st)[s].(dirDep := DepValue(modules, s, defs[s].dirDep, YES, env),
                                   revDep := DepValue(modules, s, defs[s].revDep, NO, env),
                                   implied := DepValue(modules, s, defs[s].implied, NO, env))
      decreases rank[s], 4, 0
    {
      DirectReads(defs[s]);
      var dirDep := CalcDep(s, defs[s].dirDep, YES, vals, rank, open);
      var revDep := CalcDep(s, defs[s].revDep, NO, vals, rank, open);
      var implied := CalcDep(s, defs[s].implied, NO, vals, rank, open);
      Put(s, st[s].(dirDep := dirDep, revDep := revDep, implied := implied), vals, open);
    }

    /** One of the three dependencies; m counts as y for a boolean symbol. */
    method CalcDep(s: Symbol, e: Option<Expr>, absent: Tristate, ghost vals: Values,
            ghost rank: map<Symbol, nat>, ghost open: set<Symbol>)
      returns (tri: Tristate)
      requires Target(vals) && Holds(vals, open) && MayRead(s, rank, open)
      requires SymbolsOfOpt(e) <= Reads(defs[s])
      modifies this`st, this`valid
      ensures Holds(vals, open) && (forall o :: o in old(valid) ==> o in valid)
      ensures forall o :: o in open ==> st[o] == old(st)[o]
      ensures tri == DepValue(modules, s, e, absent, EnvOf(modules, vals))
      decreases rank[s], 3
    {
      tri := CalcRead(s, e, absent, vals, rank, open);
      if tri == MOD && EffectiveType(modules, s).Boolean? {
        tri := YES;
      }
    }

    /** The loop of `sym_calc_visibility` over the prompts. */
    method CalcPrompts(s: Symbol, ghost vals: Values, ghost rank: map<Symbol, nat>, ghost open: set<Symbol>)
      returns (tri: Tristate)
      requires Target(vals) && Holds(vals, open) && MayRead(s, rank, open)
      modifies this`st, this`valid
      ensures Holds(vals, open) && (forall o :: o in old(valid) ==> o in valid)
      ensures forall o :: o in open ==> st[o] == old(st)[o]
      ensures tri == PromptVisibility(defs[s].props, EnvOf(modules, vals))
      decreases rank[s], 3
    {
      var ps := defs[s].props;
      ghost var env := EnvOf(modules, vals);
      tri := NO;
      var i := 0;
      while i < |ps|
        invariant i <= |ps|
        invariant Holds(vals, open) && (forall o :: o in old(valid) ==> o in valid)
        invariant forall o :: o in open ==> st[o] == old(st)[o]
        invariant tri == PromptVisibility(ps[..i], env)
      {
        PromptStep(ps, i, env);
        if ps[i].hasText {
          assert WellTyped(defs[s]) && TextKind(ps[i]);
          ConditionReads(defs[s], ps[i]);
          var t := CalcRead(s, ps[i].visible, YES, vals, rank, open);
          tri := TriOr(tri, t);
        }
        i := i + 1;
      }
      assert ps[..i] == ps;
    }

    /** The new value of a boolean or tristate symbol, and whether it is
        written. */
    method CalcLogic(s: Symbol, ghost vals: Values, ghost rank: map<Symbol, nat>, ghost open: set<Symbol>)
      returns (newtri: Tristate, write: bool)
      requires Target(vals) && Holds(vals, open) && MayRead(s, rank, open)
      modifies this`st, this`valid
      ensures Holds(vals, open) && (forall o :: o in old(valid) ==> o in valid)
      ensures forall o :: o in open ==> st[o] == old(st)[o]
      ensures newtri == LogicTri(modules, s, defs[s], UserOf(TheGraph(), s), EnvOf(modules, vals), st[s])
      ensures write == LogicWrite(defs[s], EnvOf(modules, vals), st[s])
      decreases rank[s], 6
    {
      var base;
      base, write := CalcBase(s, vals, rank, open);
      newtri := ApplyReverse(s, base, st[s]);
    }

    /** The value before the reverse dependency is applied. */
    method CalcBase(s: Symbol, ghost vals: Values, ghost rank: map<Symbol, nat>, ghost open: set<Symbol>)
      returns (newtri: Tristate, write: bool)
      requires Target(vals) && Holds(vals, open) && MayRead(s, rank, open)
      modifies this`st, this`valid
      ensures Holds(vals, open) && (forall o :: o in old(valid) ==> o in valid)
      ensures forall o :: o in open ==> st[o] == old(st)[o]
      ensures newtri == LogicBase(defs[s], UserOf(TheGraph(), s), EnvOf(modules, vals), st[s])
      ensures write == LogicWrite(defs[s], EnvOf(modules, vals), st[s])
      decreases rank[s], 5
    {
      var c := st[s];
      newtri, write := NO, c.visible != NO;
      if c.visible != NO && s in user {
        newtri := TriAnd(user[s].tri, c.visible);
      } else {
        if c.revDep != NO { write := true; }
        var active;
        newtri, active := CalcDefault(s, vals, rank, open);
        if active { write := true; }
        if c.implied != NO {
          write := true;
          newtri := TriAnd(TriOr(newtri, c.implied), c.dirDep);
        }
      }
    }

    /** The end of the branch: the reverse dependency, and m as y. */
    method ApplyReverse(s: Symbol, tri: Tristate, c: Calc) returns (newtri: Tristate)
      ensures newtri == Promote(ApplySelect(tri, c), EffectiveType(modules, s).Boolean?)
    {
      if c.dirDep == NO && c.revDep != NO {
        newtri := NO;
      } else {
        newtri := TriOr(tri, c.revDep);
      }
      if newtri == MOD && EffectiveType(modules, s).Boolean? {
        newtri := YES;
      }
    }

    /** The value of the first active default. */
    method CalcDefault(s: Symbol, ghost vals: Values, ghost rank: map<Symbol, nat>, ghost open: set<Symbol>)
      returns (tri: Tristate, active: bool)
      requires Target(vals) && Holds(vals, open) && MayRead(s, rank, open)
      modifies this`st, this`valid
      ensures Holds(vals, open) && (forall o :: o in old(valid) ==> o in valid)
      ensures forall o :: o in open ==> st[o] == old(st)[o]
      ensures tri == DefaultTri(defs[s], EnvOf(modules, vals))
      ensures active == FirstActive(defs[s].props, Default, EnvOf(modules, vals)).Some?
      decreases rank[s], 4
    {
      var p := ActiveProp(s, Default, vals, rank, open);
      tri, active := NO, p.Some?;
      if p.Some? {
        ConditionReads(defs[s], p.value);
        var value := CalcRead(s, p.value.expr, YES, vals, rank, open);
        var visible := CalcRead(s, p.value.visible, YES, vals, rank, open);
        tri := TriAnd(value, visible);
      }
    }

    /** The new text of a text or number symbol, before the range check, and
        whether it is written. */
    method CalcPlain(s: Symbol, ghost vals: Values, ghost rank: map<Symbol, nat>, ghost open: set<Symbol>)
      returns (text: string, write: bool)
      requires Target(vals) && Holds(vals, open) && MayRead(s, rank, open)
      modifies this`st, this`valid
      ensures Holds(vals, open) && (forall o :: o in old(valid) ==> o in valid)
      ensures forall o :: o in open ==> st[o] == old(st)[o]
      ensures text == PlainText(defs[s], UserOf(TheGraph(), s), EnvOf(modules, vals), vals, st[s].visible)
      ensures write == PlainWrite(defs[s], EnvOf(modules, vals), st[s].visible)
      decreases rank[s], 4
    {
      text, write := "", st[s].visible != NO;
      if st[s].visible != NO && s in user {
        text := user[s].text;
      } else {
        var p := ActiveProp(s, Default, vals, rank, open);
        if p.Some? && PropSymbol(p.value).Some? {
          var ds := PropSymbol(p.value).value;
          write := true;
          ConditionReads(defs[s], p.value);
          assert ds in PropEdges(p.value);
          text := CalcRawText(s, ds, vals, rank, open);
        }
      }
    }

    /** Evaluate a symbol that `s` reads and return its `curr.val`. */
    method CalcRawText(s: Symbol, t: Symbol, ghost vals: Values, ghost rank: map<Symbol, nat>, ghost open: set<Symbol>)
      returns (text: string)
      requires Target(vals) && Holds(vals, open) && MayRead(s, rank, open) && t in Reads(defs[s])
      modifies this`st, this`valid
      ensures Holds(vals, open) && (forall o :: o in old(valid) ==> o in valid)
      ensures forall o :: o in open ==> st[o] == old(st)[o]
      ensures text == RawText(vals, t)
      decreases rank[s], 2
    {
      CalcValue(t, vals, rank, open);
      CurrentValue(t, vals, open);
      text := if t.IsConst() then ConstText(t) else st[t].text;
    }

    /** `sym_validate_range` */
    method ValidateRange(s: Symbol, ghost vals: Values, ghost rank: map<Symbol, nat>, ghost open: set<Symbol>)
      requires Target(vals) && Holds(vals, open) && MayRead(s, rank, open)
      modifies this`st, this`valid
      ensures Holds(vals, open) && (forall o :: o in old(valid) ==> o in valid)
      ensures forall o :: o in open && o != s ==> st[o] == old(st)[o]
      ensures st[s] == old(st)[s].(text := InRange(s, defs[s], EnvOf(modules, vals), vals, old(st)[s].text))
      decreases rank[s], 4
    {
      if s.Type().Int? || s.Type().Hex? {
        var p := ActiveProp(s, Range, vals, rank, open);
        if p.Some? && p.value.bounds.Some? {
          ConditionReads(defs[s], p.value);
          var text := Bounded(s, p.value.bounds.value.0, p.value.bounds.value.1, vals, rank, open);
          Put(s, st[s].(text := text), vals, open);
        }
      }
    }

    /** The text of `s`, or that of the bound it violates. */
    method Bounded(s: Symbol, lo: Symbol, hi: Symbol, ghost vals: Values, ghost rank: map<Symbol, nat>,
            ghost open: set<Symbol>)
      returns (text: string)
      requires Target(vals) && Holds(vals, open) && MayRead(s, rank, open)
      requires lo in Reads(defs[s]) && hi in Reads(defs[s])
      modifies this`st, this`valid
      ensures Holds(vals, open) && (forall o :: o in old(valid) ==> o in valid)
      ensures forall o :: o in open ==> st[o] == old(st)[o]
      ensures text == BoundedText(s, vals, lo, hi, st[s].text)
      decreases rank[s], 3
    {
      var base := NumberBase(s.Type(), 10);
      var val := StrToLL(st[s].text, base);
      text := CalcRawText(s, lo, vals, rank, open);
      if val >= StrToLL(text, NumberBase(lo.Type(), base)) {
        text := CalcRawText(s, hi, vals, rank, open);
        if val <= StrToLL(text, NumberBase(hi.Type(), base)) {
          text := st[s].text;
        }
      }
    }

    /** `sym_calc_value`: nothing for a valid symbol, otherwise mark it valid
        and evaluate it; afterwards it holds its value in `vals`. */
    method CalcValue(s: Symbol, ghost vals: Values, ghost rank: map<Symbol, nat>, ghost open: set<Symbol>)
      requires s.IsConst() || s in defs
      requires Target(vals) && Holds(vals, open) && Ranked(defs, rank)
      requires forall o :: o in open ==> o in defs && (s in defs ==> rank[s] < rank[o])
      modifies this`st, this`valid
      ensures Holds(vals, open) && (forall o :: o in old(valid) ==> o in valid)
      ensures forall o :: o in open ==> st[o] == old(st)[o]
      ensures s in defs ==> s in valid && s !in open && st[s] == vals[s]
      decreases if s in defs then rank[s] else 0, if s in defs then 9 else 0
    {
      if s !in defs || s in valid {
        return;
      }
      valid := valid + {s};
      if s.Type().Unknown? {
        // The other fields of an undefined symbol are never touched.
        Put(s, BLANK.(text := if s.Config? then s.name else ""), vals, open + {s});
        SolutionAt(TheGraph(), vals, s);
        return;
      }
      Recalculate(s, vals, rank, open + {s});
    }

    /** The evaluation proper of `sym_calc_value`. */
    method Recalculate(s: Symbol, ghost vals: Values, ghost rank: map<Symbol, nat>, ghost open: set<Symbol>)
      requires Target(vals) && Holds(vals, open) && MayRead(s, rank, open) && !s.Type().Unknown?
      modifies this`st, this`valid
      ensures Holds(vals, open) && (forall o :: o in old(valid) ==> o in valid)
      ensures forall o :: o in open && o != s ==> st[o] == old(st)[o]
      ensures st[s] == vals[s]
      decreases rank[s], 8
    {
      ghost var before := st[s];
      CalcVisibility(s, vals, rank, open);
      if s.IsLogic() {
        RecalculateLogic(s, vals, rank, open);
      } else {
        RecalculatePlain(s, vals, rank, open);
      }
      RecalculatedIsLocal(s, vals, before);
    }

    method RecalculateLogic(s: Symbol, ghost vals: Values, ghost rank: map<Symbol, nat>, ghost open: set<Symbol>)
      requires Target(vals) && Holds(vals, open) && MayRead(s, rank, open)
      modifies this`st, this`valid
      ensures Holds(vals, open) && (forall o :: o in old(valid) ==> o in valid)
      ensures forall o :: o in open && o != s ==> st[o] == old(st)[o]
      ensures st[s] == LocalLogic(TheGraph(), s, defs[s], vals, old(st)[s])
      decreases rank[s], 7
    {
      LogicIgnoresValue(TheGraph(), s, defs[s], EnvOf(modules, vals), st[s], NO, "n");
      Put(s, st[s].(tri := NO, text := "n"), vals, open);
      var newtri, write := CalcLogic(s, vals, rank, open);
      Put(s, st[s].(tri := newtri, text := "n", write := write && !defs[s].noWrite), vals, open);
    }

    method RecalculatePlain(s: Symbol, ghost vals: Values, ghost rank: map<Symbol, nat>, ghost open: set<Symbol>)
      requires Target(vals) && Holds(vals, open) && MayRead(s, rank, open)
      modifies this`st, this`valid
      ensures Holds(vals, open) && (forall o :: o in old(valid) ==> o in valid)
      ensures forall o :: o in open && o != s ==> st[o] == old(st)[o]
      ensures st[s] == LocalPlain(TheGraph(), s, defs[s], vals, old(st)[s].(tri := NO))
      decreases rank[s], 7
    {
      Put(s, st[s].(tri := NO, text := ""), vals, open);
      var text, write := CalcPlain(s, vals, rank, open);
      Put(s, st[s].(tri := NO, text := text, write := write && !defs[s].noWrite), vals, open);
      ValidateRange(s, vals, rank, open);
    }

    lemma RecalculatedIsLocal(s: Symbol, vals: Values, before: Calc)
      requires s in defs && s in st && !s.Type().Unknown? && Target(vals)
      requires var c := Visibility(modules, s, defs[s], EnvOf(modules, vals), before);
               st[s] == if s.IsLogic() then LocalLogic(TheGraph(), s, defs[s], vals, c)
                        else LocalPlain(TheGraph(), s, defs[s], vals, c.(tri := NO))
      ensures st[s] == vals[s]
    {
      SolutionAt(TheGraph(), vals, s);
    }

    /** `sym_tristate_within_range` for a symbol that is no choice value. */
    predicate WithinRange(s: Symbol, val: Tristate)
      requires s in st
      reads this`st
    {
      CanBeSet(modules, s, st[s], val)
    }

    /** `sym_set_tristate_value` for a symbol that is neither a choice value
        nor the modules symbol.  A refused value changes nothing; an accepted
        one becomes the user's, and if it differs from the current value every
        symbol is to be evaluated again. */
    method SetTristate(s: Symbol, val: Tristate) returns (ok: bool)
      requires s in defs && s in st
      modifies this`user, this`valid
      ensures ok <==> st[s].tri == val || WithinRange(s, val)
      ensures !ok ==> user == old(user) && valid == old(valid)
      ensures ok ==> user == old(user)[s := UserValue(val, if s in old(user) then old(user)[s].text else "")]
      ensures ok ==> valid == if st[s].tri == val then old(valid) else {}
    {
      var oldval := st[s].tri;
      if oldval != val && !WithinRange(s, val) {
        return false;
      }
      user := user[s := UserValue(val, if s in user then user[s].text else "")];
      if oldval != val {
        valid := {};
      }
      ok := true;
    }

    /** Any list of symbols evaluated in any order, starting from any set of
        valid symbols: each ends up with its value in the solution. */
    method CalcAll(order: seq<Symbol>, ghost vals: Values, ghost rank: map<Symbol, nat>)
      requires forall s :: s in order ==> s in defs
      requires Target(vals) && Holds(vals, {}) && Ranked(defs, rank)
      modifies this`st, this`valid
      ensures Holds(vals, {})
      ensures valid >= old(valid) + (set s | s in order)
      ensures forall s :: s in order ==> st[s] == vals[s]
    {
      for i := 0 to |order|
        invariant Holds(vals, {}) && (forall o :: o in old(valid) ==> o in valid)
        invariant forall k :: 0 <= k < i ==> order[k] in valid
      {
        CalcValue(order[i], vals, rank, {});
      }
    }

    /** Setting an evaluated symbol and evaluating it again, as the front ends
        do.  A refused value changes nothing.  A value the symbol holds already
        only becomes the user's.  Any other is then what the symbol holds,
        unless it is selected against an unmet direct dependency. */
    method SetAndCalc(s: Symbol, val: Tristate, ghost v: Values, ghost w: Values, ghost rank: map<Symbol, nat>)
      returns (ok: bool)
      requires s in defs && s.IsLogic() && s in valid && Ranked(defs, rank)
      requires Target(v) && Holds(v, {}) && Solution(WithUser(TheGraph(), s, val), w)
      modifies this`user, this`st, this`valid
      ensures ok <==> v[s].tri == val || CanBeSet(modules, s, v[s], val)
      ensures TheGraph() == if ok then WithUser(old(TheGraph()), s, val) else old(TheGraph())
      ensures !ok || v[s].tri == val ==> st == old(st) && valid == old(valid)
      ensures ok && v[s].tri != val ==> Holds(w, {}) && s in valid
      ensures ok && v[s].tri != val ==> (st[s].tri == val <==> !(v[s].dirDep == NO && v[s].revDep != NO))
    {
      ghost var g := TheGraph();
      ok := SetTristate(s, val);
      if s !in valid {
        CalcAll([s], w, rank);
        SetInRangeTakesEffect(g, rank, s, val, v, w);
      }
    }
  }
}
