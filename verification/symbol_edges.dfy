/** What the dependency check and the evaluation look at, read off the
    definition of a symbol (sym_check_sym_deps in scripts/config/symbol.c). */
module SymbolEdges {
  import opened Options
  import opened Symbols
  import opened Exprs
  import opened Comparisons
  import opened Paths
  import opened SymbolGraph
  import opened SymbolCheck

  predicate Mentions(e: Option<Expr>, t: Symbol) {
    e.Some? && Contains(e.value, t)
  }

  lemma {:induction false} SymbolsContained(e: Expr, t: Symbol)
    ensures t in SymbolsOf(e) <==> Contains(e, t)
  {
    match e
    case Not(x) => SymbolsContained(x, t);
    case And(l, r) =>
      SymbolsContained(l, t);
      SymbolsContained(r, t);
    case Or(l, r) =>
      SymbolsContained(l, t);
      SymbolsContained(r, t);
    case _ =>
  }

  lemma OptContained(e: Option<Expr>, t: Symbol)
    ensures t in SymbolsOfOpt(e) <==> Mentions(e, t)
  {
    if e.Some? {
      SymbolsContained(e.value, t);
    }
  }

  /** The check follows the condition of a property that is no choice value,
      select or imply, and the value of a default. */
  predicate Follows(p: Property, t: Symbol) {
    (!p.kind.ChoiceValue? && !p.kind.Select? && !p.kind.Imply? && Mentions(p.visible, t)) ||
    (p.kind.Default? && Mentions(p.expr, t))
  }

  predicate Bounds(p: Property, t: Symbol) {
    p.kind.Range? && p.bounds.Some? && (p.bounds.value.0 == t || p.bounds.value.1 == t)
  }

  lemma PropIff(p: Property, t: Symbol)
    ensures t in PropEdges(p) <==> Follows(p, t)
    ensures t in BoundSymbols(p) <==> Bounds(p, t)
  {
    OptContained(p.visible, t);
    OptContained(p.expr, t);
  }

  lemma {:induction false} PropsIff(ps: seq<Property>, t: Symbol)
    ensures t in AllPropEdges(ps) <==> exists i :: 0 <= i < |ps| && Follows(ps[i], t)
    ensures t in AllBoundSymbols(ps) <==> exists i :: 0 <= i < |ps| && Bounds(ps[i], t)
  {
    if ps != [] {
      PropIff(ps[0], t);
      PropsIff(ps[1..], t);
      if i :| 0 <= i < |ps[1..]| && Follows(ps[1..][i], t) {
        assert Follows(ps[i + 1], t);
      }
      if i :| 0 <= i < |ps[1..]| && Bounds(ps[1..][i], t) {
        assert Bounds(ps[i + 1], t);
      }
      if i :| 0 <= i < |ps| && Follows(ps[i], t) {
        if i > 0 { assert Follows(ps[1..][i - 1], t); }
      }
      if i :| 0 <= i < |ps| && Bounds(ps[i], t) {
        if i > 0 { assert Bounds(ps[1..][i - 1], t); }
      }
    }
  }

  /** The links the check follows. */
  lemma FollowedIff(defs: Defs, s: Symbol, t: Symbol)
    requires s in defs
    ensures var d := defs[s];
            Linked(Followed(defs), s, t) <==>
            Mentions(d.dirDep, t) || Mentions(d.revDep, t) || Mentions(d.implied, t) ||
            exists i :: 0 <= i < |d.props| && Follows(d.props[i], t)
  {
    var d := defs[s];
    OptContained(d.dirDep, t);
    OptContained(d.revDep, t);
    OptContained(d.implied, t);
    PropsIff(d.props, t);
  }

  /** An evaluation also reads the bounds of ranges. */
  lemma ReadIff(defs: Defs, s: Symbol, t: Symbol)
    requires s in defs
    ensures Linked(Read(defs), s, t) <==>
            Linked(Followed(defs), s, t) || exists i :: 0 <= i < |defs[s].props| && Bounds(defs[s].props[i], t)
  {
    PropsIff(defs[s].props, t);
  }

  // ----- selects and implies -----

  /** The properties without selects and implies. */
  function WithoutReverse(ps: seq<Property>): seq<Property> {
    if ps == [] then []
    else if ps[0].kind.Select? || ps[0].kind.Imply? then WithoutReverse(ps[1..])
    else [ps[0]] + WithoutReverse(ps[1..])
  }

  function NoReverse(defs: Defs): Defs {
    map s | s in defs :: defs[s].(props := WithoutReverse(defs[s].props))
  }

  lemma {:induction false} NoReverseEdges(ps: seq<Property>)
    ensures AllPropEdges(WithoutReverse(ps)) == AllPropEdges(ps)
    ensures forall p :: p in WithoutReverse(ps) ==> p in ps && !p.kind.Select? && !p.kind.Imply?
  {
    if ps != [] {
      NoReverseEdges(ps[1..]);
      if !ps[0].kind.Select? && !ps[0].kind.Imply? {
        assert ([ps[0]] + WithoutReverse(ps[1..]))[1..] == WithoutReverse(ps[1..]);
      }
    }
  }

  /** A select or an imply is no dependency of the symbol that has it, so the
      check answers the same without all of them. */
  lemma SelectsAreNoDependencies(defs: Defs)
    ensures Followed(NoReverse(defs)) == Followed(defs)
    ensures HasCycle(Followed(NoReverse(defs))) <==> HasCycle(Followed(defs))
  {
    forall s | s in defs ensures Followed(NoReverse(defs))[s] == Followed(defs)[s] {
      NoReverseEdges(defs[s].props);
    }
  }

  /** `config A / select B if C` and `config C / depends on A`: no cycle. */
  lemma SelectConditionNoCycle(a: Symbol, b: Symbol, c: Symbol)
    requires a != c
    ensures var select := Property(Select, false, Some(Sym(b)), Some(Sym(c)), None);
            var defs := map[a := SymDef([select], None, None, None, false),
                            c := SymDef([], Some(Sym(a)), None, None, false)];
            !HasCycle(Followed(defs))
  {
    var select := Property(Select, false, Some(Sym(b)), Some(Sym(c)), None);
    var d, e := SymDef([select], None, None, None, false), SymDef([], Some(Sym(a)), None, None, false);
    var defs := map[a := d, c := e];
    OneProp(select);
    var rank: map<Symbol, nat> := map[a := 0, c := 1];
    assert Edges(d) == {} && Edges(e) == {a} + AllPropEdges([]);
    forall s, t | Linked(Followed(defs), s, t) && t in Followed(defs) ensures rank[t] < rank[s] {
      assert s == c && t == a;
    }
    RankedHasNoCycle(Followed(defs), rank);
  }
}
