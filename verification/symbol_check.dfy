/** The depth-first search for dependency cycles (sym_check_deps and its
    helpers in scripts/config/symbol.c), for symbols that belong to no choice. */
module SymbolCheck {
  import opened Options
  import opened Symbols
  import opened Exprs
  import opened Paths
  import opened SymbolGraph

  type Defs = map<Symbol, SymDef>

  // ----- cycles -----

  /** What the check follows. */
  function Followed(defs: Defs): Links<Symbol> {
    map s | s in defs :: Edges(defs[s])
  }

  predicate Edge(defs: Defs, s: Symbol, t: Symbol) {
    s in defs && t in Edges(defs[s])
  }

  predicate EdgePath(defs: Defs, p: seq<Symbol>) {
    forall i :: 0 <= i < |p| - 1 ==> Edge(defs, p[i], p[i + 1])
  }

  lemma PathFollowed(defs: Defs, p: seq<Symbol>)
    requires EdgePath(defs, p)
    ensures IsPath(Followed(defs), p)
  {
    forall i | 0 <= i < |p| - 1 ensures Linked(Followed(defs), p[i], p[i + 1]) {
      assert Edge(defs, p[i], p[i + 1]);
    }
  }

  lemma EdgesFall(defs: Defs, rank: map<Symbol, nat>)
    requires forall s, t {:trigger Edge(defs, s, t)} :: Edge(defs, s, t) ==> s in rank && t in rank && rank[t] < rank[s]
    ensures Falls(Followed(defs), rank) && !HasCycle(Followed(defs))
  {
    forall s, t | Linked(Followed(defs), s, t) ensures s in rank && t in rank && rank[t] < rank[s] {
      assert Edge(defs, s, t);
    }
    RankedHasNoCycle(Followed(defs), rank);
  }

  /** What an evaluation reads. */
  function Read(defs: Defs): Links<Symbol> {
    map s | s in defs :: Reads(defs[s])
  }

  lemma RankedIsFalling(defs: Defs, rank: map<Symbol, nat>)
    ensures Ranked(defs, rank) <==> rank.Keys == defs.Keys && Falls(Read(defs), rank)
  {
    if rank.Keys == defs.Keys && Falls(Read(defs), rank) {
      forall s, t | s in defs && t in Reads(defs[s]) && t in defs ensures rank[t] < rank[s] {
        assert Linked(Read(defs), s, t);
      }
    }
  }

  /** The evaluation of all symbols has an order exactly if what they read,
      range bounds included, has no cycle. */
  lemma EvaluationOrderIff(defs: Defs)
    ensures (exists rank :: Ranked(defs, rank)) <==> !HasCycle(Read(defs))
  {
    OrderIffNoCycle(Read(defs));
    assert Read(defs).Keys == defs.Keys;
    if rank: map<Symbol, nat> :| rank.Keys == Read(defs).Keys && Falls(Read(defs), rank) {
      RankedIsFalling(defs, rank);
    }
    if rank :| Ranked(defs, rank) {
      RankedIsFalling(defs, rank);
      assert rank.Keys == Read(defs).Keys;
    }
  }

  /** On a graph that passed the check the evaluation has an order exactly if
      no bound of a range leads back to the symbol it bounds. */
  lemma CheckedIsRanked(defs: Defs, rank: map<Symbol, nat>)
    requires Falls(Followed(defs), rank)
    ensures (exists r :: Ranked(defs, r)) <==>
            forall s, t :: s in defs && t in AllBoundSymbols(defs[s].props) ==> !LeadsTo(Read(defs), t, s)
  {
    var base, links := Followed(defs), Read(defs);
    RankedHasNoCycle(base, rank);
    AddedCycleIff(base, links);
    EvaluationOrderIff(defs);
    if s, t :| Linked(links, s, t) && !Linked(base, s, t) && LeadsTo(links, t, s) {
      assert t in AllBoundSymbols(defs[s].props);
    }
    if s, t :| s in defs && t in AllBoundSymbols(defs[s].props) && LeadsTo(links, t, s) {
      assert Linked(links, s, t);
      BackMakesCycle(links, s, t);
    }
  }

  lemma OneProp(p: Property)
    ensures AllPropEdges([p]) == PropEdges(p) && AllBoundSymbols([p]) == BoundSymbols(p)
  {
    var none: seq<Property> := [];
    assert [p][1..] == none;
    assert AllPropEdges(none) == {} && AllBoundSymbols(none) == {};
  }

  /** A cycle through a range bound is read by the evaluation and not followed
      by the check. */
  lemma RangeCycleUnseen(s: Symbol)
    requires s.Config? && s.kind.Int?
    ensures var d := SymDef([Property(Range, false, None, None, Some((s, s)))], None, None, None, false);
            HasCycle(Read(map[s := d])) && !HasCycle(Followed(map[s := d]))
  {
    var p := Property(Range, false, None, None, Some((s, s)));
    var d := SymDef([p], None, None, None, false);
    OneProp(p);
    assert Falls(Followed(map[s := d]), map[]) by {
      assert Edges(d) == {};
    }
    RankedHasNoCycle(Followed(map[s := d]), map[]);
    assert Linked(Read(map[s := d]), s, s);
    assert IsPath(Read(map[s := d]), [s, s]);
    assert OnCycle(Read(map[s := d]), s);
  }

  // ----- the search -----

  class Checker {
    const defs: Defs
    const recursiveIsError: bool
    var check: set<Symbol>
    var checked: set<Symbol>
    ghost const all: set<Symbol>
    ghost var stack: seq<Symbol>
    ghost var expanded: seq<Symbol>
    ghost var finish: map<Symbol, nat>
    ghost var failed: bool

    constructor (defs: Defs, recursiveIsError: bool)
      ensures this.defs == defs && this.recursiveIsError == recursiveIsError
      ensures Gray() && Black() && !failed && check == {} && checked == {} && stack == []
      ensures forall s :: s in defs ==> s in all
    {
      this.defs, this.recursiveIsError := defs, recursiveIsError;
      check, checked, stack, expanded, finish, failed := {}, {}, [], [], map[], false;
      all := defs.Keys + (set s, t | s in defs && t in Edges(defs[s]) :: t);
    }

    /** The symbols under way form a path, and every checked symbol has been
        expanded once. */
    ghost predicate Gray()
      reads this
    {
      (forall s :: s in stack <==> s in check) && EdgePath(defs, stack) &&
      (forall s, t {:trigger Edge(defs, s, t)} :: Edge(defs, s, t) ==> t in all) &&
      check <= checked <= all &&
      (forall s :: s in expanded <==> s in checked) &&
      (forall i, j :: 0 <= i < j < |expanded| ==> expanded[i] != expanded[j])
    }

    predicate Done(s: Symbol)
      reads this
    {
      s in checked && s !in check
    }

    /** The symbols that are done lead only to symbols done before them. */
    ghost predicate Black()
      reads this
    {
      (forall s :: Done(s) ==> s in finish) &&
      (forall s, t {:trigger Edge(defs, s, t)} :: Done(s) && Edge(defs, s, t) ==> Done(t) && finish[t] < finish[s])
    }

    /** Once a cycle was met the order of the finished symbols is void. */
    ghost predicate Order()
      reads this
    {
      if failed then HasCycle(Followed(defs)) else Black()
    }

    lemma CycleFound(s: Symbol)
      requires Gray() && s in check && stack != [] && Edge(defs, stack[|stack| - 1], s)
      ensures OnCycle(Followed(defs), s)
    {
      var i :| 0 <= i < |stack| && stack[i] == s;
      var p := stack[i..] + [s];
      forall k | 0 <= k < |p| - 1 ensures Edge(defs, p[k], p[k + 1]) {
        if k < |p| - 2 {
          assert Edge(defs, stack[i + k], stack[i + k + 1]);
        }
      }
      PathFollowed(defs, p);
      assert |p| >= 2 && p[0] == s && p[|p| - 1] == s;
    }

    /** `sym_check_deps`: a symbol under way closes a cycle, one that was
        checked is skipped, any other is expanded. */
    method CheckDeps(s: Symbol) returns (r: Option<Symbol>)
      requires Gray() && Order() && s in all
      requires stack != [] ==> Edge(defs, stack[|stack| - 1], s)
      requires stack == [] ==> check == {}
      modifies this
      ensures Gray() && Order() && stack == old(stack) && check == old(check) && old(checked) <= checked
      ensures r.Some? ==> failed && OnCycle(Followed(defs), r.value)
      ensures old(failed) ==> failed
      ensures recursiveIsError && failed ==> old(failed) || r.Some?
      ensures r.Some? && !recursiveIsError ==> r.value in check
      ensures r.None? && !failed ==> Done(s)
      decreases all - checked, 3, 0
    {
      if s in check {
        CycleFound(s);
        failed := true;
        return Some(s);
      }
      if s in checked {
        return None;
      }
      Enter(s);
      r := CheckSymDeps(s);
      Leave(s, r);
      if !recursiveIsError && r == Some(s) {
        r := None;
      }
    }

    /** Set both flags. */
    method Enter(s: Symbol)
      requires Gray() && Order() && s in all && s !in checked
      requires stack != [] ==> Edge(defs, stack[|stack| - 1], s)
      modifies this
      ensures Gray() && Order()
      ensures failed == old(failed)
      ensures check == old(check) + {s} && checked == old(checked) + {s} && stack == old(stack) + [s]
      ensures forall t :: Done(t) <==> old(Done(t))
    {
      check, checked := check + {s}, checked + {s};
      stack, expanded := stack + [s], expanded + [s];
      assert forall t :: Done(t) <==> old(Done(t));
    }

    /** Clear the CHECK flag. */
    method Leave(s: Symbol, ghost r: Option<Symbol>)
      requires Gray() && Order() && stack != [] && stack[|stack| - 1] == s && s !in stack[..|stack| - 1]
      requires r.Some? ==> failed
      requires r.None? && !failed ==> forall t :: Edge(defs, s, t) ==> Done(t)
      modifies this
      ensures Gray() && Order()
      ensures failed == old(failed)
      ensures check == old(check) - {s} && checked == old(checked) && stack == old(stack)[..|old(stack)| - 1]
      ensures Done(s)
    {
      if !failed {
        Number(s);
      }
      check := check - {s};
      stack := stack[..|stack| - 1];
      assert forall t :: Done(t) <==> old(Done(t)) || t == s;
    }

    /** Number a symbol under way above all that are done. */
    ghost method Number(s: Symbol)
      requires Black() && s in check
      modifies this`finish
      ensures Black() && s in finish && forall t :: Done(t) ==> finish[t] < finish[s]
    {
      finish := finish[s := Above(finish, checked)];
    }

    /** A number above those of all the given symbols. */
    ghost function Above(finish: map<Symbol, nat>, syms: set<Symbol>): (n: nat)
      ensures forall s :: s in syms && s in finish ==> finish[s] < n
      decreases syms
    {
      if syms == {} then 0
      else
        var s :| s in syms;
        var n := Above(finish, syms - {s});
        if s in finish && finish[s] >= n then finish[s] + 1 else n
    }

    /** The state while the symbol on top of the stack is expanded. */
    ghost predicate Expanding(s: Symbol)
      reads this
    {
      Gray() && Order() && stack != [] && stack[|stack| - 1] == s
    }

    /** `sym_check_expr_deps` */
    method CheckExprDeps(s: Symbol, e: Expr) returns (r: Option<Symbol>)
      requires Expanding(s) && forall t :: t in SymbolsOf(e) ==> Edge(defs, s, t)
      modifies this
      ensures Expanding(s) && stack == old(stack) && check == old(check) && old(checked) <= checked
      ensures r.Some? ==> failed && OnCycle(Followed(defs), r.value)
      ensures old(failed) ==> failed
      ensures recursiveIsError && failed ==> old(failed) || r.Some?
      ensures r.Some? && !recursiveIsError ==> r.value in check
      ensures r.None? && !failed ==> forall t :: t in SymbolsOf(e) ==> Done(t)
      ensures !failed ==> forall t :: old(Done(t)) ==> Done(t)
      decreases all - checked, 4, Size(e)
    {
      match e
      case Sym(t) =>
        assert t in SymbolsOf(e);
        r := CheckDeps(t);
      case Not(x) =>
        r := CheckExprDeps(s, x);
      case And(x, y) =>
        r := CheckExprDeps(s, x);
        if r.None? { r := CheckExprDeps(s, y); }
      case Or(x, y) =>
        r := CheckExprDeps(s, x);
        if r.None? { r := CheckExprDeps(s, y); }
      case Comp(_, a, b) =>
        assert a in SymbolsOf(e) && b in SymbolsOf(e);
        r := CheckDeps(a);
        if r.None? { r := CheckDeps(b); }
    }

    method CheckOptDeps(s: Symbol, e: Option<Expr>) returns (r: Option<Symbol>)
      requires Expanding(s) && forall t :: t in SymbolsOfOpt(e) ==> Edge(defs, s, t)
      modifies this
      ensures Expanding(s) && stack == old(stack) && check == old(check) && old(checked) <= checked
      ensures r.Some? ==> failed && OnCycle(Followed(defs), r.value)
      ensures old(failed) ==> failed
      ensures recursiveIsError && failed ==> old(failed) || r.Some?
      ensures r.Some? && !recursiveIsError ==> r.value in check
      ensures r.None? && !failed ==> forall t :: t in SymbolsOfOpt(e) ==> Done(t)
      ensures !failed ==> forall t :: old(Done(t)) ==> Done(t)
      decreases all - checked, 5, 0
    {
      match e
      case None => r := None;
      case Some(x) => r := CheckExprDeps(s, x);
    }

    /** `sym_check_sym_deps` */
    method CheckSymDeps(s: Symbol) returns (r: Option<Symbol>)
      requires Expanding(s)
      modifies this
      ensures Expanding(s) && stack == old(stack) && check == old(check) && old(checked) <= checked
      ensures r.Some? ==> failed && OnCycle(Followed(defs), r.value)
      ensures old(failed) ==> failed
      ensures recursiveIsError && failed ==> old(failed) || r.Some?
      ensures r.Some? && !recursiveIsError ==> r.value in check
      ensures r.None? && !failed ==> forall t :: Edge(defs, s, t) ==> Done(t)
      decreases all - checked, 7, 0
    {
      if s !in defs {
        return None;
      }
      var d := defs[s];
      DirectReads(d);
      r := CheckOptDeps(s, d.dirDep);
      if r.Some? { return; }
      r := CheckOptDeps(s, d.revDep);
      if r.Some? { return; }
      r := CheckOptDeps(s, d.implied);
      if r.Some? { return; }
      r := CheckProps(s);
    }

    /** The loop of `sym_check_sym_deps` over the properties. */
    method CheckProps(s: Symbol) returns (r: Option<Symbol>)
      requires Expanding(s) && s in defs
      modifies this
      ensures Expanding(s) && stack == old(stack) && check == old(check) && old(checked) <= checked
      ensures r.Some? ==> failed && OnCycle(Followed(defs), r.value)
      ensures old(failed) ==> failed
      ensures recursiveIsError && failed ==> old(failed) || r.Some?
      ensures r.Some? && !recursiveIsError ==> r.value in check
      ensures r.None? && !failed ==> forall t :: t in AllPropEdges(defs[s].props) ==> Done(t)
      ensures !failed ==> forall t :: old(Done(t)) ==> Done(t)
      decreases all - checked, 6, 0
    {
      var ps := defs[s].props;
      var i := 0;
      while i < |ps|
        invariant i <= |ps|
        invariant Expanding(s) && stack == old(stack) && check == old(check) && old(checked) <= checked
        invariant failed == old(failed) || (failed && !recursiveIsError)
        invariant !failed ==> forall t :: t in AllPropEdges(ps) ==> Done(t) || t in AllPropEdges(ps[i..])
        invariant !failed ==> forall t :: old(Done(t)) ==> Done(t)
      {
        r := CheckProp(s, ps[i]);
        if r.Some? { return; }
        i := i + 1;
      }
      r := None;
    }

    method CheckProp(s: Symbol, p: Property) returns (r: Option<Symbol>)
      requires Expanding(s) && s in defs && p in defs[s].props
      modifies this
      ensures Expanding(s) && stack == old(stack) && check == old(check) && old(checked) <= checked
      ensures r.Some? ==> failed && OnCycle(Followed(defs), r.value)
      ensures old(failed) ==> failed
      ensures recursiveIsError && failed ==> old(failed) || r.Some?
      ensures r.Some? && !recursiveIsError ==> r.value in check
      ensures r.None? && !failed ==> forall t :: t in PropEdges(p) ==> Done(t)
      ensures !failed ==> forall t :: old(Done(t)) ==> Done(t)
      decreases all - checked, 5, 1
    {
      PropReads(defs[s].props, p);
      if p.kind.ChoiceValue? || p.kind.Select? || p.kind.Imply? {
        return None;
      }
      r := CheckOptDeps(s, p.visible);
      if r.None? && p.kind.Default? {
        r := CheckOptDeps(s, p.expr);
      }
    }

    /** The check of all symbols after parsing.  It reports an error exactly
        when there is a cycle; if not, `finish` orders the symbols.  Without
        `recursive_is_error` it never reports one. */
    method CheckAll(order: seq<Symbol>) returns (found: bool)
      requires Gray() && Black() && !failed && check == {} && stack == []
      requires forall s :: s in defs ==> s in order
      requires forall s :: s in order ==> s in all
      modifies this
      ensures recursiveIsError ==> (found <==> HasCycle(Followed(defs)))
      ensures recursiveIsError && !found ==> Falls(Followed(defs), finish) && defs.Keys <= finish.Keys
      ensures !recursiveIsError ==> !found
      ensures forall i, j :: 0 <= i < j < |expanded| ==> expanded[i] != expanded[j]
    {
      found := false;
      for k := 0 to |order|
        invariant Gray() && Order() && check == {} && stack == []
        invariant found ==> failed && recursiveIsError
        invariant recursiveIsError && !found ==> !failed && forall m :: 0 <= m < k ==> Done(order[m])
      {
        var r := CheckDeps(order[k]);
        if r.Some? {
          found := true;
        }
      }
      if recursiveIsError && !found {
        assert forall s, t {:trigger Edge(defs, s, t)} :: Edge(defs, s, t) ==> Done(s) && Done(t);
        EdgesFall(defs, finish);
      }
    }
  }
}
