/** Conditions on the whole menu tree: what the propagation down the tree adds
    up to, and what it means to end up in an automatic submenu (menu_finalize
    in scripts/config/menu.c). */
module MenuTree {
  import opened Options
  import opened Tristates
  import opened Symbols
  import opened Exprs
  import opened Joins
  import opened Comparisons
  import opened EliminateDups
  import opened Reordering
  import opened Menus
  import opened MenuDeps

  // ----- dependencies -----
  //
  // Each list of children gets its conditions before anything in or after it
  // moves, so they belong to the tree as it was parsed.

  /** The own conditions of the nodes, and the symbols of the choices. */
  datatype Parsed = Parsed(own: Menu -> Option<Expr>, choice: Menu -> Option<Symbol>, modules: Symbol)

  /** What the children of a node with the dependency `dep` build upon: that,
      or for a choice its symbol. */
  ghost function BaseBelow(c: Parsed, m: Menu, dep: Option<Expr>): Option<Expr> {
    if c.choice(m).Some? then Some(Sym(c.choice(m).value)) else dep
  }

  /** The dependencies of all nodes below a node that hands down `base`. */
  ghost function Deps(c: Parsed, f: Forest, base: Option<Expr>): (r: map<Menu, Option<Expr>>)
    ensures r.Keys == Nodes(f)
  {
    match f
    case Nil => map[]
    case Cons(m, k, r) =>
      var d := Propagate(base, c.own(m), c.modules);
      map[m := d] + Deps(c, k, BaseBelow(c, m, d)) + Deps(c, r, base)
  }

  /** `line` leads from a tree of the list down to one of its nodes. */
  ghost predicate OnLine(f: Forest, line: seq<Menu>) {
    f.Cons? && line != [] &&
    ((f.m == line[0] && (|line| == 1 || OnLine(f.kids, line[1..]))) || OnLine(f.rest, line))
  }

  lemma {:induction false} LineInside(f: Forest, line: seq<Menu>)
    requires OnLine(f, line)
    ensures line[0] in Nodes(f) && line[|line| - 1] in Nodes(f)
  {
    if OnLine(f.rest, line) {
      LineInside(f.rest, line);
    } else if |line| > 1 {
      LineInside(f.kids, line[1..]);
    }
  }

  /** The nodes of a line that count for its end: from `k` on, below the last
      choice above the end. */
  ghost function AfterChoice(c: Parsed, line: seq<Menu>): (k: nat)
    requires line != []
    ensures k < |line| && (k > 0 ==> c.choice(line[k - 1]).Some?)
    ensures forall i :: k <= i < |line| - 1 ==> c.choice(line[i]).None?
  {
    if |line| == 1 then 0
    else
      var k := AfterChoice(c, line[1..]);
      if k > 0 then k + 1 else if c.choice(line[0]).Some? then 1 else 0
  }

  ghost function OwnAt(c: Parsed, m: Menu, env: Env): Tristate {
    OwnValue(c.own(m), c.modules, env)
  }

  /** The value that is handed down to the node `k` of a line. */
  ghost function StartAt(c: Parsed, base: Tristate, line: seq<Menu>, k: nat, env: Env): Tristate
    requires k < |line| && (k > 0 ==> c.choice(line[k - 1]).Some?)
  {
    if k == 0 then base else TriOf(env, c.choice(line[k - 1]).value)
  }

  /** `v` is the least of `start` and the own conditions from node `k` on. */
  ghost predicate Least(c: Parsed, v: Tristate, start: Tristate, line: seq<Menu>, k: nat, env: Env) {
    v <= start && (forall i :: k <= i < |line| ==> v <= OwnAt(c, line[i], env)) &&
    (v == start || exists i :: k <= i < |line| && v == OwnAt(c, line[i], env))
  }

  ghost predicate AllRaw(c: Parsed, tests: Tests, f: Forest) {
    forall m :: m in Nodes(f) ==>
      RawOpt(tests, c.own(m), c.modules) && (c.choice(m).Some? ==> FineOpt(tests, Some(Sym(c.choice(m).value))))
  }

  /** The dependency of every node is the conjunction of the own conditions on
      its way down from the top, or from the last choice, whose symbol then
      takes the place of what is above. */
  lemma {:induction false} DependencyOnLine(c: Parsed, tests: Tests, f: Forest, base: Option<Expr>, line: seq<Menu>,
          env: Env)
    requires Peaceful(tests) && FineOpt(tests, base) && AllRaw(c, tests, f)
    requires Distinct(f) && OnLine(f, line)
    ensures line[|line| - 1] in Nodes(f)
    ensures var k := AfterChoice(c, line);
            Least(c, EvalOpt(Deps(c, f, base)[line[|line| - 1]], env), StartAt(c, EvalOpt(base, env), line, k, env),
                  line, k, env)
    decreases f
  {
    LineInside(f, line);
    var d := Propagate(base, c.own(f.m), c.modules);
    PropagateValue(tests, base, c.own(f.m), c.modules, env);
    if OnLine(f.rest, line) {
      InRest(c, f, base, line);
      DependencyOnLine(c, tests, f.rest, base, line, env);
    } else if |line| > 1 {
      LineInside(f.kids, line[1..]);
      DependencyOnLine(c, tests, f.kids, BaseBelow(c, f.m, d), line[1..], env);
      BelowFirst(c, f, base, line, env);
      LeastGrows(c, EvalOpt(Deps(c, f, base)[line[|line| - 1]], env), EvalOpt(base, env), line, env);
    } else {
      assert OwnAt(c, line[0], env) == OwnValue(c.own(f.m), c.modules, env);
    }
  }

  lemma InRest(c: Parsed, f: Forest, base: Option<Expr>, line: seq<Menu>)
    requires f.Cons? && Distinct(f) && OnLine(f.rest, line)
    ensures var x := line[|line| - 1]; x in Nodes(f.rest) && Deps(c, f, base)[x] == Deps(c, f.rest, base)[x]
  {
    LineInside(f.rest, line);
  }

  /** The end of a line that goes on below the first tree. */
  lemma BelowFirst(c: Parsed, f: Forest, base: Option<Expr>, line: seq<Menu>, env: Env)
    requires f.Cons? && Distinct(f) && |line| > 1 && line[|line| - 1] in Nodes(f.kids)
    ensures var d := Propagate(base, c.own(f.m), c.modules);
            line[|line| - 1] == line[1..][|line[1..]| - 1] &&
            Deps(c, f, base)[line[|line| - 1]] == Deps(c, f.kids, BaseBelow(c, f.m, d))[line[|line| - 1]]
  {
  }

  /** One node further up. */
  lemma LeastGrows(c: Parsed, v: Tristate, base: Tristate, line: seq<Menu>, env: Env)
    requires |line| > 1
    requires var below := if c.choice(line[0]).Some? then TriOf(env, c.choice(line[0]).value)
                          else TriAnd(base, OwnAt(c, line[0], env));
             var k := AfterChoice(c, line[1..]);
             Least(c, v, StartAt(c, below, line[1..], k, env), line[1..], k, env)
    ensures var k := AfterChoice(c, line); Least(c, v, StartAt(c, base, line, k, env), line, k, env)
  {
    var j, k := AfterChoice(c, line[1..]), AfterChoice(c, line);
    forall i | k <= i < |line| ensures v <= OwnAt(c, line[i], env) {
      if i > 0 { assert line[i] == line[1..][i - 1]; }
    }
    if i :| j <= i < |line[1..]| && v == OwnAt(c, line[1..][i], env) {
      assert v == OwnAt(c, line[i + 1], env);
    }
  }

  // ----- automatic submenus -----

  /** What the submenu test looks at: the symbols of the entries, the
      conditions of their prompts, and the conditions that are tested. */
  datatype Tested = Tested(sym: Menu -> Symbol, prompt: Menu -> Option<Expr>, cond: Menu -> Option<Expr>)

  ghost function TestOf(c: Tested): Test {
    (m: Menu, x: Menu) => GoesIntoSubmenu(c.cond(x), c.sym(m), Rewritten(c.prompt(m)))
  }

  /** `x` mentions the symbol of `m`, and is n wherever that is n, or never
      holds without the prompt of `m`. */
  ghost predicate Belongs(c: Tested, m: Menu, x: Menu) {
    c.cond(x).Some? && Contains(c.cond(x).value, c.sym(m)) &&
    ((forall env: Env :: TextOf(env, c.sym(m)) == "n" ==> EvalOpt(c.cond(x), env) == NO) ||
     (forall env: Env :: AtLeastOpt(c.cond(x), env) ==> AtLeastOpt(c.prompt(m), env)))
  }

  /** `x` is the node `t` of a list, or moved up out of it because it has no
      prompt. */
  ghost predicate CameFrom(f: Forest, t: Menu, x: Menu) {
    f.Cons? &&
    ((f.m == t && (x == t || (!t.hasPrompt && x in Tops(f.kids)))) || CameFrom(f.rest, t, x))
  }

  lemma {:induction false} CameFromTop(f: Forest, t: Menu, x: Menu)
    requires CameFrom(f, t, x)
    ensures t in Tops(f)
    ensures Flat(f) ==> x == t
  {
    if CameFrom(f.rest, t, x) {
      CameFromTop(f.rest, t, x);
    }
  }

  lemma {:induction false} CameFromAppend(f: Forest, g: Forest, t: Menu, x: Menu)
    requires CameFrom(Append(f, g), t, x)
    ensures CameFrom(f, t, x) || CameFrom(g, t, x)
  {
    if f.Cons? && CameFrom(Append(f.rest, g), t, x) {
      CameFromAppend(f.rest, g, t, x);
    }
  }

  /** Flattening a list with flat trees lifts nodes by one level at most. */
  lemma {:induction false} FlattenTops(f: Forest, x: Menu) returns (t: Menu)
    requires FlatBelow(f) && x in Tops(Flatten(f))
    ensures CameFrom(f, t, x)
    decreases Count(f)
  {
    if x == f.m {
      t := x;
    } else if f.kids.Cons? && !f.m.hasPrompt {
      FlatAppend(f.kids, f.rest);
      t := FlattenTops(Append(f.kids, f.rest), x);
      CameFromAppend(f.kids, f.rest, t, x);
      if CameFrom(f.kids, t, x) {
        CameFromTop(f.kids, t, x);
        t := f.m;
      }
    } else {
      t := FlattenTops(f.rest, x);
    }
  }

  /** What ends up below a symbol without children of its own belongs there, or
      moved up out of a node without a prompt that does. */
  lemma SubmenuBelongs(c: Tested, f: Forest, x: Menu) returns (t: Menu)
    requires f.Cons? && f.kids.Nil? && f.m.hasSym
    requires Rewritable(c.prompt(f.m)) && forall m :: m in Nodes(f.rest) ==> Rewritable(c.cond(m))
    requires x in Tops(Finalize(f, TestOf(c)).kids)
    ensures CameFrom(Adopt(f.m, f.rest, TestOf(c)).0, t, x)
    ensures Belongs(c, f.m, t)
  {
    var accept := TestOf(c);
    var moved := Adopt(f.m, f.rest, accept).0;
    AdoptFlat(f.m, f.rest, accept);
    t := FlattenTops(moved, x);
    CameFromTop(moved, t, x);
    AdoptMaximal(f.m, f.rest, accept);
    AdoptPre(f.m, f.rest, accept);
    TopsInside(moved);
    assert accept(f.m, t);
    SubmenuSound(c.cond(t), c.sym(f.m), c.prompt(f.m));
  }

  /** The first sibling left behind is one that the test refuses. */
  lemma SubmenuStops(c: Tested, f: Forest)
    requires f.Cons? && f.kids.Nil? && f.m.hasSym
    ensures var rest := Finalize(f, TestOf(c)).rest;
            rest.Cons? ==> !GoesIntoSubmenu(c.cond(rest.m), c.sym(f.m), Rewritten(c.prompt(f.m)))
  {
    AdoptMaximal(f.m, f.rest, TestOf(c));
    assert forall m: Menu, x: Menu :: TestOf(c)(m, x) == GoesIntoSubmenu(c.cond(x), c.sym(m), Rewritten(c.prompt(m)));
  }

  /** The first sibling left behind has no && operand that is s, s = y, s = m
      or s != n, for the symbol s, and if it mentions s it does not cover the
      condition of the prompt. */
  lemma LeftBehind(c: Tested, f: Forest)
    requires f.Cons? && f.kids.Nil? && f.m.hasSym && Rewritable(c.prompt(f.m))
    ensures var rest, s := Finalize(f, TestOf(c)).rest, c.sym(f.m);
            rest.Cons? && c.cond(rest.m).Some? ==>
              !SomeNeeds(Operands(OpAnd, c.cond(rest.m).value), s) &&
              (Contains(c.cond(rest.m).value, s) ==> !Covers(c.cond(rest.m), c.prompt(f.m)))
  {
    SubmenuStops(c, f);
    var rest := Finalize(f, TestOf(c)).rest;
    if rest.Cons? && c.cond(rest.m).Some? {
      DependsIff(c.cond(rest.m).value, c.sym(f.m));
      if Covers(c.cond(rest.m), c.prompt(f.m)) {
        CoveredIsSuperset(c.cond(rest.m), c.prompt(f.m));
      }
    }
  }

  lemma {:induction false} TopsInside(f: Forest)
    ensures Tops(f) <= Nodes(f)
  {
    if f.Cons? {
      TopsInside(f.rest);
    }
  }
}
