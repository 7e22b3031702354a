/** Which comparisons expr_eliminate_dups needs to keep all values
    (scripts/config/expr.c). */
module DupsExact {
  import opened Options
  import opened Tristates
  import opened Symbols
  import opened Exprs
  import opened EliminateYn
  import opened Joins
  import opened EliminateDups

  // ----- passes over two and three operands -----

  lemma NeutralNoJoin(op: Op, z: Expr)
    requires !IsYn(z)
    ensures Join(op, z, Neutral(op)).None?
  {
    if Join(op, z, Neutral(op)).Some? {
      JoinShape(op, z, Neutral(op));
    }
  }


  /** The rest of a pass over two operands from the second on, if the second
      meets the first in vain. */
  lemma SecondInVain(op: Op, x: Expr, y: Expr, bound: nat)
    requires !Is(op, x) && !IsNode(y) && TotalSize([x, y]) < bound && Join(op, y, x).None?
    ensures DupsPairs(op, [x, y], 0, 2, bound) == ([x, y], 0)
  {
    var ls := [x, y];
    assert DupsPairs(op, ls, 2, 0, bound) == (ls, 0);
    assert DupsPairs(op, ls, 1, 1, bound) == DupsPairs(op, ls, 1, 2, bound) == (ls, 0);
    assert ls[1 := y] == ls;
    assert Step(op, ls, 1, 0, bound) == (ls, 0);
  }

  lemma TwoOperands(op: Op, x: Expr, y: Expr)
    requires !Is(op, x) && !Is(op, y)
    ensures Operands(op, Node(op, x, y)) == [x, y]
    ensures TotalSize([x, y]) == Size(x) + Size(y) < Size(Node(op, x, y))
  {
    assert Operands(op, x) == [x] && Operands(op, y) == [y];
    assert [x, y][1..] == [y] && TotalSize([y]) == Size(y);
  }

  lemma RebuildTwo(op: Op, x: Expr, y: Expr, a: Expr, b: Expr)
    requires !Is(op, x) && !Is(op, y)
    ensures |Operands(op, Node(op, x, y))| == 2
    ensures Rebuild(op, Node(op, x, y), [a, b]) == Node(op, a, b)
  {
    TwoOperands(op, x, y);
    assert Operands(op, x) == [x] && Operands(op, y) == [y];
    assert [a, b][..1] == [a] && [a, b][1..] == [b];
  }

  /** A pass over two operands that become `x1` and `y1` when they meet. */
  lemma {:induction false} PassTwo(op: Op, x: Expr, y: Expr, x1: Expr, y1: Expr, n: nat)
    requires !Is(op, x) && !IsNode(y) && !Is(op, x1) && !IsNode(y1) && Size(x1) + Size(y1) <= Size(x) + Size(y)
    requires Meet(op, [x, y], 0, 1, Polish(x).0) == ([x1, y1], n) && Join(op, y1, x1).None?
    ensures DupsPass(op, Node(op, x, y)) == (Node(op, x1, y1), Polish(x).1 + n)
  {
    TwoOperands(op, x, y);
    TwoOperands(op, x1, y1);
    PairsTwo(op, x, y, x1, y1, n, Size(Node(op, x, y)));
    RebuildTwo(op, x, y, x1, y1);
  }

  lemma PairsTwo(op: Op, x: Expr, y: Expr, x1: Expr, y1: Expr, n: nat, bound: nat)
    requires !Is(op, x) && !IsNode(y) && !Is(op, x1) && !IsNode(y1)
    requires TotalSize([x, y]) < bound && TotalSize([x1, y1]) < bound
    requires Meet(op, [x, y], 0, 1, Polish(x).0) == ([x1, y1], n) && Join(op, y1, x1).None?
    ensures DupsPairs(op, [x, y], 0, 0, bound) == ([x1, y1], Polish(x).1 + n)
  {
    SecondInVain(op, x1, y1, bound);
    assert Step(op, [x, y], 0, 1, bound) == ([x1, y1], Polish(x).1 + n);
    assert DupsPairs(op, [x, y], 0, 1, bound) == ([x1, y1], Polish(x).1 + n);
  }

  /** An operand that is a level of the other operator meets a comparison. */
  lemma PassApart(op: Op, x: Expr, y: Expr, x1: Expr, n: nat)
    requires IsNode(x) && !Is(op, x) && IsNode(x1) && !Is(op, x1) && y.Comp?
    requires DupsPass(OpOf(x), x) == (x1, n)
    ensures DupsPass(op, Node(op, x, y)) == (Node(op, x1, y), n)
  {
    assert Join(op, x1, y).None? && Join(op, y, x1).None?;
    assert [x, y][0 := x1] == [x1, y];
    PassTwo(op, x, y, x1, y, 0);
  }

  /** Two operands that are joined right away. */
  lemma PairDups(op: Op, x: Expr, y: Expr, z: Expr)
    requires !IsNode(x) && !IsNode(y) && !IsNode(z) && !IsYn(z) && Join(op, x, y) == Some(z)
    requires Size(z) <= Size(y)
    ensures DupsPass(op, Node(op, x, y)) == (Node(op, Neutral(op), z), 1)
    ensures Dups(Node(op, x, y)) == z
  {
    assert [x, y][0 := Neutral(op)][1 := z] == [Neutral(op), z];
    NeutralNoJoin(op, z);
    PassTwo(op, x, y, Neutral(op), z, 1);
    DupsAfter(op, Node(op, x, y), Node(op, Neutral(op), z), z);
  }

  /** The rest of a pass over three single operands from the last on. */
  lemma ThirdInVain(op: Op, u: Expr, bound: nat)
    requires !IsNode(u) && !IsYn(u) && TotalSize([Neutral(op), Neutral(op), u]) < bound
    ensures DupsPairs(op, [Neutral(op), Neutral(op), u], 1, 3, bound) == ([Neutral(op), Neutral(op), u], 0)
  {
    var ls := [Neutral(op), Neutral(op), u];
    NeutralNoJoin(op, u);
    assert ls[2 := u] == ls;
    assert Step(op, ls, 2, 0, bound) == (ls, 0) && Step(op, ls, 2, 1, bound) == (ls, 0);
    assert DupsPairs(op, ls, 2, 2, bound) == DupsPairs(op, ls, 2, 3, bound) == (ls, 0);
    assert DupsPairs(op, ls, 2, 1, bound) == (ls, 0);
    assert DupsPairs(op, ls, 2, 0, bound) == (ls, 0);
  }

  /** From the second on, which is joined with the last. */
  lemma SecondAndThird(op: Op, z: Expr, w: Expr, u: Expr, bound: nat)
    requires !IsNode(z) && !IsNode(w) && !IsNode(u) && !IsYn(z) && !IsYn(u)
    requires TotalSize([Neutral(op), z, w]) < bound && TotalSize([Neutral(op), Neutral(op), u]) < bound
    requires Join(op, z, w) == Some(u)
    ensures DupsPairs(op, [Neutral(op), z, w], 1, 0, bound) == ([Neutral(op), Neutral(op), u], 1)
  {
    var ls, out := [Neutral(op), z, w], [Neutral(op), Neutral(op), u];
    NeutralNoJoin(op, z);
    ThirdInVain(op, u, bound);
    assert ls[1 := Neutral(op)][2 := u] == out && ls[1 := z] == ls;
    assert Step(op, ls, 1, 2, bound) == (out, 1) && Step(op, ls, 1, 0, bound) == (ls, 0);
    assert DupsPairs(op, ls, 1, 1, bound) == DupsPairs(op, ls, 1, 2, bound) == (out, 1);
  }

  /** After the first, which the last meets in vain. */
  lemma FirstInVain(op: Op, z: Expr, w: Expr, u: Expr, bound: nat)
    requires !IsNode(z) && !IsNode(w) && !IsNode(u) && !IsYn(z) && !IsYn(u)
    requires TotalSize([Neutral(op), z, w]) < bound && TotalSize([Neutral(op), Neutral(op), u]) < bound
    requires Join(op, z, w) == Some(u) && Join(op, Neutral(op), w).None?
    ensures DupsPairs(op, [Neutral(op), z, w], 0, 2, bound) == ([Neutral(op), Neutral(op), u], 1)
  {
    var ls := [Neutral(op), z, w];
    SecondAndThird(op, z, w, u, bound);
    assert ls[0 := Neutral(op)] == ls;
    assert Step(op, ls, 0, 2, bound) == (ls, 0);
    assert DupsPairs(op, ls, 0, 3, bound) == ([Neutral(op), Neutral(op), u], 1);
  }

  lemma ThreeOperands(op: Op, x: Expr, y: Expr, w: Expr)
    requires !Is(op, x) && !Is(op, y) && !Is(op, w)
    ensures Operands(op, Node(op, Node(op, x, y), w)) == [x, y, w]
    ensures TotalSize([x, y, w]) == Size(x) + Size(y) + Size(w) < Size(Node(op, Node(op, x, y), w))
  {
    TwoOperands(op, x, y);
    assert Operands(op, w) == [w] && [x, y, w][1..] == [y, w] && [y, w][1..] == [w] && TotalSize([w]) == Size(w);
  }

  lemma RebuildThree(op: Op, x: Expr, y: Expr, w: Expr, a: Expr, b: Expr, c: Expr)
    requires !Is(op, x) && !Is(op, y) && !Is(op, w)
    ensures |Operands(op, Node(op, Node(op, x, y), w))| == 3
    ensures Rebuild(op, Node(op, Node(op, x, y), w), [a, b, c]) == Node(op, Node(op, a, b), c)
  {
    TwoOperands(op, x, y);
    ThreeOperands(op, x, y, w);
    assert [a, b, c][..2] == [a, b] && [a, b, c][2..] == [c];
    RebuildTwo(op, x, y, a, b);
  }

  /** The operands of a level that are joined one after the other. */
  lemma PairsThree(op: Op, x: Expr, y: Expr, w: Expr, z: Expr, u: Expr, bound: nat)
    requires !IsNode(x) && !IsNode(y) && !IsNode(w) && !IsNode(z) && !IsNode(u) && !IsYn(z) && !IsYn(u)
    requires TotalSize([Neutral(op), z, w]) < bound && TotalSize([Neutral(op), Neutral(op), u]) < bound
    requires TotalSize([x, y, w]) < bound
    requires Join(op, x, y) == Some(z) && Join(op, z, w) == Some(u) && Join(op, Neutral(op), w).None?
    ensures DupsPairs(op, [x, y, w], 0, 0, bound) == ([Neutral(op), Neutral(op), u], 2)
  {
    var ls, mid := [x, y, w], [Neutral(op), z, w];
    FirstInVain(op, z, w, u, bound);
    assert ls[0 := Neutral(op)][1 := z] == mid;
    assert Step(op, ls, 0, 1, bound) == (mid, 1);
    assert DupsPairs(op, ls, 0, 1, bound) == ([Neutral(op), Neutral(op), u], 2);
  }

  lemma {:induction false} TriplePass(op: Op, x: Expr, y: Expr, w: Expr, z: Expr, u: Expr)
    requires !IsNode(x) && !IsNode(y) && !IsNode(w) && !IsNode(z) && !IsNode(u) && !IsYn(z) && !IsYn(u)
    requires Size(z) == Size(w) == Size(u) == 1
    requires Join(op, x, y) == Some(z) && Join(op, z, w) == Some(u) && Join(op, Neutral(op), w).None?
    ensures DupsPass(op, Node(op, Node(op, x, y), w)) == (Node(op, Node(op, Neutral(op), Neutral(op)), u), 2)
  {
    var e := Node(op, Node(op, x, y), w);
    ThreeOperands(op, x, y, w);
    ThreeOperands(op, Neutral(op), z, w);
    ThreeOperands(op, Neutral(op), Neutral(op), u);
    PairsThree(op, x, y, w, z, u, Size(e));
    RebuildThree(op, x, y, w, Neutral(op), Neutral(op), u);
  }

  /** Three operands of which the first two are joined, and then that with the
      third. */
  lemma {:induction false} TripleDups(op: Op, x: Expr, y: Expr, w: Expr, z: Expr, u: Expr)
    requires !IsNode(x) && !IsNode(y) && !IsNode(w) && !IsNode(z) && !IsNode(u) && !IsYn(z) && !IsYn(u)
    requires Size(z) == Size(w) == Size(u) == 1
    requires Join(op, x, y) == Some(z) && Join(op, z, w) == Some(u) && Join(op, Neutral(op), w).None?
    ensures Dups(Node(op, Node(op, x, y), w)) == u
  {
    TriplePass(op, x, y, w, z, u);
    assert ElimYn(Node(op, Neutral(op), Neutral(op))) == Neutral(op);
    DupsAfter(op, Node(op, Node(op, x, y), w), Node(op, Node(op, Neutral(op), Neutral(op)), u), u);
  }

  /** What the loop does after a pass that counted something. */
  lemma DupsAfter(op: Op, e: Expr, e1: Expr, u: Expr)
    requires Is(op, e) && DupsPass(op, e).0 == e1 && DupsPass(op, e).1 > 0 && ElimYn(e1) == u
    ensures Dups(e) == Dups(u)
  {
    assert OpOf(e) == op;
  }

  // ----- expressions that change -----

  /** No NOT, and no other symbols than tristate ones as truth values and on
      the left of comparisons. */
  predicate Plain(e: Expr) {
    match e
    case Sym(s) => s.Type().Tristated?
    case Not(_) => false
    case And(l, r) => Plain(l) && Plain(r)
    case Or(l, r) => Plain(l) && Plain(r)
    case Comp(_, a, _) => a.Type().Tristated?
  }

  predicate Kept(e: Expr, env: Env) {
    Eval(Dups(e), env) == Eval(e, env)
  }

  predicate Over(tests: Tests, e: Expr) {
    Plain(e) && TestsIn(e) <= tests
  }

  lemma OverNode(tests: Tests, x: Expr, y: Expr)
    requires Over(tests, x) && Over(tests, y)
    ensures Over(tests, And(x, y)) && Over(tests, Or(x, y))
  {
  }

  /** Some expression with the given tests does not keep its value. */
  ghost predicate SomeChanges(tests: Tests) {
    exists e, env :: Over(tests, e) && !Kept(e, env)
  }

  /** Where a tristate symbol equals both constants. */
  lemma ClashAt(s: Symbol, b: Symbol, c: Symbol) returns (env: Env)
    requires s.Type().Tristated? && b.IsConst() && c.IsConst() && Clash(b, c)
    ensures Compare(env, s, b) == 0 && Compare(env, s, c) == 0
  {
    var v := if Meets(b, NO) && Meets(c, NO) then NO else if Meets(b, MOD) && Meets(c, MOD) then MOD else YES;
    env := Env(true, map[s := v], map[]);
    assert TriOf(env, s) == v;
    MeetsCompare(env, s, b);
    MeetsCompare(env, s, c);
  }

  lemma LastFails(x: Expr, s: Symbol, c: Symbol, env: Env)
    requires Compare(env, s, c) == 0
    ensures Eval(And(x, Comp(Ne, s, c)), env) == NO
  {
    assert Eval(Comp(Ne, s, c), env) == NO;
  }

  /** `a = b && a != c` becomes `a = b`. */
  lemma DirectChanges(s: Symbol, b: Symbol, c: Symbol) returns (env: Env)
    requires s.Type().Tristated? && b.IsConst() && c.IsConst() && Clash(b, c)
    ensures Dups(And(Comp(Eq, s, b), Comp(Ne, s, c))) == Comp(Eq, s, b)
    ensures !Kept(And(Comp(Eq, s, b), Comp(Ne, s, c)), env)
  {
    var x, y := Comp(Eq, s, b), Comp(Ne, s, c);
    assert JoinAnd(x, y) == Some(x);
    PairDups(OpAnd, x, y, x);
    env := ClashAt(s, b, c);
    LastFails(x, s, c, env);
    assert Eval(x, env) == YES;
  }

  /** `a != t && a != u && a != c` for two of y, m and n becomes `a = b` for
      the third. */
  lemma UnequalChanges(s: Symbol, t: Symbol, u: Symbol, b: Symbol, c: Symbol) returns (env: Env)
    requires s.Type().Tristated? && t.IsTri() && u.IsTri() && b.IsTri() && t != u && t != b && u != b
    requires c.IsConst() && !c.IsTri() && Clash(b, c)
    ensures !Kept(And(And(Comp(Ne, s, t), Comp(Ne, s, u)), Comp(Ne, s, c)), env)
  {
    var x, y, w, z := Comp(Ne, s, t), Comp(Ne, s, u), Comp(Ne, s, c), Comp(Eq, s, b);
    AndRules(s, t, u, b, c);
    TripleDups(OpAnd, x, y, w, z, z);
    env := ClashAt(s, b, c);
    LastFails(And(x, y), s, c, env);
    assert Eval(z, env) == YES;
  }

  /** `a && a != 'm' && a != c` becomes `a = 'y'`. */
  lemma NotModChanges(s: Symbol, c: Symbol) returns (env: Env)
    requires s.Type().Tristated? && c.IsConst() && !c.IsTri() && Clash(SymYes, c)
    ensures !Kept(And(And(Sym(s), Comp(Ne, s, SymMod)), Comp(Ne, s, c)), env)
  {
    var x, y, w, z := Sym(s), Comp(Ne, s, SymMod), Comp(Ne, s, c), Comp(Eq, s, SymYes);
    assert JoinAnd(x, y) == Some(z) && JoinAnd(z, w) == Some(z);
    TripleDups(OpAnd, x, y, w, z, z);
    env := ClashAt(s, SymYes, c);
    LastFails(And(x, y), s, c, env);
    assert Eval(z, env) == YES;
  }

  /** `(a && a != 'm' || a = 'm') && a = c` becomes `a = c` in three rounds. */
  lemma NestedDups(s: Symbol, c: Symbol)
    requires s.Type().Tristated? && c.IsConst() && !c.IsTri()
    ensures Dups(And(Or(And(Sym(s), Comp(Ne, s, SymMod)), Comp(Eq, s, SymMod)), Comp(Eq, s, c))) == Comp(Eq, s, c)
  {
    var x, y, m, w := Sym(s), Comp(Ne, s, SymMod), Comp(Eq, s, SymMod), Comp(Eq, s, c);
    var yes, some := Comp(Eq, s, SymYes), Comp(Ne, s, SymNo);
    FirstRound(x, y, yes, m, w);
    SecondRound(yes, m, some, w);
    PairDups(OpAnd, some, w, w);
  }

  lemma {:induction false} FirstRound(x: Expr, y: Expr, yes: Expr, m: Expr, w: Expr)
    requires x.Sym? && y.Comp? && yes.Comp? && m.Comp? && w.Comp? && JoinAnd(x, y) == Some(yes)
    ensures Dups(And(Or(And(x, y), m), w)) == Dups(And(Or(yes, m), w))
  {
    var inner := And(E_YES, yes);
    PairDups(OpAnd, x, y, yes);
    PassApart(OpOr, And(x, y), m, inner, 1);
    PassApart(OpAnd, Or(And(x, y), m), w, Or(inner, m), 1);
    CleanFirst(yes, m, w);
    DupsAfter(OpAnd, And(Or(And(x, y), m), w), And(Or(inner, m), w), And(Or(yes, m), w));
  }

  lemma CleanFirst(yes: Expr, m: Expr, w: Expr)
    requires yes.Comp? && m.Comp? && w.Comp?
    ensures ElimYn(And(Or(And(E_YES, yes), m), w)) == And(Or(yes, m), w)
  {
    assert ElimYn(And(E_YES, yes)) == yes;
    assert ElimYn(Or(And(E_YES, yes), m)) == Or(yes, m);
  }

  lemma {:induction false} SecondRound(yes: Expr, m: Expr, some: Expr, w: Expr)
    requires yes.Comp? && m.Comp? && some.Comp? && w.Comp? && JoinOr(yes, m) == Some(some)
    ensures Dups(And(Or(yes, m), w)) == Dups(And(some, w))
  {
    var inner := Or(E_NO, some);
    PairDups(OpOr, yes, m, some);
    PassApart(OpAnd, Or(yes, m), w, inner, 1);
    CleanSecond(some, w);
    DupsAfter(OpAnd, And(Or(yes, m), w), And(inner, w), And(some, w));
  }

  lemma CleanSecond(some: Expr, w: Expr)
    requires some.Comp? && w.Comp?
    ensures ElimYn(And(Or(E_NO, some), w)) == And(some, w)
  {
    assert ElimYn(Or(E_NO, some)) == some;
  }

  lemma NestedChanges(s: Symbol, c: Symbol) returns (env: Env)
    requires s.Type().Tristated? && c.IsConst() && !c.IsTri() && Clash(SymNo, c)
    ensures !Kept(And(Or(And(Sym(s), Comp(Ne, s, SymMod)), Comp(Eq, s, SymMod)), Comp(Eq, s, c)), env)
  {
    NestedDups(s, c);
    env := ClashAt(s, SymNo, c);
    CompLogic(env, Eq, s, SymMod);
    CompLogic(env, Eq, s, SymNo);
    assert TriOf(env, s) == NO;
    assert Eval(And(Sym(s), Comp(Ne, s, SymMod)), env) == NO && Eval(Comp(Eq, s, SymMod), env) == NO;
    assert Eval(Or(And(Sym(s), Comp(Ne, s, SymMod)), Comp(Eq, s, SymMod)), env) == NO;
  }

  // ----- the exact condition -----

  /** Uses of tristate symbols alone, as `TestsIn` collects them. */
  predicate OfTristates(tests: Tests) {
    forall p :: p in tests ==> p.0.Type().Tristated? && (p.1.IsConst() || p.1 == p.0)
  }

  lemma Found(tests: Tests, x: Expr, y: Expr, w: Expr, env: Env)
    requires Over(tests, x) && Over(tests, y) && Over(tests, w) && !Kept(And(And(x, y), w), env)
    ensures SomeChanges(tests)
  {
    OverNode(tests, x, y);
    OverNode(tests, And(x, y), w);
  }

  /** A clash with a constant that only joins bring in. */
  lemma {:induction false} JoinedChanges(tests: Tests, s: Symbol, b: Symbol, c: Symbol)
    requires OfTristates(tests) && s.Type().Tristated? && b.IsConst() && c.IsConst() && Clash(b, c)
    requires (s, b) in WithJoins(tests) && (s, b) !in tests && (s, c) in WithJoins(tests)
    ensures SomeChanges(tests)
  {
    assert b.IsTri() && Spreads(tests, s);
    if c.IsTri() { TriNeverClash(b, c); }
    assert (s, c) in tests;
    var t, u := if b == SymYes then SymMod else SymYes, if b == SymNo then SymMod else SymNo;
    if (s, t) in tests && (s, u) in tests {
      var env := UnequalChanges(s, t, u, b, c);
      Found(tests, Comp(Ne, s, t), Comp(Ne, s, u), Comp(Ne, s, c), env);
    } else {
      assert (s, s) in tests && (s, SymMod) in tests && b != SymMod;
      TruthChanges(tests, s, b, c);
    }
  }

  lemma TruthChanges(tests: Tests, s: Symbol, b: Symbol, c: Symbol)
    requires s.Type().Tristated? && (b == SymYes || b == SymNo) && c.IsConst() && !c.IsTri() && Clash(b, c)
    requires (s, s) in tests && (s, SymMod) in tests && (s, c) in tests
    ensures SomeChanges(tests)
  {
    var x, y, m, w := Sym(s), Comp(Ne, s, SymMod), Comp(Eq, s, SymMod), Comp(Eq, s, c);
    if b == SymYes {
      var env := NotModChanges(s, c);
      Found(tests, x, y, Comp(Ne, s, c), env);
    } else {
      var env := NestedChanges(s, c);
      FoundNested(tests, x, y, m, w, env);
    }
  }

  lemma FoundNested(tests: Tests, x: Expr, y: Expr, m: Expr, w: Expr, env: Env)
    requires Over(tests, x) && Over(tests, y) && Over(tests, m) && Over(tests, w)
    requires !Kept(And(Or(And(x, y), m), w), env)
    ensures SomeChanges(tests)
  {
    OverNode(tests, x, y);
    OverNode(tests, And(x, y), m);
    OverNode(tests, Or(And(x, y), m), w);
  }

  /** A clash among the constants themselves. */
  lemma OwnChanges(tests: Tests, s: Symbol, b: Symbol, c: Symbol)
    requires s.Type().Tristated? && b.IsConst() && c.IsConst() && Clash(b, c)
    requires (s, b) in tests && (s, c) in tests
    ensures SomeChanges(tests)
  {
    var env := DirectChanges(s, b, c);
    OverNode(tests, Comp(Eq, s, b), Comp(Ne, s, c));
  }

  lemma {:induction false} ClashChanges(tests: Tests)
    requires OfTristates(tests) && !NoClash(WithJoins(tests))
    ensures SomeChanges(tests)
  {
    var all := WithJoins(tests);
    var p, q :| p in all && q in all && p.0 == q.0 && p.1.IsConst() && q.1.IsConst() && Clash(p.1, q.1);
    var s, b, c := p.0, p.1, q.1;
    assert s.Type().Tristated? && p == (s, b) && q == (s, c);
    if p !in tests {
      JoinedChanges(tests, s, b, c);
    } else if q !in tests {
      JoinedChanges(tests, s, c, b);
    } else {
      OwnChanges(tests, s, b, c);
    }
  }

  /** All expressions over some uses of tristate symbols keep their value
      under every assignment exactly if no symbol is compared with two
      constants that clash, those included that joins bring in. */
  lemma {:induction false} DupsKeepsValueIff(tests: Tests)
    requires OfTristates(tests)
    ensures (forall e, env {:induction false} :: TestsIn(e) <= tests ==> Kept(e, env)) <==> NoClash(WithJoins(tests))
  {
    if NoClash(WithJoins(tests)) {
      JoinsPeaceful(tests);
      forall e, env | TestsIn(e) <= tests ensures Kept(e, env) {
        DupsValue(false, WithJoins(tests), e, env);
      }
    } else {
      ClashChanges(tests);
      var e, env :| Over(tests, e) && !Kept(e, env);
      assert !Kept(e, env);
    }
  }

  /** With comparisons of tristate symbols against y, m and n alone, every
      value is kept. */
  lemma {:induction false} DupsKeepsTriTests(e: Expr, env: Env)
    requires forall p :: p in TestsIn(e) && p.1.IsConst() ==> p.1.IsTri()
    ensures Eval(Dups(e), env) == Eval(e, env)
  {
    TriNoClash(WithJoins(TestsIn(e)));
    DupsKeepsValue(e, env);
  }

  /** `a = n && a != "0"` becomes `a = n`, which is y instead of n where a is n. */
  lemma NumericConstantBreaksDups(s: Symbol)
    requires s.Type().Tristated?
    ensures var e, env := And(Comp(Eq, s, SymNo), Comp(Ne, s, Const("0"))), Env(true, map[], map[]);
            Dups(e) == Comp(Eq, s, SymNo) && Eval(e, env) == NO && Eval(Dups(e), env) == YES
  {
    var env := Env(true, map[], map[]);
    ZeroMeetsNo();
    MeetsTri(SymNo, NO);
    var _ := DirectChanges(s, SymNo, Const("0"));
    assert TriOf(env, s) == NO;
    MeetsCompare(env, s, SymNo);
    MeetsCompare(env, s, Const("0"));
  }
}
