/** Which common operands expr_eliminate_eq finds (scripts/config/expr.c), and
    what expr_eq and the submenu test of menu.c accept for it: the operands may
    come in any order. */
module Reordering {
  import opened Options
  import opened Symbols
  import opened Exprs
  import opened EliminateYn
  import opened EliminateEq
  import opened Joins
  import opened EliminateDups
  import opened Transforms
  import opened Comparisons

  // ----- the pairs in order -----

  /** The two operands are cancelled: equal ones, except y and n. */
  predicate Meets(x: Expr, y: Expr) {
    ExprEq(x, y) && !(x == y && IsYn(x))
  }

  /** One operand of the first side meets the operands of the second in turn. */
  function CancelOne(op: Op, x: Expr, ys: seq<Expr>): (r: (Expr, seq<Expr>))
    ensures |r.1| == |ys|
    decreases |ys|
  {
    if ys == [] then (x, [])
    else if Meets(x, ys[0]) then
      var (x1, rest) := CancelOne(op, Neutral(op), ys[1..]);
      (x1, [Neutral(op)] + rest)
    else
      var (x1, rest) := CancelOne(op, x, ys[1..]);
      (x1, [ys[0]] + rest)
  }

  /** All operands of the first side meet those of the second. */
  function CancelAll(op: Op, xs: seq<Expr>, ys: seq<Expr>): (r: (seq<Expr>, seq<Expr>))
    ensures |r.0| == |xs| && |r.1| == |ys|
  {
    if xs == [] then ([], ys)
    else
      var (x, ys1) := CancelOne(op, xs[0], ys);
      var (rest, ys2) := CancelAll(op, xs[1..], ys1);
      ([x] + rest, ys2)
  }

  lemma {:induction false} OneConcat(op: Op, x: Expr, a: seq<Expr>, b: seq<Expr>)
    ensures var (x1, a1) := CancelOne(op, x, a);
            var (x2, b1) := CancelOne(op, x1, b);
            CancelOne(op, x, a + b) == (x2, a1 + b1)
    decreases |a|
  {
    if a == [] {
      assert a + b == b && CancelOne(op, x, a) == (x, []);
      assert [] + CancelOne(op, x, b).1 == CancelOne(op, x, b).1;
    } else {
      assert (a + b)[1..] == a[1..] + b;
      var z := if Meets(x, a[0]) then Neutral(op) else x;
      var h := if Meets(x, a[0]) then Neutral(op) else a[0];
      OneConcat(op, z, a[1..], b);
      var (x1, a1) := CancelOne(op, z, a[1..]);
      assert [h] + (a1 + CancelOne(op, x1, b).1) == ([h] + a1) + CancelOne(op, x1, b).1;
    }
  }

  lemma {:induction false} AllConcat(op: Op, a: seq<Expr>, b: seq<Expr>, ys: seq<Expr>)
    ensures var (a1, ys1) := CancelAll(op, a, ys);
            var (b1, ys2) := CancelAll(op, b, ys1);
            CancelAll(op, a + b, ys) == (a1 + b1, ys2)
  {
    if a == [] {
      assert a + b == b;
      assert [] + CancelAll(op, b, ys).0 == CancelAll(op, b, ys).0;
    } else {
      assert (a + b)[1..] == a[1..] + b;
      var (x, ys1) := CancelOne(op, a[0], ys);
      AllConcat(op, a[1..], b, ys1);
      var (rest, ys2) := CancelAll(op, a[1..], ys1);
      assert [x] + (rest + CancelAll(op, b, ys2).0) == ([x] + rest) + CancelAll(op, b, ys2).0;
    }
  }

  predicate Leaves(op: Op, ls: seq<Expr>) {
    forall k :: 0 <= k < |ls| ==> !Is(op, ls[k])
  }

  lemma Halves(l: seq<Expr>, r: seq<Expr>)
    ensures (l + r)[..|l|] == l && (l + r)[|l|..] == r
  {
  }

  lemma {:induction false} OneIsCancel(op: Op, x: Expr, y: Expr)
    requires !Is(op, x)
    ensures var (x1, ys) := CancelOne(op, x, Operands(op, y));
            Cancel(op, x, y) == (x1, Rebuild(op, y, ys)) && !Is(op, x1) && Leaves(op, ys)
    decreases y
  {
    if Is(op, y) {
      OneIsCancel(op, x, y.l);
      var (x1, l) := CancelOne(op, x, Operands(op, y.l));
      OneIsCancel(op, x1, y.r);
      var (x2, r) := CancelOne(op, x1, Operands(op, y.r));
      OneConcat(op, x, Operands(op, y.l), Operands(op, y.r));
      Halves(l, r);
    } else {
      assert Operands(op, y) == [y] && [y][1..] == [];
      assert forall z :: CancelOne(op, z, []) == (z, []);
    }
  }

  lemma {:induction false} RebuildLeaves(op: Op, y: Expr, ls: seq<Expr>)
    requires |ls| == |Operands(op, y)| && Leaves(op, ls)
    ensures Operands(op, Rebuild(op, y, ls)) == ls
  {
    if Is(op, y) {
      var k := |Operands(op, y.l)|;
      RebuildLeaves(op, y.l, ls[..k]);
      RebuildLeaves(op, y.r, ls[k..]);
      assert ls == ls[..k] + ls[k..];
    } else {
      assert ls == [ls[0]];
    }
  }

  lemma {:induction false} RebuildTwice(op: Op, y: Expr, a: seq<Expr>, b: seq<Expr>)
    requires |a| == |b| == |Operands(op, y)| && Leaves(op, a)
    ensures Operands(op, Rebuild(op, y, a)) == a
    ensures Rebuild(op, Rebuild(op, y, a), b) == Rebuild(op, y, b)
  {
    RebuildLeaves(op, y, a);
    if Is(op, y) {
      var k := |Operands(op, y.l)|;
      RebuildLeaves(op, y.l, a[..k]);
      RebuildTwice(op, y.l, a[..k], b[..k]);
      RebuildTwice(op, y.r, a[k..], b[k..]);
    }
  }

  /** The walk over the two trees is the walk over the two lists. */
  lemma {:induction false} CancelIsAll(op: Op, x: Expr, y: Expr)
    ensures var (xs, ys) := CancelAll(op, Operands(op, x), Operands(op, y));
            Cancel(op, x, y) == (Rebuild(op, x, xs), Rebuild(op, y, ys)) && Leaves(op, ys)
    decreases x
  {
    OperandKinds(op, y);
    if Is(op, x) {
      var (l, ys1) := CancelAll(op, Operands(op, x.l), Operands(op, y));
      CancelIsAll(op, x.l, y);
      var y1 := Rebuild(op, y, ys1);
      RebuildLeaves(op, y, ys1);
      CancelIsAll(op, x.r, y1);
      var (r, ys2) := CancelAll(op, Operands(op, x.r), ys1);
      RebuildTwice(op, y, ys1, ys2);
      AllConcat(op, Operands(op, x.l), Operands(op, x.r), Operands(op, y));
      Halves(l, r);
    } else {
      OneIsCancel(op, x, y);
      var (x1, ys) := CancelOne(op, x, Operands(op, y));
      assert Operands(op, x) == [x] && [x][1..] == [];
      assert CancelAll(op, [], ys) == ([], ys);
      assert [x1] + [] == [x1];
    }
  }

  // ----- what is found -----

  /** Equal to itself and to no other operand of the list. */
  predicate Apart(ls: seq<Expr>) {
    (forall i :: 0 <= i < |ls| ==> ExprEq(ls[i], ls[i])) &&
    (forall i, j :: 0 <= i < |ls| && 0 <= j < |ls| && i != j ==> !ExprEq(ls[i], ls[j]))
  }

  /** Some operands were replaced by the neutral one. */
  predicate Thinned(op: Op, ls: seq<Expr>, out: seq<Expr>) {
    |out| == |ls| && forall k :: 0 <= k < |ls| ==> out[k] == ls[k] || (out[k] == Neutral(op) && !IsYn(ls[k]))
  }

  /** y and n are left alone. */
  lemma {:induction false} YnStays(op: Op, x: Expr, ys: seq<Expr>)
    requires IsYn(x)
    ensures CancelOne(op, x, ys) == (x, ys)
    decreases |ys|
  {
    if ys != [] {
      YnStays(op, x, ys[1..]);
      assert [ys[0]] + ys[1..] == ys;
    }
  }

  /** A single operand cancels the first one it meets, and no more. */
  lemma {:induction false} OneCancels(op: Op, x: Expr, ys: seq<Expr>) returns (j: nat)
    requires !IsYn(x)
    ensures j <= |ys| && forall k :: 0 <= k < j ==> !Meets(x, ys[k])
    ensures j == |ys| ==> CancelOne(op, x, ys) == (x, ys)
    ensures j < |ys| ==> Meets(x, ys[j]) && CancelOne(op, x, ys) == (Neutral(op), ys[j := Neutral(op)])
    decreases |ys|
  {
    if ys == [] {
      j := 0;
    } else if Meets(x, ys[0]) {
      j := 0;
      YnStays(op, Neutral(op), ys[1..]);
      assert ys[0 := Neutral(op)] == [Neutral(op)] + ys[1..];
    } else {
      var i := OneCancels(op, x, ys[1..]);
      j := i + 1;
      assert ys == [ys[0]] + ys[1..];
      assert i < |ys[1..]| ==> ys[j := Neutral(op)] == [ys[0]] + ys[1..][i := Neutral(op)];
    }
  }

  lemma MeetsNoYn(x: Expr, y: Expr)
    requires Meets(x, y) && !IsYn(x)
    ensures !IsYn(y)
  {
  }

  /** Operands of `xs` that are still there in `ys` are neutral in `out`. */
  predicate Gone(op: Op, xs: seq<Expr>, ys0: seq<Expr>, ys: seq<Expr>, out: seq<Expr>)
    requires |out| == |xs| && |ys| == |ys0|
  {
    forall i, k :: 0 <= i < |xs| && 0 <= k < |ys| && xs[i] == ys0[k] == ys[k] && !IsYn(xs[i]) ==> out[i] == Neutral(op)
  }

  /** One operand of the first side, where `ys` are the operands `ys0` with
      some cancelled: it finds itself if it is still there. */
  lemma OneFinds(op: Op, x: Expr, ys0: seq<Expr>, ys: seq<Expr>)
    requires Apart(ys0) && Thinned(op, ys0, ys)
    ensures var (x1, ys1) := CancelOne(op, x, ys);
            Thinned(op, ys0, ys1) && (x1 == x || (x1 == Neutral(op) && !IsYn(x))) &&
            (forall k :: 0 <= k < |ys| && ys[k] == Neutral(op) ==> ys1[k] == Neutral(op)) &&
            (forall k :: 0 <= k < |ys| && ys1[k] != ys[k] ==> ExprEq(x, ys[k])) &&
            (forall k :: 0 <= k < |ys| && ys0[k] == x && !IsYn(x) ==>
              ys1[k] == Neutral(op) && (ys[k] == x ==> x1 == Neutral(op)))
  {
    if IsYn(x) {
      YnStays(op, x, ys);
    } else {
      var j := OneCancels(op, x, ys);
      if j < |ys| { MeetsNoYn(x, ys[j]); }
      forall k | 0 <= k < |ys| && ys0[k] == x && ys[k] == x ensures j == k {
        assert ExprEq(ys0[k], ys0[k]) && Meets(x, ys[k]);
        assert j <= k;
        assert ys[j] == ys0[j] && ExprEq(ys0[k], ys0[j]);
      }
    }
  }

  /** Every operand that occurs on both sides is cancelled on both. */
  lemma {:induction false} AllFind(op: Op, xs: seq<Expr>, ys0: seq<Expr>, ys: seq<Expr>)
    requires Apart(ys0) && Thinned(op, ys0, ys)
    ensures var (xs1, ys1) := CancelAll(op, xs, ys);
            Thinned(op, xs, xs1) && Thinned(op, ys0, ys1) &&
            (forall k :: 0 <= k < |ys| && ys[k] == Neutral(op) ==> ys1[k] == Neutral(op)) &&
            (forall k :: 0 <= k < |ys| && ys0[k] in xs && !IsYn(ys0[k]) ==> ys1[k] == Neutral(op)) &&
            (Apart(xs) ==> Gone(op, xs, ys0, ys, xs1))
    decreases |xs|
  {
    if xs != [] {
      var (x, ysNext) := CancelOne(op, xs[0], ys);
      OneFinds(op, xs[0], ys0, ys);
      AllFind(op, xs[1..], ys0, ysNext);
      var (rest, ys1) := CancelAll(op, xs[1..], ysNext);
      FoundStep(op, xs, ys0, ys, ysNext, x, rest);
    }
  }

  /** The first operand together with the rest. */
  lemma FoundStep(op: Op, xs: seq<Expr>, ys0: seq<Expr>, ys: seq<Expr>, next: seq<Expr>, x: Expr, rest: seq<Expr>)
    requires xs != [] && |rest| == |xs| - 1 && |ys0| == |ys| == |next| && Thinned(op, xs[1..], rest)
    requires x == xs[0] || (x == Neutral(op) && !IsYn(xs[0]))
    requires forall k :: 0 <= k < |ys| && next[k] != ys[k] ==> ExprEq(xs[0], ys[k])
    requires forall k :: 0 <= k < |ys| && ys0[k] == xs[0] == ys[k] && !IsYn(xs[0]) ==> x == Neutral(op)
    requires Apart(xs[1..]) ==> Gone(op, xs[1..], ys0, next, rest)
    ensures Thinned(op, xs, [x] + rest)
    ensures Apart(xs) ==> Gone(op, xs, ys0, ys, [x] + rest)
  {
    forall k | 0 <= k < |xs| ensures var out := [x] + rest; out[k] == xs[k] || (out[k] == Neutral(op) && !IsYn(xs[k])) {
      if k > 0 { assert xs[k] == xs[1..][k - 1]; }
    }
    if Apart(xs) {
      assert Apart(xs[1..]) by {
        assert forall i :: 0 <= i < |xs[1..]| ==> xs[1..][i] == xs[i + 1];
      }
      forall i, k | 0 <= i < |xs| && 0 <= k < |ys| && xs[i] == ys0[k] == ys[k] && !IsYn(xs[i])
        ensures ([x] + rest)[i] == Neutral(op)
      {
        if i > 0 {
          assert xs[1..][i - 1] == xs[i] && !ExprEq(xs[0], xs[i]);
          assert next[k] == ys[k];
        }
      }
    }
  }

  // ----- what is left -----

  function Absorbing(op: Op): Expr {
    if op.OpAnd? then E_NO else E_YES
  }

  lemma {:induction false} ElimConstants(op: Op, e: Expr, ls: seq<Expr>)
    requires |ls| == |Operands(op, e)| && forall k :: 0 <= k < |ls| ==> IsYn(ls[k])
    ensures ElimYn(Rebuild(op, e, ls)) == if Absorbing(op) in ls then Absorbing(op) else Neutral(op)
  {
    if Is(op, e) {
      var k := |Operands(op, e.l)|;
      ElimConstants(op, e.l, ls[..k]);
      ElimConstants(op, e.r, ls[k..]);
      assert ls == ls[..k] + ls[k..];
    } else {
      assert ls == [ls[0]];
    }
  }

  /** expr_eq accepts operands in any order. */
  lemma ReorderedEqual(op: Op, x: Expr, y: Expr)
    requires Is(op, x) && Is(op, y) && Apart(Operands(op, x)) && Apart(Operands(op, y))
    requires forall e :: e in Operands(op, x) <==> e in Operands(op, y)
    ensures ExprEq(x, y)
  {
    var xs, ys := Operands(op, x), Operands(op, y);
    CancelIsAll(op, x, y);
    AllFind(op, xs, ys, ys);
    var (xs1, ys1) := CancelAll(op, xs, ys);
    ConstantsLeft(op, xs, ys, xs1, ys1);
    ElimConstants(op, x, xs1);
    ElimConstants(op, y, ys1);
    assert OpOf(x) == op && OpOf(Rebuild(op, y, ys1)) == op;
    assert ElimEq(x, y) == (ElimYn(Rebuild(op, x, xs1)), ElimYn(Rebuild(op, y, ys1)));
  }

  lemma ConstantsLeft(op: Op, xs: seq<Expr>, ys: seq<Expr>, xs1: seq<Expr>, ys1: seq<Expr>)
    requires Thinned(op, xs, xs1) && Thinned(op, ys, ys1) && forall e :: e in xs <==> e in ys
    requires forall k :: 0 <= k < |ys| && ys[k] in xs && !IsYn(ys[k]) ==> ys1[k] == Neutral(op)
    requires forall i, k :: 0 <= i < |xs| && 0 <= k < |ys| && xs[i] == ys[k] && !IsYn(xs[i]) ==> xs1[i] == Neutral(op)
    ensures (forall k :: 0 <= k < |xs1| ==> IsYn(xs1[k])) && (forall k :: 0 <= k < |ys1| ==> IsYn(ys1[k]))
    ensures Absorbing(op) in xs1 <==> Absorbing(op) in ys1
  {
    forall i | 0 <= i < |xs| ensures IsYn(xs1[i]) && (xs1[i] == Absorbing(op) <==> xs[i] == Absorbing(op)) {
      assert xs[i] in ys;
      var k :| 0 <= k < |ys| && ys[k] == xs[i];
    }
    forall k | 0 <= k < |ys| ensures IsYn(ys1[k]) && (ys1[k] == Absorbing(op) <==> ys[k] == Absorbing(op)) {
      assert ys[k] in xs;
    }
    assert Absorbing(op) in xs1 <==> Absorbing(op) in xs;
    assert Absorbing(op) in ys1 <==> Absorbing(op) in ys;
  }

  /** What expr_eliminate_dups and expr_transform leave is equal to itself, and
      its operands are apart. */
  lemma {:induction false} SettledApart(z: Expr)
    requires Settled(z) && Normal(z)
    ensures ExprEq(z, z)
    ensures IsNode(z) ==> Apart(Operands(OpOf(z), z))
    decreases Size(z)
  {
    if IsNode(z) {
      var op := OpOf(z);
      var ls := Operands(op, z);
      OperandsSmaller(op, z);
      FineOperands(true, TestsIn(z), op, z);
      forall i | 0 <= i < |ls| ensures ExprEq(ls[i], ls[i]) {
        assert Fine(true, TestsIn(z), ls[i]);
        SettledApart(ls[i]);
      }
      forall i, j | 0 <= i < |ls| && 0 <= j < |ls| && i != j ensures !ExprEq(ls[i], ls[j]) {
        assert Join(op, ls[i], ls[j]).None?;
      }
      ReorderedEqual(op, z, z);
    }
  }

  // ----- the superset test -----

  /** A condition of several && operands covers every condition whose operands
      are among them. */
  lemma CoverFound(dep: Expr, base: Expr)
    requires dep.And? && Settled(base) && Normal(base)
    requires forall k :: 0 <= k < |Operands(OpAnd, base)| ==>
               Operands(OpAnd, base)[k] in Operands(OpAnd, dep) && Operands(OpAnd, base)[k] != E_NO
    ensures ElimEq(dep, base).1 == E_YES
  {
    var xs, ys := Operands(OpAnd, dep), Operands(OpAnd, base);
    SettledApart(base);
    assert Apart(ys) by {
      if !base.And? { assert ys == [base]; }
    }
    CancelIsAll(OpAnd, dep, base);
    AllFind(OpAnd, xs, ys, ys);
    var (xs1, ys1) := CancelAll(OpAnd, xs, ys);
    forall k | 0 <= k < |ys1| ensures ys1[k] == E_YES {
      assert ys[k] in xs && ys[k] != E_NO;
    }
    ElimConstants(OpAnd, base, ys1);
    assert OpOf(dep) == OpAnd && Is(OpAnd, Rebuild(OpAnd, dep, xs1));
    assert ElimEq(dep, base).1 == ElimYn(Rebuild(OpAnd, base, ys1));
  }

  lemma RewrittenTidy(e: Option<Expr>)
    requires Rewritable(e)
    ensures Settled(Rewritten(e)) && Normal(Rewritten(e))
  {
    var c := TransCompareOpt(e, true, SymNo);
    var tests := if e.Some? then WithJoins(TestsMet(e.value)) else {};
    if e.Some? {
      TransCompareTests(e.value, true);
      JoinsPeaceful(TestsMet(e.value));
    }
    TransformTests(c);
    TransformNormal(c);
    DupsValue(true, tests, Transform(c), Env(true, map[], map[]));
    DupsSettled(Transform(c));
  }

  /** Every && operand of the rewritten condition `prompt` is one of the
      rewritten condition `dep`, which has several. */
  predicate Covers(dep: Option<Expr>, prompt: Option<Expr>) {
    Rewritten(dep).And? &&
    forall k :: 0 <= k < |Operands(OpAnd, Rewritten(prompt))| ==>
      Operands(OpAnd, Rewritten(prompt))[k] in Operands(OpAnd, Rewritten(dep)) &&
      Operands(OpAnd, Rewritten(prompt))[k] != E_NO
  }

  lemma CoveredIsSuperset(dep: Option<Expr>, prompt: Option<Expr>)
    requires Rewritable(prompt) && Covers(dep, prompt)
    ensures Superset(dep, Rewritten(prompt))
  {
    RewrittenTidy(prompt);
    CoverFound(Rewritten(dep), Rewritten(prompt));
  }

  /** A single operand that is one of several on the other side is cancelled. */
  lemma SingleFound(x: Expr, y: Expr)
    requires IsNode(y) && !IsNode(x) && !IsYn(x) && Apart(Operands(OpOf(y), y)) && x in Operands(OpOf(y), y)
    ensures ElimEq(x, y).0 == Neutral(OpOf(y))
  {
    var op := OpOf(y);
    var ys := Operands(op, y);
    OneIsCancel(op, x, y);
    OneFinds(op, x, ys, ys);
    var k :| 0 <= k < |ys| && ys[k] == x;
    assert Cancel(op, x, y).0 == Neutral(op);
  }

  /** Two single operands are left alone, even equal ones. */
  lemma SingleLeftAlone(x: Expr, y: Expr)
    requires !IsNode(x) && !IsNode(y)
    ensures ElimEq(x, y) == (x, y)
  {
  }
}
