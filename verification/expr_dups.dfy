/** Removing duplicate and redundant operands (expr_eliminate_dups in
    scripts/config/expr.c): the operands of a level form a sequence, and the
    cursors are its indices. */
module EliminateDups {
  import opened Tristates
  import opened Symbols
  import opened Exprs
  import opened EliminateYn
  import opened EliminateEq
  import opened Joins

  /** The operands at the level of `op`, left to right. */
  function Operands(op: Op, e: Expr): (ls: seq<Expr>)
    ensures |ls| >= 1
    ensures Is(op, e) ==> |ls| >= 2
  {
    if Is(op, e) then Operands(op, e.l) + Operands(op, e.r) else [e]
  }

  /** The tree of `e` with its operands at the level of `op` replaced. */
  function Rebuild(op: Op, e: Expr, ls: seq<Expr>): (r: Expr)
    requires |ls| == |Operands(op, e)|
    ensures Is(op, e) ==> Is(op, r)
  {
    if Is(op, e) then
      var k := |Operands(op, e.l)|;
      Node(op, Rebuild(op, e.l, ls[..k]), Rebuild(op, e.r, ls[k..]))
    else ls[0]
  }

  function TotalSize(ls: seq<Expr>): nat {
    if ls == [] then 0 else Size(ls[0]) + TotalSize(ls[1..])
  }

  /** One pass over a level: `expr_eliminate_dups1(type, &e, &e)`, with the
      number of simplifications it counts. */
  function DupsPass(op: Op, e: Expr): (r: (Expr, nat))
    requires Is(op, e)
    ensures Is(op, r.0) && Size(r.0) <= Size(e)
    decreases Size(e), 2, 0, 0
  {
    OperandSizes(op, e);
    OperandKinds(op, e);
    var (ls, n) := DupsPairs(op, Operands(op, e), 0, 0, Size(e));
    RebuildSize(op, e, ls);
    (Rebuild(op, e, ls), n)
  }

  /** The pass over an operand that is itself a level of the other operator. */
  function Polish(x: Expr): (r: (Expr, nat))
    ensures Size(r.0) <= Size(x)
    ensures IsNode(x) ==> Is(OpOf(x), r.0)
    ensures !IsNode(x) ==> r == (x, 0)
    decreases Size(x), 3, 0, 0
  {
    if IsNode(x) then DupsPass(OpOf(x), x) else (x, 0)
  }

  /** Operand `i` meets operand `j`, then the pairs that follow in the order
      of the two cursors. */
  function DupsPairs(op: Op, ls: seq<Expr>, i: nat, j: nat, ghost bound: nat): (r: (seq<Expr>, nat))
    requires forall k :: 0 <= k < |ls| ==> !Is(op, ls[k])
    requires TotalSize(ls) < bound
    requires i <= |ls| && j <= |ls|
    ensures |r.0| == |ls| && TotalSize(r.0) <= TotalSize(ls)
    ensures forall k :: 0 <= k < |ls| ==> !Is(op, r.0[k])
    decreases bound, 1, |ls| - i, |ls| - j
  {
    if i == |ls| then (ls, 0)
    else if j == |ls| then DupsPairs(op, ls, i + 1, 0, bound)
    else if i == j then DupsPairs(op, ls, i, j + 1, bound)
    else
      var (ls1, n) := Step(op, ls, i, j, bound);
      var (ls2, rest) := DupsPairs(op, ls1, i, j + 1, bound);
      (ls2, n + rest)
  }

  /** Operand `i` is simplified by itself and then joined with operand `j`. */
  function Step(op: Op, ls: seq<Expr>, i: nat, j: nat, ghost bound: nat): (r: (seq<Expr>, nat))
    requires i < |ls| && j < |ls| && i != j
    requires forall k :: 0 <= k < |ls| ==> !Is(op, ls[k])
    requires TotalSize(ls) < bound
    ensures |r.0| == |ls| && TotalSize(r.0) <= TotalSize(ls)
    ensures forall k :: 0 <= k < |ls| ==> !Is(op, r.0[k])
    decreases bound, 0, 0, 0
  {
    OperandSmaller(ls, i);
    var (x, n) := Polish(ls[i]);
    var (ls1, m) := Meet(op, ls, i, j, x);
    (ls1, n + m)
  }

  /** Operand `i`, by now `x`, is joined with operand `j` if a rule applies. */
  function Meet(op: Op, ls: seq<Expr>, i: nat, j: nat, x: Expr): (r: (seq<Expr>, nat))
    requires i < |ls| && j < |ls| && i != j
    requires forall k :: 0 <= k < |ls| ==> !Is(op, ls[k])
    requires !Is(op, x) && Size(x) <= Size(ls[i])
    ensures |r.0| == |ls| && TotalSize(r.0) <= TotalSize(ls)
    ensures forall k :: 0 <= k < |ls| ==> !Is(op, r.0[k])
  {
    TotalSizeUpdate(ls, i, x);
    match Join(op, x, ls[j])
    case None => (ls[i := x], 0)
    case Some(z) =>
      JoinShape(op, x, ls[j]);
      TotalSizeUpdate(ls, i, Neutral(op));
      TotalSizeUpdate(ls[i := Neutral(op)], j, z);
      (ls[i := Neutral(op)][j := z], 1)
  }

  // ----- sizes -----

  lemma {:induction false} TotalSizeUpdate(ls: seq<Expr>, i: nat, x: Expr)
    requires i < |ls|
    ensures TotalSize(ls[i := x]) == TotalSize(ls) - Size(ls[i]) + Size(x)
  {
    if i > 0 {
      TotalSizeUpdate(ls[1..], i - 1, x);
      assert ls[i := x][1..] == ls[1..][i - 1 := x];
    }
  }

  lemma {:induction false} OperandSmaller(ls: seq<Expr>, i: nat)
    requires i < |ls|
    ensures Size(ls[i]) <= TotalSize(ls)
  {
    if i > 0 { OperandSmaller(ls[1..], i - 1); }
  }

  lemma {:induction false} TotalSizeConcat(a: seq<Expr>, b: seq<Expr>)
    ensures TotalSize(a + b) == TotalSize(a) + TotalSize(b)
  {
    if a == [] {
      assert a + b == b;
    } else {
      TotalSizeConcat(a[1..], b);
      assert (a + b)[1..] == a[1..] + b;
    }
  }

  lemma {:induction false} RebuildSize(op: Op, e: Expr, ls: seq<Expr>)
    requires |ls| == |Operands(op, e)|
    ensures Size(Rebuild(op, e, ls)) - TotalSize(ls) == Size(e) - TotalSize(Operands(op, e))
  {
    if Is(op, e) {
      var k := |Operands(op, e.l)|;
      RebuildSize(op, e.l, ls[..k]);
      RebuildSize(op, e.r, ls[k..]);
      assert ls == ls[..k] + ls[k..];
      TotalSizeConcat(ls[..k], ls[k..]);
      TotalSizeConcat(Operands(op, e.l), Operands(op, e.r));
    } else {
      assert ls == [ls[0]];
    }
  }

  lemma {:induction false} OperandSizes(op: Op, e: Expr)
    ensures TotalSize(Operands(op, e)) <= Size(e)
    ensures Is(op, e) ==> TotalSize(Operands(op, e)) < Size(e)
  {
    if Is(op, e) {
      OperandSizes(op, e.l);
      OperandSizes(op, e.r);
      TotalSizeConcat(Operands(op, e.l), Operands(op, e.r));
    }
  }

  lemma {:induction false} OperandKinds(op: Op, e: Expr)
    ensures forall k :: 0 <= k < |Operands(op, e)| ==> !Is(op, Operands(op, e)[k])
  {
    if Is(op, e) {
      OperandKinds(op, e.l);
      OperandKinds(op, e.r);
    }
  }

  // ----- meaning -----

  predicate AllFine(nf: bool, tests: Tests, ls: seq<Expr>) {
    forall k :: 0 <= k < |ls| ==> Fine(nf, tests, ls[k])
  }

  function Fold(op: Op, ls: seq<Expr>, env: Env): Tristate {
    if ls == [] then Eval(Neutral(op), env) else Combine(op, Eval(ls[0], env), Fold(op, ls[1..], env))
  }

  lemma {:induction false} FoldConcat(op: Op, a: seq<Expr>, b: seq<Expr>, env: Env)
    ensures Fold(op, a + b, env) == Combine(op, Fold(op, a, env), Fold(op, b, env))
  {
    if a == [] {
      assert a + b == b;
    } else {
      FoldConcat(op, a[1..], b, env);
      assert (a + b)[1..] == a[1..] + b;
    }
  }

  /** One operand taken out of a level. */
  lemma {:induction false} FoldAt(op: Op, ls: seq<Expr>, i: nat, env: Env)
    requires i < |ls|
    ensures Fold(op, ls, env) == Combine(op, Eval(ls[i], env), Fold(op, ls[i := Neutral(op)], env))
  {
    if i > 0 {
      FoldAt(op, ls[1..], i - 1, env);
      assert ls[i := Neutral(op)][1..] == ls[1..][i - 1 := Neutral(op)];
    }
  }

  lemma FoldReplace(op: Op, ls: seq<Expr>, i: nat, x: Expr, env: Env)
    requires i < |ls| && Eval(x, env) == Eval(ls[i], env)
    ensures Fold(op, ls[i := x], env) == Fold(op, ls, env)
  {
    FoldAt(op, ls, i, env);
    FoldAt(op, ls[i := x], i, env);
    assert ls[i := x][i := Neutral(op)] == ls[i := Neutral(op)];
  }

  lemma FoldJoin(op: Op, ls: seq<Expr>, i: nat, j: nat, z: Expr, env: Env)
    requires i < |ls| && j < |ls| && i != j
    requires Eval(z, env) == Combine(op, Eval(ls[i], env), Eval(ls[j], env))
    ensures Fold(op, ls[i := Neutral(op)][j := z], env) == Fold(op, ls, env)
  {
    var rest := ls[i := Neutral(op)];
    FoldAt(op, ls, i, env);
    FoldAt(op, rest, j, env);
    var base := Fold(op, rest[j := Neutral(op)], env);
    assert Fold(op, rest[j := z], env) == Combine(op, Eval(z, env), base) by {
      FoldAt(op, rest[j := z], j, env);
      assert rest[j := z][j := Neutral(op)] == rest[j := Neutral(op)];
    }
    CombineShuffle(op, Eval(ls[i], env), Eval(ls[j], env), NO, base);
  }

  lemma {:induction false} RebuildValue(op: Op, e: Expr, ls: seq<Expr>, env: Env)
    requires |ls| == |Operands(op, e)|
    ensures Eval(Rebuild(op, e, ls), env) == Fold(op, ls, env)
  {
    if Is(op, e) {
      var k := |Operands(op, e.l)|;
      RebuildValue(op, e.l, ls[..k], env);
      RebuildValue(op, e.r, ls[k..], env);
      assert ls == ls[..k] + ls[k..];
      FoldConcat(op, ls[..k], ls[k..], env);
    } else {
      assert ls == [ls[0]];
      assert Fold(op, ls, env) == Combine(op, Eval(ls[0], env), Fold(op, [], env));
    }
  }

  lemma {:induction false} RebuildSame(op: Op, e: Expr)
    ensures Rebuild(op, e, Operands(op, e)) == e
  {
    if Is(op, e) {
      RebuildSame(op, e.l);
      RebuildSame(op, e.r);
    }
  }

  lemma {:induction false} FineOperands(nf: bool, tests: Tests, op: Op, e: Expr)
    requires Fine(nf, tests, e)
    ensures AllFine(nf, tests, Operands(op, e))
  {
    if Is(op, e) {
      FineOperands(nf, tests, op, e.l);
      FineOperands(nf, tests, op, e.r);
    }
  }

  lemma {:induction false} FineRebuild(nf: bool, tests: Tests, op: Op, e: Expr, ls: seq<Expr>)
    requires |ls| == |Operands(op, e)| && AllFine(nf, tests, ls)
    ensures Fine(nf, tests, Rebuild(op, e, ls))
  {
    if Is(op, e) {
      var k := |Operands(op, e.l)|;
      FineRebuild(nf, tests, op, e.l, ls[..k]);
      FineRebuild(nf, tests, op, e.r, ls[k..]);
    }
  }

  predicate Faithful(nf: bool, tests: Tests, op: Op, ls: seq<Expr>, out: seq<Expr>, env: Env) {
    AllFine(nf, tests, out) && Fold(op, out, env) == Fold(op, ls, env)
  }

  lemma MeetSound(nf: bool, tests: Tests, op: Op, ls: seq<Expr>, i: nat, j: nat, x: Expr, env: Env)
    requires Peaceful(tests) && i < |ls| && j < |ls| && i != j
    requires forall k :: 0 <= k < |ls| ==> !Is(op, ls[k])
    requires !Is(op, x) && Size(x) <= Size(ls[i])
    requires AllFine(nf, tests, ls) && Fine(nf, tests, x) && Eval(x, env) == Eval(ls[i], env)
    ensures Faithful(nf, tests, op, ls, Meet(op, ls, i, j, x).0, env)
  {
    match Join(op, x, ls[j])
    case None => FoldReplace(op, ls, i, x, env);
    case Some(z) =>
      JoinSound(nf, tests, op, x, ls[j]);
      FoldJoin(op, ls, i, j, z, env);
  }

  lemma {:induction false} PassSound(nf: bool, tests: Tests, op: Op, e: Expr, env: Env)
    requires Peaceful(tests) && Is(op, e) && Fine(nf, tests, e)
    ensures Fine(nf, tests, DupsPass(op, e).0)
    ensures Eval(DupsPass(op, e).0, env) == Eval(e, env)
    decreases Size(e), 2, 0, 0
  {
    OperandSizes(op, e);
    OperandKinds(op, e);
    FineOperands(nf, tests, op, e);
    var ls := Operands(op, e);
    PairsSound(nf, tests, op, ls, 0, 0, Size(e), env);
    var (out, n) := DupsPairs(op, ls, 0, 0, Size(e));
    FineRebuild(nf, tests, op, e, out);
    RebuildValue(op, e, out, env);
    RebuildValue(op, e, ls, env);
    RebuildSame(op, e);
  }

  lemma {:induction false} PolishSound(nf: bool, tests: Tests, x: Expr, env: Env)
    requires Peaceful(tests) && Fine(nf, tests, x)
    ensures Fine(nf, tests, Polish(x).0) && Eval(Polish(x).0, env) == Eval(x, env)
    decreases Size(x), 3, 0, 0
  {
    if IsNode(x) { PassSound(nf, tests, OpOf(x), x, env); }
  }

  lemma {:induction false} PairsSound(nf: bool, tests: Tests, op: Op, ls: seq<Expr>, i: nat, j: nat, bound: nat,
          env: Env)
    requires Peaceful(tests) && forall k :: 0 <= k < |ls| ==> !Is(op, ls[k])
    requires TotalSize(ls) < bound
    requires i <= |ls| && j <= |ls|
    requires AllFine(nf, tests, ls)
    ensures Faithful(nf, tests, op, ls, DupsPairs(op, ls, i, j, bound).0, env)
    decreases bound, 1, |ls| - i, |ls| - j
  {
    if i == |ls| {
    } else if j == |ls| {
      PairsSound(nf, tests, op, ls, i + 1, 0, bound, env);
    } else if i == j {
      PairsSound(nf, tests, op, ls, i, j + 1, bound, env);
    } else {
      StepSound(nf, tests, op, ls, i, j, bound, env);
      PairsSound(nf, tests, op, Step(op, ls, i, j, bound).0, i, j + 1, bound, env);
    }
  }

  lemma {:induction false} StepSound(nf: bool, tests: Tests, op: Op, ls: seq<Expr>, i: nat, j: nat, bound: nat,
          env: Env)
    requires Peaceful(tests) && i < |ls| && j < |ls| && i != j
    requires forall k :: 0 <= k < |ls| ==> !Is(op, ls[k])
    requires TotalSize(ls) < bound
    requires AllFine(nf, tests, ls)
    ensures Faithful(nf, tests, op, ls, Step(op, ls, i, j, bound).0, env)
    decreases bound, 0, 0, 0
  {
    OperandSmaller(ls, i);
    PolishSound(nf, tests, ls[i], env);
    MeetSound(nf, tests, op, ls, i, j, Polish(ls[i]).0, env);
  }

  // ----- progress -----

  /** Some operand is y or n, or has such an operand further down. */
  predicate Loose(ls: seq<Expr>) {
    exists k :: 0 <= k < |ls| && (IsYn(ls[k]) || !Reduced(ls[k]))
  }

  lemma {:induction false} RebuildLoose(op: Op, e: Expr, ls: seq<Expr>)
    requires |ls| == |Operands(op, e)|
    requires Loose(ls)
    ensures IsYn(Rebuild(op, e, ls)) || !Reduced(Rebuild(op, e, ls))
  {
    if Is(op, e) {
      var k :| 0 <= k < |ls| && (IsYn(ls[k]) || !Reduced(ls[k]));
      var m := |Operands(op, e.l)|;
      if k < m {
        assert ls[..m][k] == ls[k];
        RebuildLoose(op, e.l, ls[..m]);
      } else {
        assert ls[m..][k - m] == ls[k];
        RebuildLoose(op, e.r, ls[m..]);
      }
    }
  }

  lemma {:induction false} OperandsLoose(op: Op, e: Expr)
    requires IsYn(e) || !Reduced(e)
    ensures Loose(Operands(op, e))
  {
    if Is(op, e) {
      var a, b := Operands(op, e.l), Operands(op, e.r);
      if IsYn(e.l) || !Reduced(e.l) {
        OperandsLoose(op, e.l);
        var k :| 0 <= k < |a| && (IsYn(a[k]) || !Reduced(a[k]));
        assert (a + b)[k] == a[k];
      } else {
        OperandsLoose(op, e.r);
        var k :| 0 <= k < |b| && (IsYn(b[k]) || !Reduced(b[k]));
        assert (a + b)[|a| + k] == b[k];
      }
    } else {
      assert Operands(op, e)[0] == e;
    }
  }

  lemma MeetLoose(op: Op, ls: seq<Expr>, i: nat, j: nat, x: Expr)
    requires i < |ls| && j < |ls| && i != j
    requires forall k :: 0 <= k < |ls| ==> !Is(op, ls[k])
    requires !Is(op, x) && Size(x) <= Size(ls[i])
    requires IsYn(ls[i]) || !Reduced(ls[i]) ==> IsYn(x) || !Reduced(x)
    ensures Meet(op, ls, i, j, x).1 > 0 || !Reduced(x) || Loose(ls) ==> Loose(Meet(op, ls, i, j, x).0)
  {
    var out := Meet(op, ls, i, j, x).0;
    if Join(op, x, ls[j]).Some? {
      assert IsYn(out[i]);
    } else if !Reduced(x) {
      assert !Reduced(out[i]);
    } else if Loose(ls) {
      var k :| 0 <= k < |ls| && (IsYn(ls[k]) || !Reduced(ls[k]));
      assert IsYn(out[k]) || !Reduced(out[k]);
    }
  }

  /** A pass that counted a simplification leaves a constant behind that the
      next clean-up removes. */
  lemma {:induction false} PassProgress(op: Op, e: Expr)
    requires Is(op, e)
    ensures DupsPass(op, e).1 > 0 || !Reduced(e) ==> !Reduced(DupsPass(op, e).0)
    decreases Size(e), 2, 0, 0
  {
    OperandSizes(op, e);
    OperandKinds(op, e);
    var ls := Operands(op, e);
    PairsProgress(op, ls, 0, 0, Size(e));
    var (out, n) := DupsPairs(op, ls, 0, 0, Size(e));
    if !Reduced(e) {
      OperandsLoose(op, e);
    }
    if Loose(out) {
      RebuildLoose(op, e, out);
    }
  }

  lemma {:induction false} PairsProgress(op: Op, ls: seq<Expr>, i: nat, j: nat, bound: nat)
    requires forall k :: 0 <= k < |ls| ==> !Is(op, ls[k])
    requires TotalSize(ls) < bound
    requires i <= |ls| && j <= |ls|
    ensures DupsPairs(op, ls, i, j, bound).1 > 0 || Loose(ls) ==> Loose(DupsPairs(op, ls, i, j, bound).0)
    decreases bound, 1, |ls| - i, |ls| - j
  {
    if i == |ls| {
    } else if j == |ls| {
      PairsProgress(op, ls, i + 1, 0, bound);
    } else if i == j {
      PairsProgress(op, ls, i, j + 1, bound);
    } else {
      StepProgress(op, ls, i, j, bound);
      PairsProgress(op, Step(op, ls, i, j, bound).0, i, j + 1, bound);
    }
  }

  lemma {:induction false} StepProgress(op: Op, ls: seq<Expr>, i: nat, j: nat, bound: nat)
    requires i < |ls| && j < |ls| && i != j
    requires forall k :: 0 <= k < |ls| ==> !Is(op, ls[k])
    requires TotalSize(ls) < bound
    ensures Step(op, ls, i, j, bound).1 > 0 || Loose(ls) ==> Loose(Step(op, ls, i, j, bound).0)
    decreases bound, 0, 0, 0
  {
    OperandSmaller(ls, i);
    if IsNode(ls[i]) { PassProgress(OpOf(ls[i]), ls[i]); }
    MeetLoose(op, ls, i, j, Polish(ls[i]).0);
  }

  // ----- what is left when nothing changes -----

  lemma OperandsSmaller(op: Op, e: Expr)
    requires Is(op, e)
    ensures forall k :: 0 <= k < |Operands(op, e)| ==> Size(Operands(op, e)[k]) < Size(e)
  {
    OperandSizes(op, e);
    forall k | 0 <= k < |Operands(op, e)| ensures Size(Operands(op, e)[k]) < Size(e) {
      OperandSmaller(Operands(op, e), k);
    }
  }

  /** No two distinct operands of the level, nor of any level reached through
      && and ||, can be joined in either order. */
  ghost predicate Settled(e: Expr)
    decreases Size(e)
  {
    IsNode(e) ==>
      var op := OpOf(e);
      var ls := Operands(op, e);
      OperandsSmaller(op, e);
      (forall i, j :: 0 <= i < |ls| && 0 <= j < |ls| && i != j ==> Join(op, ls[i], ls[j]).None?) &&
      (forall k :: 0 <= k < |ls| ==> Settled(ls[k]))
  }

  /** A pass that counts nothing changes nothing and has compared every pair. */
  lemma {:induction false} PassSettled(op: Op, e: Expr)
    requires Is(op, e) && DupsPass(op, e).1 == 0
    ensures DupsPass(op, e).0 == e && Settled(e)
    decreases Size(e), 2, 0, 0
  {
    OperandSizes(op, e);
    OperandKinds(op, e);
    OperandsSmaller(op, e);
    var ls := Operands(op, e);
    PairsSettled(op, ls, 0, 0, Size(e));
    RebuildSame(op, e);
    assert OpOf(e) == op;
    forall k | 0 <= k < |ls| ensures Settled(ls[k]) {
      if IsNode(ls[k]) {
        var other := if k == 0 then 1 else 0;
        assert Join(op, ls[k], ls[other]).None?;
      }
    }
  }

  lemma {:induction false} PairsSettled(op: Op, ls: seq<Expr>, i: nat, j: nat, bound: nat)
    requires forall k :: 0 <= k < |ls| ==> !Is(op, ls[k])
    requires TotalSize(ls) < bound
    requires i <= |ls| && j <= |ls|
    requires DupsPairs(op, ls, i, j, bound).1 == 0
    ensures DupsPairs(op, ls, i, j, bound).0 == ls
    ensures forall a, b :: (i < a < |ls| && 0 <= b < |ls|) || (i == a < |ls| && j <= b < |ls|) ==>
              a != b ==> Join(op, ls[a], ls[b]).None? && Settled(ls[a])
    decreases bound, 1, |ls| - i, |ls| - j
  {
    if i == |ls| {
    } else if j == |ls| {
      PairsSettled(op, ls, i + 1, 0, bound);
    } else if i == j {
      PairsSettled(op, ls, i, j + 1, bound);
    } else {
      StepSettled(op, ls, i, j, bound);
      PairsSettled(op, ls, i, j + 1, bound);
    }
  }

  lemma {:induction false} StepSettled(op: Op, ls: seq<Expr>, i: nat, j: nat, bound: nat)
    requires i < |ls| && j < |ls| && i != j
    requires forall k :: 0 <= k < |ls| ==> !Is(op, ls[k])
    requires TotalSize(ls) < bound
    requires Step(op, ls, i, j, bound).1 == 0
    ensures Step(op, ls, i, j, bound).0 == ls
    ensures Join(op, ls[i], ls[j]).None? && Settled(ls[i])
    decreases bound, 0, 0, 0
  {
    OperandSmaller(ls, i);
    if IsNode(ls[i]) { PassSettled(OpOf(ls[i]), ls[i]); }
    assert ls[i := ls[i]] == ls;
  }

  // ----- the loop -----

  /** What `expr_eliminate_dups` returns. */
  function Dups(e: Expr): Expr
    decreases Size(e)
  {
    if !IsNode(e) then e
    else
      var (e1, n) := DupsPass(OpOf(e), e);
      if n == 0 then e1
      else
        PassProgress(OpOf(e), e);
        ElimYnReduces(e1);
        Dups(ElimYn(e1))
  }

  /** `expr_eliminate_dups`: passes until one counts nothing.  Each changing
      pass with its clean-up strictly shrinks the tree. */
  method EliminateDups(e: Expr) returns (r: Expr)
    ensures r == Dups(e)
  {
    r := e;
    while true
      invariant Dups(r) == Dups(e)
      decreases Size(r)
    {
      var count := 0;
      ghost var before := r;
      if IsNode(r) {
        var pass := DupsPass(OpOf(r), r);
        r, count := pass.0, pass.1;
      }
      if count == 0 {
        break;
      }
      PassProgress(OpOf(before), before);
      ElimYnReduces(r);
      r := ElimYn(r);
    }
  }

  /** The result has the value of the input under every assignment. */
  lemma {:induction false} DupsValue(nf: bool, tests: Tests, e: Expr, env: Env)
    requires Peaceful(tests) && Fine(nf, tests, e)
    ensures Eval(Dups(e), env) == Eval(e, env)
    ensures Fine(nf, tests, Dups(e))
    decreases Size(e)
  {
    if IsNode(e) {
      PassSound(nf, tests, OpOf(e), e, env);
      var (e1, n) := DupsPass(OpOf(e), e);
      if n > 0 {
        PassProgress(OpOf(e), e);
        ElimYnReduces(e1);
        ElimYnValue(e1, env);
        FineElimYn(nf, tests, e1);
        DupsValue(nf, tests, ElimYn(e1), env);
      }
    }
  }

  /** So it does for every expression whose comparisons cannot clash. */
  lemma DupsKeepsValue(e: Expr, env: Env)
    requires NoClash(WithJoins(TestsIn(e)))
    ensures Eval(Dups(e), env) == Eval(e, env)
  {
    JoinsPeaceful(TestsIn(e));
    DupsValue(false, WithJoins(TestsIn(e)), e, env);
  }

  lemma {:induction false} FineElimYn(nf: bool, tests: Tests, e: Expr)
    requires Fine(nf, tests, e)
    ensures Fine(nf, tests, ElimYn(e))
  {
    if IsNode(e) {
      FineElimYn(nf, tests, e.l);
      FineElimYn(nf, tests, e.r);
    }
  }

  /** At the end no two operands can still be joined, and the result is the
      input itself or free of constant operands. */
  lemma {:induction false} DupsSettled(e: Expr)
    ensures Settled(Dups(e))
    ensures Dups(e) == e || Reduced(Dups(e))
    ensures Size(Dups(e)) <= Size(e)
    decreases Size(e)
  {
    if IsNode(e) {
      var (e1, n) := DupsPass(OpOf(e), e);
      if n == 0 {
        PassSettled(OpOf(e), e);
      } else {
        PassProgress(OpOf(e), e);
        ElimYnReduces(e1);
        DupsSettled(ElimYn(e1));
      }
    }
  }
}
