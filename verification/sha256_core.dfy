/** The block computation of FIPS 180-4, section 6.2.2, over any words with the
    standard's operations, and the in-place version of scripts/mkhash.c: sixteen
    words of schedule at a time, and rounds that rename the variables instead
    of moving them. */
module Sha256Core {

  /** The operations of section 4.1.2 and the constants of 4.2.2. */
  datatype Ops<!W> = Ops(
    add: (W, W) -> W,
    ch: (W, W, W) -> W,
    maj: (W, W, W) -> W,
    bigSigma0: W -> W,
    bigSigma1: W -> W,
    smallSigma0: W -> W,
    smallSigma1: W -> W,
    k: seq<W>)

  /** The eight working variables, and the eight words of a hash value. */
  datatype Vars<W> = Vars(a: W, b: W, c: W, d: W, e: W, f: W, g: W, h: W)

  // ----- the standard -----

  /** Word `t` of the message schedule from the words before it. */
  function NextWord<W>(o: Ops<W>, w: seq<W>, t: nat): W
    requires 16 <= t <= |w|
  {
    o.add(o.add(o.add(o.smallSigma1(w[t - 2]), w[t - 7]), o.smallSigma0(w[t - 15])), w[t - 16])
  }

  /** The first `n` words of the schedule of the sixteen words `m`. */
  function ScheduleTo<W>(o: Ops<W>, m: seq<W>, n: nat): (w: seq<W>)
    requires |m| == 16 <= n
    ensures |w| == n
  {
    if n == 16 then m
    else
      var w := ScheduleTo(o, m, n - 1);
      w + [NextWord(o, w, n - 1)]
  }

  /** Step 1: the message schedule. */
  function Schedule<W>(o: Ops<W>, m: seq<W>): (w: seq<W>)
    requires |m| == 16
    ensures |w| == 64
  {
    ScheduleTo(o, m, 64)
  }

  /** It starts with `m`, and every further word follows from those before. */
  lemma {:induction false} ScheduleAt<W>(o: Ops<W>, m: seq<W>, n: nat, t: nat)
    requires |m| == 16 <= n && t < n
    ensures t < 16 ==> ScheduleTo(o, m, n)[t] == m[t]
    ensures t >= 16 ==> ScheduleTo(o, m, n)[t] == NextWord(o, ScheduleTo(o, m, n), t)
  {
    if n > 16 && t < n - 1 {
      ScheduleAt(o, m, n - 1, t);
    }
  }

  /** Step 3: one round with the constant `k` and the schedule word `w`. */
  function Round<W>(o: Ops<W>, v: Vars<W>, k: W, w: W): Vars<W> {
    var t1 := o.add(o.add(o.add(o.add(v.h, o.bigSigma1(v.e)), o.ch(v.e, v.f, v.g)), k), w);
    var t2 := o.add(o.bigSigma0(v.a), o.maj(v.a, v.b, v.c));
    Vars(o.add(t1, t2), v.a, v.b, v.c, o.add(v.d, t1), v.e, v.f, v.g)
  }

  /** The working variables after `t` rounds. */
  function Rounds<W>(o: Ops<W>, w: seq<W>, v: Vars<W>, t: nat): Vars<W>
    requires |w| == 64 && t <= 64 && |o.k| == 64
  {
    if t == 0 then v else Round(o, Rounds(o, w, v, t - 1), o.k[t - 1], w[t - 1])
  }

  /** Steps 2 to 4. */
  function Compress<W>(o: Ops<W>, v: Vars<W>, m: seq<W>): Vars<W>
    requires |m| == 16 && |o.k| == 64
  {
    AddVars(o, v, Rounds(o, Schedule(o, m), v, 64))
  }

  function AddVars<W>(o: Ops<W>, v: Vars<W>, r: Vars<W>): Vars<W> {
    Vars(o.add(v.a, r.a), o.add(v.b, r.b), o.add(v.c, r.c), o.add(v.d, r.d),
         o.add(v.e, r.e), o.add(v.f, r.f), o.add(v.g, r.g), o.add(v.h, r.h))
  }

  // ----- the source -----

  /** RND with the source's grouping: h and d are added to in place. */
  function Rnd<W>(p: Ops<W>, v: Vars<W>, k: W, w: W): Vars<W> {
    var h := p.add(v.h, p.add(p.add(p.bigSigma1(v.e), p.ch(v.e, v.f, v.g)), p.add(w, k)));
    Vars(p.add(h, p.add(p.bigSigma0(v.a), p.maj(v.a, v.b, v.c))), v.a, v.b, v.c, p.add(v.d, h), v.e, v.f, v.g)
  }

  /** Operations under which addition may be regrouped, with other formulas of
      the same values for Ch and Maj. */
  ghost predicate SameOps<W(!new)>(o: Ops<W>, p: Ops<W>) {
    |o.k| == 64 && p == o.(ch := p.ch, maj := p.maj) &&
    (forall x, y, z :: p.ch(x, y, z) == o.ch(x, y, z)) &&
    (forall x, y, z :: p.maj(x, y, z) == o.maj(x, y, z)) &&
    (forall x, y :: o.add(x, y) == o.add(y, x)) &&
    (forall x, y, z :: o.add(o.add(x, y), z) == o.add(x, o.add(y, z)))
  }

  /** The working variables after `t` of the source's rounds. */
  function RndRounds<W>(p: Ops<W>, w: seq<W>, v: Vars<W>, t: nat): Vars<W>
    requires |w| == 64 && t <= 64 && |p.k| == 64
  {
    if t == 0 then v else Rnd(p, RndRounds(p, w, v, t - 1), p.k[t - 1], w[t - 1])
  }

  function RndCompress<W>(p: Ops<W>, v: Vars<W>, m: seq<W>): Vars<W>
    requires |m| == 16 && |p.k| == 64
  {
    AddVars(p, v, RndRounds(p, Schedule(p, m), v, 64))
  }

  /** The source's grouping and formulas give the standard's result. */
  lemma SameCompress<W(!new)>(o: Ops<W>, p: Ops<W>, v: Vars<W>, m: seq<W>)
    requires SameOps(o, p) && |m| == 16
    ensures RndCompress(p, v, m) == Compress(o, v, m)
  {
    SameSchedule(o, p, m, 64);
    forall x, k, w ensures Rnd(p, x, k, w) == Round(o, x, k, w) {
      SameRound(o, p, x, k, w);
    }
    SameRounds(o, p, Schedule(o, m), v, 64);
  }

  lemma {:induction false} SameSchedule<W>(o: Ops<W>, p: Ops<W>, m: seq<W>, n: nat)
    requires p == o.(ch := p.ch, maj := p.maj) && |m| == 16 <= n
    ensures ScheduleTo(p, m, n) == ScheduleTo(o, m, n)
  {
    if n > 16 {
      SameSchedule(o, p, m, n - 1);
    }
  }

  lemma {:induction false} SameRounds<W(!new)>(o: Ops<W>, p: Ops<W>, w: seq<W>, v: Vars<W>, t: nat)
    requires |w| == |o.k| == 64 && p.k == o.k && t <= 64
    requires forall x, k, y {:trigger Rnd(p, x, k, y)} :: Rnd(p, x, k, y) == Round(o, x, k, y)
    ensures RndRounds(p, w, v, t) == Rounds(o, w, v, t)
  {
    if t > 0 {
      SameRounds(o, p, w, v, t - 1);
    }
  }

  lemma SameRound<W(!new)>(o: Ops<W>, p: Ops<W>, v: Vars<W>, k: W, w: W)
    requires SameOps(o, p)
    ensures Rnd(p, v, k, w) == Round(o, v, k, w)
  {
    Regroup(o.add, v.h, o.bigSigma1(v.e), o.ch(v.e, v.f, v.g), k, w);
  }

  lemma Regroup<W(!new)>(add: (W, W) -> W, h: W, s: W, c: W, k: W, w: W)
    requires forall x, y :: add(x, y) == add(y, x)
    requires forall x, y, z :: add(add(x, y), z) == add(x, add(y, z))
    ensures add(add(add(add(h, s), c), k), w) == add(h, add(add(s, c), add(w, k)))
  {
    assert add(w, k) == add(k, w);
    assert add(add(h, s), c) == add(h, add(s, c));
    assert add(add(add(h, add(s, c)), k), w) == add(add(h, add(s, c)), add(k, w));
  }

  /** Slot of the `k`-th working variable after `j` rounds: each round moves
      every variable one slot down. */
  function Slot(j: nat, k: nat): (i: nat)
    requires k < 8
    ensures i < 8
  {
    if j == 0 then k else Slot(j - 1, if k == 0 then 7 else k - 1)
  }

  /** It is the index (64 + k - j) % 8 of the source. */
  lemma {:induction false} SlotIndex(j: nat, k: nat)
    requires j <= 16 && k < 8
    ensures Slot(j, k) == (64 + k - j) % 8
  {
    if j > 0 {
      SlotIndex(j - 1, if k == 0 then 7 else k - 1);
    }
  }

  /** The working variables as they lie in the array after `j` rounds. */
  function View<W>(s: seq<W>, j: nat): Vars<W>
    requires |s| == 8
  {
    Vars(s[Slot(j, 0)], s[Slot(j, 1)], s[Slot(j, 2)], s[Slot(j, 3)],
         s[Slot(j, 4)], s[Slot(j, 5)], s[Slot(j, 6)], s[Slot(j, 7)])
  }

  function AsVars<W>(s: seq<W>): Vars<W>
    requires |s| == 8
  {
    Vars(s[0], s[1], s[2], s[3], s[4], s[5], s[6], s[7])
  }

  /** Sixteen rounds bring every variable back to its own slot. */
  lemma ViewWhole<W>(s: seq<W>, j: nat)
    requires |s| == 8 && (j == 0 || j == 16)
    ensures View(s, j) == AsVars(s)
  {
    forall k: nat | k < 8 ensures Slot(j, k) == k {
      SlotIndex(j, k);
    }
  }

  /** After a round the slots of d and h hold new values, and the slot of h
      has become that of a. */
  lemma ViewShift<W>(s: seq<W>, j: nat, d: W, h: W)
    requires |s| == 8 && j < 16
    ensures var v := View(s, j);
            View(s[Slot(j, 3) := d][Slot(j, 7) := h], j + 1) == Vars(h, v.a, v.b, v.c, d, v.e, v.f, v.g)
  {
    SlotsDiffer(j, 3);
    SlotsDiffer(j, 7);
  }

  lemma SlotsDiffer(j: nat, k: nat)
    requires j <= 16 && k < 8
    ensures forall l: nat {:trigger Slot(j, l)} :: l < 8 && l != k ==> Slot(j, l) != Slot(j, k)
  {
    forall l: nat | l < 8 ensures Slot(j, l) == (64 + l - j) % 8 {
      SlotIndex(j, l);
    }
  }

  lemma SlotIndices(j: nat)
    requires j <= 16
    ensures Slot(j, 0) == (64 - j) % 8 && Slot(j, 1) == (65 - j) % 8 && Slot(j, 2) == (66 - j) % 8 &&
            Slot(j, 3) == (67 - j) % 8
    ensures Slot(j, 4) == (68 - j) % 8 && Slot(j, 5) == (69 - j) % 8 && Slot(j, 6) == (70 - j) % 8 &&
            Slot(j, 7) == (71 - j) % 8
  {
    forall k: nat | k < 8 ensures Slot(j, k) == (64 + k - j) % 8 {
      SlotIndex(j, k);
    }
  }

  /** RNDr: one round in place. */
  method RndR<W>(p: Ops<W>, S: array<W>, j: nat, k: W, w: W)
    requires S.Length == 8 && j < 16
    modifies S
    ensures View(S[..], j + 1) == Rnd(p, View(old(S[..]), j), k, w)
  {
    var a, b, c, d := (64 - j) % 8, (65 - j) % 8, (66 - j) % 8, (67 - j) % 8;
    var e, f, g, h := (68 - j) % 8, (69 - j) % 8, (70 - j) % 8, (71 - j) % 8;
    SlotIndices(j);
    ghost var s := S[..];
    SlotsDiffer(j, 3);
    SlotsDiffer(j, 7);
    S[h] := p.add(S[h], p.add(p.add(p.bigSigma1(S[e]), p.ch(S[e], S[f], S[g])), p.add(w, k)));
    S[d] := p.add(S[d], S[h]);
    S[h] := p.add(S[h], p.add(p.bigSigma0(S[a]), p.maj(S[a], S[b], S[c])));
    ViewShift(s, j, S[d], S[h]);
    assert S[..] == s[d := S[d]][h := S[h]];
  }

  /** SHA256_Transform on the decoded block `m`. */
  method Transform<W(0)>(p: Ops<W>, state: array<W>, m: seq<W>)
    requires state.Length == 8 && |m| == 16 && |p.k| == 64
    modifies state
    ensures AsVars(state[..]) == RndCompress(p, old(AsVars(state[..])), m)
  {
    var W := new W[64];
    for t := 0 to 16
      invariant forall u :: 0 <= u < t ==> W[u] == m[u]
      invariant state[..] == old(state[..])
    {
      W[t] := m[t];
    }
    var S := new W[8];
    for t := 0 to 8
      invariant forall u :: 0 <= u < t ==> S[u] == state[u]
      invariant state[..] == old(state[..]) && W[..16] == m
    {
      S[t] := state[t];
    }
    ghost var v, w := AsVars(state[..]), Schedule(p, m);
    assert S[..] == state[..];
    forall t | 0 <= t < 16 ensures W[t] == w[t] {
      ScheduleAt(p, m, 64, t);
      assert W[t] == W[..16][t];
    }
    forall t | 16 <= t < 64 ensures Follows(p, w, t) {
      ScheduleAt(p, m, 64, t);
    }
    MixAll(p, S, W, w, v);
    AddBack(p, state, S[..]);
  }

  predicate Follows<W(==)>(o: Ops<W>, w: seq<W>, t: nat)
    requires 16 <= t < |w|
  {
    w[t] == NextWord(o, w, t)
  }

  /** The main loop over a schedule `w`. */
  method MixAll<W>(p: Ops<W>, S: array<W>, W: array<W>, ghost w: seq<W>, ghost v: Vars<W>)
    requires S.Length == 8 && W.Length == |w| == |p.k| == 64 && S != W
    requires forall t :: 0 <= t < 16 ==> W[t] == w[t]
    requires forall t {:trigger Follows(p, w, t)} :: 16 <= t < 64 ==> Follows(p, w, t)
    requires AsVars(S[..]) == v
    modifies S, W
    ensures AsVars(S[..]) == RndRounds(p, w, v, 64)
  {
    var i := 0;
    while i < 64
      invariant i == 0 || i == 16 || i == 32 || i == 48
      invariant forall t :: 0 <= t < i + 16 ==> W[t] == w[t]
      invariant AsVars(S[..]) == RndRounds(p, w, v, i)
      decreases 64 - i
    {
      Mix(p, S, W, i, w, v);
      if i == 48 {
        break;
      }
      Extend(p, W, i, w);
      i := i + 16;
    }
  }

  /** `s` holds the working variables of `n` rounds, moved by `j` of them. */
  ghost predicate Holds<W>(p: Ops<W>, s: seq<W>, j: nat, w: seq<W>, v: Vars<W>, n: nat) {
    |s| == 8 && |w| == |p.k| == 64 && n <= 64 && View(s, j) == RndRounds(p, w, v, n)
  }

  /** Sixteen rounds.  The source unrolls them. */
  method Mix<W>(p: Ops<W>, S: array<W>, W: array<W>, i: nat, ghost w: seq<W>, ghost v: Vars<W>)
    requires S.Length == 8 && W.Length == |w| == |p.k| == 64 && S != W && i <= 48
    requires forall t :: 0 <= t < i + 16 ==> W[t] == w[t]
    requires AsVars(S[..]) == RndRounds(p, w, v, i)
    modifies S
    ensures AsVars(S[..]) == RndRounds(p, w, v, i + 16)
  {
    HoldsWhole(p, S[..], 0, w, v, i);
    var j := 0;
    while j < 16
      invariant j <= 16
      invariant Holds(p, S[..], j, w, v, i + j)
    {
      MixOne(p, S, W, i, j, w, v);
      j := j + 1;
    }
    HoldsWhole(p, S[..], 16, w, v, i + 16);
  }

  lemma HoldsWhole<W>(p: Ops<W>, s: seq<W>, j: nat, w: seq<W>, v: Vars<W>, n: nat)
    requires |s| == 8 && |w| == |p.k| == 64 && n <= 64 && (j == 0 || j == 16)
    ensures Holds(p, s, j, w, v, n) <==> AsVars(s) == RndRounds(p, w, v, n)
  {
    ViewWhole(s, j);
  }

  method MixOne<W>(p: Ops<W>, S: array<W>, W: array<W>, i: nat, j: nat, ghost w: seq<W>, ghost v: Vars<W>)
    requires S.Length == 8 && W.Length == |w| == |p.k| == 64 && S != W && i <= 48 && j < 16
    requires forall t :: 0 <= t < i + 16 ==> W[t] == w[t]
    requires Holds(p, S[..], j, w, v, i + j)
    modifies S
    ensures Holds(p, S[..], j + 1, w, v, i + j + 1)
  {
    RndR(p, S, j, p.k[i + j], W[i + j]);
  }

  /** The next sixteen words of the message schedule, also unrolled. */
  method Extend<W>(p: Ops<W>, W: array<W>, i: nat, ghost w: seq<W>)
    requires W.Length == |w| == 64 && i <= 32
    requires forall t :: 0 <= t < i + 16 ==> W[t] == w[t]
    requires forall t {:trigger Follows(p, w, t)} :: 16 <= t < 64 ==> Follows(p, w, t)
    modifies W
    ensures forall t :: 0 <= t < i + 32 ==> W[t] == w[t]
  {
    for j := 0 to 16
      invariant forall t :: 0 <= t < i + j + 16 ==> W[t] == w[t]
    {
      var n := i + j;
      assert Follows(p, w, n + 16);
      W[n + 16] := p.add(p.add(p.add(p.smallSigma1(W[n + 14]), W[n + 9]), p.smallSigma0(W[n + 1])), W[n]);
    }
  }

  /** The last step: the working variables are added to the state. */
  method AddBack<W>(p: Ops<W>, state: array<W>, S: seq<W>)
    requires state.Length == 8 && |S| == 8
    modifies state
    ensures forall k :: 0 <= k < 8 ==> state[k] == p.add(old(state[k]), S[k])
  {
    for n := 0 to 8
      invariant forall k :: 0 <= k < 8 ==> state[k] == if k < n then p.add(old(state[k]), S[k]) else old(state[k])
    {
      state[n] := p.add(state[n], S[n]);
    }
  }
}
