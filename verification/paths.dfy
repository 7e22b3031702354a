/** Paths and cycles in a finite graph.  An order in which every link falls
    excludes cycles, a graph without one has such an order, and added links
    close a cycle exactly when one is led back over. */
module Paths {

  /** The nodes each node leads to. */
  type Links<T> = map<T, set<T>>

  predicate Linked<T(==)>(links: Links<T>, s: T, t: T) {
    s in links && t in links[s]
  }

  predicate IsPath<T(==)>(links: Links<T>, p: seq<T>) {
    forall i :: 0 <= i < |p| - 1 ==> Linked(links, p[i], p[i + 1])
  }

  ghost predicate OnCycle<T(!new)>(links: Links<T>, s: T) {
    exists p :: |p| >= 2 && p[0] == s && p[|p| - 1] == s && IsPath(links, p)
  }

  ghost predicate HasCycle<T(!new)>(links: Links<T>) {
    exists s :: OnCycle(links, s)
  }

  /** `rank` decreases along every link between nodes of the graph. */
  ghost predicate Falls<T(!new)>(links: Links<T>, rank: map<T, nat>) {
    forall s, t {:trigger Linked(links, s, t)} :: Linked(links, s, t) && t in links ==>
      s in rank && t in rank && rank[t] < rank[s]
  }

  lemma {:induction false} RankFalls<T(!new)>(links: Links<T>, rank: map<T, nat>, p: seq<T>)
    requires Falls(links, rank) && |p| >= 2 && IsPath(links, p) && p[|p| - 1] in links
    ensures p[0] in rank && p[|p| - 1] in rank && rank[p[|p| - 1]] < rank[p[0]]
  {
    assert Linked(links, p[0], p[1]);
    if |p| > 2 {
      forall i | 0 <= i < |p[1..]| - 1 ensures Linked(links, p[1..][i], p[1..][i + 1]) {
        assert Linked(links, p[i + 1], p[i + 2]);
      }
      assert Linked(links, p[1], p[2]);
      RankFalls(links, rank, p[1..]);
    }
  }

  lemma RankedHasNoCycle<T(!new)>(links: Links<T>, rank: map<T, nat>)
    requires Falls(links, rank)
    ensures !HasCycle(links)
  {
    if HasCycle(links) {
      var s :| OnCycle(links, s);
      var p :| |p| >= 2 && p[0] == s && p[|p| - 1] == s && IsPath(links, p);
      assert Linked(links, p[0], p[1]);
      RankFalls(links, rank, p);
    }
  }

  lemma {:induction false} DistinctFits<T>(p: seq<T>, all: set<T>)
    requires forall i :: 0 <= i < |p| ==> p[i] in all
    requires forall i, j :: 0 <= i < j < |p| ==> p[i] != p[j]
    ensures |p| <= |all|
  {
    if p != [] {
      DistinctFits(p[1..], all - {p[0]});
    }
  }

  /** Going on from a path one meets a node that leads to none of `all`. */
  lemma {:induction false} Walk<T(!new)>(links: Links<T>, all: set<T>, p: seq<T>) returns (s: T)
    requires !HasCycle(links) && p != [] && IsPath(links, p)
    requires forall i :: 0 <= i < |p| ==> p[i] in all
    requires forall i, j :: 0 <= i < j < |p| ==> p[i] != p[j]
    ensures s in all && forall t :: t in all ==> !Linked(links, s, t)
    decreases |all| - |p|
  {
    s := p[|p| - 1];
    DistinctFits(p, all);
    if t :| t in all && Linked(links, s, t) {
      var q := p + [t];
      assert IsPath(links, q) by {
        forall i | 0 <= i < |q| - 1 ensures Linked(links, q[i], q[i + 1]) {
          if i < |p| - 1 { assert Linked(links, p[i], p[i + 1]); }
        }
      }
      if i :| 0 <= i < |p| && p[i] == t {
        Closes(links, q, i);
      }
      DistinctFits(q, all);
      s := Walk(links, all, q);
    }
  }

  lemma Closes<T(!new)>(links: Links<T>, q: seq<T>, i: nat)
    requires IsPath(links, q) && i < |q| - 1 && q[i] == q[|q| - 1]
    ensures HasCycle(links)
  {
    var c := q[i..];
    forall k | 0 <= k < |c| - 1 ensures Linked(links, c[k], c[k + 1]) {
      assert Linked(links, q[i + k], q[i + k + 1]);
    }
    assert |c| >= 2 && c[0] == c[|c| - 1] && IsPath(links, c);
    assert OnCycle(links, c[0]);
  }

  /** The nodes `all` in an order: those that lead nowhere come first. */
  lemma {:induction false} OrderOf<T(!new)>(links: Links<T>, all: set<T>) returns (r: map<T, nat>)
    requires !HasCycle(links)
    ensures r.Keys == all
    ensures forall s, t {:trigger Linked(links, s, t)} :: s in all && t in all && Linked(links, s, t) ==> r[t] < r[s]
    decreases |all|
  {
    r := map[];
    if all != {} {
      var x :| x in all;
      var s := Walk(links, all, [x]);
      var rest := OrderOf(links, all - {s});
      r := map t | t in all :: if t == s then 0 else rest[t] + 1;
    }
  }

  /** A finite graph has an order along which all its links fall exactly if
      it has no cycle. */
  lemma OrderIffNoCycle<T(!new)>(links: Links<T>)
    ensures (exists r: map<T, nat> :: r.Keys == links.Keys && Falls(links, r)) <==> !HasCycle(links)
  {
    if !HasCycle(links) {
      var r := OrderOf(links, links.Keys);
      assert r.Keys == links.Keys && Falls(links, r);
    } else if r: map<T, nat> :| r.Keys == links.Keys && Falls(links, r) {
      RankedHasNoCycle(links, r);
    }
  }

  // ----- links added to a graph without a cycle -----

  ghost predicate LeadsTo<T(!new)>(links: Links<T>, s: T, t: T) {
    exists p :: |p| >= 1 && p[0] == s && p[|p| - 1] == t && IsPath(links, p)
  }

  lemma JoinPaths<T>(links: Links<T>, p: seq<T>, q: seq<T>)
    requires |p| >= 1 && |q| >= 1 && p[|p| - 1] == q[0] && IsPath(links, p) && IsPath(links, q)
    ensures IsPath(links, p + q[1..])
  {
    var r := p + q[1..];
    forall i | 0 <= i < |r| - 1 ensures Linked(links, r[i], r[i + 1]) {
      if i < |p| - 1 {
        assert Linked(links, p[i], p[i + 1]);
      } else {
        assert Linked(links, q[i - (|p| - 1)], q[i - (|p| - 1) + 1]);
      }
    }
  }

  lemma PartOfPath<T>(links: Links<T>, p: seq<T>, lo: nat, hi: nat)
    requires lo <= hi <= |p| && IsPath(links, p)
    ensures IsPath(links, p[lo..hi])
  {
    forall i | 0 <= i < hi - lo - 1 ensures Linked(links, p[lo..hi][i], p[lo..hi][i + 1]) {
      assert Linked(links, p[lo + i], p[lo + i + 1]);
    }
  }

  /** The rest of a cycle leads back over any of its links. */
  lemma CycleLeadsBack<T(!new)>(links: Links<T>, p: seq<T>, i: nat)
    requires |p| >= 2 && p[0] == p[|p| - 1] && IsPath(links, p) && i < |p| - 1
    ensures LeadsTo(links, p[i + 1], p[i])
  {
    var a, b := p[i + 1..|p|], p[0..i + 1];
    PartOfPath(links, p, i + 1, |p|);
    PartOfPath(links, p, 0, i + 1);
    JoinPaths(links, a, b);
    var r := a + b[1..];
    assert r[0] == p[i + 1] && r[|r| - 1] == p[i];
  }

  lemma BackMakesCycle<T(!new)>(links: Links<T>, s: T, t: T)
    requires Linked(links, s, t) && LeadsTo(links, t, s)
    ensures HasCycle(links)
  {
    var p :| |p| >= 1 && p[0] == t && p[|p| - 1] == s && IsPath(links, p);
    assert IsPath(links, [s, t]);
    JoinPaths(links, [s, t], p);
    var r := [s, t] + p[1..];
    assert r[0] == s && r[|r| - 1] == s;
    assert OnCycle(links, s);
  }

  /** A graph without a cycle gets one exactly if an added link is led back
      over. */
  lemma AddedCycleIff<T(!new)>(base: Links<T>, links: Links<T>)
    requires !HasCycle(base)
    ensures HasCycle(links) <==> exists s, t :: Linked(links, s, t) && !Linked(base, s, t) && LeadsTo(links, t, s)
  {
    if HasCycle(links) {
      var s :| OnCycle(links, s);
      var p :| |p| >= 2 && p[0] == s && p[|p| - 1] == s && IsPath(links, p);
      if IsPath(base, p) {
        assert OnCycle(base, s);
      }
      var i :| 0 <= i < |p| - 1 && !Linked(base, p[i], p[i + 1]);
      assert Linked(links, p[i], p[i + 1]);
      CycleLeadsBack(links, p, i);
    }
    if s, t :| Linked(links, s, t) && !Linked(base, s, t) && LeadsTo(links, t, s) {
      BackMakesCycle(links, s, t);
    }
  }
}
