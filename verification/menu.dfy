/** The rewiring of the menu tree (menu_finalize in scripts/config/menu.c):
    automatic submenus and the flattening of blocks without a prompt. */
module Menus {

  /** A node of the menu tree.  `hasPrompt` tells a prompt with a text. */
  class Menu {
    var parent: Menu?
    var list: Menu?
    var next: Menu?
    const hasSym: bool
    const hasPrompt: bool

    constructor (hasSym: bool, hasPrompt: bool)
      ensures this.hasSym == hasSym && this.hasPrompt == hasPrompt
      ensures parent == null && list == null && next == null
    {
      this.hasSym, this.hasPrompt := hasSym, hasPrompt;
      parent, list, next := null, null, null;
    }
  }

  /** A list of sibling trees: the first node, its children, its siblings. */
  datatype Forest = Nil | Cons(m: Menu, kids: Forest, rest: Forest)

  // ----- forests -----

  ghost function Nodes(f: Forest): set<Menu> {
    match f
    case Nil => {}
    case Cons(m, k, r) => {m} + Nodes(k) + Nodes(r)
  }

  /** The nodes in the order in which a menu shows them. */
  ghost function Pre(f: Forest): seq<Menu> {
    match f
    case Nil => []
    case Cons(m, k, r) => [m] + Pre(k) + Pre(r)
  }

  ghost function Count(f: Forest): nat {
    match f
    case Nil => 0
    case Cons(_, k, r) => 1 + Count(k) + Count(r)
  }

  ghost function Append(f: Forest, g: Forest): (h: Forest)
    ensures Count(h) == Count(f) + Count(g)
    ensures Nodes(h) == Nodes(f) + Nodes(g)
    ensures Pre(h) == Pre(f) + Pre(g)
    ensures g == Nil ==> h == f
  {
    match f
    case Nil => g
    case Cons(m, k, r) => Cons(m, k, Append(r, g))
  }

  lemma {:induction false} AppendAssoc(f: Forest, g: Forest, h: Forest)
    ensures Append(Append(f, g), h) == Append(f, Append(g, h))
  {
    if f.Cons? {
      AppendAssoc(f.rest, g, h);
    }
  }

  /** No node occurs twice. */
  ghost predicate Distinct(f: Forest) {
    match f
    case Nil => true
    case Cons(m, k, r) =>
      m !in Nodes(k) && m !in Nodes(r) && Nodes(k) !! Nodes(r) && Distinct(k) && Distinct(r)
  }

  lemma {:induction false} DistinctAppend(f: Forest, g: Forest)
    ensures Distinct(Append(f, g)) <==> Distinct(f) && Distinct(g) && Nodes(f) !! Nodes(g)
  {
    if f.Cons? {
      DistinctAppend(f.rest, g);
    }
  }

  // ----- what finalizing does to a forest -----

  type Test = (Menu, Menu) -> bool

  /** `menu_finalize` of the first node of a list of siblings.  It may take
      siblings into its submenu, so the whole list is its argument. */
  ghost function Finalize(c: Forest, accept: Test): (r: Forest)
    requires c.Cons?
    ensures r.Cons? && r.m == c.m && Count(r) == Count(c)
    decreases Count(c), 1
  {
    if c.kids.Cons? then Cons(c.m, Flatten(FinalizeAll(c.kids, accept)), c.rest)
    else if c.m.hasSym then
      var (moved, rest) := Adopt(c.m, c.rest, accept);
      Cons(c.m, Flatten(moved), rest)
    else c
  }

  /** Every child in turn; a child may take the ones after it. */
  ghost function FinalizeAll(f: Forest, accept: Test): (r: Forest)
    ensures Count(r) == Count(f)
    decreases Count(f), 2
  {
    match f
    case Nil => Nil
    case Cons(_, _, _) =>
      var g := Finalize(f, accept);
      Cons(g.m, g.kids, FinalizeAll(g.rest, accept))
  }

  /** The siblings accepted for the submenu of `m`, finalized, and the ones
      from the first refused sibling on. */
  ghost function Adopt(m: Menu, f: Forest, accept: Test): (r: (Forest, Forest))
    ensures Count(r.0) + Count(r.1) == Count(f)
    decreases Count(f), 2
  {
    if f.Nil? || !accept(m, f.m) then (Nil, f)
    else
      var g := Finalize(f, accept);
      var (moved, rest) := Adopt(m, g.rest, accept);
      (Cons(g.m, g.kids, moved), rest)
  }

  /** The children of a node without a prompt move up behind it. */
  ghost function Lifted(f: Forest): (r: Forest)
    requires f.Cons?
    ensures r.Cons? && r.m == f.m && Count(r) == Count(f)
  {
    if f.kids.Cons? && !f.m.hasPrompt then Cons(f.m, Nil, Append(f.kids, f.rest)) else f
  }

  /** The same for every node of a list, the ones that moved up included. */
  ghost function Flatten(f: Forest): (r: Forest)
    ensures Count(r) == Count(f)
    decreases Count(f)
  {
    if f.Nil? then Nil
    else
      var g := Lifted(f);
      Cons(g.m, g.kids, Flatten(g.rest))
  }

  // ----- the order in which nodes are finalized -----

  ghost function Visits(c: Forest, accept: Test): seq<Menu>
    requires c.Cons?
    decreases Count(c), 1
  {
    if c.kids.Cons? then [c.m] + VisitsAll(c.kids, accept)
    else if c.m.hasSym then [c.m] + VisitsAdopt(c.m, c.rest, accept)
    else [c.m]
  }

  ghost function VisitsAll(f: Forest, accept: Test): seq<Menu>
    decreases Count(f), 2
  {
    if f.Nil? then [] else Visits(f, accept) + VisitsAll(Finalize(f, accept).rest, accept)
  }

  ghost function VisitsAdopt(m: Menu, f: Forest, accept: Test): seq<Menu>
    decreases Count(f), 2
  {
    if f.Nil? || !accept(m, f.m) then []
    else Visits(f, accept) + VisitsAdopt(m, Finalize(f, accept).rest, accept)
  }

  /** Every node of the resulting tree is finalized, and each as often as it
      occurs: once. */
  lemma {:induction false} VisitsOnce(c: Forest, accept: Test)
    requires c.Cons?
    ensures multiset(Visits(c, accept)) == multiset([c.m] + Pre(Finalize(c, accept).kids))
    decreases Count(c), 1
  {
    if c.kids.Cons? {
      VisitsAllOnce(c.kids, accept);
      FlattenPre(FinalizeAll(c.kids, accept));
    } else if c.m.hasSym {
      VisitsAdoptOnce(c.m, c.rest, accept);
      FlattenPre(Adopt(c.m, c.rest, accept).0);
    }
  }

  lemma {:induction false} VisitsAllOnce(f: Forest, accept: Test)
    ensures multiset(VisitsAll(f, accept)) == multiset(Pre(FinalizeAll(f, accept)))
    decreases Count(f), 2
  {
    if f.Cons? {
      VisitsOnce(f, accept);
      VisitsAllOnce(Finalize(f, accept).rest, accept);
    }
  }

  lemma {:induction false} VisitsAdoptOnce(m: Menu, f: Forest, accept: Test)
    ensures multiset(VisitsAdopt(m, f, accept)) == multiset(Pre(Adopt(m, f, accept).0))
    decreases Count(f), 2
  {
    if f.Cons? && accept(m, f.m) {
      VisitsOnce(f, accept);
      VisitsAdoptOnce(m, Finalize(f, accept).rest, accept);
    }
  }

  // ----- the order of the nodes does not change -----

  lemma {:induction false} FlattenPre(f: Forest)
    ensures Pre(Flatten(f)) == Pre(f) && Nodes(Flatten(f)) == Nodes(f)
    decreases Count(f)
  {
    if f.Cons? {
      if f.kids.Cons? && !f.m.hasPrompt {
        FlattenPre(Append(f.kids, f.rest));
      } else {
        FlattenPre(f.rest);
      }
    }
  }

  lemma {:induction false} FinalizePre(c: Forest, accept: Test)
    requires c.Cons?
    ensures Pre(Finalize(c, accept)) == Pre(c) && Nodes(Finalize(c, accept)) == Nodes(c)
    decreases Count(c), 1
  {
    if c.kids.Cons? {
      FinalizeAllPre(c.kids, accept);
      FlattenPre(FinalizeAll(c.kids, accept));
    } else if c.m.hasSym {
      AdoptPre(c.m, c.rest, accept);
      FlattenPre(Adopt(c.m, c.rest, accept).0);
    }
  }

  lemma {:induction false} FinalizeAllPre(f: Forest, accept: Test)
    ensures Pre(FinalizeAll(f, accept)) == Pre(f) && Nodes(FinalizeAll(f, accept)) == Nodes(f)
    decreases Count(f), 2
  {
    if f.Cons? {
      FinalizePre(f, accept);
      FinalizeAllPre(Finalize(f, accept).rest, accept);
    }
  }

  lemma {:induction false} AdoptPre(m: Menu, f: Forest, accept: Test)
    ensures var (moved, rest) := Adopt(m, f, accept);
            Pre(moved) + Pre(rest) == Pre(f) && Nodes(moved) + Nodes(rest) == Nodes(f)
    decreases Count(f), 2
  {
    if f.Cons? && accept(m, f.m) {
      var g := Finalize(f, accept);
      FinalizePre(f, accept);
      AdoptPre(m, g.rest, accept);
      var (moved, rest) := Adopt(m, g.rest, accept);
      assert Pre(f) == [g.m] + Pre(g.kids) + (Pre(moved) + Pre(rest));
    }
  }

  lemma CardUnion(a: set<Menu>, b: set<Menu>)
    ensures |a + b| <= |a| + |b|
    ensures |a + b| == |a| + |b| <==> a !! b
  {
    assert |a + b| + |a * b| == |a| + |b|;
    if !(a !! b) {
      var x :| x in a && x in b;
      assert x in a * b;
    } else {
      assert a * b == {};
    }
  }

  /** A forest in which no node occurs twice has as many nodes as entries. */
  lemma {:induction false} DistinctCount(f: Forest)
    ensures |Nodes(f)| <= Count(f)
    ensures Distinct(f) <==> |Nodes(f)| == Count(f)
  {
    if f.Cons? {
      DistinctCount(f.kids);
      DistinctCount(f.rest);
      var below := Nodes(f.kids) + Nodes(f.rest);
      CardUnion(Nodes(f.kids), Nodes(f.rest));
      CardUnion({f.m}, below);
      assert Nodes(f) == {f.m} + below;
      assert {f.m} !! below <==> f.m !in Nodes(f.kids) && f.m !in Nodes(f.rest);
    }
  }

  lemma FinalizeDistinct(c: Forest, accept: Test)
    requires c.Cons? && Distinct(c)
    ensures Distinct(Finalize(c, accept)) && Nodes(Finalize(c, accept)) == Nodes(c)
  {
    FinalizePre(c, accept);
    DistinctCount(c);
    DistinctCount(Finalize(c, accept));
  }

  lemma LiftedDistinct(f: Forest)
    requires f.Cons? && Distinct(f)
    ensures Distinct(Lifted(f)) && Nodes(Lifted(f)) == Nodes(f)
  {
    DistinctCount(f);
    DistinctCount(Lifted(f));
  }

  lemma FinalizeAllDistinct(f: Forest, accept: Test)
    requires Distinct(f)
    ensures Distinct(FinalizeAll(f, accept)) && Nodes(FinalizeAll(f, accept)) == Nodes(f)
  {
    FinalizeAllPre(f, accept);
    DistinctCount(f);
    DistinctCount(FinalizeAll(f, accept));
  }

  lemma AdoptDistinct(m: Menu, f: Forest, accept: Test)
    requires Distinct(f)
    ensures var (moved, rest) := Adopt(m, f, accept);
            Distinct(moved) && Distinct(rest) && Nodes(moved) !! Nodes(rest) && Nodes(moved) + Nodes(rest) == Nodes(f)
  {
    var (moved, rest) := Adopt(m, f, accept);
    AdoptPre(m, f, accept);
    DistinctCount(f);
    DistinctCount(Append(moved, rest));
    DistinctAppend(moved, rest);
  }

  // ----- the shape of the result -----

  /** In a list of siblings and everything below, only nodes with a prompt
      have children. */
  ghost predicate Flat(f: Forest) {
    f.Cons? ==> (f.kids.Cons? ==> f.m.hasPrompt) && Flat(f.kids) && Flat(f.rest)
  }

  /** The same with the siblings themselves exempted. */
  ghost predicate FlatBelow(f: Forest) {
    f.Cons? ==> Flat(f.kids) && FlatBelow(f.rest)
  }

  lemma {:induction false} FlattenFlat(f: Forest)
    requires FlatBelow(f)
    ensures Flat(Flatten(f))
    decreases Count(f)
  {
    if f.Cons? {
      if f.kids.Cons? && !f.m.hasPrompt {
        FlatAppend(f.kids, f.rest);
        FlattenFlat(Append(f.kids, f.rest));
      } else {
        FlattenFlat(f.rest);
      }
    }
  }

  lemma {:induction false} FlatAppend(f: Forest, g: Forest)
    requires Flat(f) && FlatBelow(g)
    ensures FlatBelow(Append(f, g))
  {
    if f.Cons? {
      FlatAppend(f.rest, g);
    }
  }

  /** Everything below a finalized node is flat. */
  lemma {:induction false} FinalizeFlat(c: Forest, accept: Test)
    requires c.Cons?
    ensures Flat(Finalize(c, accept).kids)
    decreases Count(c), 1
  {
    if c.kids.Cons? {
      FinalizeAllFlat(c.kids, accept);
      FlattenFlat(FinalizeAll(c.kids, accept));
    } else if c.m.hasSym {
      AdoptFlat(c.m, c.rest, accept);
      FlattenFlat(Adopt(c.m, c.rest, accept).0);
    }
  }

  lemma {:induction false} FinalizeAllFlat(f: Forest, accept: Test)
    ensures FlatBelow(FinalizeAll(f, accept))
    decreases Count(f), 2
  {
    if f.Cons? {
      FinalizeFlat(f, accept);
      FinalizeAllFlat(Finalize(f, accept).rest, accept);
    }
  }

  lemma {:induction false} AdoptFlat(m: Menu, f: Forest, accept: Test)
    ensures FlatBelow(Adopt(m, f, accept).0)
    decreases Count(f), 2
  {
    if f.Cons? && accept(m, f.m) {
      FinalizeFlat(f, accept);
      AdoptFlat(m, Finalize(f, accept).rest, accept);
    }
  }

  /** The siblings of a list, without what is below them. */
  ghost function Tops(f: Forest): set<Menu> {
    match f
    case Nil => {}
    case Cons(m, _, r) => {m} + Tops(r)
  }

  /** A submenu takes accepted siblings only, and as many as there are. */
  lemma {:induction false} AdoptMaximal(m: Menu, f: Forest, accept: Test)
    ensures var (moved, rest) := Adopt(m, f, accept);
            (forall x :: x in Tops(moved) ==> accept(m, x)) && (rest.Cons? ==> !accept(m, rest.m))
    decreases Count(f)
  {
    if f.Cons? && accept(m, f.m) {
      AdoptMaximal(m, Finalize(f, accept).rest, accept);
    }
  }

  /** Only a symbol without children takes siblings, and only what had children
      or is a symbol has some afterwards. */
  lemma WhoAdopts(c: Forest, accept: Test)
    requires c.Cons?
    ensures c.kids.Cons? || !c.m.hasSym ==> Finalize(c, accept).rest == c.rest
    ensures Finalize(c, accept).kids.Cons? ==> c.kids.Cons? || c.m.hasSym
    ensures c.kids.Nil? && c.m.hasSym && c.rest.Cons? && accept(c.m, c.rest.m) ==> Finalize(c, accept).kids.Cons?
  {
    if c.kids.Nil? && c.m.hasSym {
      var moved := Adopt(c.m, c.rest, accept).0;
      assert c.rest.Cons? && accept(c.m, c.rest.m) ==> moved.Cons?;
      assert moved.Cons? ==> Flatten(moved).Cons?;
    }
  }

  // ----- forests in memory -----

  /** The links from `head` up to `tail` hold the forest, with parent `p`. */
  ghost predicate Seg(p: Menu?, head: Menu?, f: Forest, tail: Menu?)
    reads Nodes(f)
    decreases f
  {
    match f
    case Nil => head == tail
    case Cons(m, k, r) =>
      head == m && m.parent == p && Seg(m, m.list, k, null) && Seg(p, m.next, r, tail)
  }

  lemma {:induction false} SegJoin(p: Menu?, head: Menu?, f: Forest, mid: Menu?, g: Forest, tail: Menu?)
    requires Seg(p, head, f, mid) && Seg(p, mid, g, tail)
    ensures Seg(p, head, Append(f, g), tail)
  {
    if f.Cons? {
      SegJoin(p, f.m.next, f.rest, mid, g, tail);
    }
  }

  /** A segment with its last tree taken off. */
  ghost function Front(f: Forest): Forest
    requires f.Cons?
  {
    if f.rest.Nil? then Nil else Cons(f.m, f.kids, Front(f.rest))
  }

  ghost function Last(f: Forest): (r: Forest)
    requires f.Cons?
    ensures r.Cons? && r.rest.Nil? && r.m in Nodes(f) && Nodes(r) <= Nodes(f)
  {
    if f.rest.Nil? then f else Last(f.rest)
  }

  lemma {:induction false} FrontLast(f: Forest)
    requires f.Cons?
    ensures f == Append(Front(f), Last(f))
  {
    if f.rest.Cons? {
      FrontLast(f.rest);
    }
  }

  lemma {:induction false} SegSplit(p: Menu?, head: Menu?, f: Forest, tail: Menu?)
    requires f.Cons? && Seg(p, head, f, tail)
    ensures Seg(p, head, Front(f), Last(f).m) && Seg(p, Last(f).m, Last(f), tail)
  {
    if f.rest.Cons? {
      SegSplit(p, f.m.next, f.rest, tail);
    }
  }

  ghost function One(m: Menu, k: Forest): Forest {
    Cons(m, k, Nil)
  }

  /** A segment ending in `mid` goes on with the tree at `mid`. */
  lemma SegExtend(p: Menu?, head: Menu?, f: Forest, mid: Menu, k: Forest, tail: Menu?)
    requires Seg(p, head, f, mid) && mid.parent == p && mid.next == tail && Seg(mid, mid.list, k, null)
    ensures Seg(p, head, Append(f, One(mid, k)), tail)
  {
    SegJoin(p, head, f, mid, One(mid, k), tail);
  }

  /** A list of siblings is walked: `done` lies behind, `todo` ahead. */
  ghost predicate Walked(all: set<Menu>, done: Forest, todo: Forest) {
    Distinct(todo) && Nodes(done) !! Nodes(todo) && Nodes(done) + Nodes(todo) == all
  }

  /** One step over the first tree of `g`, which took the place of `todo`. */
  lemma WalkStep(all: set<Menu>, done: Forest, todo: Forest, g: Forest, h: Forest)
    requires Walked(all, done, todo) && g.Cons? && Distinct(g) && Nodes(g) == Nodes(todo)
    ensures Walked(all, Append(done, One(g.m, g.kids)), g.rest)
    ensures Append(Append(done, One(g.m, g.kids)), h) == Append(done, Cons(g.m, g.kids, h))
  {
    WalkNodes(all, done, g);
    AppendAssoc(done, One(g.m, g.kids), h);
  }

  lemma WalkNodes(all: set<Menu>, done: Forest, g: Forest)
    requires g.Cons? && Walked(all, done, g)
    ensures Walked(all, Append(done, One(g.m, g.kids)), g.rest)
  {
    assert Nodes(One(g.m, g.kids)) == {g.m} + Nodes(g.kids);
    assert Nodes(g) == Nodes(One(g.m, g.kids)) + Nodes(g.rest);
  }

  /** The accepted first sibling joins the ones moved before it. */
  lemma AdoptStep(m: Menu, moved: Forest, todo: Forest, accept: Test, visited: seq<Menu>)
    requires todo.Cons? && accept(m, todo.m)
    ensures var g := Finalize(todo, accept);
            Append(moved, Adopt(m, todo, accept).0)
            == Append(Append(moved, One(g.m, g.kids)), Adopt(m, g.rest, accept).0) &&
            Adopt(m, todo, accept).1 == Adopt(m, g.rest, accept).1 &&
            visited + VisitsAdopt(m, todo, accept) == (visited + Visits(todo, accept)) + VisitsAdopt(m, g.rest, accept)
  {
    var g := Finalize(todo, accept);
    AppendAssoc(moved, One(g.m, g.kids), Adopt(m, g.rest, accept).0);
  }

  lemma KidsStep(todo: Forest, accept: Test, visited: seq<Menu>)
    requires todo.Cons?
    ensures visited + VisitsAll(todo, accept)
            == (visited + Visits(todo, accept)) + VisitsAll(Finalize(todo, accept).rest, accept)
  {
  }

  // ----- menu_finalize -----

  // The methods take a set `all` around the nodes of their forest, because the
  // members of a set that is passed in are known to be allocated, which the
  // nodes inside a ghost forest are not.

  /** Finalize the first node `m` of the siblings `c` with parent `p`.
      `visited` lists the nodes finalized, in order. */
  method FinalizeNode(m: Menu, accept: Test, ghost p: Menu?, ghost c: Forest, ghost all: set<Menu>)
    returns (ghost visited: seq<Menu>)
    requires c.Cons? && Seg(p, m, c, null) && Distinct(c) && Nodes(c) <= all
    modifies Nodes(c)
    ensures Seg(p, m, Finalize(c, accept), null)
    ensures visited == Visits(c, accept)
    decreases Count(c), 5
  {
    if m.list != null {
      visited := FinalizeBranch(m, accept, c.kids, all);
    } else if m.hasSym {
      visited := FinalizeLeaf(m, accept, p, c.rest, all);
    } else {
      visited := [m];
    }
  }

  /** A node with children. */
  method FinalizeBranch(m: Menu, accept: Test, ghost k: Forest, ghost all: set<Menu>)
    returns (ghost visited: seq<Menu>)
    requires Seg(m, m.list, k, null) && Distinct(k) && m !in Nodes(k) && Nodes(k) <= all
    modifies Nodes(k), m`list
    ensures Seg(m, m.list, Flatten(FinalizeAll(k, accept)), null)
    ensures visited == [m] + VisitsAll(k, accept)
    decreases Count(k), 7
  {
    visited := FinalizeKids(m, accept, k, all);
    visited := [m] + visited;
    FinalizeAllDistinct(k, accept);
    FlattenKids(m, FinalizeAll(k, accept), all);
  }

  /** The recursion over the children. */
  method FinalizeKids(m: Menu, accept: Test, ghost k: Forest, ghost all: set<Menu>) returns (ghost visited: seq<Menu>)
    requires Seg(m, m.list, k, null) && Distinct(k) && m !in Nodes(k) && Nodes(k) <= all
    modifies Nodes(k)
    ensures Seg(m, m.list, FinalizeAll(k, accept), null)
    ensures visited == VisitsAll(k, accept)
    decreases Count(k), 6
  {
    var menu := m.list;
    ghost var done, todo := Nil, k;
    visited := [];
    while menu != null
      invariant Seg(m, m.list, done, menu) && Seg(m, menu, todo, null)
      invariant Walked(Nodes(k), done, todo) && Count(todo) <= Count(k)
      invariant FinalizeAll(k, accept) == Append(done, FinalizeAll(todo, accept))
      invariant visited + VisitsAll(todo, accept) == VisitsAll(k, accept)
      decreases Count(todo)
    {
      FinalizeDistinct(todo, accept);
      ghost var g := Finalize(todo, accept);
      ghost var below := FinalizeNode(menu, accept, m, todo, all);
      KidsStep(todo, accept, visited);
      visited := visited + below;
      SegExtend(m, m.list, done, menu, g.kids, menu.next);
      WalkStep(Nodes(k), done, todo, g, FinalizeAll(g.rest, accept));
      done, todo := Append(done, One(menu, g.kids)), g.rest;
      menu := menu.next;
    }
  }

  /** A symbol without children. */
  method FinalizeLeaf(m: Menu, accept: Test, ghost p: Menu?, ghost r: Forest, ghost all: set<Menu>)
    returns (ghost visited: seq<Menu>)
    requires Seg(p, m.next, r, null) && Distinct(r) && m !in Nodes(r) && m.list == null && Nodes(r) <= all
    modifies Nodes(r), m`list, m`next
    ensures Seg(m, m.list, Flatten(Adopt(m, r, accept).0), null) && Seg(p, m.next, Adopt(m, r, accept).1, null)
    ensures visited == [m] + VisitsAdopt(m, r, accept)
    decreases Count(r), 9
  {
    visited := MakeSubmenu(m, accept, p, r, all);
    visited := [m] + visited;
    AdoptDistinct(m, r, accept);
    FlattenKids(m, Adopt(m, r, accept).0, all);
  }

  /** The automatic submenu: accepted siblings become children. */
  method MakeSubmenu(m: Menu, accept: Test, ghost p: Menu?, ghost r: Forest, ghost all: set<Menu>)
    returns (ghost visited: seq<Menu>)
    requires Seg(p, m.next, r, null) && Distinct(r) && m !in Nodes(r) && m.list == null && Nodes(r) <= all
    modifies Nodes(r), m`list, m`next
    ensures Seg(m, m.list, Adopt(m, r, accept).0, null) && Seg(p, m.next, Adopt(m, r, accept).1, null)
    ensures visited == VisitsAdopt(m, r, accept)
    decreases Count(r), 8
  {
    var last, stop;
    ghost var moved;
    visited, last, stop, moved := AdoptSiblings(m, accept, p, r, all);
    AdoptDistinct(m, r, accept);
    if last != null {
      CutAfter(m, last, moved, stop);
    }
  }

  /** The loop over the siblings, up to `stop`; `last` is the last accepted. */
  method AdoptSiblings(m: Menu, accept: Test, ghost p: Menu?, ghost r: Forest, ghost all: set<Menu>)
    returns (ghost visited: seq<Menu>, last: Menu?, stop: Menu?, ghost moved: Forest)
    requires Seg(p, m.next, r, null) && Distinct(r) && m !in Nodes(r) && Nodes(r) <= all
    modifies Nodes(r)
    ensures moved == Adopt(m, r, accept).0
    ensures Seg(m, m.next, moved, stop) && Seg(p, stop, Adopt(m, r, accept).1, null)
    ensures last == if moved.Nil? then null else Last(moved).m
    ensures visited == VisitsAdopt(m, r, accept)
    decreases Count(r), 7
  {
    stop := m.next;
    last := null;
    moved := Nil;
    ghost var todo := r;
    ghost var whole, order := Adopt(m, r, accept), VisitsAdopt(m, r, accept);
    visited := [];
    while stop != null && accept(m, stop)
      invariant Seg(m, m.next, moved, stop) && Seg(p, stop, todo, null)
      invariant Walked(Nodes(r), moved, todo) && Count(todo) <= Count(r)
      invariant whole.0 == Append(moved, Adopt(m, todo, accept).0) && whole.1 == Adopt(m, todo, accept).1
      invariant order == visited + VisitsAdopt(m, todo, accept)
      invariant last == if moved.Nil? then null else Last(moved).m
      decreases Count(todo)
    {
      var menu := stop;
      FinalizeDistinct(todo, accept);
      ghost var g := Finalize(todo, accept);
      ghost var below := AdoptOne(m, menu, accept, p, todo, all);
      SegExtend(m, m.next, moved, menu, g.kids, menu.next);
      WalkStep(Nodes(r), moved, todo, g, Nil);
      AdoptStep(m, moved, todo, accept, visited);
      visited := visited + below;
      LastAppend(moved, One(menu, g.kids));
      last, stop := menu, menu.next;
      moved, todo := Append(moved, One(menu, g.kids)), g.rest;
    }
  }

  /** Finalize an accepted sibling and make `m` its parent. */
  method AdoptOne(m: Menu, menu: Menu, accept: Test, ghost p: Menu?, ghost c: Forest, ghost all: set<Menu>)
    returns (ghost visited: seq<Menu>)
    requires c.Cons? && Seg(p, menu, c, null) && Distinct(c) && Nodes(c) <= all
    modifies Nodes(c)
    ensures var g := Finalize(c, accept);
            menu.parent == m && Seg(menu, menu.list, g.kids, null) && Seg(p, menu.next, g.rest, null)
    ensures visited == Visits(c, accept)
    decreases Count(c), 6
  {
    FinalizeDistinct(c, accept);
    visited := FinalizeNode(menu, accept, p, c, all);
    menu.parent := m;
  }

  lemma {:induction false} LastAppend(f: Forest, g: Forest)
    requires g.Cons?
    ensures Append(f, g).Cons? && Last(Append(f, g)) == Last(g)
  {
    if f.Cons? {
      LastAppend(f.rest, g);
    }
  }

  /** Hang the siblings after `m` up to `last` below `m`. */
  method CutAfter(m: Menu, last: Menu, ghost f: Forest, ghost tail: Menu?)
    requires f.Cons? && Seg(m, m.next, f, tail) && Distinct(f) && m !in Nodes(f) && last == Last(f).m
    modifies m`list, m`next, last`next
    ensures Seg(m, m.list, f, null) && m.next == tail
  {
    SegSplit(m, m.next, f, tail);
    FrontLast(f);
    DistinctAppend(Front(f), Last(f));
    m.list := m.next;
    m.next := last.next;
    last.next := null;
    SegJoin(m, m.list, Front(f), last, Last(f), null);
  }

  /** The loop that flattens children without a prompt. */
  method FlattenKids(m: Menu, ghost k: Forest, ghost all: set<Menu>)
    requires Seg(m, m.list, k, null) && Distinct(k) && m !in Nodes(k) && Nodes(k) <= all
    modifies Nodes(k)
    ensures Seg(m, m.list, Flatten(k), null)
  {
    var menu := m.list;
    ghost var done, todo := Nil, k;
    while menu != null
      invariant Seg(m, m.list, done, menu) && Seg(m, menu, todo, null)
      invariant Walked(Nodes(k), done, todo)
      invariant Flatten(k) == Append(done, Flatten(todo))
      decreases Count(todo)
    {
      LiftedDistinct(todo);
      ghost var g := Lifted(todo);
      FlattenOne(m, menu, todo, all);
      SegExtend(m, m.list, done, menu, g.kids, menu.next);
      WalkStep(Nodes(k), done, todo, g, Flatten(g.rest));
      done, todo := Append(done, One(menu, g.kids)), g.rest;
      menu := menu.next;
    }
  }

  method FlattenOne(m: Menu, menu: Menu, ghost f: Forest, ghost all: set<Menu>)
    requires f.Cons? && Seg(m, menu, f, null) && Distinct(f) && Nodes(f) <= all
    modifies Nodes(f)
    ensures Seg(m, menu, Lifted(f), null)
  {
    if menu.list != null && !menu.hasPrompt {
      MoveUp(m, menu, f.kids, f.rest, all);
    }
  }

  /** Move the children of `menu` in between it and its next sibling. */
  method MoveUp(m: Menu, menu: Menu, ghost k: Forest, ghost r: Forest, ghost all: set<Menu>)
    requires k.Cons? && Seg(menu, menu.list, k, null) && Seg(m, menu.next, r, null)
    requires Distinct(k) && menu !in Nodes(k) && menu !in Nodes(r) && Nodes(k) !! Nodes(r) && Nodes(k) + Nodes(r) <= all
    modifies Nodes(k), menu`next, menu`list
    ensures menu.list == null && Seg(m, menu.next, Append(k, r), null)
  {
    var last := Reparent(m, menu, k, all);
    Splice(m, menu, last, k, r);
  }

  method Splice(m: Menu, menu: Menu, last: Menu, ghost k: Forest, ghost r: Forest)
    requires k.Cons? && Seg(m, menu.list, k, null) && Seg(m, menu.next, r, null)
    requires Distinct(k) && menu !in Nodes(k) && menu !in Nodes(r) && Nodes(k) !! Nodes(r) && last == Last(k).m
    modifies last`next, menu`next, menu`list
    ensures menu.list == null && Seg(m, menu.next, Append(k, r), null)
  {
    SegSplit(m, menu.list, k, null);
    FrontLast(k);
    DistinctAppend(Front(k), Last(k));
    ghost var after := menu.next;
    last.next := menu.next;
    menu.next := menu.list;
    menu.list := null;
    assert Seg(m, menu.next, Front(k), last) && Seg(m, last, Last(k), after) && Seg(m, after, r, null);
    SegJoin(m, menu.next, Front(k), last, Last(k), after);
    SegJoin(m, menu.next, k, after, r, null);
  }

  /** Set the parent of each child and find the last one. */
  method Reparent(m: Menu, menu: Menu, ghost k: Forest, ghost all: set<Menu>) returns (last: Menu)
    requires k.Cons? && Seg(menu, menu.list, k, null) && Distinct(k) && menu !in Nodes(k) && Nodes(k) <= all
    modifies Nodes(k)`parent
    ensures Seg(m, menu.list, k, null) && last == Last(k).m
  {
    last := menu.list;
    ghost var done, todo := Nil, k;
    while true
      invariant todo.Cons? && last == todo.m
      invariant Seg(m, menu.list, done, last) && Seg(menu, last, todo, null)
      invariant Walked(Nodes(k), done, todo)
      invariant k == Append(done, todo)
      decreases Count(todo)
    {
      last.parent := m;
      SegExtend(m, menu.list, done, last, todo.kids, last.next);
      WalkStep(Nodes(k), done, todo, todo, todo.rest);
      LastAppend(done, One(last, todo.kids));
      done, todo := Append(done, One(last, todo.kids)), todo.rest;
      if last.next == null {
        break;
      }
      last := last.next;
    }
  }
}
