/** How pages keep representing the tree while single pages change. */
module TreeMatch {
  import opened Keys
  import opened Pages
  import opened Sequences
  import opened Tree
  import opened TreeOrder
  import opened TreeShape
  import opened Storage

  ghost predicate MatchOut(pages: Disk, o: Outcome, nxt: PageId) {
    match o
    case One(t) => Match(pages, t, nxt)
    case Two(l, _, r) => Match(pages, l, FirstLeaf(r)) && Match(pages, r, nxt)
  }

  ghost predicate KidsMatch(pages: Disk, t: Tree, nxt: PageId)
    requires t.Node?
  {
    forall i | 0 <= i <= |t.seps| :: Match(pages, Kid(t, i), After(t, i, nxt))
  }

  /** The page of an internal node says what the node says. */
  ghost predicate NodePage(p: Page, t: Tree)
    requires t.Node?
  {
    p.kind.InternalPage? && p.id == t.id && p.off == t.off && p.cells == Branches(t.seps) && p.right == t.last.id
  }

  /** The page of a leaf says what the leaf says. */
  ghost predicate LeafPageIs(p: Page, t: Tree, nxt: PageId)
    requires t.Leaf?
  {
    p.kind.LeafPage? && p.id == t.id && p.off == t.off && p.cells == t.cells && p.right == nxt
  }

  lemma NodeMatch(pages: Disk, t: Tree, nxt: PageId)
    requires t.Node?
    ensures Match(pages, t, nxt) <==> t.id in pages && NodePage(pages[t.id], t) && KidsMatch(pages, t, nxt)
  {}

  /** A subtree depends on its own pages only. */
  lemma {:induction false} MatchFrame(pages: Disk, pages': Disk, t: Tree, nxt: PageId)
    requires Match(pages, t, nxt)
    requires forall id :: id in Ids(t) ==> id in pages' && id in pages && pages'[id] == pages[id]
    ensures Match(pages', t, nxt)
    decreases t
  {
    RootInIds(t);
    if t.Node? {
      forall i | 0 <= i <= |t.seps| ensures Match(pages', Kid(t, i), After(t, i, nxt)) {
        KidIds(t, i);
        assert Match(pages, Kid(t, i), After(t, i, nxt));
        MatchFrame(pages, pages', Kid(t, i), After(t, i, nxt));
      }
    }
  }

  /** Every page of a represented tree exists. */
  lemma {:induction false} MatchIds(pages: Disk, t: Tree, nxt: PageId)
    requires Match(pages, t, nxt)
    ensures Ids(t) <= pages.Keys
    decreases t
  {
    if t.Node? {
      forall x | x in Ids(t) ensures x in pages {
        if x != t.id {
          var i := IdsMember(t, x);
          MatchIds(pages, Kid(t, i), After(t, i, nxt));
        }
      }
    }
  }

  /** Outside the child's pages and the newly allocated ones, nothing has changed. */
  ghost predicate Unchanged(pages: Disk, pages': Disk, ids: set<PageId>) {
    forall id | id in pages && id !in ids :: id in pages' && pages'[id] == pages[id]
  }

  lemma OtherKidMatch(pages: Disk, pages': Disk, t: Tree, i: nat, j: nat, nxt: PageId)
    requires t.Node? && i <= |t.seps| && j <= |t.seps| && i != j && Distinct(t)
    requires Match(pages, t, nxt) && Unchanged(pages, pages', Ids(Kid(t, i)) + {t.id})
    ensures Match(pages', Kid(t, j), After(t, j, nxt))
  {
    KidsApart(t, i, j);
    assert Match(pages, Kid(t, j), After(t, j, nxt));
    MatchIds(pages, Kid(t, j), After(t, j, nxt));
    MatchFrame(pages, pages', Kid(t, j), After(t, j, nxt));
  }

  // ---- A child replaced without a split ----

  lemma ReplacedAfter(t: Tree, i: nat, k: Tree, j: nat, nxt: PageId)
    requires t.Node? && i <= |t.seps| && j <= |t.seps| && FirstLeaf(k) == FirstLeaf(Kid(t, i))
    ensures After(ReplaceKid(t, i, k), j, nxt) == After(t, j, nxt)
    ensures Kid(ReplaceKid(t, i, k), j) == if j == i then k else Kid(t, j)
  {
    ReplacedKids(t, i, k, Unbounded, Unbounded);
  }

  lemma ReplacedNodePage(p: Page, t: Tree, i: nat, k: Tree)
    requires t.Node? && i <= |t.seps| && NodePage(p, t) && k.id == Kid(t, i).id
    ensures NodePage(p, ReplaceKid(t, i, k))
  {
    assert Branches(ReplaceKid(t, i, k).seps) == Branches(t.seps);
  }

  lemma ReplacedMatch(pages: Disk, pages': Disk, t: Tree, i: nat, k: Tree, nxt: PageId)
    requires t.Node? && i <= |t.seps| && Distinct(t) && Match(pages, t, nxt)
    requires Match(pages', k, After(t, i, nxt)) && k.id == Kid(t, i).id && FirstLeaf(k) == FirstLeaf(Kid(t, i))
    requires Unchanged(pages, pages', Ids(Kid(t, i)))
    ensures Match(pages', ReplaceKid(t, i, k), nxt)
  {
    var t' := ReplaceKid(t, i, k);
    NodeMatch(pages, t, nxt);
    ReplacedNodePage(pages[t.id], t, i, k);
    KidsApart(t, i, i);
    forall j | 0 <= j <= |t'.seps| ensures Match(pages', Kid(t', j), After(t', j, nxt)) {
      ReplacedAfter(t, i, k, j, nxt);
      if j != i { OtherKidMatch(pages, pages', t, i, j, nxt); }
    }
    NodeMatch(pages', t', nxt);
  }

  // ---- A split child taken in ----

  lemma GrownAfter(t: Tree, i: nat, o: Outcome, off: int, j: nat, nxt: PageId)
    requires t.Node? && i <= |t.seps| && o.Two? && j <= |t.seps| + 1 && FirstLeaf(o.left) == FirstLeaf(Kid(t, i))
    ensures var g := Grown(t, i, o, off);
            && (j < i ==> After(g, j, nxt) == After(t, j, nxt))
            && (j == i ==> After(g, j, nxt) == FirstLeaf(o.right))
            && (j > i ==> After(g, j, nxt) == After(t, j - 1, nxt))
  {
    GrownKid(t, i, o, off, Unbounded, Unbounded, j);
    if j <= |t.seps| { GrownKid(t, i, o, off, Unbounded, Unbounded, j + 1); }
  }

  lemma GrownKidMatch(pages: Disk, pages': Disk, t: Tree, i: nat, o: Outcome, off: int, nxt: PageId, j: nat)
    requires t.Node? && i <= |t.seps| && o.Two? && j <= |t.seps| + 1 && Distinct(t) && Match(pages, t, nxt)
    requires MatchOut(pages', o, After(t, i, nxt)) && FirstLeaf(o.left) == FirstLeaf(Kid(t, i))
    requires Unchanged(pages, pages', Ids(Kid(t, i)) + {t.id})
    ensures var g := Grown(t, i, o, off); Match(pages', Kid(g, j), After(g, j, nxt))
  {
    hide Match, Distinct, Grown, Unchanged, Ids;
    GrownKid(t, i, o, off, Unbounded, Unbounded, j);
    GrownAfter(t, i, o, off, j, nxt);
    if j < i { OtherKidMatch(pages, pages', t, i, j, nxt); }
    if j > i + 1 { OtherKidMatch(pages, pages', t, i, j - 1, nxt); }
  }

  lemma GrownMatch(pages: Disk, pages': Disk, t: Tree, i: nat, o: Outcome, off: int, nxt: PageId)
    requires t.Node? && i <= |t.seps| && o.Two? && Distinct(t) && Match(pages, t, nxt)
    requires MatchOut(pages', o, After(t, i, nxt)) && FirstLeaf(o.left) == FirstLeaf(Kid(t, i))
    requires Unchanged(pages, pages', Ids(Kid(t, i)) + {t.id})
    ensures KidsMatch(pages', Grown(t, i, o, off), nxt)
  {
    var g := Grown(t, i, o, off);
    forall j | 0 <= j <= |g.seps| ensures Match(pages', Kid(g, j), After(g, j, nxt)) {
      GrownKidMatch(pages, pages', t, i, o, off, nxt, j);
    }
  }

  lemma HalvesAfter(g: Tree, next: PageId, j: nat, nxt: PageId)
    requires g.Node? && g.seps != []
    ensures var h, mid := Halves(g, next), |g.seps| / 2;
            && (j <= mid ==> After(h.left, j, FirstLeaf(h.right)) == After(g, j, nxt))
            && (mid < j <= |g.seps| ==> After(h.right, j - mid - 1, nxt) == After(g, j, nxt))
  {
    HalvesKids(g, next, Unbounded, Unbounded);
    var h, mid := Halves(g, next), |g.seps| / 2;
    if j < mid { assert Kid(h.left, j + 1) == Kid(g, j + 1); }
    if j == mid { assert FirstLeaf(h.right) == FirstLeaf(Kid(h.right, 0)); assert Kid(h.right, 0) == Kid(g, mid + 1); }
    if mid < j < |g.seps| { assert Kid(h.right, j - mid) == Kid(g, j + 1); }
  }

  /** The halves of a node have its children between them. */
  lemma HalvesKidsMatch(v: Disk, g: Tree, next: PageId, nxt: PageId)
    requires g.Node? && g.seps != []
    ensures var h := Halves(g, next);
            KidsMatch(v, h.left, FirstLeaf(h.right)) && KidsMatch(v, h.right, nxt) <==> KidsMatch(v, g, nxt)
  {
    hide Match;
    HalvesKids(g, next, Unbounded, Unbounded);
    var h, mid := Halves(g, next), |g.seps| / 2;
    if KidsMatch(v, g, nxt) {
      forall j | 0 <= j <= |h.left.seps| ensures Match(v, Kid(h.left, j), After(h.left, j, FirstLeaf(h.right))) {
        HalvesAfter(g, next, j, nxt);
        assert Match(v, Kid(g, j), After(g, j, nxt));
      }
      forall j | 0 <= j <= |h.right.seps| ensures Match(v, Kid(h.right, j), After(h.right, j, nxt)) {
        HalvesAfter(g, next, mid + 1 + j, nxt);
        assert Match(v, Kid(g, mid + 1 + j), After(g, mid + 1 + j, nxt));
      }
    }
    if KidsMatch(v, h.left, FirstLeaf(h.right)) && KidsMatch(v, h.right, nxt) {
      forall j | 0 <= j <= |g.seps| ensures Match(v, Kid(g, j), After(g, j, nxt)) {
        HalvesAfter(g, next, j, nxt);
        if j <= mid { assert Match(v, Kid(h.left, j), After(h.left, j, FirstLeaf(h.right))); } else {
          assert Match(v, Kid(h.right, j - mid - 1), After(h.right, j - mid - 1, nxt));
        }
      }
    }
  }

  lemma HalvesMatch(pages: Disk, g: Tree, next: PageId, nxt: PageId)
    requires g.Node? && g.seps != [] && KidsMatch(pages, g, nxt) && g.id in pages && next in pages
    requires var h := Halves(g, next); NodePage(pages[g.id], h.left) && NodePage(pages[next], h.right)
    ensures MatchOut(pages, Halves(g, next), nxt)
  {
    hide Match, NodePage, KidsMatch;
    var h := Halves(g, next);
    HalvesKidsMatch(pages, g, next, nxt);
    NodeMatch(pages, h.left, FirstLeaf(h.right));
    NodeMatch(pages, h.right, nxt);
  }

  // ---- Deletion ----

  lemma TargetInIds(t: Tree, key: Key)
    ensures Target(t, key).id in Ids(t)
    decreases t
  {
    if t.Node? {
      TargetInIds(Kid(t, Route(t, key)), key);
      KidIds(t, Route(t, key));
    }
  }

  /** The target leaf is represented, and followed by some leaf or by NO_PAGE. */
  lemma {:induction false} TargetMatch(pages: Disk, t: Tree, key: Key, nxt: PageId)
    requires Match(pages, t, nxt)
    ensures var l := Target(t, key); l.id in pages && LeafPageIs(pages[l.id], l, pages[l.id].right)
    decreases t
  {
    if t.Node? {
      var i := Route(t, key);
      assert Match(pages, Kid(t, i), After(t, i, nxt));
      TargetMatch(pages, Kid(t, i), key, After(t, i, nxt));
    }
  }

  /** Removing the cell from the page of the target leaf removes it from the tree. */
  lemma {:induction false} RemoveMatch(pages: Disk, pages': Disk, t: Tree, key: Key, nxt: PageId)
    requires Match(pages, t, nxt) && Distinct(t)
    requires var l := Target(t, key);
             && l.id in pages && l.id in pages'
             && SameButLsn(pages'[l.id], pages[l.id].(cells := Base(l.cells, key, Updating)))
             && Unchanged(pages, pages', {l.id})
    ensures Match(pages', Remove(t, key), nxt)
    decreases t
  {
    if t.Node? {
      var i := Route(t, key);
      assert Match(pages, Kid(t, i), After(t, i, nxt));
      KidsApart(t, i, i);
      RemoveMatch(pages, pages', Kid(t, i), key, After(t, i, nxt));
      RemoveNodeMatch(pages, pages', t, key, nxt);
    }
  }

  lemma RemoveNodeMatch(pages: Disk, pages': Disk, t: Tree, key: Key, nxt: PageId)
    requires t.Node? && Match(pages, t, nxt) && Distinct(t)
    requires var i := Route(t, key);
             Match(pages', Remove(Kid(t, i), key), After(t, i, nxt)) && Unchanged(pages, pages', {Target(Kid(t, i), key).id})
    ensures Match(pages', Remove(t, key), nxt)
  {
    var i := Route(t, key);
    TargetInIds(Kid(t, i), key);
    RemoveSame(Kid(t, i), key);
    ReplacedMatch(pages, pages', t, i, Remove(Kid(t, i), key), nxt);
  }

  lemma {:induction false} RemoveSame(t: Tree, key: Key)
    ensures Remove(t, key).id == t.id && FirstLeaf(Remove(t, key)) == FirstLeaf(t)
    decreases t
  {
    if t.Node? {
      var i := Route(t, key);
      RemoveSame(Kid(t, i), key);
      ReplacedKids(t, i, Remove(Kid(t, i), key), Unbounded, Unbounded);
    }
  }

  // ---- The leaf chain ----

  lemma {:induction false} LeavesOfAppend(a: seq<Sep>, b: seq<Sep>)
    ensures LeavesOf(a + b) == LeavesOf(a) + LeavesOf(b)
  {
    if b == [] {
      assert a + b == a;
    } else {
      LeavesOfAppend(a, b[..|b| - 1]);
      assert (a + b)[..|a + b| - 1] == a + b[..|b| - 1];
    }
  }

  function LeafCells(ls: seq<Tree>): seq<Cell>
    requires forall i :: 0 <= i < |ls| ==> ls[i].Leaf?
  {
    if ls == [] then [] else LeafCells(ls[..|ls| - 1]) + ls[|ls| - 1].cells
  }

  lemma {:induction false} LeafCellsAppend(a: seq<Tree>, b: seq<Tree>)
    requires forall i :: 0 <= i < |a| ==> a[i].Leaf?
    requires forall i :: 0 <= i < |b| ==> b[i].Leaf?
    ensures LeafCells(a + b) == LeafCells(a) + LeafCells(b)
  {
    if b == [] {
      assert a + b == a;
    } else {
      LeafCellsAppend(a, b[..|b| - 1]);
      Snoc(a, b);
      Joined(LeafCells(a), LeafCells(b[..|b| - 1]), b[|b| - 1].cells);
    }
  }

  /** The contents are those of the leaves, in order. */
  lemma {:induction false} ContentsOfLeaves(t: Tree)
    ensures LeafCells(Leaves(t)) == Contents(t)
    decreases t, 1
  {
    match t
    case Leaf(_, cells, _) =>
      assert LeafCells([t]) == LeafCells([t][..0]) + cells;
      assert [t][..0] == [];
    case Node(_, seps, last, _) =>
      ContentsOfRun(seps);
      ContentsOfLeaves(last);
      LeafCellsAppend(LeavesOf(seps), Leaves(last));
  }

  lemma {:induction false} ContentsOfRun(seps: seq<Sep>)
    ensures LeafCells(LeavesOf(seps)) == Flat(seps)
    decreases seps, 0
  {
    if seps != [] {
      var s := seps[|seps| - 1];
      assert s in seps && s.child < s;
      ContentsOfRun(seps[..|seps| - 1]);
      ContentsOfLeaves(s.child);
      LeafCellsAppend(LeavesOf(seps[..|seps| - 1]), Leaves(s.child));
    }
  }

  lemma {:induction false} LeafIds(t: Tree)
    ensures forall i :: 0 <= i < |Leaves(t)| ==> Leaves(t)[i].id in Ids(t)
    decreases t, if t.Node? then |t.seps| + 1 else 0
  {
    if t.Node? {
      RunIds(t, |t.seps|);
      assert t.seps[..|t.seps|] == t.seps;
      LeafIds(t.last);
      KidIds(t, |t.seps|);
    }
  }

  lemma {:induction false} RunIds(t: Tree, n: nat)
    requires t.Node? && n <= |t.seps|
    ensures forall i :: 0 <= i < |LeavesOf(t.seps[..n])| ==> LeavesOf(t.seps[..n])[i].id in Ids(t)
    decreases t, n
  {
    if n > 0 {
      RunIds(t, n - 1);
      assert t.seps[..n][..n - 1] == t.seps[..n - 1];
      LeafIds(Kid(t, n - 1));
      KidIds(t, n - 1);
    }
  }

  /** Leaf i of a run points to the next one of the run, or to `nxt`. */
  ghost predicate Link(pages: Disk, ls: seq<Tree>, i: nat, nxt: PageId)
    requires i < |ls|
  {
    && ls[i].Leaf? && ls[i].id in pages
    && LeafPageIs(pages[ls[i].id], ls[i], if i + 1 < |ls| then ls[i + 1].id else nxt)
  }

  ghost predicate Chained(pages: Disk, ls: seq<Tree>, nxt: PageId) {
    forall i | 0 <= i < |ls| :: Link(pages, ls, i, nxt)
  }

  lemma ChainJoin(pages: Disk, a: seq<Tree>, b: seq<Tree>, m: PageId, nxt: PageId)
    requires b != [] && b[0].id == m && Chained(pages, a, m) && Chained(pages, b, nxt)
    ensures Chained(pages, a + b, nxt)
  {
    forall i | 0 <= i < |a + b| ensures Link(pages, a + b, i, nxt) {
      if i < |a| { assert Link(pages, a, i, m); } else { assert Link(pages, b, i - |a|, nxt); }
    }
  }

  /** The leaf chain is the in-order sequence of leaves. */
  lemma {:induction false} LeafChain(pages: Disk, t: Tree, nxt: PageId)
    requires Match(pages, t, nxt)
    ensures Leaves(t) != [] && Leaves(t)[0].id == FirstLeaf(t) && Chained(pages, Leaves(t), nxt)
    decreases t, if t.Node? then |t.seps| + 1 else 0
  {
    if t.Node? {
      var n := |t.seps|;
      RunChain(pages, t, n, nxt);
      assert t.seps[..n] == t.seps;
      assert Match(pages, Kid(t, n), nxt);
      LeafChain(pages, t.last, nxt);
      ChainJoin(pages, LeavesOf(t.seps), Leaves(t.last), FirstLeaf(t.last), nxt);
      if n == 0 { assert Kid(t, 0) == t.last; }
    } else {
      assert Leaves(t) == [t];
      assert Link(pages, Leaves(t), 0, nxt);
    }
  }

  lemma {:induction false} RunChain(pages: Disk, t: Tree, n: nat, nxt: PageId)
    requires t.Node? && n <= |t.seps| && Match(pages, t, nxt)
    ensures Chained(pages, LeavesOf(t.seps[..n]), FirstLeaf(Kid(t, n)))
    ensures n > 0 ==> LeavesOf(t.seps[..n]) != [] && LeavesOf(t.seps[..n])[0].id == FirstLeaf(Kid(t, 0))
    decreases t, n
  {
    if n > 0 {
      RunChain(pages, t, n - 1, nxt);
      var k := Kid(t, n - 1);
      assert Match(pages, k, After(t, n - 1, nxt));
      LeafChain(pages, k, FirstLeaf(Kid(t, n)));
      assert t.seps[..n][..n - 1] == t.seps[..n - 1];
      ChainJoin(pages, LeavesOf(t.seps[..n - 1]), Leaves(k), FirstLeaf(k), FirstLeaf(Kid(t, n)));
    }
  }
}
