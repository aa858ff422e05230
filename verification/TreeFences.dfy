/**
  Order with repeated keys. An insertion of a key that is present puts a second row behind the first, and the
  keys of a leaf may then reach both ends of its range; separators still keep the leaves apart.
 */
module TreeFences {
  import opened Keys
  import opened Pages
  import opened Tree
  import opened TreeProofs
  import opened TreeOrder
  import opened TreeTidy
  import opened SortCells

  predicate Inside(k: Key, lo: Bound, hi: Bound) { AtLeast(k, lo) && AtMost(k, hi) }

  predicate AllInside(cells: seq<Cell>, lo: Bound, hi: Bound) {
    forall i :: 0 <= i < |cells| ==> Inside(cells[i].key, lo, hi)
  }

  /** Separators ascend, and the keys of every child lie between its two, ends included. */
  ghost predicate Fenced(t: Tree, lo: Bound, hi: Bound)
    decreases t
  {
    match t
    case Leaf(_, cells, _) => AllInside(cells, lo, hi)
    case Node(_, seps, _, _) =>
      && SortedSeps(seps)
      && (forall i | 0 <= i < |seps| :: Inside(seps[i].key, lo, hi))
      && forall i | 0 <= i <= |seps| :: Fenced(Kid(t, i), Low(t, i, lo), High(t, i, hi))
  }

  ghost predicate FencedOut(o: Outcome, lo: Bound, hi: Bound) {
    match o
    case One(t) => Fenced(t, lo, hi)
    case Two(l, sep, r) => Inside(sep, lo, hi) && Fenced(l, lo, At(sep)) && Fenced(r, At(sep), hi)
  }

  lemma {:induction false} OrderedFenced(t: Tree, lo: Bound, hi: Bound)
    requires Ordered(t, lo, hi)
    ensures Fenced(t, lo, hi)
    decreases t
  {
    if t.Node? {
      forall i | 0 <= i <= |t.seps| ensures Fenced(Kid(t, i), Low(t, i, lo), High(t, i, hi)) {
        OrderedFenced(Kid(t, i), Low(t, i, lo), High(t, i, hi));
      }
    }
  }

  // ---- The contents ----

  lemma AscendingJoin(a: seq<Cell>, b: seq<Cell>, lo: Bound, m: Key, hi: Bound)
    requires Ascending(a) && Ascending(b) && AllInside(a, lo, At(m)) && AllInside(b, At(m), hi) && Inside(m, lo, hi)
    ensures Ascending(a + b) && AllInside(a + b, lo, hi)
  {
    OrderLaws();
    var s := a + b;
    forall i, j | 0 <= i < j < |s| ensures !Lt(s[j].key, s[i].key) {
      if i < |a| <= j { LeLe(s[i].key, m, s[j].key); }
    }
    forall i | 0 <= i < |s| ensures Inside(s[i].key, lo, hi) {
      if i < |a| {
        if hi.At? { LeLe(s[i].key, m, hi.key); }
      } else if lo.At? {
        LeLe(lo.key, m, s[i].key);
      }
    }
  }

  lemma {:induction false} FlatFenced(t: Tree, n: nat, lo: Bound, hi: Bound)
    requires t.Node? && Fenced(t, lo, hi) && Tidy(t) && n <= |t.seps|
    ensures Ascending(Flat(t.seps[..n])) && (n > 0 ==> AllInside(Flat(t.seps[..n]), lo, At(t.seps[n - 1].key)))
    ensures n == 0 ==> Flat(t.seps[..n]) == []
    decreases t, n
  {
    if n > 0 {
      FlatFenced(t, n - 1, lo, hi);
      FencedContents(Kid(t, n - 1), Low(t, n - 1, lo), High(t, n - 1, hi));
      assert t.seps[..n][..n - 1] == t.seps[..n - 1];
      if n > 1 {
        AscendingJoin(Flat(t.seps[..n - 1]), Contents(Kid(t, n - 1)), lo, t.seps[n - 2].key, At(t.seps[n - 1].key));
      } else {
        assert Flat(t.seps[..n]) == Contents(Kid(t, 0));
      }
    }
  }

  /** The contents ascend, and stay in the range. */
  lemma {:induction false} FencedContents(t: Tree, lo: Bound, hi: Bound)
    requires Fenced(t, lo, hi) && Tidy(t)
    ensures Ascending(Contents(t)) && AllInside(Contents(t), lo, hi)
    decreases t, if t.Node? then |t.seps| + 1 else 0
  {
    if t.Node? {
      var n := |t.seps|;
      assert t.seps[..n] == t.seps && Kid(t, n) == t.last;
      FlatFenced(t, n, lo, hi);
      FencedContents(t.last, Low(t, n, lo), hi);
      if n > 0 {
        AscendingJoin(Flat(t.seps), Contents(t.last), lo, t.seps[n - 1].key, hi);
      } else {
        assert Contents(t) == Contents(t.last);
      }
    }
  }

  /** A cell of child j, seen from the key's own child i. */
  lemma KidCells(t: Tree, i: nat, j: nat, x: Cell, key: Key, lo: Bound, hi: Bound)
    requires t.Node? && Fenced(t, lo, hi) && Tidy(t) && i <= |t.seps| && j <= |t.seps| && x in Contents(Kid(t, j))
    requires (i > 0 ==> Le(t.seps[i - 1].key, key)) && (i < |t.seps| ==> Lt(key, t.seps[i].key))
    ensures j < i ==> !Lt(key, x.key)
    ensures j > i ==> Lt(key, x.key)
  {
    assert Fenced(Kid(t, j), Low(t, j, lo), High(t, j, hi)) && Tidy(Kid(t, j));
    FencedContents(Kid(t, j), Low(t, j, lo), High(t, j, hi));
    var k :| 0 <= k < |Contents(Kid(t, j))| && Contents(Kid(t, j))[k] == x;
    OrderLaws();
    if j < i {
      if j < i - 1 { LeLe(x.key, t.seps[j].key, t.seps[i - 1].key); }
      LeLe(x.key, t.seps[i - 1].key, key);
    } else if j > i {
      if i < j - 1 { LeLe(t.seps[i].key, t.seps[j - 1].key, x.key); }
      LeLt(key, t.seps[i].key, x.key);
    }
  }

  /** An insertion finds its place among the contents, even next to equal keys. */
  lemma {:induction false} FencedParted(t: Tree, key: Key, lo: Bound, hi: Bound)
    requires Fenced(t, lo, hi) && Tidy(t) && InRange(key, lo, hi)
    ensures Parted(t, Inserting, key)
    decreases t
  {
    if t.Node? {
      hide Before, Behind, Contents, Flat;
      var i := Route(t, key);
      RouteInRange(t, key, lo, hi);
      forall x | x in Before(t, i) ensures !Lt(key, x.key) { PassedLeft(t, i, x, key, lo, hi); }
      forall x | x in Behind(t, i) ensures Lt(key, x.key) {
        var j := BehindMember(t, i, x);
        KidCells(t, i, j, x, key, lo, hi);
      }
      FencedParted(Kid(t, i), key, Low(t, i, lo), High(t, i, hi));
    }
  }

  lemma PassedLeft(t: Tree, i: nat, x: Cell, key: Key, lo: Bound, hi: Bound)
    requires t.Node? && Fenced(t, lo, hi) && Tidy(t) && i <= |t.seps| && x in Before(t, i)
    requires (i > 0 ==> Le(t.seps[i - 1].key, key)) && (i < |t.seps| ==> Lt(key, t.seps[i].key))
    ensures !Lt(key, x.key)
  {
    var j := FlatMember(t.seps[..i], x);
    KidCells(t, i, j, x, key, lo, hi);
  }

  // ---- Insertion, update and deletion keep the fences ----

  lemma ReplacedFenced(t: Tree, i: nat, k: Tree, lo: Bound, hi: Bound)
    requires t.Node? && i <= |t.seps| && Fenced(t, lo, hi) && Fenced(k, Low(t, i, lo), High(t, i, hi))
    ensures Fenced(ReplaceKid(t, i, k), lo, hi)
  {
    ReplacedKids(t, i, k, lo, hi);
    var t' := ReplaceKid(t, i, k);
    forall j | 0 <= j <= |t'.seps| ensures Fenced(Kid(t', j), Low(t', j, lo), High(t', j, hi)) {
      if j != i { assert Fenced(Kid(t, j), Low(t, j, lo), High(t, j, hi)); }
    }
  }

  lemma GrownFenced(t: Tree, i: nat, o: Outcome, off: int, lo: Bound, hi: Bound)
    requires t.Node? && i <= |t.seps| && o.Two? && Fenced(t, lo, hi) && FencedOut(o, Low(t, i, lo), High(t, i, hi))
    ensures Fenced(Grown(t, i, o, off), lo, hi)
  {
    var g := Grown(t, i, o, off);
    TreeOrder.GrownSeps(t, i, o, off, lo, hi);
    forall j | 0 <= j <= |g.seps| ensures Fenced(Kid(g, j), Low(g, j, lo), High(g, j, hi)) {
      GrownKid(t, i, o, off, lo, hi, j);
      if j < i { assert Fenced(Kid(t, j), Low(t, j, lo), High(t, j, hi)); }
      if j > i + 1 { assert Fenced(Kid(t, j - 1), Low(t, j - 1, lo), High(t, j - 1, hi)); }
    }
  }

  lemma HalvesFenced(g: Tree, next: PageId, lo: Bound, hi: Bound)
    requires g.Node? && g.seps != [] && Fenced(g, lo, hi)
    ensures FencedOut(Halves(g, next), lo, hi)
  {
    HalvesKids(g, next, lo, hi);
    var h, mid := Halves(g, next), |g.seps| / 2;
    forall j | 0 <= j <= mid ensures Fenced(Kid(h.left, j), Low(h.left, j, lo), High(h.left, j, At(h.sep))) {
      assert Fenced(Kid(g, j), Low(g, j, lo), High(g, j, hi));
    }
    forall j | 0 <= j <= |h.right.seps| ensures Fenced(Kid(h.right, j), Low(h.right, j, At(h.sep)), High(h.right, j, hi)) {
      assert Fenced(Kid(g, mid + 1 + j), Low(g, mid + 1 + j, lo), High(g, mid + 1 + j, hi));
    }
  }

  lemma PutNodeFenced(t: Tree, i: nat, o: Outcome, next: PageId, lo: Bound, hi: Bound)
    requires t.Node? && i <= |t.seps| && Fenced(t, lo, hi) && FencedOut(o, Low(t, i, lo), High(t, i, hi))
    ensures FencedOut(PutNode(t, i, o, next), lo, hi)
  {
    hide Fenced;
    if o.One? {
      ReplacedFenced(t, i, o.t, lo, hi);
    } else {
      var g := Charged(t, i, o);
      GrownFenced(t, i, o, g.off, lo, hi);
      if !RoomFor(t.off, |t.seps|, Cell(o.sep, Child(o.left.id))) { HalvesFenced(g, next, lo, hi); }
    }
  }

  lemma KeptInside(cells: seq<Cell>, lo: Bound, hi: Bound)
    requires AllInside(cells, lo, hi)
    ensures AllInside(Kept(cells), lo, hi)
  {
    KeptAreCells(cells);
    forall i | 0 <= i < |Kept(cells)| ensures Inside(Kept(cells)[i].key, lo, hi) { assert Kept(cells)[i] in cells; }
  }

  lemma CutInside(all: seq<Cell>, mid: nat, lo: Bound, hi: Bound)
    requires Ascending(all) && AllInside(all, lo, hi) && mid < |all|
    ensures AllInside(all[..mid], lo, At(all[mid].key)) && AllInside(all[mid..], At(all[mid].key), hi)
  {
    OrderLaws();
  }

  lemma PutLeafFenced(t: Tree, mode: Mode, c: Cell, next: PageId, lo: Bound, hi: Bound)
    requires t.Leaf? && Fenced(t, lo, hi) && Tidy(t) && InRange(c.key, lo, hi)
    ensures FencedOut(PutLeaf(t, mode, c, next), lo, hi)
  {
    hide Kept, RoomFor, UpperBound, Find;
    var base := Base(t.cells, c.key, mode);
    var all := Sorted(base, c);
    BaseAscending(t.cells, c.key, mode);
    InsertAscending(base, c);
    forall i | 0 <= i < |all| ensures Inside(all[i].key, lo, hi) {
      if all[i] != c { assert all[i] in base && all[i] in t.cells; }
    }
    CutInside(all, |all| / 2, lo, hi);
    KeptInside(all[..|all| / 2], lo, At(all[|all| / 2].key));
    KeptInside(all[|all| / 2..], At(all[|all| / 2].key), hi);
  }

  lemma {:induction false} PutFenced(t: Tree, mode: Mode, c: Cell, next: PageId, lo: Bound, hi: Bound)
    requires Fenced(t, lo, hi) && Tidy(t) && InRange(c.key, lo, hi)
    ensures FencedOut(Put(t, mode, c, next).0, lo, hi)
    decreases t
  {
    hide PutLeaf, PutNode, Ascending;
    if t.Leaf? {
      PutLeafFenced(t, mode, c, next, lo, hi);
    } else {
      var i := Route(t, c.key);
      RouteInRange(t, c.key, lo, hi);
      PutFenced(Kid(t, i), mode, c, next, Low(t, i, lo), High(t, i, hi));
      var (o, f) := Put(Kid(t, i), mode, c, next);
      PutNodeFenced(t, i, o, f, lo, hi);
    }
  }

  /** Whatever is inserted or updated, whether its key is there or not, the leaves stay apart. */
  lemma PutRootFenced(t: Tree, mode: Mode, c: Cell, next: PageId)
    requires Fenced(t, Unbounded, Unbounded) && Tidy(t)
    ensures Fenced(PutRoot(t, mode, c, next), Unbounded, Unbounded)
  {
    hide Put, Tidy;
    PutFenced(t, mode, c, next, Unbounded, Unbounded);
    var (o, f) := Put(t, mode, c, next);
    if o.Two? {
      var g := Grow(o, f);
      GrowKids(o, f);
      forall i | 0 <= i <= |g.seps| ensures Fenced(Kid(g, i), Low(g, i, Unbounded), High(g, i, Unbounded)) {}
    }
  }

  /** And every insertion is insertion into the list of cells, if and only if the leaf's halves fit. */
  lemma InsertedAmongEquals(t: Tree, c: Cell, next: PageId)
    requires Fenced(t, Unbounded, Unbounded) && Tidy(t)
    ensures Contents(PutRoot(t, Inserting, c, next)) == Sorted(Contents(t), c) <==> KeepsAll(t, Inserting, c)
  {
    FencedParted(t, c.key, Unbounded, Unbounded);
    PutRootContents(t, Inserting, c, next);
  }

  lemma {:induction false} RemoveFenced(t: Tree, key: Key, lo: Bound, hi: Bound)
    requires Fenced(t, lo, hi)
    ensures Fenced(Remove(t, key), lo, hi)
    decreases t
  {
    if t.Leaf? {
      var base := Base(t.cells, key, Updating);
      forall i | 0 <= i < |base| ensures Inside(base[i].key, lo, hi) { assert base[i] in t.cells; }
    } else {
      var i := Route(t, key);
      assert Fenced(Kid(t, i), Low(t, i, lo), High(t, i, hi));
      RemoveFenced(Kid(t, i), key, Low(t, i, lo), High(t, i, hi));
      ReplacedFenced(t, i, Remove(Kid(t, i), key), lo, hi);
    }
  }
}
