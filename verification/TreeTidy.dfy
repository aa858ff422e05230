/** The cells of every page stay in ascending order, whether keys or separators repeat or not. */
module TreeTidy {
  import opened Keys
  import opened Pages
  import opened Tree
  import opened TreeOrder
  import opened SortCells

  ghost predicate TidyOut(o: Outcome) {
    match o
    case One(t) => Tidy(t)
    case Two(l, _, r) => Tidy(l) && Tidy(r)
  }

  lemma BaseAscending(cells: seq<Cell>, key: Key, mode: Mode)
    requires Ascending(cells)
    ensures Ascending(Base(cells, key, mode))
    ensures Rows(cells) ==> Rows(Base(cells, key, mode))
  {}

  lemma InsertRows(cells: seq<Cell>, c: Cell)
    requires Rows(cells) && c.body.Data?
    ensures Rows(Sorted(cells, c)) && Sorted(cells, c) != []
  {}

  lemma CutAscending(cells: seq<Cell>, i: nat, j: nat)
    requires Ascending(cells) && i <= j <= |cells|
    ensures Ascending(cells[i..j]) && (Rows(cells) ==> Rows(cells[i..j]))
  {}

  lemma {:induction false} KeptTidy(cells: seq<Cell>)
    requires Ascending(cells) && Rows(cells)
    ensures Ascending(Kept(cells)) && Rows(Kept(cells))
  {
    if cells != [] {
      var before := cells[..|cells| - 1];
      KeptTidy(before);
      KeptAreCells(before);
      forall i | 0 <= i < |Kept(before)| ensures !Lt(cells[|cells| - 1].key, Kept(before)[i].key) { assert Kept(before)[i] in before; }
    }
  }

  lemma PutLeafTidy(t: Tree, mode: Mode, c: Cell, next: PageId)
    requires t.Leaf? && Tidy(t) && c.body.Data?
    ensures TidyOut(PutLeaf(t, mode, c, next))
  {
    hide Base, Sorted, Ascending, Rows, RoomFor, FilledOff, Kept;
    var base := Base(t.cells, c.key, mode);
    var all := Sorted(base, c);
    BaseAscending(t.cells, c.key, mode);
    InsertAscending(base, c);
    InsertRows(base, c);
    CutAscending(all, 0, |all| / 2);
    CutAscending(all, |all| / 2, |all|);
    assert all[0..|all| / 2] == all[..|all| / 2] && all[|all| / 2..|all|] == all[|all| / 2..];
    KeptTidy(all[..|all| / 2]);
    KeptTidy(all[|all| / 2..]);
  }

  lemma ReplacedTidy(t: Tree, i: nat, k: Tree)
    requires t.Node? && i <= |t.seps| && Tidy(t) && Tidy(k)
    ensures Tidy(ReplaceKid(t, i, k))
  {
    ReplacedKids(t, i, k, Unbounded, Unbounded);
    var t' := ReplaceKid(t, i, k);
    forall a, b | 0 <= a < b < |t.seps| ensures !Lt(Branches(t'.seps)[b].key, Branches(t'.seps)[a].key) {
      assert !Lt(Branches(t.seps)[b].key, Branches(t.seps)[a].key);
    }
  }

  /** A separator at its position leaves the separators ascending. */
  lemma GrownAscending(t: Tree, i: nat, o: Outcome, off: int)
    requires t.Node? && i <= |t.seps| && o.Two? && Ascending(Branches(t.seps)) && UpperBound(Branches(t.seps), o.sep) == i
    ensures Ascending(Branches(Grown(t, i, o, off).seps))
  {
    var b, b' := Branches(t.seps), Branches(Grown(t, i, o, off).seps);
    var all := Sorted(b, Cell(o.sep, Child(o.left.id)));
    InsertAscending(b, Cell(o.sep, Child(o.left.id)));
    GrownSepKeys(t, i, o, off);
    forall j | 0 <= j < |b'| ensures b'[j].key == all[j].key {}
    forall x, y | 0 <= x < y < |b'| ensures !Lt(b'[y].key, b'[x].key) { assert !Lt(all[y].key, all[x].key); }
  }

  lemma GrownTidy(t: Tree, i: nat, o: Outcome, off: int)
    requires t.Node? && i <= |t.seps| && o.Two? && Tidy(t) && TidyOut(o) && UpperBound(Branches(t.seps), o.sep) == i
    ensures Tidy(Grown(t, i, o, off))
  {
    var g := Grown(t, i, o, off);
    GrownAscending(t, i, o, off);
    forall j | 0 <= j <= |g.seps| ensures Tidy(Kid(g, j)) {
      GrownKid(t, i, o, off, Unbounded, Unbounded, j);
      if j < i { assert Tidy(Kid(t, j)); }
      if j > i + 1 { assert Tidy(Kid(t, j - 1)); }
    }
  }

  lemma HalvesAscending(g: Tree, next: PageId)
    requires g.Node? && g.seps != [] && Ascending(Branches(g.seps))
    ensures var h := Halves(g, next); Ascending(Branches(h.left.seps)) && Ascending(Branches(h.right.seps))
  {
    hide Ascending;
    var h, mid, b := Halves(g, next), |g.seps| / 2, Branches(g.seps);
    CutAscending(b, 0, mid);
    CutAscending(b, mid + 1, |b|);
    assert Branches(h.left.seps) == b[0..mid] && Branches(h.right.seps) == b[mid + 1..|b|];
  }

  lemma HalvesTidy(g: Tree, next: PageId)
    requires g.Node? && g.seps != [] && Tidy(g)
    ensures TidyOut(Halves(g, next))
  {
    hide Ascending;
    HalvesKids(g, next, Unbounded, Unbounded);
    HalvesAscending(g, next);
    var h, mid := Halves(g, next), |g.seps| / 2;
    forall j | 0 <= j <= mid ensures Tidy(Kid(h.left, j)) { assert Tidy(Kid(g, j)); }
    forall j | 0 <= j <= |h.right.seps| ensures Tidy(Kid(h.right, j)) { assert Tidy(Kid(g, mid + 1 + j)); }
  }

  /** Every page stays ascending as long as separators find their places. */
  lemma {:induction false} PutTidy(t: Tree, mode: Mode, c: Cell, next: PageId)
    requires Tidy(t) && Placed(t, mode, c, next) && c.body.Data?
    ensures TidyOut(Put(t, mode, c, next).0)
    decreases t
  {
    if t.Leaf? {
      PutLeafTidy(t, mode, c, next);
    } else {
      var i := Route(t, c.key);
      assert Tidy(Kid(t, i));
      PutTidy(Kid(t, i), mode, c, next);
      var (o, f) := Put(Kid(t, i), mode, c, next);
      if o.One? {
        ReplacedTidy(t, i, o.t);
      } else {
        GrownTidy(t, i, o, Charged(t, i, o).off);
        HalvesTidy(Charged(t, i, o), f);
      }
    }
  }

  lemma PutRootTidy(t: Tree, mode: Mode, c: Cell, next: PageId)
    requires Tidy(t) && Placed(t, mode, c, next) && c.body.Data?
    ensures Tidy(PutRoot(t, mode, c, next))
  {
    hide Put, Placed;
    PutTidy(t, mode, c, next);
    var (o, f) := Put(t, mode, c, next);
    if o.Two? { GrowTidy(o, f); }
  }

  lemma GrowTidy(o: Outcome, next: PageId)
    requires o.Two? && TidyOut(o)
    ensures Tidy(Grow(o, next))
  {
    var g := Grow(o, next);
    GrowKids(o, next);
    forall i | 0 <= i <= |g.seps| ensures Tidy(Kid(g, i)) {}
    assert |Branches(g.seps)| == 1;
  }

  lemma {:induction false} RemoveTidy(t: Tree, key: Key)
    requires Tidy(t)
    ensures Tidy(Remove(t, key))
    decreases t
  {
    if t.Leaf? {
      BaseAscending(t.cells, key, Updating);
    } else {
      var i := Route(t, key);
      assert Tidy(Kid(t, i));
      RemoveTidy(Kid(t, i), key);
      ReplacedTidy(t, i, Remove(Kid(t, i), key));
    }
  }

  lemma {:induction false} OrderedTidy(t: Tree, lo: Bound, hi: Bound)
    requires Ordered(t, lo, hi)
    ensures Tidy(t)
    decreases t
  {
    OrderLaws();
    if t.Node? {
      forall i | 0 <= i <= |t.seps| ensures Tidy(Kid(t, i)) {
        assert Ordered(Kid(t, i), Low(t, i, lo), High(t, i, hi));
        OrderedTidy(Kid(t, i), Low(t, i, lo), High(t, i, hi));
      }
    }
  }

  lemma {:induction false} FlatRows(t: Tree, n: nat)
    requires t.Node? && Tidy(t) && n <= |t.seps|
    ensures Rows(Flat(t.seps[..n]))
    decreases t, n
  {
    if n > 0 {
      FlatRows(t, n - 1);
      assert Tidy(Kid(t, n - 1));
      ContentsRows(Kid(t, n - 1));
      assert t.seps[..n][..n - 1] == t.seps[..n - 1];
    }
  }

  lemma {:induction false} ContentsRows(t: Tree)
    requires Tidy(t)
    ensures Rows(Contents(t))
    decreases t, if t.Node? then |t.seps| + 1 else 0
  {
    if t.Node? {
      FlatRows(t, |t.seps|);
      assert t.seps[..|t.seps|] == t.seps;
      assert Tidy(Kid(t, |t.seps|));
      ContentsRows(t.last);
    }
  }
}
