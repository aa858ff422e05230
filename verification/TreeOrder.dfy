/** Which insertions and updates keep the strict order of keys and separators. */
module TreeOrder {
  import opened Keys
  import opened Pages
  import opened Tree
  import opened TreeProofs

  ghost predicate OrderedOut(o: Outcome, lo: Bound, hi: Bound) {
    match o
    case One(t) => Ordered(t, lo, hi)
    case Two(l, sep, r) =>
      && AtLeast(sep, lo) && AtMost(sep, hi)
      && Ordered(l, lo, At(sep)) && Ordered(r, At(sep), hi)
  }

  ghost predicate StrictOut(o: Outcome, lo: Bound, hi: Bound) {
    match o
    case One(t) => Strict(t, lo, hi)
    case Two(l, sep, r) =>
      && Above(sep, lo) && Below(sep, hi)
      && Strict(l, lo, At(sep)) && Strict(r, At(sep), hi)
  }

  // ---- Children and ranges of the nodes an insertion builds ----

  lemma ReplacedKids(t: Tree, i: nat, k: Tree, lo: Bound, hi: Bound)
    requires t.Node? && i <= |t.seps|
    ensures var t' := ReplaceKid(t, i, k);
            && |t'.seps| == |t.seps|
            && (forall j :: 0 <= j < |t.seps| ==> t'.seps[j].key == t.seps[j].key)
            && (forall j :: 0 <= j <= |t.seps| ==>
                  && Kid(t', j) == (if j == i then k else Kid(t, j))
                  && Low(t', j, lo) == Low(t, j, lo)
                  && High(t', j, hi) == High(t, j, hi))
  {}

  lemma GrownKid(t: Tree, i: nat, o: Outcome, off: int, lo: Bound, hi: Bound, j: nat)
    requires t.Node? && i <= |t.seps| && o.Two? && j <= |t.seps| + 1
    ensures var g := Grown(t, i, o, off);
            && |g.seps| == |t.seps| + 1
            && (j < i ==> Kid(g, j) == Kid(t, j) && Low(g, j, lo) == Low(t, j, lo) && High(g, j, hi) == High(t, j, hi))
            && (j == i ==> Kid(g, j) == o.left && Low(g, j, lo) == Low(t, j, lo) && High(g, j, hi) == At(o.sep))
            && (j == i + 1 ==>
                  Kid(g, j) == o.right && Low(g, j, lo) == At(o.sep) && High(g, j, hi) == High(t, i, hi))
            && (j > i + 1 ==>
                  && Kid(g, j) == Kid(t, j - 1)
                  && Low(g, j, lo) == Low(t, j - 1, lo) && High(g, j, hi) == High(t, j - 1, hi))
  {}

  lemma GrownSepKeys(t: Tree, i: nat, o: Outcome, off: int)
    requires t.Node? && i <= |t.seps| && o.Two?
    ensures var g := Grown(t, i, o, off);
            && |g.seps| == |t.seps| + 1
            && forall j :: 0 <= j <= |t.seps| ==>
                 g.seps[j].key == if j < i then t.seps[j].key else if j == i then o.sep else t.seps[j - 1].key
  {}

  lemma HalvesKids(g: Tree, next: PageId, lo: Bound, hi: Bound)
    requires g.Node? && g.seps != []
    ensures var h, mid := Halves(g, next), |g.seps| / 2;
            && h.sep == g.seps[mid].key
            && |h.left.seps| == mid && |h.right.seps| == |g.seps| - mid - 1
            && (forall j :: 0 <= j < mid ==> h.left.seps[j] == g.seps[j])
            && (forall j :: 0 <= j < |h.right.seps| ==> h.right.seps[j] == g.seps[mid + 1 + j])
            && (forall j :: 0 <= j <= mid ==>
                  && Kid(h.left, j) == Kid(g, j)
                  && Low(h.left, j, lo) == Low(g, j, lo)
                  && High(h.left, j, At(h.sep)) == High(g, j, hi))
            && (forall j :: 0 <= j <= |h.right.seps| ==>
                  && Kid(h.right, j) == Kid(g, mid + 1 + j)
                  && Low(h.right, j, At(h.sep)) == Low(g, mid + 1 + j, lo)
                  && High(h.right, j, hi) == High(g, mid + 1 + j, hi))
  {}

  // ---- A node keeps the order when the child has kept it ----

  lemma ReplacedOrdered(t: Tree, i: nat, k: Tree, lo: Bound, hi: Bound)
    requires t.Node? && i <= |t.seps| && Ordered(t, lo, hi) && Ordered(k, Low(t, i, lo), High(t, i, hi))
    ensures Ordered(ReplaceKid(t, i, k), lo, hi)
  {
    ReplacedKids(t, i, k, lo, hi);
    var t' := ReplaceKid(t, i, k);
    forall j | 0 <= j <= |t'.seps| ensures Ordered(Kid(t', j), Low(t', j, lo), High(t', j, hi)) {
      if j != i { assert Ordered(Kid(t, j), Low(t, j, lo), High(t, j, hi)); }
    }
  }

  /** A separator in the range of child i extends the ascending separators. */
  lemma GrownSeps(t: Tree, i: nat, o: Outcome, off: int, lo: Bound, hi: Bound)
    requires t.Node? && i <= |t.seps| && o.Two? && SortedSeps(t.seps)
    requires forall j | 0 <= j < |t.seps| :: AtLeast(t.seps[j].key, lo) && AtMost(t.seps[j].key, hi)
    requires AtLeast(o.sep, Low(t, i, lo)) && AtMost(o.sep, High(t, i, hi))
    ensures var g := Grown(t, i, o, off);
            && SortedSeps(g.seps)
            && forall j | 0 <= j < |g.seps| :: AtLeast(g.seps[j].key, lo) && AtMost(g.seps[j].key, hi)
  {
    GrownSepKeys(t, i, o, off);
    var g := Grown(t, i, o, off);
    forall j | 0 <= j < i ensures Le(t.seps[j].key, o.sep) {
      if j < i - 1 { LeLe(t.seps[j].key, t.seps[i - 1].key, o.sep); }
    }
    forall j | i <= j < |t.seps| ensures Le(o.sep, t.seps[j].key) {
      if i < j { LeLe(o.sep, t.seps[i].key, t.seps[j].key); }
    }
    if i > 0 && lo.At? { LeLe(lo.key, t.seps[i - 1].key, o.sep); }
    if i < |t.seps| && hi.At? { LeLe(o.sep, t.seps[i].key, hi.key); }
    forall j, k | 0 <= j < k < |g.seps| ensures Le(g.seps[j].key, g.seps[k].key) {
      if j != i && k != i { assert Le(t.seps[if j < i then j else j - 1].key, t.seps[if k < i then k else k - 1].key); }
    }
    forall j | 0 <= j < |g.seps| ensures AtLeast(g.seps[j].key, lo) && AtMost(g.seps[j].key, hi) {
      if j != i { assert AtLeast(t.seps[if j < i then j else j - 1].key, lo); }
    }
  }

  lemma GrownOrdered(t: Tree, i: nat, o: Outcome, off: int, lo: Bound, hi: Bound)
    requires t.Node? && i <= |t.seps| && o.Two? && Ordered(t, lo, hi) && OrderedOut(o, Low(t, i, lo), High(t, i, hi))
    ensures Ordered(Grown(t, i, o, off), lo, hi)
  {
    var g := Grown(t, i, o, off);
    GrownSeps(t, i, o, off, lo, hi);
    forall j | 0 <= j <= |g.seps| ensures Ordered(Kid(g, j), Low(g, j, lo), High(g, j, hi)) {
      GrownKid(t, i, o, off, lo, hi, j);
      if j < i { assert Ordered(Kid(t, j), Low(t, j, lo), High(t, j, hi)); }
      if j > i + 1 { assert Ordered(Kid(t, j - 1), Low(t, j - 1, lo), High(t, j - 1, hi)); }
    }
  }

  lemma LeftKeepsOrder(g: Tree, next: PageId, lo: Bound, hi: Bound)
    requires g.Node? && g.seps != [] && Ordered(g, lo, hi)
    ensures var h := Halves(g, next); Ordered(h.left, lo, At(h.sep)) && AtLeast(h.sep, lo) && AtMost(h.sep, hi)
  {
    HalvesKids(g, next, lo, hi);
    var h, mid := Halves(g, next), |g.seps| / 2;
    forall j | 0 <= j <= mid ensures Ordered(Kid(h.left, j), Low(h.left, j, lo), High(h.left, j, At(h.sep))) {
      assert Ordered(Kid(g, j), Low(g, j, lo), High(g, j, hi));
    }
  }

  lemma RightKeepsOrder(g: Tree, next: PageId, lo: Bound, hi: Bound)
    requires g.Node? && g.seps != [] && Ordered(g, lo, hi)
    ensures var h := Halves(g, next); Ordered(h.right, At(h.sep), hi)
  {
    HalvesKids(g, next, lo, hi);
    var h, mid := Halves(g, next), |g.seps| / 2;
    forall j | 0 <= j <= |h.right.seps| ensures Ordered(Kid(h.right, j), Low(h.right, j, At(h.sep)), High(h.right, j, hi)) {
      assert Ordered(Kid(g, mid + 1 + j), Low(g, mid + 1 + j, lo), High(g, mid + 1 + j, hi));
    }
  }

  lemma PutNodeOrdered(t: Tree, i: nat, o: Outcome, next: PageId, lo: Bound, hi: Bound)
    requires t.Node? && i <= |t.seps| && Ordered(t, lo, hi) && OrderedOut(o, Low(t, i, lo), High(t, i, hi))
    ensures OrderedOut(PutNode(t, i, o, next), lo, hi)
  {
    if o.One? {
      ReplacedOrdered(t, i, o.t, lo, hi);
    } else {
      var g := Charged(t, i, o);
      GrownOrdered(t, i, o, g.off, lo, hi);
      if !RoomFor(t.off, |t.seps|, Cell(o.sep, Child(o.left.id))) {
        LeftKeepsOrder(g, next, lo, hi);
        RightKeepsOrder(g, next, lo, hi);
      }
    }
  }

  // ---- Separators repeat in a node exactly when they do in the child ----

  lemma ReplacedStrict(t: Tree, i: nat, k: Tree, lo: Bound, hi: Bound)
    requires t.Node? && i <= |t.seps| && Strict(t, lo, hi)
    ensures Strict(ReplaceKid(t, i, k), lo, hi) <==> Strict(k, Low(t, i, lo), High(t, i, hi))
  {
    ReplacedKids(t, i, k, lo, hi);
    var t' := ReplaceKid(t, i, k);
    if Strict(k, Low(t, i, lo), High(t, i, hi)) {
      forall j | 0 <= j <= |t'.seps| ensures Strict(Kid(t', j), Low(t', j, lo), High(t', j, hi)) {
        if j != i { assert Strict(Kid(t, j), Low(t, j, lo), High(t, j, hi)); }
      }
    }
    if Strict(t', lo, hi) {
      assert Strict(Kid(t', i), Low(t', i, lo), High(t', i, hi));
    }
  }

  /** A separator strictly inside the range of child i extends the strictly ascending separators. */
  lemma GrownStrictSeps(t: Tree, i: nat, o: Outcome, off: int, lo: Bound, hi: Bound)
    requires t.Node? && i <= |t.seps| && o.Two? && Strict(t, lo, hi)
    requires Above(o.sep, Low(t, i, lo)) && Below(o.sep, High(t, i, hi))
    ensures var g := Grown(t, i, o, off);
            && StrictSeps(g.seps)
            && forall j | 0 <= j < |g.seps| :: Above(g.seps[j].key, lo) && Below(g.seps[j].key, hi)
  {
    GrownSepKeys(t, i, o, off);
    var g := Grown(t, i, o, off);
    forall j | 0 <= j < i ensures Lt(t.seps[j].key, o.sep) {
      if j < i - 1 { KeyTransitive(t.seps[j].key, t.seps[i - 1].key, o.sep); }
    }
    forall j | i <= j < |t.seps| ensures Lt(o.sep, t.seps[j].key) {
      if i < j { KeyTransitive(o.sep, t.seps[i].key, t.seps[j].key); }
    }
    if i > 0 && lo.At? { KeyTransitive(lo.key, t.seps[i - 1].key, o.sep); }
    if i < |t.seps| && hi.At? { KeyTransitive(o.sep, t.seps[i].key, hi.key); }
    forall j, k | 0 <= j < k < |g.seps| ensures Lt(g.seps[j].key, g.seps[k].key) {}
  }

  lemma GrownStrict(t: Tree, i: nat, o: Outcome, off: int, lo: Bound, hi: Bound)
    requires t.Node? && i <= |t.seps| && o.Two? && Strict(t, lo, hi)
    ensures Strict(Grown(t, i, o, off), lo, hi) <==> StrictOut(o, Low(t, i, lo), High(t, i, hi))
  {
    var g := Grown(t, i, o, off);
    if StrictOut(o, Low(t, i, lo), High(t, i, hi)) {
      GrownStrictSeps(t, i, o, off, lo, hi);
      forall j | 0 <= j <= |g.seps| ensures Strict(Kid(g, j), Low(g, j, lo), High(g, j, hi)) {
        GrownKid(t, i, o, off, lo, hi, j);
        if j < i { assert Strict(Kid(t, j), Low(t, j, lo), High(t, j, hi)); }
        if j > i + 1 { assert Strict(Kid(t, j - 1), Low(t, j - 1, lo), High(t, j - 1, hi)); }
      }
    }
    if Strict(g, lo, hi) {
      GrownSepKeys(t, i, o, off);
      GrownKid(t, i, o, off, lo, hi, i);
      GrownKid(t, i, o, off, lo, hi, i + 1);
      assert Strict(Kid(g, i), Low(g, i, lo), High(g, i, hi));
      assert Strict(Kid(g, i + 1), Low(g, i + 1, lo), High(g, i + 1, hi));
      assert g.seps[i].key == o.sep;
      if i > 0 { assert Lt(g.seps[i - 1].key, g.seps[i].key); }
      if i < |t.seps| { assert Lt(g.seps[i].key, g.seps[i + 1].key); }
    }
  }

  lemma LeftKeepsStrict(g: Tree, next: PageId, lo: Bound, hi: Bound)
    requires g.Node? && g.seps != [] && Strict(g, lo, hi)
    ensures var h := Halves(g, next); Strict(h.left, lo, At(h.sep)) && Above(h.sep, lo) && Below(h.sep, hi)
  {
    HalvesKids(g, next, lo, hi);
    var h, mid := Halves(g, next), |g.seps| / 2;
    forall j | 0 <= j <= mid ensures Strict(Kid(h.left, j), Low(h.left, j, lo), High(h.left, j, At(h.sep))) {
      assert Strict(Kid(g, j), Low(g, j, lo), High(g, j, hi));
    }
  }

  lemma RightKeepsStrict(g: Tree, next: PageId, lo: Bound, hi: Bound)
    requires g.Node? && g.seps != [] && Strict(g, lo, hi)
    ensures var h := Halves(g, next); Strict(h.right, At(h.sep), hi)
  {
    HalvesKids(g, next, lo, hi);
    var h, mid := Halves(g, next), |g.seps| / 2;
    forall j | 0 <= j <= |h.right.seps| ensures Strict(Kid(h.right, j), Low(h.right, j, At(h.sep)), High(h.right, j, hi)) {
      assert Strict(Kid(g, mid + 1 + j), Low(g, mid + 1 + j, lo), High(g, mid + 1 + j, hi));
    }
  }

  lemma HalvesStrict(g: Tree, next: PageId, lo: Bound, hi: Bound)
    requires g.Node? && g.seps != []
    ensures Strict(g, lo, hi) <==> StrictOut(Halves(g, next), lo, hi)
  {
    hide Strict;
    if Strict(g, lo, hi) {
      LeftKeepsStrict(g, next, lo, hi);
      RightKeepsStrict(g, next, lo, hi);
    }
    if StrictOut(Halves(g, next), lo, hi) { HalvesJoin(g, next, lo, hi); }
  }

  lemma HalvesJoinBounds(g: Tree, next: PageId, lo: Bound, hi: Bound)
    requires g.Node? && g.seps != [] && StrictOut(Halves(g, next), lo, hi)
    ensures var sep, mid := Halves(g, next).sep, |g.seps| / 2;
            && (forall j :: 0 <= j < mid ==> Lt(g.seps[j].key, sep))
            && (forall j :: mid < j < |g.seps| ==> Lt(sep, g.seps[j].key))
            && (forall j :: 0 <= j < |g.seps| ==> Above(g.seps[j].key, lo) && Below(g.seps[j].key, hi))
  {
    HalvesKids(g, next, lo, hi);
    var h, mid := Halves(g, next), |g.seps| / 2;
    forall j | 0 <= j < |g.seps|
      ensures Above(g.seps[j].key, lo) && Below(g.seps[j].key, hi)
      ensures j < mid ==> Lt(g.seps[j].key, h.sep)
      ensures mid < j ==> Lt(h.sep, g.seps[j].key)
    {
      if j < mid {
        assert h.left.seps[j].key == g.seps[j].key;
        if hi.At? { KeyTransitive(g.seps[j].key, h.sep, hi.key); }
      } else if mid < j {
        assert h.right.seps[j - mid - 1].key == g.seps[j].key;
        if lo.At? { KeyTransitive(lo.key, h.sep, g.seps[j].key); }
      }
    }
  }

  lemma HalvesJoinSorted(g: Tree, next: PageId, lo: Bound, hi: Bound)
    requires g.Node? && g.seps != [] && StrictOut(Halves(g, next), lo, hi)
    ensures StrictSeps(g.seps)
  {
    HalvesJoinBounds(g, next, lo, hi);
    var h, mid := Halves(g, next), |g.seps| / 2;
    assert StrictSeps(g.seps[..mid]) && StrictSeps(g.seps[mid + 1..]);
    forall j, k | 0 <= j < k < |g.seps| ensures Lt(g.seps[j].key, g.seps[k].key) {
      if k < mid { assert Lt(g.seps[..mid][j].key, g.seps[..mid][k].key); }
      else if mid < j { assert Lt(g.seps[mid + 1..][j - mid - 1].key, g.seps[mid + 1..][k - mid - 1].key); }
      else if j < mid < k { KeyTransitive(g.seps[j].key, h.sep, g.seps[k].key); }
    }
  }

  lemma HalvesJoinKid(g: Tree, next: PageId, lo: Bound, hi: Bound, j: nat)
    requires g.Node? && g.seps != [] && j <= |g.seps| && StrictOut(Halves(g, next), lo, hi)
    ensures Strict(Kid(g, j), Low(g, j, lo), High(g, j, hi))
  {
    HalvesKids(g, next, lo, hi);
    var h, mid := Halves(g, next), |g.seps| / 2;
    if j <= mid {
      assert Strict(Kid(h.left, j), Low(h.left, j, lo), High(h.left, j, At(h.sep)));
    } else {
      var k := j - mid - 1;
      assert Kid(h.right, k) == Kid(g, j);
      assert Strict(Kid(h.right, k), Low(h.right, k, At(h.sep)), High(h.right, k, hi));
    }
  }

  lemma HalvesJoin(g: Tree, next: PageId, lo: Bound, hi: Bound)
    requires g.Node? && g.seps != [] && StrictOut(Halves(g, next), lo, hi)
    ensures Strict(g, lo, hi)
  {
    HalvesJoinBounds(g, next, lo, hi);
    HalvesJoinSorted(g, next, lo, hi);
    forall j | 0 <= j <= |g.seps| ensures Strict(Kid(g, j), Low(g, j, lo), High(g, j, hi)) {
      HalvesJoinKid(g, next, lo, hi, j);
    }
  }

  lemma SettledStrict(g: Tree, room: bool, next: PageId, lo: Bound, hi: Bound)
    requires g.Node? && g.seps != []
    ensures StrictOut(Settle(g, room, next), lo, hi) <==> Strict(g, lo, hi)
  {
    if !room { HalvesStrict(g, next, lo, hi); }
  }

  lemma PutNodeStrict(t: Tree, i: nat, o: Outcome, next: PageId, lo: Bound, hi: Bound)
    requires t.Node? && i <= |t.seps| && Strict(t, lo, hi)
    ensures StrictOut(PutNode(t, i, o, next), lo, hi) <==> StrictOut(o, Low(t, i, lo), High(t, i, hi))
  {
    if o.One? {
      ReplacedStrict(t, i, o.t, lo, hi);
    } else {
      var g := Charged(t, i, o);
      GrownStrict(t, i, o, g.off, lo, hi);
      SettledStrict(g, RoomFor(t.off, |t.seps|, Cell(o.sep, Child(o.left.id))), next, lo, hi);
    }
  }

  // ---- Leaves ----

  lemma InsertSorted(base: seq<Cell>, c: Cell)
    requires SortedCells(base) && forall i :: 0 <= i < |base| ==> base[i].key != c.key
    ensures SortedCells(Sorted(base, c))
  {
    var u, all := UpperBound(base, c.key), Sorted(base, c);
    forall j | 0 <= j < u ensures Lt(base[j].key, c.key) { KeyOrder(base[j].key, c.key); }
    forall j | u <= j < |base| ensures Lt(c.key, base[j].key) {
      if u < j { KeyTransitive(c.key, base[u].key, base[j].key); }
    }
    forall j, k | 0 <= j < k < |all| ensures Lt(all[j].key, all[k].key) {}
  }

  lemma SortedInsert(base: seq<Cell>, c: Cell, lo: Bound, hi: Bound)
    requires SortedCells(base) && AllIn(base, lo, hi) && InRange(c.key, lo, hi) && c.body.Data?
    requires forall i :: 0 <= i < |base| ==> base[i].key != c.key
    ensures SortedCells(Sorted(base, c)) && AllIn(Sorted(base, c), lo, hi)
  {
    InsertSorted(base, c);
  }

  lemma BaseSorted(cells: seq<Cell>, key: Key, mode: Mode)
    requires SortedCells(cells) && (mode.Inserting? ==> Find(cells, key) == |cells|)
    ensures var base := Base(cells, key, mode);
            && SortedCells(base)
            && (forall x :: x in base ==> x in cells)
            && (forall i :: 0 <= i < |base| ==> base[i].key != key)
  {
    var i := Find(cells, key);
    if mode.Updating? && i < |cells| {
      forall j | i < j < |cells| ensures cells[j].key != key { KeyOrder(cells[i].key, cells[j].key); }
    }
  }

  /** Cutting an ascending list in front of position `mid` gives two ordered leaves. */
  lemma CutOrdered(all: seq<Cell>, mid: nat, lo: Bound, hi: Bound)
    requires SortedCells(all) && AllIn(all, lo, hi) && mid < |all|
    ensures var sep := At(all[mid].key);
            && SortedCells(all[..mid]) && AllIn(all[..mid], lo, sep)
            && SortedCells(all[mid..]) && AllIn(all[mid..], sep, hi)
    ensures mid > 0 ==> Above(all[mid].key, lo)
  {
    if mid > 0 && lo.At? { LeLt(lo.key, all[0].key, all[mid].key); }
  }

  lemma PutLeafSorted(t: Tree, mode: Mode, c: Cell, lo: Bound, hi: Bound)
    requires t.Leaf? && Ordered(t, lo, hi) && InRange(c.key, lo, hi) && c.body.Data?
    requires mode.Inserting? ==> Find(t.cells, c.key) == |t.cells|
    ensures var all := Sorted(Base(t.cells, c.key, mode), c); SortedCells(all) && AllIn(all, lo, hi)
  {
    var base := Base(t.cells, c.key, mode);
    BaseSorted(t.cells, c.key, mode);
    forall i | 0 <= i < |base| ensures base[i].body.Data? && InRange(base[i].key, lo, hi) {
      assert base[i] in t.cells;
    }
    SortedInsert(base, c, lo, hi);
  }

  lemma PutLeafOrdered(t: Tree, mode: Mode, c: Cell, next: PageId, lo: Bound, hi: Bound)
    requires t.Leaf? && Ordered(t, lo, hi) && InRange(c.key, lo, hi) && c.body.Data?
    requires mode.Inserting? ==> Find(t.cells, c.key) == |t.cells|
    ensures OrderedOut(PutLeaf(t, mode, c, next), lo, hi)
    ensures StrictOut(PutLeaf(t, mode, c, next), lo, hi) <==> !Hazard(t, mode, c, lo)
  {
    PutLeafSorted(t, mode, c, lo, hi);
    var base := Base(t.cells, c.key, mode);
    if !RoomFor(t.off, |base|, c) { CutLeafOrdered(t, base, c, next, lo, hi); }
  }

  lemma {:induction false} KeptOrdered(cells: seq<Cell>, lo: Bound, hi: Bound)
    requires SortedCells(cells) && AllIn(cells, lo, hi)
    ensures SortedCells(Kept(cells)) && AllIn(Kept(cells), lo, hi)
  {
    if cells != [] {
      var before := cells[..|cells| - 1];
      KeptOrdered(before, lo, hi);
      KeptAreCells(before);
      forall i | 0 <= i < |Kept(before)| ensures Lt(Kept(before)[i].key, cells[|cells| - 1].key) { assert Kept(before)[i] in before; }
    }
  }

  lemma CutLeafOrdered(t: Tree, base: seq<Cell>, c: Cell, next: PageId, lo: Bound, hi: Bound)
    requires var all := Sorted(base, c); SortedCells(all) && AllIn(all, lo, hi)
    ensures var all := Sorted(base, c);
            var mid := |all| / 2;
            var o := Two(KeptLeaf(t.id, all[..mid]), all[mid].key, KeptLeaf(next, all[mid..]));
            OrderedOut(o, lo, hi) && (StrictOut(o, lo, hi) <==> !(base == [] && lo == At(c.key)))
  {
    hide Kept;
    var all := Sorted(base, c);
    var mid := |all| / 2;
    CutOrdered(all, mid, lo, hi);
    KeptOrdered(all[..mid], lo, At(all[mid].key));
    KeptOrdered(all[mid..], At(all[mid].key), hi);
    if base == [] {
      assert all[0] == c;
      KeyOrder(c.key, c.key);
    }
  }

  lemma FindAgain(t: Tree, key: Key, lo: Bound, hi: Bound)
    requires t.Node? && Ordered(t, lo, hi) && InRange(key, lo, hi)
    requires Find(Contents(t), key) == |Contents(t)|
    ensures var k := Kid(t, Route(t, key)); Find(Contents(k), key) == |Contents(k)|
  {
    var i := Route(t, key);
    RouteSeparates(t, key, lo, hi);
    Around(t, i);
    FindThrough(Before(t, i), Contents(Kid(t, i)), Behind(t, i), key);
  }

  /** An insertion of an absent key, and an update, keep the order, whatever splits. */
  lemma {:induction false} PutOrdered(t: Tree, mode: Mode, c: Cell, next: PageId, lo: Bound, hi: Bound)
    requires Ordered(t, lo, hi) && InRange(c.key, lo, hi) && c.body.Data?
    requires mode.Inserting? ==> Find(Contents(t), c.key) == |Contents(t)|
    ensures OrderedOut(Put(t, mode, c, next).0, lo, hi)
    decreases t
  {
    if t.Leaf? {
      PutLeafOrdered(t, mode, c, next, lo, hi);
    } else {
      var i := Route(t, c.key);
      RouteInRange(t, c.key, lo, hi);
      if mode.Inserting? { FindAgain(t, c.key, lo, hi); }
      PutOrdered(Kid(t, i), mode, c, next, Low(t, i, lo), High(t, i, hi));
      var (o, f) := Put(Kid(t, i), mode, c, next);
      PutNodeOrdered(t, i, o, f, lo, hi);
    }
  }

  /**
    The exact condition under which no separator comes to repeat: no leaf without another live cell
    splits on its own lower separator.
   */
  lemma {:induction false} PutStrict(t: Tree, mode: Mode, c: Cell, next: PageId, lo: Bound, hi: Bound)
    requires Ordered(t, lo, hi) && Strict(t, lo, hi) && InRange(c.key, lo, hi) && c.body.Data?
    requires mode.Inserting? ==> Find(Contents(t), c.key) == |Contents(t)|
    ensures StrictOut(Put(t, mode, c, next).0, lo, hi) <==> !Hazard(t, mode, c, lo)
    decreases t
  {
    if t.Leaf? {
      PutLeafOrdered(t, mode, c, next, lo, hi);
    } else {
      var i := Route(t, c.key);
      RouteInRange(t, c.key, lo, hi);
      if mode.Inserting? { FindAgain(t, c.key, lo, hi); }
      assert Strict(Kid(t, i), Low(t, i, lo), High(t, i, hi));
      PutStrict(Kid(t, i), mode, c, next, Low(t, i, lo), High(t, i, hi));
      var (o, f) := Put(Kid(t, i), mode, c, next);
      PutNodeStrict(t, i, o, f, lo, hi);
    }
  }

  /** The separator of a split lies in the range of the subtree; it is never the upper end if separators do not repeat. */
  lemma {:induction false} PutSepInRange(t: Tree, mode: Mode, c: Cell, next: PageId, lo: Bound, hi: Bound)
    requires Ordered(t, lo, hi) && Strict(t, lo, hi) && InRange(c.key, lo, hi)
    ensures var o := Put(t, mode, c, next).0; o.Two? ==> InRange(o.sep, lo, hi)
    decreases t
  {
    if t.Leaf? {
      PutLeafSep(t, mode, c, next, lo, hi);
    } else {
      var i := Route(t, c.key);
      RouteInRange(t, c.key, lo, hi);
      assert Strict(Kid(t, i), Low(t, i, lo), High(t, i, hi));
      PutSepInRange(Kid(t, i), mode, c, next, Low(t, i, lo), High(t, i, hi));
      var (o, f) := Put(Kid(t, i), mode, c, next);
      if o.Two? { PutNodeSepInRange(t, i, o, f, lo, hi); }
    }
  }

  lemma PutLeafSep(t: Tree, mode: Mode, c: Cell, next: PageId, lo: Bound, hi: Bound)
    requires t.Leaf? && Ordered(t, lo, hi) && InRange(c.key, lo, hi)
    ensures var o := PutLeaf(t, mode, c, next); o.Two? ==> InRange(o.sep, lo, hi)
  {
    var base := Base(t.cells, c.key, mode);
    var all := Sorted(base, c);
    var x := all[|all| / 2];
    if x != c {
      assert x in base;
      assert x in t.cells;
    }
  }

  lemma SepInNode(t: Tree, i: nat, sep: Key, lo: Bound, hi: Bound)
    requires t.Node? && i <= |t.seps| && Strict(t, lo, hi) && InRange(sep, Low(t, i, lo), High(t, i, hi))
    ensures InRange(sep, lo, hi)
  {
    if i > 0 && lo.At? { LeLe(lo.key, t.seps[i - 1].key, sep); }
    if i < |t.seps| && hi.At? { KeyTransitive(sep, t.seps[i].key, hi.key); }
  }

  lemma PutNodeSepInRange(t: Tree, i: nat, o: Outcome, next: PageId, lo: Bound, hi: Bound)
    requires t.Node? && i <= |t.seps| && o.Two? && Strict(t, lo, hi)
    requires InRange(o.sep, Low(t, i, lo), High(t, i, hi))
    ensures var o' := PutNode(t, i, o, next); o'.Two? ==> InRange(o'.sep, lo, hi)
  {
    SepInNode(t, i, o.sep, lo, hi);
    GrownSepKeys(t, i, o, Charged(t, i, o).off);
  }

  /** In any case the separator lies between the ends of the range. */
  lemma {:induction false} PutSepBetween(t: Tree, mode: Mode, c: Cell, next: PageId, lo: Bound, hi: Bound)
    requires Ordered(t, lo, hi) && InRange(c.key, lo, hi)
    ensures var o := Put(t, mode, c, next).0; o.Two? ==> AtLeast(o.sep, lo) && AtMost(o.sep, hi)
    decreases t
  {
    if t.Leaf? {
      PutLeafSep(t, mode, c, next, lo, hi);
    } else {
      var i := Route(t, c.key);
      RouteInRange(t, c.key, lo, hi);
      PutSepBetween(Kid(t, i), mode, c, next, Low(t, i, lo), High(t, i, hi));
      var (o, f) := Put(Kid(t, i), mode, c, next);
      if o.Two? { GrownSeps(t, i, o, Charged(t, i, o).off, lo, hi); }
    }
  }

  /** The separator passed up by child i lies between its neighbours, strictly below the child's own. */
  predicate Between(t: Tree, i: nat, sep: Key, lo: Bound)
    requires t.Node? && i <= |t.seps|
  {
    AtLeast(sep, Low(t, i, lo)) && (i < |t.seps| ==> Lt(sep, t.seps[i].key))
  }

  /** It then goes where findInsertPos puts it: in front of the child's own. */
  lemma SepPosition(t: Tree, i: nat, sep: Key, lo: Bound, hi: Bound)
    requires t.Node? && i <= |t.seps| && Ordered(t, lo, hi) && Between(t, i, sep, lo)
    ensures UpperBound(Branches(t.seps), sep) == i
  {
    var u := UpperBound(Branches(t.seps), sep);
    if u < i {
      SepsBelow(t, u, i - 1, sep);
      assert false;
    }
  }

  lemma SepsBelow(t: Tree, u: nat, v: nat, sep: Key)
    requires t.Node? && SortedSeps(t.seps) && u <= v < |t.seps| && Le(t.seps[v].key, sep)
    ensures !Lt(sep, t.seps[u].key)
  {
    OrderLaws();
  }

  /** Without repeated separators every separator that is passed up finds its place. */
  lemma {:induction false} StrictPlaced(t: Tree, mode: Mode, c: Cell, next: PageId, lo: Bound, hi: Bound)
    requires Ordered(t, lo, hi) && Strict(t, lo, hi) && InRange(c.key, lo, hi)
    ensures Placed(t, mode, c, next)
    decreases t
  {
    if t.Node? {
      var i := Route(t, c.key);
      RouteInRange(t, c.key, lo, hi);
      assert Strict(Kid(t, i), Low(t, i, lo), High(t, i, hi));
      StrictPlaced(Kid(t, i), mode, c, next, Low(t, i, lo), High(t, i, hi));
      PutSepInRange(Kid(t, i), mode, c, next, Low(t, i, lo), High(t, i, hi));
      var o := Put(Kid(t, i), mode, c, next).0;
      if o.Two? { SepPosition(t, i, o.sep, lo, hi); }
    }
  }

  /** More generally they all do unless one equals the child's own. */
  lemma PlacedIff(t: Tree, i: nat, o: Outcome, lo: Bound, hi: Bound)
    requires t.Node? && i <= |t.seps| && Ordered(t, lo, hi) && o.Two?
    requires AtLeast(o.sep, Low(t, i, lo)) && AtMost(o.sep, High(t, i, hi))
    ensures UpperBound(Branches(t.seps), o.sep) == i <==> !(i < |t.seps| && o.sep == t.seps[i].key)
  {
    if i < |t.seps| && o.sep == t.seps[i].key {
      KeyOrder(o.sep, o.sep);
      assert !Lt(o.sep, Branches(t.seps)[i].key);
    } else {
      SepPosition(t, i, o.sep, lo, hi);
    }
  }

  lemma GrowOrdered(o: Outcome, next: PageId)
    requires OrderedOut(o, Unbounded, Unbounded)
    ensures Ordered(Grow(o, next), Unbounded, Unbounded)
  {
    if o.Two? {
      var g := Grow(o, next);
      GrowKids(o, next);
      forall i | 0 <= i <= |g.seps| ensures Ordered(Kid(g, i), Low(g, i, Unbounded), High(g, i, Unbounded)) {}
    }
  }

  lemma GrowKids(o: Outcome, next: PageId)
    requires o.Two?
    ensures var g := Grow(o, next);
            && |g.seps| == 1 && Kid(g, 0) == o.left && Kid(g, 1) == o.right
            && Low(g, 0, Unbounded) == Unbounded && High(g, 0, Unbounded) == At(o.sep)
            && Low(g, 1, Unbounded) == At(o.sep) && High(g, 1, Unbounded) == Unbounded
  {}

  lemma GrowStrict(o: Outcome, next: PageId)
    ensures Strict(Grow(o, next), Unbounded, Unbounded) <==> StrictOut(o, Unbounded, Unbounded)
  {
    if o.Two? {
      var g := Grow(o, next);
      GrowKids(o, next);
      if StrictOut(o, Unbounded, Unbounded) {
        forall i | 0 <= i <= |g.seps| ensures Strict(Kid(g, i), Low(g, i, Unbounded), High(g, i, Unbounded)) {}
      }
      if Strict(g, Unbounded, Unbounded) {
        assert Strict(Kid(g, 0), Low(g, 0, Unbounded), High(g, 0, Unbounded));
        assert Strict(Kid(g, 1), Low(g, 1, Unbounded), High(g, 1, Unbounded));
      }
    }
  }

  /** The same for the whole tree. */
  lemma PutRootOrdered(t: Tree, mode: Mode, c: Cell, next: PageId)
    requires Ordered(t, Unbounded, Unbounded) && c.body.Data?
    requires mode.Inserting? ==> Find(Contents(t), c.key) == |Contents(t)|
    ensures Ordered(PutRoot(t, mode, c, next), Unbounded, Unbounded)
    ensures Strict(t, Unbounded, Unbounded) ==>
              (Strict(PutRoot(t, mode, c, next), Unbounded, Unbounded) <==> !Hazard(t, mode, c, Unbounded))
  {
    PutOrdered(t, mode, c, next, Unbounded, Unbounded);
    var (o, f) := Put(t, mode, c, next);
    GrowOrdered(o, f);
    if Strict(t, Unbounded, Unbounded) {
      PutStrict(t, mode, c, next, Unbounded, Unbounded);
      GrowStrict(o, f);
    }
  }

  lemma {:induction false} RemoveOrdered(t: Tree, key: Key, lo: Bound, hi: Bound)
    requires Ordered(t, lo, hi)
    ensures Ordered(Remove(t, key), lo, hi)
    ensures Strict(t, lo, hi) ==> Strict(Remove(t, key), lo, hi)
    decreases t
  {
    if t.Leaf? {
      BaseSorted(t.cells, key, Updating);
      var base := Base(t.cells, key, Updating);
      forall i | 0 <= i < |base| ensures base[i].body.Data? && InRange(base[i].key, lo, hi) { assert base[i] in t.cells; }
    } else {
      var i := Route(t, key);
      assert Ordered(Kid(t, i), Low(t, i, lo), High(t, i, hi));
      RemoveOrdered(Kid(t, i), key, Low(t, i, lo), High(t, i, hi));
      ReplacedOrdered(t, i, Remove(Kid(t, i), key), lo, hi);
      if Strict(t, lo, hi) {
        assert Strict(Kid(t, i), Low(t, i, lo), High(t, i, hi));
        ReplacedStrict(t, i, Remove(Kid(t, i), key), lo, hi);
      }
    }
  }
}
