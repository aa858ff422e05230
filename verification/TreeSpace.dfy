/**
  Space in the pages of the tree. The splits ignore whether AddCell found room; when cell weights
  stay within a factor of two of each other, room is always found.
 */
module TreeSpace {
  import opened Keys
  import opened Pages
  import opened Tree
  import opened TreeOrder

  /** The total weight of a list of cells. */
  function Load(cells: seq<Cell>): nat {
    TotalSize(cells) + SLOT_SIZE * |cells|
  }

  function TheCells(t: Tree): seq<Cell> {
    match t
    case Leaf(_, cells, _) => cells
    case Node(_, seps, _, _) => Branches(seps)
  }

  /** No page's cell bodies reach into its slot array: FreeSpace is never negative. */
  ghost predicate SpaceOk(t: Tree)
    decreases t
  {
    && TotalSize(TheCells(t)) <= PAGE_SIZE - t.off
    && t.off >= HEADER_SIZE + SLOT_SIZE * |TheCells(t)|
    && (t.Node? ==> forall i | 0 <= i <= |t.seps| :: SpaceOk(Kid(t, i)))
  }

  ghost predicate SpaceOkOut(o: Outcome) {
    match o
    case One(t) => SpaceOk(t)
    case Two(l, _, r) => SpaceOk(l) && SpaceOk(r)
  }

  // ---- Arithmetic of loads ----

  lemma LoadAppend(a: seq<Cell>, b: seq<Cell>)
    ensures Load(a + b) == Load(a) + Load(b)
  {
    TotalSizeAppend(a, b);
  }

  lemma LoadSingle(c: Cell)
    ensures Load([c]) == Weight(c)
  {
    assert [c][..|[c]| - 1] == [];
    assert TotalSize([c]) == TotalSize([]) + Size(c);
  }

  lemma LoadInsert(cells: seq<Cell>, i: nat, c: Cell)
    requires i <= |cells|
    ensures Load(InsertAt(cells, i, c)) == Load(cells) + Weight(c)
  {
    LoadAppend(cells[..i] + [c], cells[i..]);
    LoadAppend(cells[..i], [c]);
    LoadAppend(cells[..i], cells[i..]);
    LoadSingle(c);
    assert cells == cells[..i] + cells[i..];
  }

  lemma LoadRemove(cells: seq<Cell>, i: nat)
    requires i < |cells|
    ensures Load(cells) == Load(RemoveAt(cells, i)) + Weight(cells[i])
  {
    LoadInsert(RemoveAt(cells, i), i, cells[i]);
    assert InsertAt(RemoveAt(cells, i), i, cells[i]) == cells;
  }

  // ---- The bound ----

  ghost predicate Within(cells: seq<Cell>, m: nat, M: nat) {
    forall i :: 0 <= i < |cells| ==> m <= Weight(cells[i]) <= M
  }

  lemma {:induction false} LoadBounds(cells: seq<Cell>, m: nat, M: nat)
    requires Within(cells, m, M)
    ensures |cells| >= 2 ==> Load(cells) >= 2 * m
    ensures |cells| <= 2 ==> Load(cells) <= 2 * M
  {
    if |cells| >= 2 {
      assert cells == cells[..1] + ([cells[1]] + cells[2..]);
      LoadAppend(cells[..1], [cells[1]] + cells[2..]);
      LoadAppend([cells[1]], cells[2..]);
      assert cells[..1] == [cells[0]];
      LoadSingle(cells[0]);
      LoadSingle(cells[1]);
      if |cells| == 2 { assert cells[2..] == []; }
    } else if |cells| == 1 {
      assert cells == [cells[0]];
      LoadSingle(cells[0]);
    }
  }

  /**
    One cell more than fit in a page: cut in the middle, both halves fit, provided no cell weighs
    more than two others or more than half a page.
   */
  lemma CutFits(all: seq<Cell>, spare: nat, m: nat, M: nat)
    requires Within(all, m, M) && M <= 2 * m && 2 * M <= CAPACITY
    requires spare <= M && Load(all) <= CAPACITY + spare
    ensures Fits(all[..|all| / 2]) && Fits(all[|all| / 2..])
  {
    var mid := |all| / 2;
    assert all == all[..mid] + all[mid..];
    LoadAppend(all[..mid], all[mid..]);
    LoadBounds(all[..mid], m, M);
    LoadBounds(all[mid..], m, M);
  }

  /** Bounds on the weight of leaf cells and of the separators that leaf keys can become. */
  datatype Weights = Weights(leafMin: nat, leafMax: nat, sepMin: nat, sepMax: nat)

  /** No row weighs more than two others, or more than half a page. */
  predicate LeafBalance(w: Weights) { w.leafMax <= 2 * w.leafMin && 2 * w.leafMax <= CAPACITY }

  /** The same for separators; those of integer keys all weigh the same. */
  predicate SepBalance(w: Weights) { w.sepMax <= 2 * w.sepMin && 2 * w.sepMax <= CAPACITY }

  predicate Balance(w: Weights) { LeafBalance(w) && SepBalance(w) }

  /** Integer keys need no more: with them internal pages split without loss, whatever the rows weigh. */
  lemma IntegerKeys(c: Cell, most: nat)
    requires c.key.pk.IntKey? && Weight(c) <= most
    ensures var w := Weights(0, most, 21, 21); SepBalance(w) && CellWithin(c, w)
  {}

  function SepWeight(k: Key): nat {
    Weight(Cell(k, Child(0)))
  }

  predicate SepWithin(k: Key, w: Weights) {
    w.sepMin <= SepWeight(k) <= w.sepMax
  }

  predicate CellWithin(c: Cell, w: Weights) {
    w.leafMin <= Weight(c) <= w.leafMax && SepWithin(c.key, w)
  }

  ghost predicate AllWithin(cells: seq<Cell>, w: Weights) {
    forall i | 0 <= i < |cells| :: CellWithin(cells[i], w)
  }

  ghost predicate Weighted(t: Tree, w: Weights)
    decreases t
  {
    match t
    case Leaf(_, cells, _) => AllWithin(cells, w)
    case Node(_, seps, _, _) =>
      && (forall i | 0 <= i < |seps| :: SepWithin(seps[i].key, w))
      && (forall i | 0 <= i <= |seps| :: Weighted(Kid(t, i), w))
  }

  ghost predicate WeightedOut(o: Outcome, w: Weights) {
    match o
    case One(t) => Weighted(t, w)
    case Two(l, sep, r) => Weighted(l, w) && Weighted(r, w) && SepWithin(sep, w)
  }

  lemma BaseWithin(cells: seq<Cell>, key: Key, mode: Mode)
    ensures forall x :: x in Base(cells, key, mode) ==> x in cells
    ensures Load(Base(cells, key, mode)) <= Load(cells)
    ensures TotalSize(Base(cells, key, mode)) <= TotalSize(cells) && |Base(cells, key, mode)| <= |cells|
  {
    var i := Find(cells, key);
    if i < |cells| { LoadRemove(cells, i); }
  }

  lemma SplitSepsLoad(t: Tree, i: nat, l: Tree, sep: Key, r: Tree)
    requires t.Node? && i <= |t.seps|
    ensures Load(Branches(SplitSeps(t, i, l, sep, r))) == Load(Branches(t.seps)) + SepWeight(sep)
  {
    hide Load, Size, KeySize;
    var b, c := Branches(t.seps), Cell(sep, Child(l.id));
    LoadInsert(b, i, c);
    SplitSepsCells(t, i, l, sep, r);
    if i < |t.seps| {
      var d := Cell(t.seps[i].key, Child(r.id));
      LoadSwap(b[..i] + [c], b[i], d, b[i + 1..]);
    }
    SepWeights(sep, l.id, 0);
  }

  lemma SepWeights(k: Key, a: PageId, b: PageId)
    ensures Weight(Cell(k, Child(a))) == Weight(Cell(k, Child(b)))
  {}

  /** Exchanging a child pointer changes no size. */
  lemma LoadSwap(a: seq<Cell>, x: Cell, y: Cell, b: seq<Cell>)
    requires x.key == y.key && x.body.Child? && y.body.Child?
    ensures Load(a + ([x] + b)) == Load(a + ([y] + b))
  {
    LoadAppend(a, [x] + b);
    LoadAppend(a, [y] + b);
    LoadAppend([x], b);
    LoadAppend([y], b);
    LoadSingle(x);
    LoadSingle(y);
  }

  lemma SplitSepsCells(t: Tree, i: nat, l: Tree, sep: Key, r: Tree)
    requires t.Node? && i <= |t.seps|
    ensures var b, b', c := Branches(t.seps), Branches(SplitSeps(t, i, l, sep, r)), Cell(sep, Child(l.id));
            if i < |t.seps| then
              && b' == b[..i] + [c] + ([Cell(t.seps[i].key, Child(r.id))] + b[i + 1..])
              && InsertAt(b, i, c) == b[..i] + [c] + ([b[i]] + b[i + 1..])
            else b' == InsertAt(b, i, c)
  {
    var b, b', c := Branches(t.seps), Branches(SplitSeps(t, i, l, sep, r)), Cell(sep, Child(l.id));
    if i < |t.seps| {
      var all := b[..i] + [c] + ([Cell(t.seps[i].key, Child(r.id))] + b[i + 1..]);
      forall j | 0 <= j < |b'| ensures b'[j] == all[j] {}
      assert b[i..] == [b[i]] + b[i + 1..];
    }
  }

  lemma GrownWeighted(t: Tree, i: nat, o: Outcome, off: int, w: Weights)
    requires t.Node? && i <= |t.seps| && o.Two? && Weighted(t, w) && WeightedOut(o, w)
    ensures Weighted(Grown(t, i, o, off), w)
  {
    var g := Grown(t, i, o, off);
    GrownSepKeys(t, i, o, off);
    forall j | 0 <= j <= |g.seps| ensures Weighted(Kid(g, j), w) {
      GrownKid(t, i, o, off, Unbounded, Unbounded, j);
      if j < i { assert Weighted(Kid(t, j), w); }
      if j > i + 1 { assert Weighted(Kid(t, j - 1), w); }
    }
  }

  lemma HalvesWeighted(g: Tree, next: PageId, w: Weights)
    requires g.Node? && g.seps != [] && Weighted(g, w)
    ensures WeightedOut(Halves(g, next), w)
  {
    HalvesKids(g, next, Unbounded, Unbounded);
    var h, mid := Halves(g, next), |g.seps| / 2;
    forall j | 0 <= j <= mid ensures Weighted(Kid(h.left, j), w) { assert Weighted(Kid(g, j), w); }
    forall j | 0 <= j <= |h.right.seps| ensures Weighted(Kid(h.right, j), w) { assert Weighted(Kid(g, mid + 1 + j), w); }
  }

  lemma SortedWithin(cells: seq<Cell>, c: Cell, w: Weights)
    requires AllWithin(cells, w) && CellWithin(c, w)
    ensures AllWithin(Sorted(cells, c), w)
  {
    hide CellWithin;
  }

  lemma BaseAllWithin(cells: seq<Cell>, key: Key, mode: Mode, w: Weights)
    requires AllWithin(cells, w)
    ensures AllWithin(Base(cells, key, mode), w)
  {
    hide CellWithin;
  }

  lemma PutLeafWeighted(t: Tree, mode: Mode, c: Cell, next: PageId, w: Weights)
    requires t.Leaf? && Weighted(t, w) && CellWithin(c, w)
    ensures WeightedOut(PutLeaf(t, mode, c, next), w)
  {
    hide CellWithin, SepWithin, Base, Sorted, RoomFor, FilledOff, Kept;
    var base := Base(t.cells, c.key, mode);
    var all := Sorted(base, c);
    BaseAllWithin(t.cells, c.key, mode, w);
    SortedWithin(base, c, w);
    SortedNotEmpty(base, c);
    WithinKeys(all, w);
    KeptWithin(all[..|all| / 2], w);
    KeptWithin(all[|all| / 2..], w);
  }

  lemma KeptWithin(cells: seq<Cell>, w: Weights)
    requires AllWithin(cells, w)
    ensures AllWithin(Kept(cells), w)
  {
    hide CellWithin;
    KeptAreCells(cells);
    forall i | 0 <= i < |Kept(cells)| ensures CellWithin(Kept(cells)[i], w) { assert Kept(cells)[i] in cells; }
  }

  lemma SortedNotEmpty(cells: seq<Cell>, c: Cell)
    ensures |Sorted(cells, c)| == |cells| + 1
  {}

  lemma WithinKeys(cells: seq<Cell>, w: Weights)
    requires AllWithin(cells, w)
    ensures forall i | 0 <= i < |cells| :: SepWithin(cells[i].key, w)
  {}

  lemma ReplacedWeighted(t: Tree, i: nat, k: Tree, w: Weights)
    requires t.Node? && i <= |t.seps| && Weighted(t, w) && Weighted(k, w)
    ensures Weighted(ReplaceKid(t, i, k), w)
  {
    ReplacedKids(t, i, k, Unbounded, Unbounded);
    var t' := ReplaceKid(t, i, k);
    forall j | 0 <= j <= |t'.seps| ensures Weighted(Kid(t', j), w) { assert Weighted(Kid(t, j), w); }
  }

  lemma SettledWeighted(g: Tree, room: bool, next: PageId, w: Weights)
    requires g.Node? && g.seps != [] && Weighted(g, w)
    ensures WeightedOut(Settle(g, room, next), w)
  {
    if !room { HalvesWeighted(g, next, w); }
  }

  lemma PutNodeWeighted(t: Tree, i: nat, o: Outcome, next: PageId, w: Weights)
    requires t.Node? && i <= |t.seps| && Weighted(t, w) && WeightedOut(o, w)
    ensures WeightedOut(PutNode(t, i, o, next), w)
  {
    if o.One? {
      ReplacedWeighted(t, i, o.t, w);
    } else {
      var g := Charged(t, i, o);
      GrownWeighted(t, i, o, g.off, w);
      SettledWeighted(g, RoomFor(t.off, |t.seps|, Cell(o.sep, Child(o.left.id))), next, w);
    }
  }

  /** The bounds survive every insertion and update of a cell within them. */
  lemma {:induction false} PutWeighted(t: Tree, mode: Mode, c: Cell, next: PageId, w: Weights)
    requires Weighted(t, w) && CellWithin(c, w)
    ensures WeightedOut(Put(t, mode, c, next).0, w)
    decreases t
  {
    if t.Leaf? {
      PutLeafWeighted(t, mode, c, next, w);
    } else {
      var i := Route(t, c.key);
      assert Weighted(Kid(t, i), w);
      PutWeighted(Kid(t, i), mode, c, next, w);
      var (o, f) := Put(Kid(t, i), mode, c, next);
      PutNodeWeighted(t, i, o, f, w);
    }
  }

  lemma PutLeafFits(t: Tree, mode: Mode, c: Cell, w: Weights)
    requires t.Leaf? && Weighted(t, w) && SpaceOk(t) && CellWithin(c, w) && LeafBalance(w)
    ensures LeafFits(t, mode, c)
  {
    BaseWithin(t.cells, c.key, mode);
    var base := Base(t.cells, c.key, mode);
    var all := Sorted(base, c);
    LoadInsert(base, UpperBound(base, c.key), c);
    forall j | 0 <= j < |all| ensures w.leafMin <= Weight(all[j]) <= w.leafMax {
      if all[j] != c { assert all[j] in base; }
    }
    CutFits(all, Weight(c), w.leafMin, w.leafMax);
  }

  lemma BranchesCut(seps: seq<Sep>, mid: nat)
    requires mid < |seps|
    ensures Branches(seps)[..mid] == Branches(seps[..mid])
    ensures Load(Branches(seps)[mid..]) >= Load(Branches(seps[mid + 1..]))
  {
    var all := Branches(seps);
    assert all[..mid] == Branches(seps[..mid]);
    assert all[mid..] == [all[mid]] + Branches(seps[mid + 1..]);
    LoadAppend([all[mid]], Branches(seps[mid + 1..]));
  }

  lemma SplitSepsWithin(t: Tree, i: nat, o: Outcome, w: Weights)
    requires t.Node? && i <= |t.seps| && o.Two? && SepWithin(o.sep, w)
    requires forall j :: 0 <= j < |t.seps| ==> SepWithin(t.seps[j].key, w)
    ensures Within(Branches(SplitSeps(t, i, o.left, o.sep, o.right)), w.sepMin, w.sepMax)
  {
    var seps := SplitSeps(t, i, o.left, o.sep, o.right);
    GrownSepKeys(t, i, o, 0);
    forall j | 0 <= j < |seps| ensures w.sepMin <= Weight(Branches(seps)[j]) <= w.sepMax {
      assert Grown(t, i, o, 0).seps[j].key == seps[j].key;
      assert SepWithin(seps[j].key, w);
    }
  }

  lemma SplitSepsFit(t: Tree, i: nat, o: Outcome, w: Weights)
    requires t.Node? && i <= |t.seps| && o.Two? && SepBalance(w) && SepWithin(o.sep, w)
    requires forall j :: 0 <= j < |t.seps| ==> SepWithin(t.seps[j].key, w)
    requires Load(Branches(t.seps)) <= CAPACITY
    ensures HalvesFit(SplitSeps(t, i, o.left, o.sep, o.right))
  {
    var seps := SplitSeps(t, i, o.left, o.sep, o.right);
    SplitSepsLoad(t, i, o.left, o.sep, o.right);
    SplitSepsWithin(t, i, o, w);
    hide SplitSeps, Branches, Load, SepWithin, Within, SepWeight, SepBalance;
    CutFits(Branches(seps), SepWeight(o.sep), w.sepMin, w.sepMax);
    BranchesCut(seps, |seps| / 2);
  }

  /**
    The split-fit bound: with the weights of separators in [m, M], M <= 2m and 2M within a page's capacity,
    no separator is ever lost to an ignored AddCell, at any level; with those of rows so, no row is.
   */
  lemma {:induction false} WeightedFits(t: Tree, mode: Mode, c: Cell, next: PageId, w: Weights)
    requires Weighted(t, w) && SpaceOk(t) && CellWithin(c, w)
    ensures SepBalance(w) ==> PutFits(t, mode, c, next)
    ensures LeafBalance(w) ==> KeepsAll(t, mode, c)
    decreases t
  {
    if t.Leaf? {
      if LeafBalance(w) { PutLeafFits(t, mode, c, w); }
    } else {
      var i := Route(t, c.key);
      assert Weighted(Kid(t, i), w) && SpaceOk(Kid(t, i));
      WeightedFits(Kid(t, i), mode, c, next, w);
      PutWeighted(Kid(t, i), mode, c, next, w);
      var o := Put(Kid(t, i), mode, c, next).0;
      if o.Two? && SepBalance(w) { SplitSepsFit(t, i, o, w); }
    }
  }

  lemma WeightedRootFits(t: Tree, mode: Mode, c: Cell, next: PageId, w: Weights)
    requires Weighted(t, w) && SpaceOk(t) && CellWithin(c, w)
    ensures SepBalance(w) ==> PutRootFits(t, mode, c, next)
    ensures LeafBalance(w) ==> KeepsAll(t, mode, c)
  {
    WeightedFits(t, mode, c, next, w);
    PutWeighted(t, mode, c, next, w);
    var o := Put(t, mode, c, next).0;
    if o.Two? { LoadSingle(Cell(o.sep, Child(o.left.id))); }
  }

  lemma GrowWeighted(o: Outcome, next: PageId, w: Weights)
    requires WeightedOut(o, w)
    ensures Weighted(Grow(o, next), w)
  {
    if o.Two? {
      var g := Grow(o, next);
      forall i | 0 <= i <= |g.seps| ensures Weighted(Kid(g, i), w) { assert Kid(g, i) == if i == 0 then o.left else o.right; }
    }
  }

  lemma PutRootWeighted(t: Tree, mode: Mode, c: Cell, next: PageId, w: Weights)
    requires Weighted(t, w) && CellWithin(c, w)
    ensures Weighted(PutRoot(t, mode, c, next), w)
  {
    PutWeighted(t, mode, c, next, w);
    var (o, f) := Put(t, mode, c, next);
    GrowWeighted(o, f, w);
  }

  lemma {:induction false} RemoveWeighted(t: Tree, key: Key, w: Weights)
    requires Weighted(t, w)
    ensures Weighted(Remove(t, key), w)
    decreases t
  {
    if t.Leaf? {
      BaseAllWithin(t.cells, key, Updating, w);
    } else {
      var i := Route(t, key);
      assert Weighted(Kid(t, i), w);
      RemoveWeighted(Kid(t, i), key, w);
      ReplacedWeighted(t, i, Remove(Kid(t, i), key), w);
    }
  }

  // ---- Free space never becomes negative ----

  lemma PutLeafSpace(t: Tree, mode: Mode, c: Cell, next: PageId)
    requires t.Leaf? && SpaceOk(t)
    ensures SpaceOkOut(PutLeaf(t, mode, c, next))
  {
    hide Kept;
    BaseWithin(t.cells, c.key, mode);
    var base := Base(t.cells, c.key, mode);
    var all := Sorted(base, c);
    KeptFits(all[..|all| / 2]);
    KeptFits(all[|all| / 2..]);
    LoadInsert(base, UpperBound(base, c.key), c);
  }

  lemma SpaceFromKids(t: Tree)
    requires t.Node? && TotalSize(Branches(t.seps)) <= PAGE_SIZE - t.off
    requires t.off >= HEADER_SIZE + SLOT_SIZE * |t.seps|
    requires forall i :: 0 <= i <= |t.seps| ==> SpaceOk(Kid(t, i))
    ensures SpaceOk(t)
  {}

  lemma ReplacedLoad(t: Tree, i: nat, k: Tree)
    requires t.Node? && i <= |t.seps|
    ensures Load(Branches(ReplaceKid(t, i, k).seps)) == Load(Branches(t.seps))
  {
    if i < |t.seps| {
      var b, b' := Branches(t.seps), Branches(ReplaceKid(t, i, k).seps);
      LoadRemove(b, i);
      LoadRemove(b', i);
      assert RemoveAt(b, i) == RemoveAt(b', i);
    }
  }

  lemma ReplacedSpace(t: Tree, i: nat, k: Tree)
    requires t.Node? && i <= |t.seps| && SpaceOk(t) && SpaceOk(k)
    ensures SpaceOk(ReplaceKid(t, i, k))
  {
    var t' := ReplaceKid(t, i, k);
    ReplacedKids(t, i, k, Unbounded, Unbounded);
    ReplacedLoad(t, i, k);
    forall j | 0 <= j <= |t'.seps| ensures SpaceOk(Kid(t', j)) { assert SpaceOk(Kid(t, j)); }
    SpaceFromKids(t');
  }

  lemma GrownKidSpace(t: Tree, i: nat, o: Outcome, off: int, j: nat)
    requires t.Node? && i <= |t.seps| && o.Two? && j <= |t.seps| + 1 && SpaceOk(t) && SpaceOkOut(o)
    ensures SpaceOk(Kid(Grown(t, i, o, off), j))
  {
    GrownKid(t, i, o, off, Unbounded, Unbounded, j);
    if j < i { assert SpaceOk(Kid(t, j)); }
    if j > i + 1 { assert SpaceOk(Kid(t, j - 1)); }
  }

  lemma HalvesSpace(g: Tree, next: PageId)
    requires g.Node? && g.seps != [] && HalvesFit(g.seps)
    requires forall j :: 0 <= j <= |g.seps| ==> SpaceOk(Kid(g, j))
    ensures SpaceOkOut(Halves(g, next))
  {
    HalvesKids(g, next, Unbounded, Unbounded);
    var h := Halves(g, next);
    SpaceFromKids(h.left);
    SpaceFromKids(h.right);
  }

  lemma SettledSpace(g: Tree, room: bool, next: PageId)
    requires g.Node? && g.seps != [] && forall j :: 0 <= j <= |g.seps| ==> SpaceOk(Kid(g, j))
    requires if room then Load(Branches(g.seps)) <= CAPACITY && OwnSpace(g) else HalvesFit(g.seps)
    ensures SpaceOkOut(Settle(g, room, next))
  {
    if room { SpaceFromKids(g); } else { HalvesSpace(g, next); }
  }

  /** The page of the node itself has its cells clear of its slots. */
  predicate OwnSpace(t: Tree) {
    TotalSize(TheCells(t)) <= PAGE_SIZE - t.off && t.off >= HEADER_SIZE + SLOT_SIZE * |TheCells(t)|
  }

  lemma ChargedSpace(t: Tree, i: nat, o: Outcome)
    requires t.Node? && i <= |t.seps| && OwnSpace(t) && o.Two?
    requires RoomFor(t.off, |t.seps|, Cell(o.sep, Child(o.left.id)))
    ensures OwnSpace(Charged(t, i, o)) && Load(Branches(Charged(t, i, o).seps)) <= CAPACITY
  {
    SplitSepsLoad(t, i, o.left, o.sep, o.right);
  }

  lemma PutNodeSpace(t: Tree, i: nat, o: Outcome, next: PageId)
    requires t.Node? && i <= |t.seps| && SpaceOk(t) && SpaceOkOut(o)
    requires o.Two? ==>
               || RoomFor(t.off, |t.seps|, Cell(o.sep, Child(o.left.id)))
               || HalvesFit(SplitSeps(t, i, o.left, o.sep, o.right))
    ensures SpaceOkOut(PutNode(t, i, o, next))
  {
    if o.One? {
      ReplacedSpace(t, i, o.t);
    } else {
      var g, room := Charged(t, i, o), RoomFor(t.off, |t.seps|, Cell(o.sep, Child(o.left.id)));
      forall j | 0 <= j <= |g.seps| ensures SpaceOk(Kid(g, j)) { GrownKidSpace(t, i, o, g.off, j); }
      if room { ChargedSpace(t, i, o); }
      SettledSpace(g, room, next);
    }
  }

  lemma {:induction false} PutSpace(t: Tree, mode: Mode, c: Cell, next: PageId)
    requires SpaceOk(t) && PutFits(t, mode, c, next)
    ensures SpaceOkOut(Put(t, mode, c, next).0)
    decreases t
  {
    if t.Leaf? {
      PutLeafSpace(t, mode, c, next);
    } else {
      var i := Route(t, c.key);
      assert SpaceOk(Kid(t, i));
      PutSpace(Kid(t, i), mode, c, next);
      var (o, f) := Put(Kid(t, i), mode, c, next);
      PutNodeSpace(t, i, o, f);
    }
  }

  lemma GrowSpace(o: Outcome, next: PageId)
    requires SpaceOkOut(o) && (o.Two? ==> Fits([Cell(o.sep, Child(o.left.id))]))
    ensures SpaceOk(Grow(o, next))
  {
    if o.Two? {
      var g, c := Grow(o, next), Cell(o.sep, Child(o.left.id));
      LoadSingle(c);
      assert Branches(g.seps) == [c];
      forall j | 0 <= j <= |g.seps| ensures SpaceOk(Kid(g, j)) {
        assert Kid(g, j) == if j == 0 then o.left else o.right;
      }
      SpaceFromKids(g);
    }
  }

  lemma PutRootSpace(t: Tree, mode: Mode, c: Cell, next: PageId)
    requires SpaceOk(t) && PutRootFits(t, mode, c, next)
    ensures SpaceOk(PutRoot(t, mode, c, next))
  {
    PutSpace(t, mode, c, next);
    var (o, f) := Put(t, mode, c, next);
    GrowSpace(o, f);
  }

  lemma {:induction false} RemoveSpace(t: Tree, key: Key)
    requires SpaceOk(t)
    ensures SpaceOk(Remove(t, key))
    decreases t
  {
    if t.Leaf? {
      BaseWithin(t.cells, key, Updating);
    } else {
      var i := Route(t, key);
      assert SpaceOk(Kid(t, i));
      RemoveSpace(Kid(t, i), key);
      ReplacedSpace(t, i, Remove(Kid(t, i), key));
    }
  }

  // ---- The bound is needed ----

  predicate HoldsCells(t: Tree, cells: seq<Cell>) { t.Leaf? && t.cells == cells }

  /**
    Three rows, one small and two of almost a page: they fill a leaf's two halves as 1 + 2, the
    second half is too heavy, and the split drops a row.
   */
  lemma UnbalancedRowIsLost(t: Tree, c: Cell, next: PageId)
    requires t.Leaf? && |t.cells| == 2 && Weight(t.cells[0]) == 40 && Weight(t.cells[1]) == 3900 && Weight(c) == 3900
    requires Lt(t.cells[0].key, t.cells[1].key) && Lt(t.cells[1].key, c.key)
    requires t.off == PAGE_SIZE - TotalSize(t.cells)
    ensures SpaceOk(t) && !KeepsAll(t, Inserting, c)
    ensures var o := PutLeaf(t, Inserting, c, next); o.Two? && HoldsCells(o.left, [t.cells[0]]) && HoldsCells(o.right, [t.cells[1]])
  {
    KeyOrder(t.cells[1].key, c.key);
    KeyTransitive(t.cells[0].key, t.cells[1].key, c.key);
    KeyOrder(t.cells[0].key, c.key);
    assert UpperBound(t.cells, c.key) == 2;
    var all := Sorted(t.cells, c);
    assert all == [t.cells[0], t.cells[1], c];
    assert t.cells == [t.cells[0]] + [t.cells[1]];
    LoadAppend([t.cells[0]], [t.cells[1]]);
    LoadSingle(t.cells[0]);
    LoadSingle(t.cells[1]);
    var right := all[1..];
    assert right == [t.cells[1]] + [c];
    LoadAppend([t.cells[1]], [c]);
    LoadSingle(c);
    assert right[..1] == [t.cells[1]];
    assert [t.cells[1]][..0] == [];
    assert Kept([t.cells[1]]) == [t.cells[1]];
    var left := all[..1];
    assert left == [t.cells[0]] && left[..0] == [];
    assert Kept(left) == left;
  }
}
