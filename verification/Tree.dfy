/**
  The B+Tree as an inductive value, and insertion, update and deletion on that value
  (storage/btree/btree.go). BTree.dfy proves that the code over pages does exactly this;
  TreeProofs.dfy proves what it means.
 */
module Tree {
  import opened Keys
  import opened Pages

  /** A separator key with the child responsible for the keys below it. */
  datatype Sep = Sep(key: Key, child: Tree)

  datatype Tree =
    | Leaf(id: PageId, cells: seq<Cell>, off: int)
    | Node(id: PageId, seps: seq<Sep>, last: Tree, off: int)

  /** The cells an internal page stores for its separators. */
  function Branches(seps: seq<Sep>): (cells: seq<Cell>)
    ensures |cells| == |seps|
    ensures forall i :: 0 <= i < |seps| ==> cells[i] == Cell(seps[i].key, Child(seps[i].child.id))
  {
    seq(|seps|, i requires 0 <= i < |seps| => Cell(seps[i].key, Child(seps[i].child.id)))
  }

  function Kid(t: Tree, i: nat): (k: Tree)
    requires t.Node? && i <= |t.seps|
    ensures k < t
  {
    if i < |t.seps| then
      assert t.seps[i] in t.seps;
      t.seps[i].child
    else t.last
  }

  /** The page of the leftmost leaf, where the leaf chain of a subtree starts. */
  function FirstLeaf(t: Tree): PageId
    decreases t
  {
    if t.Leaf? then t.id else FirstLeaf(Kid(t, 0))
  }

  /** The leaf that follows child i in the chain, `nxt` being the one that follows t. */
  function After(t: Tree, i: nat, nxt: PageId): PageId
    requires t.Node? && i <= |t.seps|
  {
    if i < |t.seps| then FirstLeaf(Kid(t, i + 1)) else nxt
  }

  /** The pages represent the tree, each leaf pointing to the next one and the last to `nxt`. */
  ghost predicate Match(pages: map<PageId, Page>, t: Tree, nxt: PageId)
    decreases t
  {
    && t.id in pages
    && var p := pages[t.id];
    && p.id == t.id
    && p.off == t.off
    && match t
       case Leaf(_, cells, _) => p.kind.LeafPage? && p.cells == cells && p.right == nxt
       case Node(_, seps, last, _) =>
         && p.kind.InternalPage?
         && p.cells == Branches(seps)
         && p.right == last.id
         && forall i | 0 <= i <= |seps| :: Match(pages, Kid(t, i), After(t, i, nxt))
  }

  /** The pages of a subtree. */
  ghost function Ids(t: Tree): set<PageId>
    decreases t
  {
    if t.Leaf? then {t.id}
    else {t.id} + set i, x | 0 <= i <= |t.seps| && x in Ids(Kid(t, i)) :: x
  }

  /** No page is reachable twice. */
  ghost predicate Distinct(t: Tree)
    decreases t
  {
    t.Node? ==>
      && (forall i | 0 <= i <= |t.seps| :: Distinct(Kid(t, i)) && t.id !in Ids(Kid(t, i)))
      && (forall i, j | 0 <= i < j <= |t.seps| :: Ids(Kid(t, i)) !! Ids(Kid(t, j)))
  }

  /** All leaves lie at depth h. */
  ghost predicate Balanced(t: Tree, h: nat)
    decreases t
  {
    match t
    case Leaf(_, _, _) => h == 0
    case Node(_, seps, _, _) => h > 0 && forall i | 0 <= i <= |seps| :: Balanced(Kid(t, i), h - 1)
  }

  function Height(t: Tree): nat
    decreases t
  {
    if t.Leaf? then 0 else 1 + Height(Kid(t, 0))
  }

  /** Every internal page on the way to the leftmost leaf has a cell. */
  ghost predicate SpineOk(t: Tree)
    decreases t
  {
    t.Node? ==> |t.seps| > 0 && SpineOk(Kid(t, 0))
  }

  // ---- Order ----

  datatype Bound = Unbounded | At(key: Key)

  predicate AtLeast(k: Key, lo: Bound) { lo.At? ==> Le(lo.key, k) }
  predicate Above(k: Key, lo: Bound) { lo.At? ==> Lt(lo.key, k) }
  predicate Below(k: Key, hi: Bound) { hi.At? ==> Lt(k, hi.key) }

  /** The half-open range lo <= k < hi. */
  predicate InRange(k: Key, lo: Bound, hi: Bound) { AtLeast(k, lo) && Below(k, hi) }

  function Low(t: Tree, i: nat, lo: Bound): Bound
    requires t.Node? && i <= |t.seps|
  {
    if i == 0 then lo else At(t.seps[i - 1].key)
  }

  function High(t: Tree, i: nat, hi: Bound): Bound
    requires t.Node? && i <= |t.seps|
  {
    if i < |t.seps| then At(t.seps[i].key) else hi
  }

  predicate SortedCells(cells: seq<Cell>) {
    forall i, j :: 0 <= i < j < |cells| ==> Lt(cells[i].key, cells[j].key)
  }

  /** Cells ascend; keys may repeat. */
  predicate Ascending(cells: seq<Cell>) {
    forall i, j :: 0 <= i < j < |cells| ==> !Lt(cells[j].key, cells[i].key)
  }

  predicate Rows(cells: seq<Cell>) { forall i :: 0 <= i < |cells| ==> cells[i].body.Data? }

  /** The cells of every page ascend, and leaves hold rows. */
  ghost predicate Tidy(t: Tree)
    decreases t
  {
    match t
    case Leaf(_, cells, _) => Ascending(cells) && Rows(cells)
    case Node(_, seps, _, _) => Ascending(Branches(seps)) && forall i | 0 <= i <= |seps| :: Tidy(Kid(t, i))
  }

  /** Separators ascend; one may be there more than once. */
  predicate SortedSeps(seps: seq<Sep>) {
    forall i, j :: 0 <= i < j < |seps| ==> Le(seps[i].key, seps[j].key)
  }

  predicate AtMost(k: Key, hi: Bound) { hi.At? ==> Le(k, hi.key) }

  /** Keys strictly ascend, and those of every child lie in its half-open separator range. */
  ghost predicate Ordered(t: Tree, lo: Bound, hi: Bound)
    decreases t
  {
    match t
    case Leaf(_, cells, _) =>
      && SortedCells(cells)
      && forall i | 0 <= i < |cells| :: cells[i].body.Data? && InRange(cells[i].key, lo, hi)
    case Node(_, seps, _, _) =>
      && SortedSeps(seps)
      && (forall i | 0 <= i < |seps| :: AtLeast(seps[i].key, lo) && AtMost(seps[i].key, hi))
      && forall i | 0 <= i <= |seps| :: Ordered(Kid(t, i), Low(t, i, lo), High(t, i, hi))
  }

  predicate StrictSeps(seps: seq<Sep>) {
    forall i, j :: 0 <= i < j < |seps| ==> Lt(seps[i].key, seps[j].key)
  }

  /** No separator repeats on any path from the root. */
  ghost predicate Strict(t: Tree, lo: Bound, hi: Bound)
    decreases t
  {
    t.Node? ==>
      && StrictSeps(t.seps)
      && (forall i | 0 <= i < |t.seps| :: Above(t.seps[i].key, lo) && Below(t.seps[i].key, hi))
      && forall i | 0 <= i <= |t.seps| :: Strict(Kid(t, i), Low(t, i, lo), High(t, i, hi))
  }

  // ---- Contents ----

  /** The leaf cells below a run of separators, in order. */
  function Flat(seps: seq<Sep>): seq<Cell>
    decreases seps, 0
  {
    if seps == [] then [] else
      var s := seps[|seps| - 1];
      assert s in seps && s.child < s;
      Flat(seps[..|seps| - 1]) + Contents(s.child)
  }

  /** All leaf cells, in order. */
  function Contents(t: Tree): seq<Cell>
    decreases t, 1
  {
    match t
    case Leaf(_, cells, _) => cells
    case Node(_, seps, last, _) => Flat(seps) + Contents(last)
  }

  // ---- Searching a page ----

  /**
    The first cell whose key is greater than `key`. findInsertPos uses it as the insertion
    position and findChildPageID as the index of the responsible child.
   */
  function UpperBound(cells: seq<Cell>, key: Key): (i: nat)
    ensures i <= |cells|
    ensures forall j :: 0 <= j < i ==> !Lt(key, cells[j].key)
    ensures i < |cells| ==> Lt(key, cells[i].key)
  {
    if cells == [] || Lt(key, cells[0].key) then 0 else
      var i := 1 + UpperBound(cells[1..], key);
      assert forall j :: 0 < j < i ==> cells[j] == cells[1..][j - 1];
      i
  }

  /** The position of `key`, or the number of cells when it is absent. */
  function Find(cells: seq<Cell>, key: Key): (i: nat)
    ensures i <= |cells|
    ensures forall j :: 0 <= j < i ==> cells[j].key != key
    ensures i < |cells| ==> cells[i].key == key
  {
    if cells == [] || cells[0].key == key then 0 else
      var i := 1 + Find(cells[1..], key);
      assert forall j :: 0 < j < i ==> cells[j] == cells[1..][j - 1];
      i
  }

  function Route(t: Tree, key: Key): (i: nat)
    requires t.Node?
    ensures i <= |t.seps|
  {
    UpperBound(Branches(t.seps), key)
  }

  // ---- Insertion and update ----

  /** A subtree after an insertion: still one page at its root, or split in two around `sep`. */
  datatype Outcome = One(t: Tree) | Two(left: Tree, sep: Key, right: Tree)

  /** Insertion adds a cell; update first removes the cell that has its key. */
  datatype Mode = Inserting | Updating

  function Base(cells: seq<Cell>, key: Key, mode: Mode): seq<Cell> {
    var i := Find(cells, key);
    if mode.Updating? && i < |cells| then RemoveAt(cells, i) else cells
  }

  function Sorted(cells: seq<Cell>, c: Cell): seq<Cell> {
    InsertAt(cells, UpperBound(cells, c.key), c)
  }

  predicate RoomFor(off: int, cells: nat, c: Cell) {
    off - (HEADER_SIZE + SLOT_SIZE * cells) >= Size(c) + SLOT_SIZE
  }

  function FilledOff(cells: seq<Cell>): int {
    PAGE_SIZE - TotalSize(cells)
  }

  /** A leaf to which the cells have been offered one by one; those it has no room for are lost. */
  function KeptLeaf(id: PageId, cells: seq<Cell>): Tree {
    Leaf(id, Kept(cells), FilledOff(Kept(cells)))
  }

  /** insertIntoLeaf and updateLeaf, with splitLeaf. `next` is the next page id. */
  function PutLeaf(t: Tree, mode: Mode, c: Cell, next: PageId): Outcome
    requires t.Leaf?
  {
    var base := Base(t.cells, c.key, mode);
    var all := Sorted(base, c);
    if RoomFor(t.off, |base|, c) then One(Leaf(t.id, all, t.off - Size(c)))
    else
      var mid := |all| / 2;
      Two(KeptLeaf(t.id, all[..mid]), all[mid].key, KeptLeaf(next, all[mid..]))
  }

  function ReplaceKid(t: Tree, i: nat, k: Tree): Tree
    requires t.Node? && i <= |t.seps|
  {
    if i < |t.seps| then t.(seps := t.seps[i := Sep(t.seps[i].key, k)]) else t.(last := k)
  }

  /** The separators after child i split: the old child keeps the keys below the new separator. */
  function SplitSeps(t: Tree, i: nat, l: Tree, sep: Key, r: Tree): seq<Sep>
    requires t.Node? && i <= |t.seps|
  {
    if i < |t.seps| then t.seps[..i] + [Sep(sep, l), Sep(t.seps[i].key, r)] + t.seps[i + 1..]
    else t.seps + [Sep(sep, l)]
  }

  function SplitLast(t: Tree, i: nat, r: Tree): Tree
    requires t.Node? && i <= |t.seps|
  {
    if i < |t.seps| then t.last else r
  }

  /** The node that has taken in a split child, before it is split itself. */
  function Grown(t: Tree, i: nat, o: Outcome, off: int): Tree
    requires t.Node? && i <= |t.seps| && o.Two?
  {
    Node(t.id, SplitSeps(t, i, o.left, o.sep, o.right), SplitLast(t, i, o.right), off)
  }

  /** splitInternal: the middle separator moves up, its child becomes the left half's last. */
  function Halves(g: Tree, next: PageId): Outcome
    requires g.Node? && g.seps != []
  {
    var mid := |g.seps| / 2;
    Two(Node(g.id, g.seps[..mid], g.seps[mid].child, FilledOff(Branches(g.seps[..mid]))), g.seps[mid].key,
        Node(next, g.seps[mid + 1..], g.last, FilledOff(Branches(g.seps[mid + 1..]))))
  }

  /** A node that has taken in a split child stays one page if there was room, and is split otherwise. */
  function Settle(g: Tree, room: bool, next: PageId): Outcome
    requires g.Node? && g.seps != []
  {
    if room then One(g) else Halves(g, next)
  }

  /** The node with its split child, the new cell charged to its page. */
  function Charged(t: Tree, i: nat, o: Outcome): Tree
    requires t.Node? && i <= |t.seps| && o.Two?
  {
    Grown(t, i, o, t.off - Size(Cell(o.sep, Child(o.left.id))))
  }

  /** patchInternalAfterChildSplit, with splitInternal. */
  function PutNode(t: Tree, i: nat, o: Outcome, next: PageId): Outcome
    requires t.Node? && i <= |t.seps|
  {
    match o
    case One(k) => One(ReplaceKid(t, i, k))
    case Two(l, sep, _) => Settle(Charged(t, i, o), RoomFor(t.off, |t.seps|, Cell(sep, Child(l.id))), next)
  }

  /** insertRecursive and updateRecursive. The second result is the next page id afterwards. */
  function Put(t: Tree, mode: Mode, c: Cell, next: PageId): (Outcome, PageId)
    decreases t
  {
    match t
    case Leaf(_, _, _) =>
      var o := PutLeaf(t, mode, c, next);
      (o, if o.Two? then next + 1 else next)
    case Node(_, _, _, _) =>
      var i := Route(t, c.key);
      var (o, f) := Put(Kid(t, i), mode, c, next);
      var o' := PutNode(t, i, o, f);
      (o', if o'.Two? then f + 1 else f)
  }

  /** createNewRoot, when the root has split. */
  function Grow(o: Outcome, next: PageId): Tree {
    match o
    case One(t) => t
    case Two(l, sep, r) => Node(next, [Sep(sep, l)], r, PAGE_SIZE - Size(Cell(sep, Child(l.id))))
  }

  /** The whole tree after Insert or Update. */
  function PutRoot(t: Tree, mode: Mode, c: Cell, next: PageId): Tree {
    var (o, f) := Put(t, mode, c, next);
    Grow(o, f)
  }

  predicate HalvesFit(seps: seq<Sep>)
    requires seps != []
  {
    Fits(Branches(seps[..|seps| / 2])) && Fits(Branches(seps[|seps| / 2 + 1..]))
  }

  /** The leaf has room for the cell, or its halves fit their pages. */
  predicate LeafFits(l: Tree, mode: Mode, c: Cell)
    requires l.Leaf?
  {
    var base := Base(l.cells, c.key, mode);
    var all := Sorted(base, c);
    RoomFor(l.off, |base|, c) || (Fits(all[..|all| / 2]) && Fits(all[|all| / 2..]))
  }

  /** No row is lost by an AddCell result that is ignored. */
  predicate KeepsAll(t: Tree, mode: Mode, c: Cell) {
    LeafFits(Target(t, c.key), mode, c)
  }

  /** Every internal page split on the way fits both halves, so no separator is lost either. */
  predicate PutFits(t: Tree, mode: Mode, c: Cell, next: PageId)
    decreases t
  {
    t.Node? ==>
      var i := Route(t, c.key);
      var o := Put(Kid(t, i), mode, c, next).0;
      && PutFits(Kid(t, i), mode, c, next)
      && (o.Two? ==>
            || RoomFor(t.off, |t.seps|, Cell(o.sep, Child(o.left.id)))
            || HalvesFit(SplitSeps(t, i, o.left, o.sep, o.right)))
  }

  /** findInsertPos puts every separator that is passed up in front of the child's own. */
  predicate Placed(t: Tree, mode: Mode, c: Cell, next: PageId)
    decreases t
  {
    t.Node? ==>
      var i := Route(t, c.key);
      var o := Put(Kid(t, i), mode, c, next).0;
      Placed(Kid(t, i), mode, c, next) && (o.Two? ==> UpperBound(Branches(t.seps), o.sep) == i)
  }

  predicate PutRootFits(t: Tree, mode: Mode, c: Cell, next: PageId) {
    && PutFits(t, mode, c, next)
    && var o := Put(t, mode, c, next).0;
       o.Two? ==> Fits([Cell(o.sep, Child(o.left.id))])
  }

  /**
    A leaf that would split while it has no other live cell, on a key equal to its lower separator:
    its left half would be empty and the separator would repeat.
   */
  predicate Hazard(t: Tree, mode: Mode, c: Cell, lo: Bound)
    decreases t
  {
    match t
    case Leaf(_, cells, off) =>
      Base(cells, c.key, mode) == [] && !RoomFor(off, 0, c) && lo == At(c.key)
    case Node(_, _, _, _) =>
      var i := Route(t, c.key);
      Hazard(Kid(t, i), mode, c, Low(t, i, lo))
  }

  // ---- Deletion and search ----

  /** Delete removes the cell from its leaf; pages are never merged. */
  function Remove(t: Tree, key: Key): Tree
    decreases t
  {
    match t
    case Leaf(id, cells, off) => Leaf(id, Base(cells, key, Updating), off)
    case Node(_, _, _, _) =>
      var i := Route(t, key);
      ReplaceKid(t, i, Remove(Kid(t, i), key))
  }

  /** The leaf that findLeaf reaches. */
  function Target(t: Tree, key: Key): (l: Tree)
    ensures l.Leaf?
    decreases t
  {
    if t.Leaf? then t else Target(Kid(t, Route(t, key)), key)
  }

  /** The leaves in order. */
  function Leaves(t: Tree): (ls: seq<Tree>)
    ensures forall i :: 0 <= i < |ls| ==> ls[i].Leaf?
    decreases t, 1
  {
    match t
    case Leaf(_, _, _) => [t]
    case Node(_, seps, last, _) => LeavesOf(seps) + Leaves(last)
  }

  function LeavesOf(seps: seq<Sep>): (ls: seq<Tree>)
    ensures forall i :: 0 <= i < |ls| ==> ls[i].Leaf?
    decreases seps, 0
  {
    if seps == [] then [] else
      var s := seps[|seps| - 1];
      assert s in seps && s.child < s;
      LeavesOf(seps[..|seps| - 1]) + Leaves(s.child)
  }
}
