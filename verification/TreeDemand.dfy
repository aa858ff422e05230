/**
  Which pages an insertion or update fetches and writes, and how many new ones it makes. Together
  with the frames that cannot be given up this decides whether it finishes.
 */
module TreeDemand {
  import opened Keys
  import opened Pages
  import opened Tree
  import opened TreeShape

  /** The pages from the root to the leaf that findLeaf reaches. */
  function PathIds(t: Tree, key: Key): set<PageId>
    decreases t
  {
    {t.id} + if t.Leaf? then {} else PathIds(Kid(t, Route(t, key)), key)
  }

  /** The pages from the root to the first leaf. */
  function SpineIds(t: Tree): set<PageId>
    decreases t
  {
    {t.id} + if t.Leaf? then {} else SpineIds(Kid(t, 0))
  }

  /** A cell of a later table ends the scan of a table. */
  predicate Beyond(l: Tree, table: nat)
    requires l.Leaf?
  {
    exists i :: 0 <= i < |l.cells| && l.cells[i].key.table > table
  }

  /** The leaves that the scan of a table reads. */
  function ScannedIds(ls: seq<Tree>, table: nat): set<PageId>
    requires forall i :: 0 <= i < |ls| ==> ls[i].Leaf?
  {
    if ls == [] then {} else {ls[0].id} + if Beyond(ls[0], table) then {} else ScannedIds(ls[1..], table)
  }

  /** The ids that the allocator gives between two moments. */
  function NewIds(a: PageId, b: PageId): (ids: set<PageId>)
    ensures forall id: PageId :: id in ids <==> a <= id < b
    decreases b
  {
    if a >= b then {} else NewIds(a, b - 1) + {b - 1}
  }

  /** Update of a key that is not in the leaf: nothing is written. */
  predicate Missing(t: Tree, mode: Mode, key: Key) {
    mode == Updating && Find(Target(t, key).cells, key) == |Target(t, key).cells|
  }

  /** How many new pages the splits of a subtree ask for. */
  function Demand(t: Tree, mode: Mode, c: Cell, next: PageId): int {
    if Missing(t, mode, c.key) then 0 else Put(t, mode, c, next).1 - next
  }

  /** The pages that are written, new ones included. */
  function Touched(t: Tree, mode: Mode, c: Cell, next: PageId): set<PageId>
    decreases t
  {
    match t
    case Leaf(_, _, _) => {t.id} + if PutLeaf(t, mode, c, next).Two? then {next} else {}
    case Node(_, _, _, _) =>
      var i := Route(t, c.key);
      var (o, f) := Put(Kid(t, i), mode, c, next);
      Touched(Kid(t, i), mode, c, next) + Patches(t, i, o, f)
  }

  /** The pages that are written when a node takes in what has become of its child. */
  function Patches(t: Tree, i: nat, o: Outcome, next: PageId): set<PageId>
    requires t.Node? && i <= |t.seps|
  {
    if o.One? then {} else {t.id} + if PutNode(t, i, o, next).Two? then {next} else {}
  }

  /** The pages that are written if there are frames for `free` new pages, and no more. */
  function Finished(t: Tree, mode: Mode, c: Cell, next: PageId, free: int): set<PageId>
    decreases t
  {
    match t
    case Leaf(_, _, _) => {}
    case Node(_, _, _, _) =>
      var k := Kid(t, Route(t, c.key));
      if free < Put(k, mode, c, next).1 - next then Finished(k, mode, c, next, free) else Touched(k, mode, c, next)
  }

  /** The same with a new root. */
  function RootDemand(t: Tree, mode: Mode, c: Cell, next: PageId): int {
    Demand(t, mode, c, next) + if !Missing(t, mode, c.key) && Put(t, mode, c, next).0.Two? then 1 else 0
  }

  function RootTouched(t: Tree, mode: Mode, c: Cell, next: PageId): set<PageId> {
    var (o, f) := Put(t, mode, c, next);
    Touched(t, mode, c, next) + if o.Two? then {f} else {}
  }

  function RootFinished(t: Tree, mode: Mode, c: Cell, next: PageId, free: int): set<PageId> {
    if free < Demand(t, mode, c, next) then Finished(t, mode, c, next, free) else Touched(t, mode, c, next)
  }

  // ---- Facts about them ----

  lemma {:induction false} NextGrows(t: Tree, mode: Mode, c: Cell, next: PageId)
    ensures next <= Put(t, mode, c, next).1
    ensures Put(t, mode, c, next).0.Two? ==> next < Put(t, mode, c, next).1
    decreases t
  {
    if t.Node? {
      var i := Route(t, c.key);
      NextGrows(Kid(t, i), mode, c, next);
    }
  }

  lemma PutNodeTwo(t: Tree, i: nat, o: Outcome, next: PageId)
    requires t.Node? && i <= |t.seps|
    ensures PutNode(t, i, o, next).Two? ==> o.Two?
  {}

  /** The last page that a split asks for is its right half, and the first one is a leaf. */
  lemma {:induction false} LastHalf(t: Tree, mode: Mode, c: Cell, next: PageId)
    ensures var (o, f) := Put(t, mode, c, next);
            o.Two? ==> next < f && o.right.id == f - 1 && (o.right.Leaf? <==> f == next + 1)
    decreases t
  {
    if t.Node? { LastHalf(Kid(t, Route(t, c.key)), mode, c, next); }
  }

  /** A subtree that splits has had every page on the way split, and each made one new page. */
  lemma {:induction false} TwoTouched(t: Tree, mode: Mode, c: Cell, next: PageId)
    requires Put(t, mode, c, next).0.Two?
    ensures Touched(t, mode, c, next) == PathIds(t, c.key) + NewIds(next, Put(t, mode, c, next).1)
    decreases t
  {
    hide PutLeaf, PutNode, Route;
    NextGrows(t, mode, c, next);
    if t.Node? {
      var i := Route(t, c.key);
      var (o, f) := Put(Kid(t, i), mode, c, next);
      PutNodeTwo(t, i, o, f);
      TwoTouched(Kid(t, i), mode, c, next);
      NextGrows(Kid(t, i), mode, c, next);
    }
  }

  lemma {:induction false} TouchedIn(t: Tree, mode: Mode, c: Cell, next: PageId)
    ensures Touched(t, mode, c, next) <= PathIds(t, c.key) + NewIds(next, Put(t, mode, c, next).1)
    decreases t
  {
    NextGrows(t, mode, c, next);
    if t.Node? {
      var i := Route(t, c.key);
      TouchedIn(Kid(t, i), mode, c, next);
      NextGrows(Kid(t, i), mode, c, next);
    }
  }

  lemma {:induction false} PathInIds(t: Tree, key: Key)
    ensures PathIds(t, key) <= Ids(t) && Target(t, key).id in PathIds(t, key) && t.id in PathIds(t, key)
    decreases t
  {
    RootInIds(t);
    if t.Node? {
      var i := Route(t, key);
      PathInIds(Kid(t, i), key);
      KidIds(t, i);
    }
  }

  lemma {:induction false} PathLength(t: Tree, key: Key, h: nat)
    requires Balanced(t, h)
    ensures |PathIds(t, key)| <= h + 1
    decreases t
  {
    if t.Node? {
      var i := Route(t, key);
      assert Balanced(Kid(t, i), h - 1);
      PathLength(Kid(t, i), key, h - 1);
    }
  }

  lemma {:induction false} NewCount(a: PageId, b: PageId)
    requires a <= b
    ensures |NewIds(a, b)| == b - a
    decreases b
  {
    if a < b { NewCount(a, b - 1); }
  }

  /** New ids add to pages that existed before. */
  lemma PlusNew(ids: set<PageId>, a: PageId, b: PageId)
    requires a <= b && forall id :: id in ids ==> id < a
    ensures |ids + NewIds(a, b)| == |ids| + (b - a)
  {
    NewCount(a, b);
    assert ids !! NewIds(a, b);
  }
}
