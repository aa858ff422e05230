/**
  A statement that stops halfway because the pool has no frame for a new page, and is then rolled back:
  which pages come back, which one does not, and which rows a reader no longer finds
  (patchInternalAfterChildSplit, splitInternal and updateLeaf in storage/btree/btree.go, DiscardTxn in
  storage/buffer/buffer.go).
 */
module Halfway {
  import opened Types
  import opened Keys
  import opened Pages
  import opened Storage
  import opened Tree
  import opened TreeProofs
  import opened TreeShape
  import opened TreeMatch
  import opened TreeMap
  import opened TreeDemand
  import opened PagedTree
  import opened PageReads
  import opened Statements
  import opened Undo
  import B = BTree

  // ---- Which page is left changed ----

  /** A page is left changed if the split without a frame is that of an updated leaf or of an internal page. */
  predicate LeavesPage(t: Tree, mode: Mode, c: Cell, next: PageId, free: int) {
    0 <= free < Demand(t, mode, c, next) && (mode == Updating || free > 0)
  }

  lemma {:induction false} LeftWhen(view: Disk, t: Tree, nxt: PageId, mode: Mode, c: Cell, next: PageId, free: int)
    requires Match(view, t, nxt) && 0 <= free < Put(t, mode, c, next).1 - next
    ensures var left := LeftPage(view, t, mode, c, next, free);
            && (left.Some? <==> mode == Updating || free > 0)
            && (left.Some? ==> left.value.id in PathIds(t, c.key))
    decreases t
  {
    if t.Node? {
      hide Put, PutNode, PutLeaf, Match, Route, Repointed, HalfPatched;
      var i := Route(t, c.key);
      NodeReads(view, t, nxt, i);
      NodeSteps(t, mode, c, next);
      HalfPatchedId(view[t.id], t, i, Put(Kid(t, i), mode, c, next).0);
      if free < Put(Kid(t, i), mode, c, next).1 - next { LeftWhen(view, Kid(t, i), After(t, i, nxt), mode, c, next, free); }
    }
  }

  lemma HalfPatchedId(p: Page, t: Tree, i: nat, o: Outcome)
    requires t.Node? && i <= |t.seps|
    ensures o.Two? ==> HalfPatched(p, t, i, o).id == p.id
  {}

  lemma NodeSteps(t: Tree, mode: Mode, c: Cell, next: PageId)
    requires t.Node?
    ensures var i := Route(t, c.key);
            var (o, f) := Put(Kid(t, i), mode, c, next);
            && next <= f <= Put(t, mode, c, next).1 <= f + 1
            && (o.Two? ==> next < f && o.right.id == f - 1 && (o.right.Leaf? <==> f == next + 1))
            && (o.One? ==> Put(t, mode, c, next).1 == f)
  {
    NextGrows(Kid(t, Route(t, c.key)), mode, c, next);
    LastHalf(Kid(t, Route(t, c.key)), mode, c, next);
  }

  lemma {:induction false} FinishedTouched(t: Tree, mode: Mode, c: Cell, next: PageId, free: int)
    ensures Finished(t, mode, c, next, free) <= Touched(t, mode, c, next)
    decreases t
  {
    if t.Node? {
      hide Put, PutNode, PutLeaf, Route;
      FinishedTouched(Kid(t, Route(t, c.key)), mode, c, next, free);
    }
  }

  /** The page that is left changed would have been written, and has not been. */
  lemma {:induction false} LeftNotFinished(view: Disk, t: Tree, nxt: PageId, mode: Mode, c: Cell, next: PageId, free: int)
    requires Match(view, t, nxt) && Distinct(t) && IdsBelow(t, next) && LeftPage(view, t, mode, c, next, free).Some?
    ensures var id := LeftPage(view, t, mode, c, next, free).value.id;
            id in Touched(t, mode, c, next) && id !in Finished(t, mode, c, next, free)
    decreases t
  {
    if t.Node? {
      hide Put, PutNode, PutLeaf, Match, Route, Repointed, HalfPatched, Ids, Distinct, Touched, IdsBelow;
      var i := Route(t, c.key);
      NodeReads(view, t, nxt, i);
      KidApart(t, i, next);
      HalfPatchedId(view[t.id], t, i, Put(Kid(t, i), mode, c, next).0);
      TouchedAbove(t, mode, c, next);
      if free < Put(Kid(t, i), mode, c, next).1 - next { LeftNotFinished(view, Kid(t, i), After(t, i, nxt), mode, c, next, free); }
    }
  }

  lemma KidApart(t: Tree, i: nat, next: PageId)
    requires t.Node? && i <= |t.seps| && Distinct(t) && IdsBelow(t, next)
    ensures Distinct(Kid(t, i)) && IdsBelow(Kid(t, i), next) && t.id !in Ids(Kid(t, i)) && t.id < next
  {
    KidIds(t, i);
    RootInIds(t);
  }

  lemma TouchedAbove(t: Tree, mode: Mode, c: Cell, next: PageId)
    requires t.Node? && Distinct(t) && IdsBelow(t, next)
    ensures var i := Route(t, c.key);
            && Touched(Kid(t, i), mode, c, next) <= Touched(t, mode, c, next) && t.id !in Touched(Kid(t, i), mode, c, next)
            && (Put(Kid(t, i), mode, c, next).0.Two? ==> t.id in Touched(t, mode, c, next))
  {
    hide Put, PutNode, PutLeaf, Route, Ids, Distinct;
    var i := Route(t, c.key);
    KidApart(t, i, next);
    TouchedIn(Kid(t, i), mode, c, next);
    PathInIds(Kid(t, i), c.key);
  }

  /** What is left is not what was there. */
  lemma {:induction false} LeftDiffers(view: Disk, t: Tree, nxt: PageId, mode: Mode, c: Cell, next: PageId, free: int)
    requires Match(view, t, nxt) && Distinct(t) && IdsBelow(t, next) && LeftPage(view, t, mode, c, next, free).Some?
    requires !Missing(t, mode, c.key)
    ensures var p := LeftPage(view, t, mode, c, next, free).value; p.id in view && p != view[p.id]
    decreases t
  {
    if t.Node? {
      hide Put, PutNode, PutLeaf, Match, Route, Repointed, HalfPatched, Ids, Distinct, Touched, IdsBelow;
      var i := Route(t, c.key);
      NodeReads(view, t, nxt, i);
      KidApart(t, i, next);
      NodeSteps(t, mode, c, next);
      HalfPatchedDiffers(view[t.id], t, i, Put(Kid(t, i), mode, c, next).0, next);
      if free < Put(Kid(t, i), mode, c, next).1 - next { LeftDiffers(view, Kid(t, i), After(t, i, nxt), mode, c, next, free); }
    }
  }

  lemma HalfPatchedDiffers(p: Page, t: Tree, i: nat, o: Outcome, next: PageId)
    requires t.Node? && i <= |t.seps| && NodePage(p, t) && IdsBelow(Kid(t, i), next)
    ensures o.Two? && o.right.id >= next ==> HalfPatched(p, t, i, o) != p && HalfPatched(p, t, i, o).id == p.id
  {
    RootInIds(Kid(t, i));
    if o.Two? && o.right.id >= next && i < |t.seps| { assert Repointed(t, i, o.right.id)[i] != Branches(t.seps)[i]; }
  }

  // ---- What readers find then ----

  /** Of the given pages, all are as before but for the one that is left changed. */
  ghost predicate BackBut(view: Disk, v: Disk, ids: set<PageId>, left: Option<Page>) {
    forall id | id in ids && id in view :: id in v && v[id] == if left.Some? && id == left.value.id then left.value else view[id]
  }

  /** A page with its pointer i leading elsewhere. */
  function Rerouted(p: Page, i: nat, r: PageId): Page {
    if i < |p.cells| then p.(cells := p.cells[i := Cell(p.cells[i].key, Child(r))]) else p.(right := r)
  }

  /** The way to the key leads through child i of the node with this page. */
  predicate Through(t: Tree, id: PageId, i: nat, key: Key)
    decreases t
  {
    && t.Node?
    && if t.id == id then Route(t, key) == i else Through(Kid(t, Route(t, key)), id, i, key)
  }

  lemma {:induction false} ThroughIn(t: Tree, id: PageId, i: nat, key: Key)
    requires Through(t, id, i, key)
    ensures id in Ids(t)
    decreases t
  {
    RootInIds(t);
    if t.id != id {
      ThroughIn(Kid(t, Route(t, key)), id, i, key);
      KidIds(t, Route(t, key));
    }
  }

  lemma NextOfRerouted(p: Page, t: Tree, i: nat, r: PageId, key: Key)
    requires t.Node? && i <= |t.seps| && NodePage(p, t)
    ensures NextPage(Rerouted(p, i, r), key) == if Route(t, key) == i then r else Kid(t, Route(t, key)).id
  {
    SamePosition(p.cells, Rerouted(p, i, r).cells, key);
  }

  ghost predicate BlankPage(v: Disk, r: PageId) { r in v && v[r] == NewPage(v[r].kind, r) }

  /** A blank page is a leaf without rows, or leads to page 0. */
  lemma BlankReads(v: Disk, r: PageId, key: Key, n: nat)
    requires BlankPage(v, r) && n >= 2 && 0 in v && v[0].kind.LeafPage?
    ensures LeafFrom(v, r, key, n) == Some(if v[r].kind.LeafPage? then r else 0)
  {
    if v[r].kind.InternalPage? { Onward(v, r, key, n); }
  }

  /** Where a reader arrives when one pointer leads to a blank page. */
  lemma {:induction false} HoleReads(view: Disk, v: Disk, t: Tree, nxt: PageId, id: PageId, i: nat, r: PageId, key: Key, h: nat)
    requires Match(view, t, nxt) && Balanced(t, h) && Distinct(t)
    requires id in view && view[id].kind.InternalPage? && view[id].id == id && i <= |view[id].cells|
    requires BackBut(view, v, Ids(t), Some(Rerouted(view[id], i, r))) && BlankPage(v, r) && 0 in v && v[0].kind.LeafPage?
    ensures LeafFrom(v, t.id, key, h + 2) ==
              Some(if Through(t, id, i, key) then (if v[r].kind.LeafPage? then r else 0) else Target(t, key).id)
    decreases t
  {
    hide Match, Balanced, Distinct, Ids, Route, LeafFrom, NextPage, Rerouted, BackBut, BlankPage;
    OwnPage(view, v, t, nxt, Some(Rerouted(view[id], i, r)));
    ReroutedIs(view[id], i, r);
    if t.Leaf? {
      LeafPages(view, t, nxt);
      LeafHere(v, t.id, key, h + 1);
    } else {
      var j := Route(t, key);
      NodeReads(view, t, nxt, j);
      KidBalanced(t, j, h);
      KidBack(view, v, t, j, Some(Rerouted(view[id], i, r)));
      Onward(v, t.id, key, h + 2);
      if t.id == id {
        NextOfRerouted(view[id], t, i, r, key);
        if Through(Kid(t, j), id, i, key) { ThroughIn(Kid(t, j), id, i, key); }
        if j == i { BlankReads(v, r, key, h + 1); }
      } else {
        NextOfNode(v[t.id], t, key);
      }
      if t.id != id || j != i { HoleReads(view, v, Kid(t, j), After(t, j, nxt), id, i, r, key, h - 1); }
    }
  }

  lemma ReroutedIs(p: Page, i: nat, r: PageId)
    ensures Rerouted(p, i, r).id == p.id && Rerouted(p, i, r).kind == p.kind
  {}

  lemma LeafPages(view: Disk, t: Tree, nxt: PageId)
    requires t.Leaf? && Match(view, t, nxt)
    ensures t.id in view && view[t.id].kind.LeafPage? && view[t.id].cells == t.cells
  {}

  lemma LeafHere(v: Disk, id: PageId, key: Key, n: nat)
    requires id in v && v[id].kind.LeafPage?
    ensures LeafFrom(v, id, key, n + 1) == Some(id)
  {}

  lemma OwnPage(view: Disk, v: Disk, t: Tree, nxt: PageId, left: Option<Page>)
    requires Match(view, t, nxt) && BackBut(view, v, Ids(t), left)
    ensures t.id in view && t.id in v && v[t.id] == if left.Some? && t.id == left.value.id then left.value else view[t.id]
  {
    RootInIds(t);
  }

  lemma KidBack(view: Disk, v: Disk, t: Tree, j: nat, left: Option<Page>)
    requires t.Node? && j <= |t.seps| && Distinct(t) && BackBut(view, v, Ids(t), left)
    ensures BackBut(view, v, Ids(Kid(t, j)), left) && Distinct(Kid(t, j)) && t.id !in Ids(Kid(t, j))
  {
    KidIds(t, j);
  }

  /** With all pointers as they were, a reader arrives where he did. */
  lemma {:induction false} LeafReached(view: Disk, v: Disk, t: Tree, nxt: PageId, left: Option<Page>, key: Key, h: nat)
    requires Match(view, t, nxt) && Balanced(t, h) && Distinct(t) && BackBut(view, v, Ids(t), left)
    requires left.Some? ==> left.value.id in view && left.value.kind.LeafPage? && view[left.value.id].kind.LeafPage?
    ensures LeafFrom(v, t.id, key, h + 1) == Some(Target(t, key).id)
    decreases t
  {
    hide Match, Balanced, Distinct, Ids, Route, LeafFrom, NextPage, BackBut;
    OwnPage(view, v, t, nxt, left);
    if t.Leaf? {
      LeafPages(view, t, nxt);
      LeafHere(v, t.id, key, h);
    } else {
      var j := Route(t, key);
      NodeReads(view, t, nxt, j);
      KidBalanced(t, j, h);
      KidBack(view, v, t, j, left);
      Onward(v, t.id, key, h + 1);
      NextOfNode(v[t.id], t, key);
      LeafReached(view, v, Kid(t, j), After(t, j, nxt), left, key, h - 1);
    }
  }

  /** The first leaf, which is page 0. */
  function First(t: Tree): (l: Tree)
    ensures l.Leaf?
    decreases t
  {
    if t.Leaf? then t else First(Kid(t, 0))
  }

  /** The rows behind a pointer that leads to a blank page: not found, but for those of page 0 if that page is internal. */
  lemma HoleFinds(view: Disk, v: Disk, t: Tree, next: PageId, id: PageId, i: nat, r: PageId, key: Key)
    requires Match(view, t, NO_PAGE) && WellShaped(t, next) && Ordered(t, Unbounded, Unbounded)
    requires id in view && view[id].kind.InternalPage? && view[id].id == id && i <= |view[id].cells|
    requires BackBut(view, v, Ids(t), Some(Rerouted(view[id], i, r))) && BlankPage(v, r)
    ensures Finds(v, t.id, key,
              if Through(t, id, i, key) && (v[r].kind.LeafPage? || Lookup(First(t).cells, key) == None) then None else Lookup(Contents(t), key))
  {
    hide Match, Ordered, Route, LeafFrom, Through, First, Lookup, Distinct, Balanced, SpineOk, Ids, IdsBelow, Rerouted, Contents;
    Page0Back(view, v, t, id, i, r);
    HoleReads(view, v, t, NO_PAGE, id, i, r, key, Height(t));
    if Through(t, id, i, key) {
      FirstRows(t, key);
      NoRows(v, r, key);
    } else {
      ReroutedIs(view[id], i, r);
      TargetBack(view, v, t, Some(Rerouted(view[id], i, r)), key);
      B.TargetLookup(t, key);
    }
  }

  lemma NoRows(v: Disk, r: PageId, key: Key)
    requires BlankPage(v, r)
    ensures Lookup(v[r].cells, key) == None
  {}

  /** Page 0 is the first leaf still. */
  lemma Page0Back(view: Disk, v: Disk, t: Tree, id: PageId, i: nat, r: PageId)
    requires Match(view, t, NO_PAGE) && FirstLeaf(t) == 0 && id in view && view[id].kind.InternalPage? && view[id].id == id
    requires BackBut(view, v, Ids(t), Some(Rerouted(view[id], i, r)))
    ensures 0 in v && v[0].kind.LeafPage? && v[0].cells == First(t).cells
  {
    hide Match, Ids, Rerouted;
    FirstPage(view, t, NO_PAGE);
    ReroutedIs(view[id], i, r);
  }

  /** The leaf of a key, unless it is the page left changed. */
  lemma TargetBack(view: Disk, v: Disk, t: Tree, left: Option<Page>, key: Key)
    requires Match(view, t, NO_PAGE) && BackBut(view, v, Ids(t), left)
    ensures var l := Target(t, key);
            && l.id in view && view[l.id].kind.LeafPage? && view[l.id].cells == l.cells
            && l.id in v && v[l.id] == if left.Some? && l.id == left.value.id then left.value else view[l.id]
  {
    hide Match, Ids;
    TargetInIds(t, key);
    TargetMatch(view, t, key, NO_PAGE);
  }

  /** A leaf that has lost the cell of a key: that key is not found, if the leaf is responsible for it. */
  lemma GapFinds(view: Disk, v: Disk, t: Tree, next: PageId, id: PageId, gone: Key, key: Key)
    requires Match(view, t, NO_PAGE) && WellShaped(t, next) && Ordered(t, Unbounded, Unbounded)
    requires id in view && view[id].kind.LeafPage? && view[id].id == id
    requires BackBut(view, v, Ids(t), Some(view[id].(cells := Base(view[id].cells, gone, Updating))))
    ensures Finds(v, t.id, key, if key == gone && Target(t, key).id == id then None else Lookup(Contents(t), key))
  {
    hide Match, Ordered, LeafFrom, Lookup, Distinct, Balanced, SpineOk, FirstLeaf, Ids, IdsBelow, Contents, Base, Target, BackBut;
    var left := Some(view[id].(cells := Base(view[id].cells, gone, Updating)));
    LeafReached(view, v, t, NO_PAGE, left, key, Height(t));
    TargetBack(view, v, t, left, key);
    B.TargetLookup(t, key);
    if Target(t, key).id == id { WithoutKey(Target(t, key).cells, gone, key); }
  }

  lemma AllFinds(view: Disk, v: Disk, t: Tree, next: PageId, key: Key)
    requires Match(view, t, NO_PAGE) && WellShaped(t, next) && Ordered(t, Unbounded, Unbounded) && BackBut(view, v, Ids(t), None)
    ensures Finds(v, t.id, key, Lookup(Contents(t), key))
  {
    hide Match, Ordered, LeafFrom, Lookup, Distinct, Balanced, SpineOk, FirstLeaf, Ids, IdsBelow, Contents, Target, BackBut;
    LeafReached(view, v, t, NO_PAGE, None, key, Height(t));
    TargetBack(view, v, t, None, key);
    B.TargetLookup(t, key);
  }

  lemma {:induction false} FirstIn(t: Tree)
    ensures forall x | x in First(t).cells :: x in Contents(t)
    decreases t
  {
    if t.Node? {
      FirstIn(Kid(t, 0));
      Around(t, 0);
    }
  }

  /** A row of the first leaf is a row of the tree. */
  lemma FirstRows(t: Tree, key: Key)
    requires Ordered(t, Unbounded, Unbounded)
    ensures Lookup(First(t).cells, key).Some? ==> Lookup(First(t).cells, key) == Lookup(Contents(t), key)
  {
    hide Ordered;
    ContentsSorted(t, Unbounded, Unbounded);
    FirstIn(t);
    var front, all := First(t).cells, Contents(t);
    var i := Find(front, key);
    if i < |front| {
      assert front[i] in all;
      var k :| 0 <= k < |all| && all[k] == front[i];
      FindSorted(all, k);
    }
  }

  lemma WithoutKey(cells: seq<Cell>, gone: Key, key: Key)
    requires SortedCells(cells)
    ensures Lookup(Base(cells, gone, Updating), key) == if key == gone then None else Lookup(cells, key)
  {
    RemovedMap(cells, gone);
    LookupInMap(cells, key);
    LookupInMap(Base(cells, gone, Updating), key);
  }

  lemma {:induction false} FirstPage(view: Disk, t: Tree, nxt: PageId)
    requires Match(view, t, nxt)
    ensures var id := FirstLeaf(t);
            id in view && view[id].kind.LeafPage? && view[id].cells == First(t).cells && id in Ids(t)
    decreases t
  {
    if t.Node? {
      hide Match, Ids;
      NodeReads(view, t, nxt, 0);
      FirstPage(view, Kid(t, 0), After(t, 0, nxt));
      KidIds(t, 0);
    }
  }

  // ---- Which page a put leaves changed, and how ----

  /** Without a frame for the leaf's own split it is the leaf of an update that is left changed. */
  lemma {:induction false} LeftLeaf(view: Disk, t: Tree, nxt: PageId, mode: Mode, c: Cell, next: PageId)
    requires Match(view, t, nxt) && Put(t, mode, c, next).1 > next
    ensures var l := Target(t, c.key);
            && l.id in view
            && LeftPage(view, t, mode, c, next, 0) ==
                 if mode == Updating then Some(view[l.id].(cells := Base(l.cells, c.key, mode))) else None
    decreases t
  {
    if t.Node? {
      hide Put, PutNode, PutLeaf, Match, Route, Base;
      var i := Route(t, c.key);
      NodeReads(view, t, nxt, i);
      NodeSteps(t, mode, c, next);
      LeftLeaf(view, Kid(t, i), After(t, i, nxt), mode, c, next);
    }
  }

  /** With frames for new pages it is an internal page, one of whose pointers leads to the last new page. */
  lemma {:induction false} LeftIsHole(view: Disk, t: Tree, nxt: PageId, mode: Mode, c: Cell, next: PageId, free: int)
    requires Match(view, t, nxt) && 0 < free < Put(t, mode, c, next).1 - next
    ensures var left := LeftPage(view, t, mode, c, next, free);
            && left.Some? && left.value.id in view
            && var p := view[left.value.id];
               var i := UpperBound(p.cells, c.key);
               p.kind.InternalPage? && p.id == left.value.id && left.value == Rerouted(p, i, next + free - 1)
    decreases t
  {
    hide Put, PutNode, PutLeaf, Match, Repointed, HalfPatched, Rerouted, UpperBound, Base;
    if t.Leaf? {
      LeafAsksOne(t, mode, c, next);
    } else {
      var i := Route(t, c.key);
      NodeReads(view, t, nxt, i);
      NodeSteps(t, mode, c, next);
      HalfPatchedIs(view[t.id], t, i, Put(Kid(t, i), mode, c, next).0);
      if free < Put(Kid(t, i), mode, c, next).1 - next {
        LeftIsHole(view, Kid(t, i), After(t, i, nxt), mode, c, next, free);
      } else {
        ReroutedIs(view[t.id], i, next + free - 1);
      }
    }
  }

  lemma LeafAsksOne(t: Tree, mode: Mode, c: Cell, next: PageId)
    requires t.Leaf?
    ensures Put(t, mode, c, next).1 <= next + 1
  {}

  lemma HalfPatchedIs(p: Page, t: Tree, i: nat, o: Outcome)
    requires t.Node? && i <= |t.seps| && NodePage(p, t)
    ensures o.Two? ==> HalfPatched(p, t, i, o) == Rerouted(p, i, o.right.id)
  {}

  // ---- Before the rollback ----

  /** The transaction began at p0, where the tree was t0, and has come to p. */
  ghost predicate Began(p0: Pool, p: Pool, txn: TxnId, t0: Tree, next0: PageId) {
    && Wrote(p0, p, txn) && Rooted(p0, p) && B.Represents(Seen(p0), t0, p0.root, next0)
    && (forall id: PageId :: id in p0.pages <==> id < next0)
    && Framed(p0.pages, p0.frames) && Framed(p.pages, p.frames) && CoherentOk(p0.pages, p0.frames, {})
  }

  /** Any transaction can begin here. */
  lemma BeganHere(b: B.BTree, txn: TxnId)
    requires b.Shaped()
    ensures Began(b.Now(), b.Now(), txn, b.tree, b.disk.nextPageId)
  {
    hide WellShaped, Match, Tidy, AllTyped, B.Bounded, Wrote, ViewOf, PoolOk, PinsOk;
    PoolFramed(b);
    NothingWrote(b.Now(), txn);
  }

  /** What it has marked since, and the given pages, were clean at p0. */
  ghost predicate Unshared(p0: Pool, f: Frames, ids: set<PageId>, txn: TxnId) {
    Claimed(p0.frames, f, txn) && forall id | id in ids :: DirtyOf(p0.frames, id) == None
  }

  lemma MarkedSince(p0: Pool, f: Frames, f': Frames, ids: set<PageId>, all: set<PageId>, txn: TxnId)
    requires Unshared(p0, f, all, txn) && ids <= all && Dirtied(f, f', ids, txn)
    ensures Claimed(p0.frames, f', txn)
    ensures forall id: PageId :: DirtyOf(f', id) == Some(txn) <==> DirtyOf(f, id) == Some(txn) || id in ids
  {
    forall id: PageId ensures DirtyOf(f', id) == if id in ids then Some(txn) else DirtyOf(f, id) {}
  }

  ghost predicate AsBefore(view: Disk, v: Disk) {
    forall id | id in view :: id in v && v[id] == view[id]
  }

  /** Where an insertion or update of the tree t has stopped: frames sufficed for `free` new pages. */
  ghost predicate StopState(p: Pool, q: Pool, txn: TxnId, t: Tree, mode: Mode, c: Cell, next: PageId, free: int) {
    var left := LeftAtRoot(Seen(p), t, mode, c, next, free);
    && B.Represents(Seen(p), t, p.root, next) && (forall id: PageId :: id in p.pages <==> id < next)
    && Framed(p.pages, p.frames) && Framed(q.pages, q.frames) && CoherentOk(p.pages, p.frames, {})
    && Logged(Start(p, txn), q.buf, Seen(q), q.frames, LeftIds(left) + Unframed(p.pages, q.pages, q.frames))
    && Grew(p, q.pages, q.durable, q.buf, q.nextLsn)
    && (left.Some? ==> left.value.id in Seen(q) && Seen(q)[left.value.id] == left.value)
    && Dirtied(p.frames, q.frames, RootFinished(t, mode, c, next, free), txn)
    && free < RootDemand(t, mode, c, next) && (free < Demand(t, mode, c, next) ==> B.BlankLeft(q.pages, next, free))
  }

  /** The page left changed, unless a statement before has marked it with the transaction: then the rollback reloads it. */
  function Standing(left: Option<Page>, f: Frames, txn: TxnId): Option<Page> {
    if left.Some? && DirtyOf(f, left.value.id) != Some(txn) then left else None
  }

  /** The page left changed at the root, if any. */
  lemma LeftAtRootIs(view: Disk, t: Tree, mode: Mode, c: Cell, next: PageId, free: int)
    requires Match(view, t, NO_PAGE) && WellShaped(t, next) && free < RootDemand(t, mode, c, next)
    ensures var left := LeftAtRoot(view, t, mode, c, next, free);
            && (left.Some? <==> LeavesPage(t, mode, c, next, free))
            && (left.Some? ==>
                  && left.value.id in view && left.value != view[left.value.id]
                  && left.value.id in RootTouched(t, mode, c, next) && left.value.id !in RootFinished(t, mode, c, next, free))
    ensures RootFinished(t, mode, c, next, free) <= RootTouched(t, mode, c, next)
  {
    hide Put, LeftPage, Match, Missing, Finished, Touched, WellShaped;
    FinishedTouched(t, mode, c, next, free);
    Shape(t, next);
    if free < 0 {
      NothingLeft(view, t, mode, c, next, free);
    } else if free < Demand(t, mode, c, next) {
      MissingDemand(t, mode, c, next);
      LeftWhen(view, t, NO_PAGE, mode, c, next, free);
      if LeftPage(view, t, mode, c, next, free).Some? {
        LeftNotFinished(view, t, NO_PAGE, mode, c, next, free);
        LeftDiffers(view, t, NO_PAGE, mode, c, next, free);
      }
    }
  }

  lemma Shape(t: Tree, next: PageId)
    requires WellShaped(t, next)
    ensures Distinct(t) && IdsBelow(t, next)
  {}

  // ---- The pages after the rollback ----

  lemma StopTree(p: Pool, q: Pool, txn: TxnId, t: Tree, mode: Mode, c: Cell, next: PageId, free: int)
    requires StopState(p, q, txn, t, mode, c, next, free)
    ensures t.id == p.root && Match(Seen(p), t, NO_PAGE) && WellShaped(t, next) && free < RootDemand(t, mode, c, next)
    ensures Seen(p).Keys == p.pages.Keys && q.frames.Keys <= q.pages.Keys
    ensures forall id | id in p.pages :: id in q.pages && q.pages[id] == p.pages[id]
    ensures free < Demand(t, mode, c, next) ==> B.BlankLeft(q.pages, next, free)
    ensures forall id: PageId :: id in p.pages <==> id < next
  {
    hide Match, WellShaped, LeftAtRoot, RootFinished, Demand, RootDemand, Logged, Dirtied, B.BlankLeft;
  }

  /** A page that its transaction has not marked is as it was when it began. */
  lemma UnmarkedPage(p0: Pool, p: Pool, txn: TxnId, id: PageId)
    requires Wrote(p0, p, txn) && id in Seen(p) && DirtyOf(p.frames, id) != Some(txn)
    ensures id in p0.pages && id in Seen(p0) && Seen(p)[id] == Seen(p0)[id]
  {
    assert Recorded(Start(p0, txn), p.buf[|p0.buf|..], Seen(p), p.frames, id);
  }

  lemma MarkedPage(q: Pool, txn: TxnId, id: PageId)
    requires q.frames.Keys <= q.pages.Keys && DirtyOf(q.frames, id) == Some(txn)
    ensures id in q.pages && id in Discarded(q, txn) && Discarded(q, txn)[id] == q.pages[id]
  {}

  lemma CleanPage(p: Pool, id: PageId)
    requires CoherentOk(p.pages, p.frames, {}) && id in p.pages && DirtyOf(p.frames, id) == None
    ensures Seen(p)[id] == p.pages[id]
  {}

  lemma PagesStay(p: Pool, q: Pool)
    requires Grew(p, q.pages, q.durable, q.buf, q.nextLsn)
    ensures forall id | id in p.pages :: id in q.pages && q.pages[id] == p.pages[id]
  {}

  lemma FramesIn(q: Pool)
    requires Framed(q.pages, q.frames)
    ensures q.frames.Keys <= q.pages.Keys
  {}

  /** Every page is as it was when the transaction began, or the one left standing, or as in the file. */
  lemma StopPages(p0: Pool, p: Pool, q: Pool, txn: TxnId, t0: Tree, next0: PageId, t: Tree, mode: Mode, c: Cell, next: PageId, free: int)
    requires Began(p0, p, txn, t0, next0) && StopState(p, q, txn, t, mode, c, next, free)
    requires Unshared(p0, p.frames, RootTouched(t, mode, c, next), txn) && q.frames.Keys <= q.pages.Keys
    ensures var v := Discarded(q, txn);
            && BackBut(Seen(p0), v, p0.pages.Keys, Standing(LeftAtRoot(Seen(p), t, mode, c, next, free), p.frames, txn))
            && (forall id | id in q.pages && id !in p0.pages :: id in v && v[id] == q.pages[id])
            && (forall id | id in p0.pages :: id in q.pages && q.pages[id] == p0.pages[id])
  {
    hide Logged, LeftAtRoot, RootFinished, RootTouched, Demand, RootDemand, B.BlankLeft, Recorded, CoherentOk, Dirtied, Unshared, SamePins,
      WellShaped, Match, Tidy, Grew, Framed, Discarded, Claimed, LeavesPage, Wrote, Seen, BackBut, Unframed, Standing;
    StopTree(p, q, txn, t, mode, c, next, free);
    LeftAtRootIs(Seen(p), t, mode, c, next, free);
    MarkedSince(p0, p.frames, q.frames, RootFinished(t, mode, c, next, free), RootTouched(t, mode, c, next), txn);
    LoggedJoin(p0, p, q, txn, LeftIds(LeftAtRoot(Seen(p), t, mode, c, next, free)) + Unframed(p.pages, q.pages, q.frames));
    LostPages(p0, p, q, txn, LeftAtRoot(Seen(p), t, mode, c, next, free));
  }

  /** What DiscardTxn brings back, with one page left changed at most and some new ones without a frame. */
  lemma LostPages(p0: Pool, p: Pool, q: Pool, txn: TxnId, left: Option<Page>)
    requires Wrote(p0, p, txn) && Claimed(p0.frames, q.frames, txn) && q.frames.Keys <= q.pages.Keys
    requires Framed(p0.pages, p0.frames) && Framed(q.pages, q.frames) && CoherentOk(p0.pages, p0.frames, {})
    requires var lost := LeftIds(left) + Unframed(p.pages, q.pages, q.frames);
             Logged(Start(p0, txn), q.buf, Seen(q), q.frames, lost) && Grew(p0, q.pages, q.durable, q.buf, q.nextLsn)
    requires left.Some? ==> left.value.id in Seen(p) && left.value.id in Seen(q) && Seen(q)[left.value.id] == left.value
    requires left.Some? ==> (DirtyOf(q.frames, left.value.id) == Some(txn) <==> DirtyOf(p.frames, left.value.id) == Some(txn))
    ensures var v := Discarded(q, txn);
            && BackBut(Seen(p0), v, p0.pages.Keys, Standing(left, p.frames, txn))
            && (forall id | id in q.pages && id !in p0.pages :: id in v && v[id] == q.pages[id])
            && (forall id | id in p0.pages :: id in q.pages && q.pages[id] == p0.pages[id])
  {
    hide Logged, Recorded, CoherentOk, Grew, Framed, Discarded, ViewOf, Claimed, Wrote, Seen;
    DiscardedKeys(q, txn);
    DiscardedBut(p0, q, txn, LeftIds(left) + Unframed(p.pages, q.pages, q.frames));
    PagesStay(p0, q);
    WroteKeys(p0, p, txn);
    if left.Some? { LeftPageBack(p0, p, q, txn, left.value); }
  }

  lemma WroteKeys(p: Pool, q: Pool, txn: TxnId)
    requires Wrote(p, q, txn)
    ensures Seen(p).Keys == p.pages.Keys <= q.pages.Keys == Seen(q).Keys
  {}

  lemma LeftPageBack(p0: Pool, p: Pool, q: Pool, txn: TxnId, left: Page)
    requires Wrote(p0, p, txn) && CoherentOk(p0.pages, p0.frames, {}) && Claimed(p0.frames, q.frames, txn) && q.frames.Keys <= q.pages.Keys
    requires left.id in Seen(p) && left.id in Seen(q) && left == Seen(q)[left.id]
    requires DirtyOf(q.frames, left.id) == Some(txn) <==> DirtyOf(p.frames, left.id) == Some(txn)
    requires Discarded(q, txn).Keys == q.pages.Keys && Grew(p0, q.pages, q.durable, q.buf, q.nextLsn)
    requires forall id | id in q.pages && DirtyOf(q.frames, id) != Some(txn) :: Discarded(q, txn)[id] == Seen(q)[id]
    ensures left.id in q.pages && Discarded(q, txn)[left.id] ==
              if DirtyOf(p.frames, left.id) != Some(txn) then left else if left.id in p0.pages then Seen(p0)[left.id] else q.pages[left.id]
    ensures DirtyOf(p.frames, left.id) != Some(txn) ==> left.id in p0.pages && Seen(p)[left.id] == Seen(p0)[left.id]
  {
    hide Wrote, CoherentOk, Discarded, Grew;
    if DirtyOf(p.frames, left.id) == Some(txn) {
      MarkedPage(q, txn, left.id);
      PagesStay(p0, q);
      if left.id in p0.pages { CleanPage(p0, left.id); }
    } else {
      UnmarkedPage(p0, p, txn, left.id);
    }
  }

  /**
    A statement has found every frame pinned or dirty, and its transaction is rolled back. All pages are as when it
    began if and only if the split without a frame had not changed its page, or a statement before had; otherwise that
    page alone differs. The file has every page unchanged.
   */
  lemma StopRolledBack(p0: Pool, p: Pool, q: Pool, txn: TxnId, t0: Tree, next0: PageId, t: Tree, mode: Mode, c: Cell, next: PageId, free: int)
    requires Began(p0, p, txn, t0, next0) && StopState(p, q, txn, t, mode, c, next, free)
    requires Unshared(p0, p.frames, RootTouched(t, mode, c, next), txn)
    ensures q.frames.Keys <= q.pages.Keys
    ensures var v, left := Discarded(q, txn), Standing(LeftAtRoot(Seen(p), t, mode, c, next, free), p.frames, txn);
            && BackBut(Seen(p0), v, p0.pages.Keys, left)
            && (AsBefore(Seen(p0), v) <==> left == None)
    ensures LeftAtRoot(Seen(p), t, mode, c, next, free).Some? <==> LeavesPage(t, mode, c, next, free)
    ensures forall id | id in p0.pages :: id in q.pages && q.pages[id] == p0.pages[id]
  {
    hide StopState, Discarded, LeftAtRoot, RootFinished, RootTouched, Demand, RootDemand, WellShaped, Match, LeavesPage, Unshared, Wrote,
      Framed, CoherentOk, Tidy;
    StopTree(p, q, txn, t, mode, c, next, free);
    StopPages(p0, p, q, txn, t0, next0, t, mode, c, next, free);
    LeftAtRootIs(Seen(p), t, mode, c, next, free);
    var left, v := Standing(LeftAtRoot(Seen(p), t, mode, c, next, free), p.frames, txn), Discarded(q, txn);
    if left.Some? {
      UnmarkedPage(p0, p, txn, left.value.id);
      assert v[left.value.id] != Seen(p0)[left.value.id];
    }
  }

  // ---- The rows after the rollback ----

  /**
    The keys that are missed in the tree t when the page `left` is left standing, in which the put was on its way to
    the key of c: without frames for new pages that key; otherwise those on the way through the same child, but for what
    page 0 holds if the child is an internal page.
   */
  predicate Missed(view: Disk, t: Tree, left: Page, c: Cell, free: int, key: Key)
    requires left.id in view
  {
    if free == 0 then key == c.key && Target(t, key).id == left.id
    else Through(t, left.id, UpperBound(view[left.id].cells, c.key), key) && (free == 1 || Lookup(First(t).cells, key) == None)
  }

  lemma OwnPages(view: Disk, v: Disk, t: Tree, next: PageId, ids: set<PageId>, left: Option<Page>)
    requires WellShaped(t, next) && BackBut(view, v, ids, left) && forall id: PageId :: id in ids <==> id < next
    ensures BackBut(view, v, Ids(t), left)
  {}

  lemma BlankStill(pages: Disk, v: Disk, before: Disk, next: PageId, free: int)
    requires B.BlankLeft(pages, next, free) && (forall id | id in pages && id !in before :: id in v && v[id] == pages[id])
    requires forall id: PageId :: id in before <==> id < next
    ensures B.BlankLeft(v, next, free)
  {}

  /** The page left standing is the leaf of the key, or leads to the last of the new pages. */
  lemma StandingIs(p0: Pool, p: Pool, q: Pool, txn: TxnId, t0: Tree, next0: PageId, t: Tree, mode: Mode, c: Cell, next: PageId, free: int)
    requires Began(p0, p, txn, t0, next0) && StopState(p, q, txn, t, mode, c, next, free)
    requires Standing(LeftAtRoot(Seen(p), t, mode, c, next, free), p.frames, txn).Some?
    ensures var left := LeftAtRoot(Seen(p), t, mode, c, next, free).value;
            && 0 <= free < Demand(t, mode, c, next) && left.id in Seen(p0) && left.id in Seen(p) && Seen(p)[left.id] == Seen(p0)[left.id]
            && var page := Seen(p0)[left.id];
               && page.id == left.id
               && if free == 0 then page.kind.LeafPage? && left == page.(cells := Base(page.cells, c.key, Updating))
                  else page.kind.InternalPage? && left == Rerouted(page, UpperBound(page.cells, c.key), next + free - 1)
  {
    hide Logged, RootFinished, RootTouched, RootDemand, B.BlankLeft, Dirtied, WellShaped, Match, Tidy, Grew, Framed, CoherentOk, Wrote, Put,
      LeftPage, Rerouted, Base, UpperBound, Missing;
    StopTree(p, q, txn, t, mode, c, next, free);
    LeftAtRootIs(Seen(p), t, mode, c, next, free);
    MissingDemand(t, mode, c, next);
    var left := LeftAtRoot(Seen(p), t, mode, c, next, free).value;
    UnmarkedPage(p0, p, txn, left.id);
    if free == 0 {
      LeftLeaf(Seen(p), t, NO_PAGE, mode, c, next);
      TargetMatch(Seen(p), t, c.key, NO_PAGE);
    } else {
      LeftIsHole(Seen(p), t, NO_PAGE, mode, c, next, free);
    }
  }

  lemma BlankLeftIs(v: Disk, next: PageId, free: int)
    requires B.BlankLeft(v, next, free) && free > 0
    ensures var r := next + free - 1; BlankPage(v, r) && (v[r].kind.LeafPage? <==> free == 1)
  {}

  lemma StopBlank(p0: Pool, p: Pool, q: Pool, txn: TxnId, t0: Tree, next0: PageId, t: Tree, mode: Mode, c: Cell, next: PageId, free: int)
    requires Began(p0, p, txn, t0, next0) && StopState(p, q, txn, t, mode, c, next, free)
    requires Unshared(p0, p.frames, RootTouched(t, mode, c, next), txn) && free < Demand(t, mode, c, next)
    requires q.frames.Keys <= q.pages.Keys
    ensures B.BlankLeft(Discarded(q, txn), next, free)
  {
    hide StopState, Discarded, RootFinished, RootTouched, RootDemand, WellShaped, Match, Unshared, LeftAtRoot, Demand, Wrote, Framed, CoherentOk, Tidy,
      BackBut, Standing, Rooted, B.Represents, ViewOf;
    StopTree(p, q, txn, t, mode, c, next, free);
    StopPages(p0, p, q, txn, t0, next0, t, mode, c, next, free);
    WroteKeys(p0, p, txn);
    BlankStill(q.pages, Discarded(q, txn), p.pages, next, free);
  }

  /** As long as the root pointer has not moved, a search finds what it found when the transaction began, but for the missed keys. */
  lemma StopFinds(p0: Pool, p: Pool, q: Pool, txn: TxnId, t0: Tree, next0: PageId, t: Tree, mode: Mode, c: Cell, next: PageId, free: int, key: Key)
    requires Began(p0, p, txn, t0, next0) && StopState(p, q, txn, t, mode, c, next, free)
    requires Unshared(p0, p.frames, RootTouched(t, mode, c, next), txn)
    requires Ordered(t0, Unbounded, Unbounded) && p.root == p0.root && q.frames.Keys <= q.pages.Keys
    ensures var left := Standing(LeftAtRoot(Seen(p), t, mode, c, next, free), p.frames, txn);
            && (left.Some? ==> left.value.id in Seen(p0))
            && Finds(Discarded(q, txn), p.root, key,
                 if left.Some? && Missed(Seen(p0), t0, left.value, c, free, key) then None else Lookup(Contents(t0), key))
  {
    hide StopState, Discarded, RootTouched, WellShaped, Match, Unshared, Finds, Ordered, LeftAtRoot, BackBut, Wrote, Framed, CoherentOk, Tidy,
      Demand, Through, Lookup, First, Contents, Target, Rerouted, UpperBound, Base, BlankPage;
    StopPages(p0, p, q, txn, t0, next0, t, mode, c, next, free);
    var left, v := Standing(LeftAtRoot(Seen(p), t, mode, c, next, free), p.frames, txn), Discarded(q, txn);
    OwnPages(Seen(p0), v, t0, next0, p0.pages.Keys, left);
    if left == None {
      AllFinds(Seen(p0), v, t0, next0, key);
    } else {
      StandingIs(p0, p, q, txn, t0, next0, t, mode, c, next, free);
      if free == 0 {
        GapFinds(Seen(p0), v, t0, next0, left.value.id, c.key, key);
      } else {
        StopBlank(p0, p, q, txn, t0, next0, t, mode, c, next, free);
        BlankLeftIs(v, next, free);
        HoleFinds(Seen(p0), v, t0, next0, left.value.id, UpperBound(Seen(p0)[left.value.id].cells, c.key), next + free - 1, key);
      }
    }
  }

  // ---- The code itself ----

  /** Insert or Update. */
  method InsertOrUpdate(b: B.BTree, mode: Mode, c: Cell, txn: TxnId) returns (r: B.Result)
    requires b.Shaped() && Typed(c.key, b.ints) && b.Accepts(mode, c) && c.body.Data?
    requires b.disk.nextPageId + Height(b.tree) + 2 < NO_PAGE
    modifies b`tree, b.disk, b.bp, b.wm
    ensures b.Inv() && SamePins(old(b.bp.frames), b.bp.frames)
    ensures b.RootEnded(r, Start(old(b.Now()), txn), old(b.tree), mode, c, old(b.disk.nextPageId), old(b.bp.View()), old(b.bp.frames))
    ensures r != B.Done ==> b.tree == old(b.tree) && b.disk.rootPageId == old(b.disk.rootPageId)
    ensures r == B.KeyNotFound ==> b.Shaped() && Wrote(old(b.Now()), b.Now(), txn)
    ensures r == B.Done ==>
              && b.Shaped() && Wrote(old(b.Now()), b.Now(), txn)
              && B.Planted(old(b.tree), b.tree, mode, c, old(b.disk.nextPageId), b.disk.pages)
  {
    match mode
    case Inserting => r := b.Insert(c.key.table, c.key.pk, c.body.row, txn);
    case Updating => r := b.Update(c.key.table, c.key.pk, c.body.row, txn);
  }

  /** The pages that a put has marked. */
  function Marked(r: B.Result, t: Tree, mode: Mode, c: Cell, next: PageId, free: int): set<PageId> {
    match r
    case Done => RootTouched(t, mode, c, next)
    case PoolFull => RootFinished(t, mode, c, next, free)
    case KeyNotFound => {}
  }

  /**
    An insert or update, and then what Rollback does to the pool. It succeeds if and only if no page that the
    transaction has marked is pinned. If the put is done, the tree is back if and only if neither it nor a statement before
    has split the root. If it has stopped, all pages are as when the transaction began if and only if no page was left
    changed, or one that was marked already; and the missed keys alone are no longer found.
   */
  method PutThenDiscard(b: B.BTree, mode: Mode, c: Cell, txn: TxnId, ghost p0: Pool, ghost t0: Tree, ghost next0: PageId)
    returns (r: B.Result, s: Status)
    requires b.Shaped() && Typed(c.key, b.ints) && b.Accepts(mode, c) && c.body.Data?
    requires b.disk.nextPageId + Height(b.tree) + 2 < NO_PAGE
    requires Began(p0, b.Now(), txn, t0, next0) && Unshared(p0, b.bp.frames, RootTouched(b.tree, mode, c, b.disk.nextPageId), txn)
    modifies b`tree, b.disk, b.bp, b.wm
    ensures var free := b.Free(old(b.bp.frames), PathIds(old(b.tree), c.key));
            s == Ok <==>
              forall id: PageId | DirtyOf(old(b.bp.frames), id) == Some(txn) || id in Marked(r, old(b.tree), mode, c, old(b.disk.nextPageId), free) ::
                PinOf(old(b.bp.frames), id) == 0
    ensures s == Ok && r == B.Done ==>
              var v, root := b.bp.View(), b.disk.rootPageId;
              var moved := old(b.disk.rootPageId) != p0.root || Put(old(b.tree), mode, c, old(b.disk.nextPageId)).0.Two?;
              && (B.Represents(v, t0, root, next0) <==> !moved)
              && (Reachable(v, root, Contents(t0)) <==> (!moved || t0.Leaf?))
              && (moved ==> OnlyPage0(v, root))
    ensures s == Ok && r == B.KeyNotFound ==> AsBefore(Seen(p0), b.bp.View())
    ensures s == Ok && r == B.PoolFull ==>
              var t, next := old(b.tree), old(b.disk.nextPageId);
              var free := b.Free(old(b.bp.frames), PathIds(t, c.key));
              var left := Standing(LeftAtRoot(old(b.bp.View()), t, mode, c, next, free), old(b.bp.frames), txn);
              && b.disk.rootPageId == old(b.disk.rootPageId)
              && (forall id | id in p0.pages :: id in b.disk.pages && b.disk.pages[id] == p0.pages[id])
              && BackBut(Seen(p0), b.bp.View(), p0.pages.Keys, left)
              && (AsBefore(Seen(p0), b.bp.View()) <==> left == None)
              && (LeftAtRoot(old(b.bp.View()), t, mode, c, next, free).Some? <==> LeavesPage(t, mode, c, next, free))
    ensures s == Ok && r == B.PoolFull && Ordered(t0, Unbounded, Unbounded) && old(b.disk.rootPageId) == p0.root ==>
              var t, next := old(b.tree), old(b.disk.nextPageId);
              var free := b.Free(old(b.bp.frames), PathIds(t, c.key));
              var left := Standing(LeftAtRoot(old(b.bp.View()), t, mode, c, next, free), old(b.bp.frames), txn);
              && (left.Some? ==> left.value.id in Seen(p0))
              && forall key :: Finds(b.bp.View(), b.disk.rootPageId, key,
                   if left.Some? && Missed(Seen(p0), t0, left.value, c, free, key) then None else Lookup(Contents(t0), key))
  {
    hide Wrote, WellShaped, Match, Contents, Put, B.Planted, Reachable, OnlyPage0, AllTyped, B.Bounded, PoolOk, PinsOk, Framed, Ordered,
      StopState, Unshared, BackBut, AsBefore, LeavesPage, Missed, Finds, LeftAtRoot, RootTouched, RootFinished, Discarded, PathIds, Tidy, ViewOf,
      DiscardedFrames, Grew, Began, Standing, CoherentOk;
    ghost var p, t, next := b.Now(), b.tree, b.disk.nextPageId;
    ghost var free := b.Free(b.bp.frames, PathIds(t, c.key));
    PoolFramed(b);
    r := InsertOrUpdate(b, mode, c, txn);
    ghost var q := b.Now();
    PoolFramed(b);
    Afterwards(b, r, p0, p, t, mode, c, next, txn);
    s := b.bp.DiscardTxn(txn);
    DiscardedView(q, txn);
    if s == Ok {
      if r == B.PoolFull {
        StopRolledBack(p0, p, q, txn, t0, next0, t, mode, c, next, free);
        StoppedRows(p0, p, q, txn, t0, next0, t, mode, c, next, free);
      } else {
        DoneRolledBack(p0, p, q, txn, t0, next0);
        if r == B.Done { PutMovesRoot(p, q, t, mode, c, next, b.tree); }
      }
    }
  }

  lemma StoppedRows(p0: Pool, p: Pool, q: Pool, txn: TxnId, t0: Tree, next0: PageId, t: Tree, mode: Mode, c: Cell, next: PageId, free: int)
    requires Began(p0, p, txn, t0, next0) && StopState(p, q, txn, t, mode, c, next, free)
    requires Unshared(p0, p.frames, RootTouched(t, mode, c, next), txn) && q.frames.Keys <= q.pages.Keys
    ensures Ordered(t0, Unbounded, Unbounded) && p.root == p0.root ==>
              var left := Standing(LeftAtRoot(Seen(p), t, mode, c, next, free), p.frames, txn);
              && (left.Some? ==> left.value.id in Seen(p0))
              && forall key :: Finds(Discarded(q, txn), p.root, key,
                   if left.Some? && Missed(Seen(p0), t0, left.value, c, free, key) then None else Lookup(Contents(t0), key))
  {
    hide Began, StopState, Unshared, Ordered, Standing, LeftAtRoot, Missed, Finds, Contents, Lookup, Discarded, RootTouched;
    if Ordered(t0, Unbounded, Unbounded) && p.root == p0.root {
      StopFinds(p0, p, q, txn, t0, next0, t, mode, c, next, free, c.key);
      forall key ensures Finds(Discarded(q, txn), p.root, key,
        var left := Standing(LeftAtRoot(Seen(p), t, mode, c, next, free), p.frames, txn);
        if left.Some? && Missed(Seen(p0), t0, left.value, c, free, key) then None else Lookup(Contents(t0), key))
      {
        StopFinds(p0, p, q, txn, t0, next0, t, mode, c, next, free, key);
      }
    }
  }

  /** A statement that is done, or has nothing to do, after others of the transaction. */
  lemma DoneRolledBack(p0: Pool, p: Pool, q: Pool, txn: TxnId, t0: Tree, next0: PageId)
    requires Began(p0, p, txn, t0, next0) && Wrote(p, q, txn) && Framed(q.pages, q.frames) && Claimed(p0.frames, q.frames, txn)
    ensures q.frames.Keys <= q.pages.Keys && AsBefore(Seen(p0), Discarded(q, txn))
    ensures Rooted(p, q) ==>
              var v, moved := Discarded(q, txn), p.root != p0.root || q.root != p.root;
              && (B.Represents(v, t0, q.root, next0) <==> !moved)
              && (Reachable(v, q.root, Contents(t0)) <==> (!moved || t0.Leaf?))
              && (moved ==> OnlyPage0(v, q.root))
  {
    hide Wrote, Claimed, Framed, CoherentOk, Match, WellShaped, Tidy, Contents, Reachable, OnlyPage0, Discarded;
    FramesIn(q);
    WroteJoin(p0, p, q, txn);
    DiscardedPages(p0, q, txn);
    WroteKeys(p0, p, txn);
    DiscardedKeys(q, txn);
    if Rooted(p, q) {
      RootedJoin(p0, p, q, txn);
      RootPage(p0, t0, next0);
      RolledBack(p0, q, txn, t0, next0);
    }
  }

  /** What the end of the statement says about the pool. */
  lemma Afterwards(b: B.BTree, r: B.Result, p0: Pool, p: Pool, t: Tree, mode: Mode, c: Cell, next: PageId, txn: TxnId)
    requires b.Inv() && b.RootEnded(r, Start(p, txn), t, mode, c, next, Seen(p), p.frames) && SamePins(p.frames, b.bp.frames)
    requires B.Represents(Seen(p), t, p.root, next) && (forall id: PageId :: id in p.pages <==> id < next)
    requires Framed(p.pages, p.frames) && CoherentOk(p.pages, p.frames, {}) && Unshared(p0, p.frames, RootTouched(t, mode, c, next), txn)
    ensures Claimed(p0.frames, b.bp.frames, txn)
    ensures var marked := Marked(r, t, mode, c, next, b.Free(p.frames, PathIds(t, c.key)));
            (forall id | id in b.bp.frames && Flushable(b.bp.frames[id], {txn}) :: b.bp.frames[id].pin == 0) <==>
            (forall id: PageId | DirtyOf(p.frames, id) == Some(txn) || id in marked :: PinOf(p.frames, id) == 0)
    ensures r == B.PoolFull ==> StopState(p, b.Now(), txn, t, mode, c, next, b.Free(p.frames, PathIds(t, c.key)))
  {
    hide WellShaped, Match, PoolOk, PinsOk, Framed, LeftAtRoot, RootTouched, RootFinished, Logged, Grew, Unshared, SamePins, Dirtied, PathIds, Put;
    PoolFramed(b);
    var free := b.Free(p.frames, PathIds(t, c.key));
    LeftAtRootIn(Seen(p), t, mode, c, next, free);
    NoneDirtied(p.frames, b.bp.frames, txn);
    MarkedSince(p0, p.frames, b.bp.frames, Marked(r, t, mode, c, next, free), RootTouched(t, mode, c, next), txn);
    PinsOfMarked(p.frames, b.bp.frames, Marked(r, t, mode, c, next, free), txn);
  }

  lemma LeftAtRootIn(view: Disk, t: Tree, mode: Mode, c: Cell, next: PageId, free: int)
    ensures RootFinished(t, mode, c, next, free) <= RootTouched(t, mode, c, next)
  {
    FinishedTouched(t, mode, c, next, free);
  }

  lemma PinsOfMarked(f: Frames, f': Frames, ids: set<PageId>, txn: TxnId)
    requires SamePins(f, f') && forall id: PageId :: DirtyOf(f', id) == Some(txn) <==> DirtyOf(f, id) == Some(txn) || id in ids
    ensures (forall id | id in f' && Flushable(f'[id], {txn}) :: f'[id].pin == 0) <==>
            (forall id: PageId | DirtyOf(f, id) == Some(txn) || id in ids :: PinOf(f, id) == 0)
  {
    if forall id | id in f' && Flushable(f'[id], {txn}) :: f'[id].pin == 0 {
      forall id: PageId | DirtyOf(f, id) == Some(txn) || id in ids ensures PinOf(f, id) == 0 {
        assert DirtyOf(f', id) == Some(txn) && PinOf(f', id) == PinOf(f, id);
      }
    }
    if forall id: PageId | DirtyOf(f, id) == Some(txn) || id in ids :: PinOf(f, id) == 0 {
      forall id | id in f' && Flushable(f'[id], {txn}) ensures f'[id].pin == 0 {
        assert DirtyOf(f', id) == Some(txn) && PinOf(f', id) == PinOf(f, id);
      }
    }
  }

  lemma DiscardedKeys(q: Pool, txn: TxnId)
    requires q.frames.Keys <= q.pages.Keys
    ensures Discarded(q, txn).Keys == Seen(q).Keys == q.pages.Keys
  {}

  lemma DiscardedView(q: Pool, txn: TxnId)
    requires q.frames.Keys <= q.pages.Keys
    ensures Discarded(q, txn) == ViewOf(q.pages, DiscardedFrames(q.pages, q.frames, txn))
  {}
}
