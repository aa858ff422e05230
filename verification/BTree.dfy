/** The B+Tree over pinned pages of the buffer pool (storage/btree/btree.go). */
module BTree {
  import opened Types
  import opened Keys
  import opened Pages
  import opened Sequences
  import opened Storage
  import opened Tree
  import opened TreeProofs
  import opened TreeOrder
  import opened TreeTidy
  import opened TreeFences
  import opened TreeShape
  import opened TreeMatch
  import opened TreeSpace
  import opened TreeDemand
  import opened SortCells
  import opened PagedTree
  import opened TreeMap

  /** Why an operation stopped: it is done, the key is missing, or every frame is pinned or dirty. */
  datatype Result = Done | KeyNotFound | PoolFull

  class BTree {
    const disk: DiskManager
    const bp: BufferPool
    const wm: WALManager
    /** The tables whose primary keys are integers; those of the others are strings. */
    ghost const ints: iset<nat>
    /** Bounds that the keys of the tree, and perhaps its rows, are promised to keep, if any. */
    ghost const bound: Option<Weights>

    ghost predicate Inv()
      reads disk, bp
    {
      bp.disk == disk && bp.wm == wm && bp.Valid() && AllTyped(bp.View(), ints)
    }

    /** In the middle of a statement that holds some changed pages. */
    ghost predicate Work(s: Start, held: set<PageId>)
      reads disk, bp, wm
    {
      && Inv() && bp.Coherent(held) && Logged(s, wm.buf, bp.View(), bp.frames, held)
      && Grew(s.pool, disk.pages, wm.durable, wm.buf, wm.nextLsn)
    }

    /**
      Where a statement has stopped for want of a frame: every page is recorded or unchanged, but for one
      that is left changed, if any, and for new pages that never got a frame.
     */
    ghost predicate Stopped(s: Start, left: Option<Page>)
      reads disk, bp, wm
    {
      && Inv() && Grew(s.pool, disk.pages, wm.durable, wm.buf, wm.nextLsn)
      && Logged(s, wm.buf, bp.View(), bp.frames, LeftIds(left) + Unframed(s.pool.pages, disk.pages, bp.frames))
      && (left.Some? ==> left.value.id in bp.View() && bp.View()[left.value.id] == left.value)
    }

    lemma StoppedHere(s: Start, held: set<PageId>, left: Option<Page>)
      requires Work(s, held) && held <= LeftIds(left) + Unframed(s.pool.pages, disk.pages, bp.frames)
      requires left.Some? ==> left.value.id in bp.View() && bp.View()[left.value.id] == left.value
      ensures Stopped(s, left)
    {
      hide PoolOk, PinsOk, Filed, AllTyped, Grew, IsWrite, Recorded;
    }

    /** Every one of the pages can get a frame, if one is pinned at a time. */
    ghost predicate Fetchable(frames: Frames, ids: set<PageId>) {
      |Stuck(frames)| < bp.maxSize || ids <= Stuck(frames)
    }

    lemma FetchOne(frames: Frames, id: PageId)
      requires |frames.Keys| <= bp.maxSize
      ensures |Stuck(frames) + {id}| <= bp.maxSize <==> Fetchable(frames, {id})
    {
      StuckIn(frames);
      Fewer(Stuck(frames), frames.Keys);
      if id in Stuck(frames) { assert Stuck(frames) + {id} == Stuck(frames); }
    }

    lemma FetchTwo(frames: Frames, frames': Frames, a: set<PageId>, b: set<PageId>)
      requires SameUses(frames, frames')
      ensures Fetchable(frames, a + b) <==> Fetchable(frames', a) && Fetchable(frames, b)
      ensures Fetchable(frames, b) <==> Fetchable(frames', b)
      ensures Fetchable(frames, {})
    {
      SameStuck(frames, frames');
    }

    lemma FetchPath(frames: Frames, frames': Frames, t: Tree, key: Key)
      requires SameUses(frames, frames')
      ensures Fetchable(frames, PathIds(t, key)) <==>
                Fetchable(frames', {t.id}) && (t.Node? ==> Fetchable(frames, PathIds(Kid(t, Route(t, key)), key)))
    {
      hide Fetchable, SameUses;
      FetchTwo(frames, frames', {t.id}, if t.Leaf? then {} else PathIds(Kid(t, Route(t, key)), key));
    }

    lemma FetchSpine(frames: Frames, frames': Frames, t: Tree)
      requires SameUses(frames, frames')
      ensures Fetchable(frames, SpineIds(t)) <==> Fetchable(frames', {t.id}) && (t.Node? ==> Fetchable(frames, SpineIds(Kid(t, 0))))
    {
      hide Fetchable, SameUses;
      FetchTwo(frames, frames', {t.id}, if t.Leaf? then {} else SpineIds(Kid(t, 0)));
    }

    lemma FetchChain(frames: Frames, frames': Frames, ls: seq<Tree>, n: nat, table: nat)
      requires SameUses(frames, frames') && n < |ls| && forall i :: 0 <= i < |ls| ==> ls[i].Leaf?
      ensures Fetchable(frames, ScannedIds(ls[n..], table)) <==>
                Fetchable(frames', {ls[n].id}) && (!Beyond(ls[n], table) ==> Fetchable(frames, ScannedIds(ls[n + 1..], table)))
    {
      hide Fetchable, SameUses;
      FetchTwo(frames, frames', {ls[n].id}, if Beyond(ls[n], table) then {} else ScannedIds(ls[n + 1..], table));
      assert ls[n..][1..] == ls[n + 1..];
    }

    /** How many new pages can be pinned besides the given ones. */
    ghost function Free(frames: Frames, ids: set<PageId>): int
    {
      bp.maxSize - |Stuck(frames) + ids|
    }

    /**
      How an insertion or update into a subtree ends, from the view and the frames it found: it stops
      exactly if the frames do not suffice for the way down and for the new pages it asks for.
     */
    ghost predicate Ended(r: Result, s: Start, t: Tree, mode: Mode, c: Cell, next: PageId, view: Disk, frames: Frames)
      reads disk, bp, wm
    {
      var free := Free(frames, PathIds(t, c.key));
      && (r == PoolFull <==> free < Demand(t, mode, c, next))
      && (r == PoolFull ==>
            && Stopped(s, LeftPage(view, t, mode, c, next, free)) && BlankLeft(disk.pages, next, free)
            && Dirtied(frames, bp.frames, Finished(t, mode, c, next, free), s.txn))
      && (r == KeyNotFound <==> r != PoolFull && Missing(t, mode, c.key))
      && (r == KeyNotFound ==> SameDirt(frames, bp.frames))
      && (r == Done ==> Dirtied(frames, bp.frames, Touched(t, mode, c, next), s.txn))
    }

    /** The page file, the pool and the log as they are now. */
    ghost function Now(): (p: Pool)
      reads disk, bp, wm
    {
      Pool(disk.pages, bp.frames, wm.durable, wm.buf, wm.nextLsn, disk.rootPageId)
    }

    /** The tree that the pages represent. */
    ghost var tree: Tree

    /**
      The invariant of every tree: the pages represent it, nothing is shared or missing, all leaves lie
      equally deep, and the cells of each page ascend.
     */
    ghost predicate Shaped()
      reads this, disk, bp
    {
      Inv() && bp.Coherent({}) && Represents(bp.View(), tree, disk.rootPageId, disk.nextPageId) && Bounded(tree, bound)
    }

    /**
      What an insert or update needs: both halves of every internal page that splits fit in their pages,
      which bounds on the keys make sure of, and every separator finds its place, which it does unless one
      repeats. The halves of the leaf need not fit.
     */
    ghost predicate Accepts(mode: Mode, c: Cell)
      reads this, disk
    {
      && (if bound.Some? then CellWithin(c, bound.value) else PutRootFits(tree, mode, c, disk.nextPageId))
      && ((Ordered(tree, Unbounded, Unbounded) && Strict(tree, Unbounded, Unbounded)) || Placed(tree, mode, c, disk.nextPageId))
    }

    lemma Accepted(mode: Mode, c: Cell)
      requires Shaped() && Accepts(mode, c)
      ensures PutRootFits(tree, mode, c, disk.nextPageId) && Placed(tree, mode, c, disk.nextPageId)
      ensures Bounded(PutRoot(tree, mode, c, disk.nextPageId), bound)
      ensures bound.Some? && LeafBalance(bound.value) ==> KeepsAll(tree, mode, c)
    {
      hide Ordered, Strict, WellShaped, Match, PutRoot, PutRootFits, Placed, Weighted, CellWithin, KeepsAll;
      if bound.Some? {
        WeightedRootFits(tree, mode, c, disk.nextPageId, bound.value);
        PutRootWeighted(tree, mode, c, disk.nextPageId, bound.value);
      }
      if Ordered(tree, Unbounded, Unbounded) && Strict(tree, Unbounded, Unbounded) { StrictPlaced(tree, mode, c, disk.nextPageId, Unbounded, Unbounded); }
    }

    /** In addition all keys strictly ascend, each in the range of its leaf, so that the tree is a map. */
    ghost predicate Valid()
      reads this, disk, bp
    {
      Shaped() && Ordered(tree, Unbounded, Unbounded)
    }

    /** NewBTree: an empty leaf as root in a new file, the existing tree otherwise. */
    constructor (disk: DiskManager, bp: BufferPool, wm: WALManager, ghost ints: iset<nat>, ghost bound: Option<Weights>, ghost existing: Tree)
      requires bp.disk == disk && bp.wm == wm && bp.Valid() && bp.Coherent({}) && AllTyped(bp.View(), ints)
      requires disk.nextPageId <= NO_PAGE && (bound.Some? ==> SepBalance(bound.value))
      requires disk.rootPageId == NO_PAGE ==> disk.nextPageId == 0 && bp.frames == map[]
      requires disk.rootPageId != NO_PAGE ==>
                 && existing.id == disk.rootPageId && disk.nextPageId > 0 && Match(bp.View(), existing, NO_PAGE)
                 && WellShaped(existing, disk.nextPageId) && SpaceOk(existing) && Tidy(existing)
                 && Bounded(existing, bound)
      modifies disk
      ensures Shaped() && this.disk == disk && this.bp == bp && this.wm == wm && this.ints == ints && this.bound == bound
      ensures if old(disk.rootPageId) == NO_PAGE then Valid() && Contents(tree) == [] else tree == existing
    {
      this.disk, this.bp, this.wm, this.ints, this.bound := disk, bp, wm, ints, bound;
      tree := existing;
      new;
      if disk.rootPageId == NO_PAGE { NewFile(); }
    }

    /** The part of NewBTree that makes the empty leaf. */
    method NewFile()
      requires bp.disk == disk && bp.wm == wm && bp.Valid() && disk.nextPageId == 0 && bp.frames == map[]
      requires bound.Some? ==> SepBalance(bound.value)
      modifies this`tree, disk
      ensures Valid() && Contents(tree) == []
    {
      hide Recency;
      var id := disk.AllocatePage(LeafPage);
      disk.WritePage(NewPage(LeafPage, id).(right := NO_PAGE), wm.durable);
      disk.SetRootPageId(id);
      tree := Leaf(id, [], PAGE_SIZE);
      assert bp.View() == map[id := NewPage(LeafPage, id).(right := NO_PAGE)];
      EmptyTree(bp.View(), id);
    }

    /** At the start of a statement nothing is held. */
    lemma StartWork(s: Start)
      requires Inv() && bp.Coherent({}) && s.pool == Now()
      ensures Work(s, {})
    {}

    // ---- The steps every operation is made of ----

    method Fetch(id: PageId, ghost s: Start, ghost held: set<PageId>) returns (ok: bool)
      requires Work(s, held) && id in disk.pages
      modifies bp
      ensures bp.Counted(if ok then 1 else 0, 1)
      ensures Work(s, held) && bp.View() == old(bp.View()) && SameDirt(old(bp.frames), bp.frames)
      ensures PinsMoved(old(bp.frames), bp.frames, id, if ok then 1 else 0)
      ensures ok <==> |Stuck(old(bp.frames)) + {id}| <= bp.maxSize
      ensures !ok ==> bp.frames == old(bp.frames)
    {
      var e := bp.FetchPage(id);
      ok := e == Fetched;
      assert bp.Coherent(held);
      LoggedDirt(s, wm.buf, bp.View(), old(bp.frames), bp.frames, held);
    }

    /** releasePage, for a page that this statement has not changed. */
    method Release(id: PageId, ghost s: Start, ghost held: set<PageId>)
      requires Work(s, held) && PinOf(bp.frames, id) > 0 && id !in held
      modifies bp
      ensures bp.Counted(-1, 0)
      ensures Work(s, held) && bp.View() == old(bp.View()) && SameDirt(old(bp.frames), bp.frames)
      ensures PinsMoved(old(bp.frames), bp.frames, id, -1)
    {
      ReleasedUse(disk.pages, bp.frames, id);
      bp.UnpinPage(id, false, 0);
      LoggedDirt(s, wm.buf, bp.View(), old(bp.frames), bp.frames, held);
    }

    /** releasePage on an error path: the page may have been changed, and the pool takes it for clean. */
    method Abandon(id: PageId, ghost s: Start, ghost left: Option<Page>)
      requires Inv() && PinOf(bp.frames, id) > 0 && Stopped(s, left)
      modifies bp
      ensures bp.Counted(-1, 0)
      ensures Inv() && PinsMoved(old(bp.frames), bp.frames, id, -1) && SameDirt(old(bp.frames), bp.frames) && Stopped(s, left)
    {
      hide Logged, Grew;
      ReleasedUse(disk.pages, bp.frames, id);
      bp.UnpinPage(id, false, 0);
      assert Unframed(s.pool.pages, disk.pages, bp.frames) == Unframed(s.pool.pages, disk.pages, old(bp.frames));
      LoggedDirt(s, wm.buf, bp.View(), old(bp.frames), bp.frames, LeftIds(left) + Unframed(s.pool.pages, disk.pages, bp.frames));
    }

    /** A pinned page is changed in place. */
    method Change(p: Page, ghost s: Start, ghost held: set<PageId>)
      requires Work(s, held) && PinOf(bp.frames, p.id) > 0 && PageTyped(p, ints)
      modifies bp
      ensures bp.Counted(0, 0)
      ensures Work(s, held + {p.id}) && bp.View() == old(bp.View())[p.id := p]
      ensures SameDirt(old(bp.frames), bp.frames) && SamePins(old(bp.frames), bp.frames)
      ensures p.id in bp.frames && bp.frames[p.id].page == p
    {
      hide PoolOk, PinsOk, Filed, CoherentOk, AllTyped, PageTyped, Logged, Grew;
      OnDisk(p.id);
      ChangedUse(disk.pages, bp.frames, p);
      TypedStill(bp.View(), p, ints);
      bp.Mutate(p);
      LoggedChange(s, wm.buf, old(bp.View()), bp.View(), old(bp.frames), bp.frames, held, p.id);
    }

    /** finishPage: logs the image as it is before the LSN is stamped, and unpins the page as dirty. */
    method Finish(id: PageId, op: Operation, ghost s: Start, ghost held: set<PageId>, txn: TxnId)
      requires Work(s, held) && PinOf(bp.frames, id) > 0 && s.txn == txn && op !in {OpCommit, OpAbort}
      modifies bp, wm
      ensures bp.Counted(-1, 0)
      ensures Work(s, held - {id}) && PinsMoved(old(bp.frames), bp.frames, id, -1)
      ensures Dirtied(old(bp.frames), bp.frames, {id}, txn)
      ensures id in old(bp.View()) && id in bp.View()
      ensures bp.View() == old(bp.View())[id := old(bp.View())[id].(lsn := old(wm.nextLsn))]
      ensures wm.buf == old(wm.buf) + [Rec(old(wm.nextLsn), txn, id, op, Some(old(bp.View())[id]))]
    {
      OnDisk(id);
      var p := bp.frames[id].page;
      var lsn := wm.Append(txn, id, op, Some(p));
      assert p == bp.View()[id];
      ghost var buf, view, frames := old(wm.buf), bp.View(), bp.frames;
      Stamp(p.(lsn := lsn), txn);
      FinishLogged(s, buf, view, frames, held, Rec(lsn, txn, id, op, Some(p)), bp.View(), bp.frames);
    }

    lemma OnDisk(id: PageId)
      requires Inv() && PinOf(bp.frames, id) > 0
      ensures id in bp.frames && id in disk.pages && bp.frames[id].page.id == id
    {}

    method Stamp(p: Page, txn: TxnId)
      requires Inv() && PinOf(bp.frames, p.id) > 0 && PageTyped(p, ints)
      modifies bp
      ensures bp.Counted(-1, 0)
      ensures Inv() && bp.View() == old(bp.View())[p.id := p] && PinsMoved(old(bp.frames), bp.frames, p.id, -1)
      ensures DirtyOf(bp.frames, p.id) == Some(txn)
      ensures forall x :: x != p.id ==> DirtyOf(bp.frames, x) == DirtyOf(old(bp.frames), x)
      ensures forall held | old(CoherentOk(disk.pages, bp.frames, held)) :: CoherentOk(disk.pages, bp.frames, held - {p.id})
    {
      hide PoolOk, PinsOk, Filed, CoherentOk, AllTyped, PageTyped;
      OnDisk(p.id);
      FinishedUse(disk.pages, bp.frames, p, txn);
      TypedStill(bp.View(), p, ints);
      bp.Mutate(p);
      bp.UnpinPage(p.id, true, txn);
    }

    method Allocate(kind: PageKind, ghost s: Start, ghost held: set<PageId>) returns (id: PageId)
      requires Work(s, held) && disk.nextPageId < NO_PAGE
      modifies disk
      ensures Work(s, held + {id}) && id == old(disk.nextPageId) == disk.nextPageId - 1
      ensures id !in old(bp.View()) && bp.View() == old(bp.View())[id := NewPage(kind, id)]
      ensures disk.rootPageId == old(disk.rootPageId) && id in disk.pages && PinOf(bp.frames, id) == 0
      ensures disk.pages == old(disk.pages)[id := NewPage(kind, id)] && id !in s.pool.pages && id !in bp.frames
    {
      id := disk.AllocatePage(kind);
      assert id !in bp.frames;
      assert bp.View() == old(bp.View())[id := NewPage(kind, id)];
      assert bp.Coherent(held + {id});
      LoggedChange(s, wm.buf, old(bp.View()), bp.View(), bp.frames, bp.frames, held, id);
    }

    // ---- Searching and filling one page ----

    /** findChildPageID: the child in front of the first separator greater than the key. */
    method FindChild(p: Page, key: Key) returns (child: PageId)
      requires PageTyped(p, ints) && Typed(key, ints) && forall i | 0 <= i < |p.cells| :: p.cells[i].body.Child?
      ensures var i := UpperBound(p.cells, key); child == if i < |p.cells| then p.cells[i].body.id else p.right
    {
      for i := 0 to |p.cells|
        invariant forall j | 0 <= j < i :: !Lt(key, p.cells[j].key)
      {
        if Compare(key, p.cells[i].key) < 0 {
          PositionIs(p.cells, key, i);
          return p.cells[i].body.id;
        }
      }
      PositionIs(p.cells, key, |p.cells|);
      return p.right;
    }

    method FindInsertPos(p: Page, key: Key) returns (i: nat)
      requires PageTyped(p, ints) && Typed(key, ints)
      ensures i == UpperBound(p.cells, key)
    {
      i := 0;
      while i < |p.cells|
        invariant i <= |p.cells| && forall j | 0 <= j < i :: !Lt(key, p.cells[j].key)
      {
        if Compare(p.cells[i].key, key) > 0 { break; }
        i := i + 1;
      }
      PositionIs(p.cells, key, i);
    }

    /** searchInLeaf stops at the first greater key, which in an ascending page misses nothing. */
    method SearchInLeaf(p: Page, key: Key) returns (i: nat, found: bool)
      requires PageTyped(p, ints) && Typed(key, ints) && Ascending(p.cells)
      ensures found <==> Find(p.cells, key) < |p.cells|
      ensures found ==> i == Find(p.cells, key)
    {
      for k := 0 to |p.cells|
        invariant forall j | 0 <= j < k :: p.cells[j].key != key
      {
        var cmp := Compare(p.cells[k].key, key);
        if cmp == 0 {
          FindIs(p.cells, key, k);
          return k, true;
        }
        if cmp > 0 {
          forall j | k <= j < |p.cells| ensures p.cells[j].key != key { KeyOrder(p.cells[k].key, p.cells[j].key); }
          FindIs(p.cells, key, |p.cells|);
          return 0, false;
        }
      }
      FindIs(p.cells, key, |p.cells|);
      return 0, false;
    }

    /** The split loops: AddCell for every cell, whatever it answers. */
    method Fill(p: Page, cells: seq<Cell>) returns (q: Page)
      requires p.cells == [] && p.off == PAGE_SIZE
      ensures q == p.(cells := Kept(cells), off := PAGE_SIZE - TotalSize(Kept(cells)))
    {
      q := p;
      assert cells[..0] == [] && Kept([]) == [] && TotalSize([]) == 0;
      hide Kept, TotalSize, AddCell;
      for i := 0 to |cells|
        invariant q == p.(cells := Kept(cells[..i]), off := PAGE_SIZE - TotalSize(Kept(cells[..i])))
      {
        KeptStep(q, cells, i);
        q := AddCell(q, cells[i]);
      }
      assert cells[..|cells|] == cells;
    }

    /** The cells of a page and one more, through sortCells. */
    method SortWith(cells: seq<Cell>, c: Cell) returns (all: seq<Cell>)
      requires Ascending(cells) && Typed(c.key, ints) && forall i | 0 <= i < |cells| :: Typed(cells[i].key, ints)
      ensures all == Sorted(cells, c)
    {
      var a := new Cell[|cells| + 1](i => if 0 <= i < |cells| then cells[i] else c);
      assert a[..] == cells + [c];
      BubbleSort(a, ints);
      all := a[..];
      SortIsInsert(cells, c, all);
    }

    // ---- Splits ----

    method PageAt(id: PageId) returns (p: Page)
      requires Inv() && PinOf(bp.frames, id) > 0
      ensures id in bp.View() && p == bp.View()[id] && p.id == id && PageTyped(p, ints)
    {
      p := bp.frames[id].page;
      assert p == bp.View()[id];
    }

    /** A new page, pinned; without a frame for it, the page being split is given up, changed if it is held. */
    method NewPinned(kind: PageKind, id: PageId, ghost s: Start, ghost held: set<PageId>) returns (ok: bool, newId: PageId)
      requires Work(s, held) && held <= {id} && PinOf(bp.frames, id) > 0 && disk.nextPageId < NO_PAGE && id in bp.View()
      modifies disk, bp
      ensures bp.Counted(if ok then 1 else -1, 1)
      ensures Inv() && disk.rootPageId == old(disk.rootPageId)
      ensures newId == old(disk.nextPageId) == disk.nextPageId - 1 && newId != id && newId !in old(bp.View())
      ensures disk.pages == old(disk.pages)[newId := NewPage(kind, newId)]
      ensures ok <==> |Stuck(old(bp.frames)) + {newId}| <= bp.maxSize
      ensures SameDirt(old(bp.frames), bp.frames)
      ensures ok ==> Work(s, {id, newId}) && bp.View() == old(bp.View())[newId := NewPage(kind, newId)]
      ensures ok ==> PinsMoved(old(bp.frames), bp.frames, newId, 1)
      ensures !ok ==> PinsMoved(old(bp.frames), bp.frames, id, -1)
      ensures !ok ==> Stopped(s, if held == {} then None else Some(old(bp.View())[id]))
    {
      hide PoolOk, PinsOk, Filed, Logged, Grew, Stopped, AllTyped;
      ghost var left := if held == {} then None else Some(bp.View()[id]);
      newId := Allocate(kind, s, held);
      assert id in bp.frames && id != newId;
      ok := Fetch(newId, s, held + {newId});
      if ok {
        HoldMore(s, held + {newId}, {id, newId});
      } else {
        PageOwnId(id);
        StoppedHere(s, held + {newId}, left);
        Abandon(id, s, left);
      }
    }

    lemma PageOwnId(id: PageId)
      requires Inv() && id in bp.View()
      ensures bp.View()[id].id == id
    {}

    lemma HoldMore(s: Start, held: set<PageId>, more: set<PageId>)
      requires Work(s, held) && held <= more
      ensures Work(s, more)
    {
      hide PoolOk, PinsOk, Filed, AllTyped, Grew, IsWrite, Recorded;
    }

    /** Both halves of a split are changed in place and finished. */
    method FinishPair(left: Page, right: Page, txn: TxnId, ghost s: Start)
      requires Work(s, {left.id, right.id}) && left.id != right.id && s.txn == txn
      requires PinOf(bp.frames, left.id) > 0 && PinOf(bp.frames, right.id) > 0
      requires PageTyped(left, ints) && PageTyped(right, ints)
      modifies bp, wm
      ensures bp.Counted(-2, 0)
      ensures Work(s, {})
      ensures forall x: PageId {:trigger PinOf(bp.frames, x)} ::
                PinOf(bp.frames, x) == PinOf(old(bp.frames), x) - if x in {left.id, right.id} then 1 else 0
      ensures Dirtied(old(bp.frames), bp.frames, {left.id, right.id}, txn)
      ensures Unchanged(old(bp.View()), bp.View(), {left.id, right.id}) && bp.View().Keys == old(bp.View()).Keys
      ensures left.id in bp.View() && SameButLsn(bp.View()[left.id], left)
      ensures right.id in bp.View() && SameButLsn(bp.View()[right.id], right)
    {
      hide PoolOk, PinsOk, CoherentOk, Filed, Logged, Grew, PageTyped;
      ghost var held := {left.id, right.id};
      Change(left, s, held);
      assert held + {left.id} == held;
      Change(right, s, held);
      assert held + {right.id} == held;
      Finish(left.id, OpInsert, s, held, txn);
      assert held - {left.id} == {right.id};
      Finish(right.id, OpInsert, s, {right.id}, txn);
      assert {right.id} - {right.id} == {};
    }

    /** splitLeaf: redistributes the page's cells and the new one over the page and a new page; cells that do not fit are lost. */
    method SplitLeaf(id: PageId, c: Cell, txn: TxnId, ghost s: Start, ghost held: set<PageId>) returns (r: Result, upKey: Key, newId: PageId)
      requires Work(s, held) && held <= {id} && PinOf(bp.frames, id) > 0 && s.txn == txn && Typed(c.key, ints)
      requires disk.nextPageId < NO_PAGE && id in bp.View()
      requires bp.View()[id].kind.LeafPage? && Ascending(bp.View()[id].cells)
      modifies disk, bp, wm
      ensures bp.Counted(-1, 1)
      ensures Inv() && PinsMoved(old(bp.frames), bp.frames, id, -1) && disk.rootPageId == old(disk.rootPageId)
      ensures disk.pages == old(disk.pages)[old(disk.nextPageId) := NewPage(LeafPage, old(disk.nextPageId))]
      ensures r == PoolFull <==> |Stuck(old(bp.frames)) + {old(disk.nextPageId)}| > bp.maxSize
      ensures r == PoolFull ==>
                SameDirt(old(bp.frames), bp.frames) && Stopped(s, if held == {} then None else Some(old(bp.View())[id]))
      ensures r != KeyNotFound
      ensures r == Done ==>
                && Dirtied(old(bp.frames), bp.frames, {id, newId}, txn)
                && Work(s, {}) && newId == old(disk.nextPageId) == disk.nextPageId - 1 && Typed(upKey, ints)
                && Unchanged(old(bp.View()), bp.View(), {id}) && id in bp.View() && newId in bp.View()
                && bp.View()[id].id == id && bp.View()[newId].id == newId
                && HalvedLeaf(bp.View()[id], bp.View()[newId], old(bp.View())[id], c, upKey)
    {
      hide PoolOk, PinsOk, CoherentOk, Filed, Logged, Grew, HalvedLeaf, Sorted, Ascending, Stopped;
      var ok;
      ok, newId := NewPinned(LeafPage, id, s, held);
      if !ok { return PoolFull, c.key, newId; }
      var p := PageAt(id);
      var right := PageAt(newId);
      var left;
      left, right, upKey := DivideLeaf(p, right, c);
      ghost var view := bp.View();
      FinishPair(left, right, txn, s);
      SplitUnchanged(old(bp.View()), view, bp.View(), id, newId);
      LeavesButLsn(left, right, bp.View()[id], bp.View()[newId], p, c, upKey);
      r := Done;
    }

    /** The two pages that replace a full leaf. */
    method DivideLeaf(p: Page, blank: Page, c: Cell) returns (left: Page, right: Page, upKey: Key)
      requires PageTyped(p, ints) && Typed(c.key, ints) && Ascending(p.cells) && p.kind.LeafPage?
      requires blank == NewPage(LeafPage, blank.id)
      ensures PageTyped(left, ints) && PageTyped(right, ints) && Typed(upKey, ints) && left.id == p.id && right.id == blank.id
      ensures HalvedLeaf(left, right, p, c, upKey)
    {
      var oldNext := p.right;
      var all := SortWith(p.cells, c);
      SortedTyped(p.cells, c, ints);
      var mid := |all| / 2;
      upKey := all[mid].key;
      KeptTyped(all[..mid], ints);
      KeptTyped(all[mid..], ints);
      left := Fill(ResetPage(p), all[..mid]);
      right := Fill(blank.(right := NO_PAGE), all[mid..]);
      left, right := left.(right := right.id), right.(right := oldNext);
    }

    /** splitInternal: the middle separator moves up, and the new page inherits the rightmost child. */
    method SplitInternal(id: PageId, c: Cell, txn: TxnId, ghost s: Start, ghost g: Tree) returns (r: Result, upKey: Key, newId: PageId)
      requires Work(s, {id}) && PinOf(bp.frames, id) > 0 && s.txn == txn && Typed(c.key, ints)
      requires disk.nextPageId < NO_PAGE && id in bp.View() && g.Node? && g.id == id
      requires Dividable(bp.View()[id], c, g)
      modifies disk, bp, wm
      ensures bp.Counted(-1, 1)
      ensures Inv() && PinsMoved(old(bp.frames), bp.frames, id, -1) && disk.rootPageId == old(disk.rootPageId)
      ensures disk.pages == old(disk.pages)[old(disk.nextPageId) := NewPage(InternalPage, old(disk.nextPageId))]
      ensures r == PoolFull <==> |Stuck(old(bp.frames)) + {old(disk.nextPageId)}| > bp.maxSize
      ensures r == PoolFull ==> SameDirt(old(bp.frames), bp.frames) && Stopped(s, Some(old(bp.View())[id]))
      ensures r != KeyNotFound
      ensures r == Done ==>
                && Dirtied(old(bp.frames), bp.frames, {id, newId}, txn)
                && Work(s, {}) && newId == old(disk.nextPageId) == disk.nextPageId - 1 && Typed(upKey, ints)
                && Unchanged(old(bp.View()), bp.View(), {id}) && id in bp.View() && newId in bp.View()
                && Divided(bp.View()[id], bp.View()[newId], upKey, g, newId)
    {
      hide PoolOk, PinsOk, CoherentOk, Filed, Logged, Grew, AllTyped, Divided, Ascending, Sorted, HalvesFit, Stopped;
      var ok;
      ok, newId := NewPinned(InternalPage, id, s, {id});
      if !ok { return PoolFull, c.key, newId; }
      var p := PageAt(id);
      var right := PageAt(newId);
      var left;
      left, right, upKey := DivideInternal(p, right, c, g);
      ghost var view := bp.View();
      FinishPair(left, right, txn, s);
      SplitUnchanged(old(bp.View()), view, bp.View(), id, newId);
      DividedButLsn(left, right, bp.View()[id], bp.View()[newId], upKey, g, newId);
      r := Done;
    }

    /** The two pages that replace a full internal page. */
    method DivideInternal(p: Page, blank: Page, c: Cell, ghost g: Tree) returns (left: Page, right: Page, upKey: Key)
      requires PageTyped(p, ints) && Typed(c.key, ints) && g.Node? && Dividable(p, c, g) && g.id == p.id
      requires blank == NewPage(InternalPage, blank.id)
      ensures PageTyped(left, ints) && PageTyped(right, ints) && Typed(upKey, ints) && left.id == p.id && right.id == blank.id
      ensures Divided(left, right, upKey, g, right.id)
    {
      var oldRightmost := p.right;
      var all := SortWith(p.cells, c);
      SortedTyped(p.cells, c, ints);
      var mid := |all| / 2;
      upKey := all[mid].key;
      BranchesSlice(g.seps, mid);
      KeptTyped(all[..mid], ints);
      KeptTyped(all[mid + 1..], ints);
      left := Fill(ResetPage(p), all[..mid]);
      right := Fill(blank, all[mid + 1..]);
      left, right := left.(right := all[mid].body.id), right.(right := oldRightmost);
    }

    /** A pinned leaf to which a key has been routed; `t` is the leaf as the tree has it. */
    ghost predicate LeafReady(p: Page, c: Cell, s: Start, held: set<PageId>, t: Tree, nxt: PageId, mode: Mode)
      reads disk, bp, wm
    {
      && Work(s, held) && held <= {p.id} && PinOf(bp.frames, p.id) > 0 && p.id in bp.View() && bp.View()[p.id] == p
      && Typed(c.key, ints) && 0 < disk.nextPageId < NO_PAGE && p.id < disk.nextPageId
      && t.Leaf? && Ascending(t.cells)
    }

    /** The subtree has become what Put says, and other pages are as before. */
    ghost predicate PutDone(upKey: Key, newId: PageId, s: Start, view: Disk, t: Tree, nxt: PageId, o: Outcome, next: PageId)
      reads disk, bp, wm
    {
      && Work(s, {}) && disk.nextPageId == next
      && MatchOut(bp.View(), o, nxt) && Unchanged(view, bp.View(), Ids(t))
      && newId == (if o.Two? then o.right.id else 0)
      && (o.Two? ==> upKey == o.sep && Typed(upKey, ints) && BlankHalf(disk.pages, o))
    }

    lemma PutDoneFrom(upKey: Key, newId: PageId, s: Start, view: Disk, view': Disk, t: Tree, nxt: PageId, o: Outcome, next: PageId)
      requires PutDone(upKey, newId, s, view', t, nxt, o, next) && Unchanged(view, view', Ids(t))
      ensures PutDone(upKey, newId, s, view, t, nxt, o, next)
    {}

    method FinishLeaf(p: Page, op: Operation, txn: TxnId, ghost s: Start, ghost held: set<PageId>)
      requires Work(s, held) && held <= {p.id} && PinOf(bp.frames, p.id) > 0 && s.txn == txn && op !in {OpCommit, OpAbort}
      requires PageTyped(p, ints)
      modifies bp, wm
      ensures bp.Counted(-1, 0)
      ensures Work(s, {}) && PinsMoved(old(bp.frames), bp.frames, p.id, -1) && Dirtied(old(bp.frames), bp.frames, {p.id}, txn)
      ensures p.id in bp.View() && SameButLsn(bp.View()[p.id], p) && Unchanged(old(bp.View()), bp.View(), {p.id})
    {
      Change(p, s, held);
      assert held + {p.id} == {p.id};
      Finish(p.id, op, s, {p.id}, txn);
      assert {p.id} - {p.id} == {};
    }

    /** The common end of insertIntoLeaf and updateLeaf: the cell goes into the page if it has room. */
    method PlaceInLeaf(p: Page, c: Cell, op: Operation, txn: TxnId, ghost s: Start, ghost held: set<PageId>, ghost t: Tree, ghost nxt: PageId, ghost mode: Mode)
      returns (r: Result, upKey: Key, newId: PageId)
      requires LeafReady(p, c, s, held, t, nxt, mode) && s.txn == txn && op !in {OpCommit, OpAbort}
      requires LeafPageIs(p, Leaf(t.id, Base(t.cells, c.key, mode), t.off), nxt)
      requires Ascending(Base(t.cells, c.key, mode))
      modifies disk, bp, wm
      ensures bp.Counted(-1, 1)
      ensures Inv() && PinsMoved(old(bp.frames), bp.frames, p.id, -1) && disk.rootPageId == old(disk.rootPageId)
      ensures r == PoolFull <==>
                PutLeaf(t, mode, c, old(disk.nextPageId)).Two? && |Stuck(old(bp.frames)) + {old(disk.nextPageId)}| > bp.maxSize
      ensures r == PoolFull ==> SameDirt(old(bp.frames), bp.frames) && Stopped(s, if held == {} then None else Some(p))
      ensures r != KeyNotFound
      ensures r == Done ==> Dirtied(old(bp.frames), bp.frames, Touched(t, mode, c, old(disk.nextPageId)), txn)
      ensures r == Done ==>
                var o := PutLeaf(t, mode, c, old(disk.nextPageId));
                PutDone(upKey, newId, s, old(bp.View()), t, nxt, o, if o.Two? then old(disk.nextPageId) + 1 else old(disk.nextPageId))
    {
      hide PoolOk, PinsOk, CoherentOk, Filed, Logged, Grew, HalvedLeaf, Ascending, PutLeaf, Base, PutFits, Fits,
        MatchOut, Ids, Stopped, Stuck, Touched;
      ghost var next := disk.nextPageId;
      RoomDecides(p, t, mode, c, next);
      var pos := FindInsertPos(p, c.key);
      if HasRoom(p, c) {
        SortedTyped(p.cells, c, ints);
        FinishLeaf(InsertCellAt(p, pos, c), op, txn, s, held);
        PlacedOutcome(bp.View(), p, t, mode, c, next, nxt);
        return Done, c.key, 0;
      }
      r, upKey, newId := SplitLeaf(p.id, c, txn, s, held);
      if r == Done { HalvedOutcome(bp.View(), p, t, mode, c, upKey, next, nxt); }
    }

    /** A pinned leaf: one frame more or less decides. */
    lemma LeafEnded(r: Result, s: Start, t: Tree, mode: Mode, c: Cell, next: PageId, view: Disk, frames: Frames)
      requires t.Leaf? && t.id in view && t.id in Stuck(frames) && |frames.Keys| <= bp.maxSize && forall id | id in frames :: id < next
      requires r == KeyNotFound <==> mode == Updating && Find(t.cells, c.key) == |t.cells|
      requires r != KeyNotFound ==> (r == PoolFull <==> PutLeaf(t, mode, c, next).Two? && |Stuck(frames) + {next}| > bp.maxSize)
      requires r == PoolFull ==>
                 && Stopped(s, if mode == Inserting then None else Some(view[t.id].(cells := Base(t.cells, c.key, Updating))))
                 && SameDirt(frames, bp.frames)
      requires r == KeyNotFound ==> SameDirt(frames, bp.frames)
      requires r == Done ==> Dirtied(frames, bp.frames, Touched(t, mode, c, next), s.txn)
      ensures Ended(r, s, t, mode, c, next, view, frames)
    {
      hide Stopped, PutLeaf, Find, Base, Stuck, Dirtied, Touched, PathIds;
      LeafRoom(frames, t, c.key, next);
      NoneDirtied(frames, bp.frames, s.txn);
      Fewer(Stuck(frames), frames.Keys);
    }

    /** insertIntoLeaf. */
    method InsertIntoLeaf(id: PageId, c: Cell, txn: TxnId, ghost s: Start, ghost t: Tree, ghost nxt: PageId) returns (r: Result, upKey: Key, newId: PageId)
      requires t.Leaf? && Match(bp.View(), t, nxt) && id == t.id && LeafReady(bp.View()[id], c, s, {}, t, nxt, Inserting) && s.txn == txn
      modifies disk, bp, wm
      ensures bp.Counted(-1, 1)
      ensures Inv() && PinsMoved(old(bp.frames), bp.frames, id, -1) && disk.rootPageId == old(disk.rootPageId)
      ensures Ended(r, s, t, Inserting, c, old(disk.nextPageId), old(bp.View()), old(bp.frames))
      ensures r == Done ==>
                var o := PutLeaf(t, Inserting, c, old(disk.nextPageId));
                PutDone(upKey, newId, s, old(bp.View()), t, nxt, o, if o.Two? then old(disk.nextPageId) + 1 else old(disk.nextPageId))
    {
      hide PoolOk, PinsOk, CoherentOk, Filed, Logged, Grew, AllTyped, PutLeaf, Find, Stopped, Ended, Stuck, Touched, PutDone;
      var p := PageAt(id);
      PinnedStuck(id);
      FramesBelow();
      ghost var view, frames, next := bp.View(), bp.frames, disk.nextPageId;
      r, upKey, newId := PlaceInLeaf(p, c, OpInsert, txn, s, {}, t, nxt, Inserting);
      LeafEnded(r, s, t, Inserting, c, next, view, frames);
    }

    /** updateLeaf: the old cell goes first, so the new one competes only with the other rows. */
    method UpdateLeaf(id: PageId, c: Cell, txn: TxnId, ghost s: Start, ghost t: Tree, ghost nxt: PageId) returns (r: Result, upKey: Key, newId: PageId)
      requires t.Leaf? && Match(bp.View(), t, nxt) && id == t.id && LeafReady(bp.View()[id], c, s, {}, t, nxt, Updating) && s.txn == txn
      modifies disk, bp, wm
      ensures bp.Counted(-1, 1)
      ensures Inv() && PinsMoved(old(bp.frames), bp.frames, id, -1) && disk.rootPageId == old(disk.rootPageId)
      ensures Ended(r, s, t, Updating, c, old(disk.nextPageId), old(bp.View()), old(bp.frames))
      ensures r == KeyNotFound ==>
                && Find(t.cells, c.key) == |t.cells| && Work(s, {})
                && bp.View() == old(bp.View()) && wm.buf == old(wm.buf) && disk.nextPageId == old(disk.nextPageId)
      ensures r == Done ==>
                var o := PutLeaf(t, Updating, c, old(disk.nextPageId));
                && Find(t.cells, c.key) < |t.cells|
                && PutDone(upKey, newId, s, old(bp.View()), t, nxt, o, if o.Two? then old(disk.nextPageId) + 1 else old(disk.nextPageId))
    {
      hide PoolOk, PinsOk, CoherentOk, Filed, Logged, Grew, AllTyped, PutLeaf, Find, Base, Stopped, Ended, Stuck, Touched, PutDone;
      PinnedStuck(id);
      FramesBelow();
      ghost var view, frames, next := bp.View(), bp.frames, disk.nextPageId;
      var found, q := TakeOut(id, c, s, t, nxt);
      ghost var between := bp.frames;
      SameStuck(frames, between);
      if !found {
        Release(id, s, {});
        SameDirtThrough(frames, between, bp.frames);
        LeafEnded(KeyNotFound, s, t, Updating, c, next, view, frames);
        return KeyNotFound, c.key, 0;
      }
      ghost var view' := bp.View();
      r, upKey, newId := PlaceInLeaf(q, c, OpUpdate, txn, s, {id}, t, nxt, Updating);
      if r == Done {
        ghost var o := PutLeaf(t, Updating, c, next);
        PutDoneFrom(upKey, newId, s, view, view', t, nxt, o, if o.Two? then next + 1 else next);
      }
      SameDirtThrough(frames, between, bp.frames);
      DirtiedThrough(frames, between, bp.frames, Touched(t, Updating, c, next), txn);
      LeafEnded(r, s, t, Updating, c, next, view, frames);
    }

    /** The first half of updateLeaf: the cell with the key leaves the pinned page. */
    method TakeOut(id: PageId, c: Cell, ghost s: Start, ghost t: Tree, ghost nxt: PageId) returns (found: bool, q: Page)
      requires t.Leaf? && Match(bp.View(), t, nxt) && id == t.id && LeafReady(bp.View()[id], c, s, {}, t, nxt, Updating)
      modifies bp
      ensures bp.Counted(0, 0)
      ensures Inv() && SamePins(old(bp.frames), bp.frames) && SameDirt(old(bp.frames), bp.frames)
      ensures found <==> Find(t.cells, c.key) < |t.cells|
      ensures !found ==> Work(s, {}) && bp.View() == old(bp.View())
      ensures found ==>
                && LeafReady(q, c, s, {id}, t, nxt, Updating) && q.id == id
                && id in old(bp.View()) && q == old(bp.View())[id].(cells := Base(t.cells, c.key, Updating))
                && LeafPageIs(q, Leaf(t.id, Base(t.cells, c.key, Updating), t.off), nxt)
                && Ascending(q.cells) && Unchanged(old(bp.View()), bp.View(), {id})
    {
      hide PoolOk, PinsOk, CoherentOk, Logged, Grew, Filed, PutFits;
      q := PageAt(id);
      var idx;
      idx, found := SearchInLeaf(q, c.key);
      if found {
        q := DeleteCell(q, idx);
        BaseAscending(t.cells, c.key, Updating);
        Change(q, s, {});
        assert {} + {id} == {id};
      }
    }

    /** The first cell that points to the split child gets the new page; without one, the rightmost pointer does. */
    method Repoint(p: Page, childId: PageId, newId: PageId, ghost t: Tree, ghost i: nat) returns (q: Page)
      requires t.Node? && Distinct(t) && i <= |t.seps| && NodePage(p, t) && childId == Kid(t, i).id && PageTyped(p, ints)
      ensures q == p.(cells := Repointed(t, i, newId), right := if i < |t.seps| then p.right else newId)
      ensures PageTyped(q, ints)
    {
      for j := 0 to |p.cells|
        invariant forall k | 0 <= k < j :: p.cells[k].body.id != childId
        invariant j <= i
      {
        if p.cells[j].body.id == childId {
          if j != i { KidIdsDiffer(t, i, j); }
          return p.(cells := p.cells[j := Cell(p.cells[j].key, Child(newId))]);
        }
      }
      return p.(right := newId);
    }

    /** The parent's page is pinned and unchanged, and child i of its node has become `o`. */
    ghost predicate PatchReady(id: PageId, childId: PageId, upKey: Key, newChildId: PageId, s: Start, x: Split)
      reads disk, bp, wm
    {
      && Work(s, {}) && PinOf(bp.frames, id) > 0 && 0 < disk.nextPageId < NO_PAGE
      && x.Ok(bp.View()) && x.t.id == id && IdsBelow(x.t, disk.nextPageId) && childId == Kid(x.t, x.i).id
      && newChildId == (if x.o.Two? then x.o.right.id else 0)
      && (x.o.Two? ==> newChildId > 0 && upKey == x.o.sep && Typed(upKey, ints) && BlankHalf(disk.pages, x.o))
    }

    ghost predicate Patched(upKey: Key, newId: PageId, s: Start, x: Split, next: PageId)
      requires x.t.Node? && x.i <= |x.t.seps|
      reads disk, bp, wm
    {
      var o := PutNode(x.t, x.i, x.o, next);
      PutDone(upKey, newId, s, x.view, x.t, x.nxt, o, if o.Two? then next + 1 else next)
    }

    /** How the patching of a node ends, from the view and the frames it found. */
    ghost predicate Patching(r: Result, s: Start, x: Split, next: PageId, view: Disk, frames: Frames)
      requires x.t.Node? && x.i <= |x.t.seps|
      reads disk, bp, wm
    {
      && (r == PoolFull <==> PutNode(x.t, x.i, x.o, next).Two? && |Stuck(frames) + {next}| > bp.maxSize)
      && (r == PoolFull ==>
            && SameDirt(frames, bp.frames) && x.o.Two? && x.t.id in view
            && Stopped(s, Some(HalfPatched(view[x.t.id], x.t, x.i, x.o))) && BlankHalf(disk.pages, x.o))
      && (r == Done ==> Dirtied(frames, bp.frames, Patches(x.t, x.i, x.o, next), s.txn))
    }

    /** patchInternalAfterChildSplit. */
    method PatchInternal(id: PageId, childId: PageId, upKey: Key, newChildId: PageId, txn: TxnId, ghost s: Start, ghost x: Split)
      returns (r: Result, upKey': Key, newId: PageId)
      requires PatchReady(id, childId, upKey, newChildId, s, x) && s.txn == txn && x.Fits()
      modifies disk, bp, wm
      ensures bp.Counted(-1, 1)
      ensures Inv() && PinsMoved(old(bp.frames), bp.frames, id, -1) && disk.rootPageId == old(disk.rootPageId)
      ensures Patching(r, s, x, old(disk.nextPageId), old(bp.View()), old(bp.frames))
      ensures r != KeyNotFound && (r == Done ==> Patched(upKey', newId, s, x, old(disk.nextPageId)))
    {
      if newChildId == 0 {
        Release(id, s, {});
        x.ReplacedOk(bp.View());
        return Done, upKey, 0;
      }
      r, upKey', newId := TakeIn(id, childId, upKey, newChildId, txn, s, x);
    }

    /** The second part of patchInternalAfterChildSplit: the child did split. */
    method TakeIn(id: PageId, childId: PageId, upKey: Key, newChildId: PageId, txn: TxnId, ghost s: Start, ghost x: Split)
      returns (r: Result, upKey': Key, newId: PageId)
      requires PatchReady(id, childId, upKey, newChildId, s, x) && s.txn == txn && x.Fits() && x.o.Two?
      modifies disk, bp, wm
      ensures bp.Counted(-1, 1)
      ensures Inv() && PinsMoved(old(bp.frames), bp.frames, id, -1) && disk.rootPageId == old(disk.rootPageId)
      ensures Patching(r, s, x, old(disk.nextPageId), old(bp.View()), old(bp.frames))
      ensures r != KeyNotFound && (r == Done ==> Patched(upKey', newId, s, x, old(disk.nextPageId)))
    {
      hide PoolOk, PinsOk, CoherentOk, Filed, Logged, Grew, AllTyped, Match, MatchOut, PageTyped, Distinct, Ids, Tidy,
        Ascending, Inv, HalvesFit, RoomFor, UpperBound, Sorted, Dividable, Stopped;
      var p, pos := Patch(id, childId, upKey, newChildId, s, x);
      var c := Cell(upKey, Child(childId));
      if HasRoom(p, c) {
        PatchInPlace(InsertCellAt(p, pos, c), txn, s, x);
        return Done, upKey, 0;
      }
      x.FullPage(p, c);
      r, upKey', newId := PatchAndSplit(p, c, txn, s, x, x.Taken());
    }

    /** The page with the old child's pointer replaced, and the position for the old child's new cell. */
    method Patch(id: PageId, childId: PageId, upKey: Key, newChildId: PageId, ghost s: Start, ghost x: Split) returns (p: Page, pos: nat)
      requires PatchReady(id, childId, upKey, newChildId, s, x) && x.o.Two?
      ensures p.id == id && p.kind.InternalPage? && p.off == x.t.off && PageTyped(p, ints)
      ensures id in bp.View() && p == HalfPatched(bp.View()[id], x.t, x.i, x.o)
      ensures p.cells == Repointed(x.t, x.i, x.o.right.id) && p.right == SplitLast(x.t, x.i, x.o.right).id
      ensures pos == UpperBound(p.cells, upKey) == x.i
      ensures InsertAt(p.cells, pos, Cell(upKey, Child(childId))) == Branches(x.Taken().seps)
      ensures var c := Cell(upKey, Child(childId));
              && (HasRoom(p, c) <==> RoomFor(x.t.off, |x.t.seps|, c))
              && (HasRoom(p, c) ==> NodePage(InsertCellAt(p, pos, c), x.Taken()) && PageTyped(InsertCellAt(p, pos, c), ints))
    {
      p := PageAt(id);
      x.ParentPage(bp.View());
      p := Repoint(p, childId, newChildId, x.t, x.i);
      SamePosition(Branches(x.t.seps), p.cells, upKey);
      pos := FindInsertPos(p, upKey);
      x.PatchedPage(p, Cell(upKey, Child(childId)), ints);
    }

    method PatchInPlace(q: Page, txn: TxnId, ghost s: Start, ghost x: Split)
      requires Work(s, {}) && PinOf(bp.frames, q.id) > 0 && s.txn == txn && PageTyped(q, ints) && x.Ok(bp.View()) && x.o.Two?
      requires RoomFor(x.t.off, |x.t.seps|, Cell(x.o.sep, Child(x.o.left.id))) && NodePage(q, x.Taken())
      modifies bp, wm
      ensures bp.Counted(-1, 0)
      ensures Inv() && PinsMoved(old(bp.frames), bp.frames, q.id, -1)
      ensures Patched(x.o.sep, 0, s, x, disk.nextPageId) && Dirtied(old(bp.frames), bp.frames, {q.id}, txn)
    {
      FinishLeaf(q, OpInsert, txn, s, {});
      x.GrownOk(old(bp.View()), bp.View());
    }

    method PatchAndSplit(q: Page, c: Cell, txn: TxnId, ghost s: Start, ghost x: Split, ghost g: Tree) returns (r: Result, upKey: Key, newId: PageId)
      requires Work(s, {}) && PinOf(bp.frames, q.id) > 0 && s.txn == txn && PageTyped(q, ints) && Typed(c.key, ints)
      requires disk.nextPageId < NO_PAGE && x.Ok(bp.View()) && x.o.Two? && BlankHalf(disk.pages, x.o)
      requires q.id == x.t.id && g == x.Taken() && Dividable(q, c, g) && HalvesFit(g.seps)
      modifies disk, bp, wm
      ensures bp.Counted(-1, 1)
      ensures Inv() && PinsMoved(old(bp.frames), bp.frames, q.id, -1) && disk.rootPageId == old(disk.rootPageId)
      ensures r == PoolFull <==> |Stuck(old(bp.frames)) + {old(disk.nextPageId)}| > bp.maxSize
      ensures r == PoolFull ==> SameDirt(old(bp.frames), bp.frames) && Stopped(s, Some(q)) && BlankHalf(disk.pages, x.o)
      ensures r != KeyNotFound
      ensures r == Done ==>
                && Dirtied(old(bp.frames), bp.frames, {q.id, newId}, txn)
                && newId == old(disk.nextPageId)
                && PutDone(upKey, newId, s, x.view, x.t, x.nxt, Halves(g, newId), newId + 1)
    {
      hide PoolOk, PinsOk, CoherentOk, Filed, Logged, Grew, AllTyped, Dividable, Divided, PageTyped, Stopped, Stuck, PutDone, HalvesFit, BlankHalf, Split.Ok;
      ghost var view := bp.View();
      ghost var frames := bp.frames;
      Change(q, s, {});
      SameStuck(frames, bp.frames);
      assert {} + {q.id} == {q.id};
      StillBlank(x.o);
      r, upKey, newId := SplitInternal(q.id, c, txn, s, g);
      if r == Done { HalvesDone(s, x, g, view, upKey, newId); }
    }

    /** A page allocated now is another one. */
    lemma StillBlank(o: Outcome)
      requires Inv() && o.Two? && BlankHalf(disk.pages, o)
      ensures forall p: Page {:trigger disk.pages[disk.nextPageId := p]} :: BlankHalf(disk.pages[disk.nextPageId := p], o)
    {}

    lemma HalvesDone(s: Start, x: Split, g: Tree, view: Disk, upKey: Key, newId: PageId)
      requires Work(s, {}) && x.Ok(view) && x.o.Two? && g == x.Taken() && HalvesFit(g.seps) && disk.nextPageId == newId + 1
      requires newId in disk.pages && disk.pages[newId] == NewPage(InternalPage, newId)
      requires Unchanged(view, bp.View(), {x.t.id}) && x.t.id in bp.View() && newId in bp.View() && Typed(upKey, ints)
      requires Divided(bp.View()[x.t.id], bp.View()[newId], upKey, g, newId)
      ensures PutDone(upKey, newId, s, x.view, x.t, x.nxt, Halves(g, newId), newId + 1)
    {
      hide PoolOk, PinsOk, CoherentOk, Filed, Logged, Grew, AllTyped, Divided, HalvesFit;
      x.HalvesOk(view, bp.View(), upKey, newId);
    }

    /** A subtree that is about to receive a cell whose key belongs to its range. */
    ghost predicate PutReady(id: PageId, c: Cell, s: Start, mode: Mode, z: Zone)
      reads disk, bp, wm
    {
      && Work(s, {}) && Match(bp.View(), z.t, z.nxt) && z.t.id == id && z.Ok() && IdsBelow(z.t, disk.nextPageId)
      && Typed(c.key, ints)
      && 0 < disk.nextPageId && disk.nextPageId + z.h + 1 < NO_PAGE
      && PutFits(z.t, mode, c, disk.nextPageId) && Placed(z.t, mode, c, disk.nextPageId)
    }

    /** insertRecursive and updateRecursive: the way down is the same, the leaf decides by the mode. */
    method PutRecursive(mode: Mode, id: PageId, c: Cell, txn: TxnId, ghost s: Start, ghost z: Zone)
      returns (r: Result, upKey: Key, newId: PageId)
      requires PutReady(id, c, s, mode, z) && s.txn == txn
      modifies disk, bp, wm
      ensures bp.Counted(0, z.h + 2)
      ensures Inv() && SamePins(old(bp.frames), bp.frames) && disk.rootPageId == old(disk.rootPageId)
      ensures Ended(r, s, z.t, mode, c, old(disk.nextPageId), old(bp.View()), old(bp.frames))
      ensures r == KeyNotFound ==>
                && mode == Updating && Find(Target(z.t, c.key).cells, c.key) == |Target(z.t, c.key).cells|
                && Work(s, {}) && bp.View() == old(bp.View()) && wm.buf == old(wm.buf) && disk.nextPageId == old(disk.nextPageId)
      ensures r == Done ==>
                var (o, next) := Put(z.t, mode, c, old(disk.nextPageId));
                && PutDone(upKey, newId, s, old(bp.View()), z.t, z.nxt, o, next)
                && (mode == Updating ==> Find(Target(z.t, c.key).cells, c.key) < |Target(z.t, c.key).cells|)
      decreases z.t
    {
      hide PoolOk, PinsOk, CoherentOk, Filed, Logged, Grew, PutFits, Placed, Tidy, Distinct, Balanced, MatchOut, AllTyped, PutLeaf,
        Stopped, Ended, Stuck, Touched, Demand, PathIds, LeftPage, Missing, Free;
      MatchIds(bp.View(), z.t, z.nxt);
      RootInIds(z.t);
      FirstOfPath(bp.frames, z.t, c.key);
      FreeIs(bp.frames, PathIds(z.t, c.key));
      ghost var view, frames, next := bp.View(), bp.frames, disk.nextPageId;
      var ok := Fetch(id, s, {});
      if !ok {
        StoppedHere(s, {}, None);
        NoFrames(s, z.t, mode, c, next, view, frames);
        return PoolFull, c.key, 0;
      }
      StuckMore(frames, bp.frames, id);
      ghost var pinned := bp.frames;
      var p := PageAt(id);
      if p.kind.LeafPage? {
        r, upKey, newId := PutLeafPage(mode, id, c, txn, s, z);
      } else {
        r, upKey, newId := PutInternalPage(mode, p, c, txn, s, z);
      }
      EndedBefore(r, s, z.t, mode, c, next, view, frames, pinned);
    }

    lemma FreeIs(frames: Frames, ids: set<PageId>)
      ensures Free(frames, ids) == bp.maxSize - |Stuck(frames) + ids|
    {}

    /** Not even the first page of the way down has got a frame. */
    lemma NoFrames(s: Start, t: Tree, mode: Mode, c: Cell, next: PageId, view: Disk, frames: Frames)
      requires Stopped(s, None) && bp.frames == frames && Free(frames, PathIds(t, c.key)) < 0
      ensures Ended(PoolFull, s, t, mode, c, next, view, frames)
    {
      NextGrows(t, mode, c, next);
      NothingLeft(view, t, mode, c, next, Free(frames, PathIds(t, c.key)));
    }

    /** The frames before the page was pinned say the same as those after. */
    lemma EndedBefore(r: Result, s: Start, t: Tree, mode: Mode, c: Cell, next: PageId, view: Disk, frames: Frames, pinned: Frames)
      requires Ended(r, s, t, mode, c, next, view, pinned) && SameDirt(frames, pinned)
      requires Stuck(pinned) + PathIds(t, c.key) == Stuck(frames) + PathIds(t, c.key)
      ensures Ended(r, s, t, mode, c, next, view, frames)
    {
      hide Stopped, PathIds, Touched, Demand, LeftPage, Missing;
      forall x: PageId ensures DirtyOf(pinned, x) == DirtyOf(frames, x) {}
    }

    method PutLeafPage(mode: Mode, id: PageId, c: Cell, txn: TxnId, ghost s: Start, ghost z: Zone)
      returns (r: Result, upKey: Key, newId: PageId)
      requires PutReady(id, c, s, mode, z) && s.txn == txn && PinOf(bp.frames, id) > 0 && z.t.Leaf?
      modifies disk, bp, wm
      ensures bp.Counted(-1, 1)
      ensures Inv() && PinsMoved(old(bp.frames), bp.frames, id, -1) && disk.rootPageId == old(disk.rootPageId)
      ensures Ended(r, s, z.t, mode, c, old(disk.nextPageId), old(bp.View()), old(bp.frames))
      ensures r == KeyNotFound ==>
                && mode == Updating && Find(z.t.cells, c.key) == |z.t.cells|
                && Work(s, {}) && bp.View() == old(bp.View()) && wm.buf == old(wm.buf) && disk.nextPageId == old(disk.nextPageId)
      ensures r == Done ==>
                var o := PutLeaf(z.t, mode, c, old(disk.nextPageId));
                && PutDone(upKey, newId, s, old(bp.View()), z.t, z.nxt, o, if o.Two? then old(disk.nextPageId) + 1 else old(disk.nextPageId))
                && (mode == Updating ==> Find(z.t.cells, c.key) < |z.t.cells|)
    {
      RootInIds(z.t);
      match mode
      case Inserting => r, upKey, newId := InsertIntoLeaf(id, c, txn, s, z.t, z.nxt);
      case Updating => r, upKey, newId := UpdateLeaf(id, c, txn, s, z.t, z.nxt);
    }

    /** insertIntoInternal and updateIntoInternal: the page stays pinned while its child changes. */
    method PutInternalPage(mode: Mode, p: Page, c: Cell, txn: TxnId, ghost s: Start, ghost z: Zone)
      returns (r: Result, upKey: Key, newId: PageId)
      requires PutReady(p.id, c, s, mode, z) && s.txn == txn && PinOf(bp.frames, p.id) > 0 && z.t.Node? && bp.View()[p.id] == p
      modifies disk, bp, wm
      ensures bp.Counted(-1, z.h + 1)
      ensures Inv() && PinsMoved(old(bp.frames), bp.frames, p.id, -1) && disk.rootPageId == old(disk.rootPageId)
      ensures Ended(r, s, z.t, mode, c, old(disk.nextPageId), old(bp.View()), old(bp.frames))
      ensures r == KeyNotFound ==>
                && mode == Updating && Find(Target(z.t, c.key).cells, c.key) == |Target(z.t, c.key).cells|
                && Work(s, {}) && bp.View() == old(bp.View()) && wm.buf == old(wm.buf) && disk.nextPageId == old(disk.nextPageId)
      ensures r == Done ==>
                var (o, next) := Put(z.t, mode, c, old(disk.nextPageId));
                && PutDone(upKey, newId, s, old(bp.View()), z.t, z.nxt, o, next)
                && (mode == Updating ==> Find(Target(z.t, c.key).cells, c.key) < |Target(z.t, c.key).cells|)
      decreases z.t, 1
    {
      hide PoolOk, PinsOk, CoherentOk, Filed, Logged, Grew, AllTyped, PutFits, Placed, Find, Ordered, Distinct, Balanced,
        MatchOut, Stopped, Ended, Patching, Stuck, Touched, Demand, PathIds, LeftPage, Missing, Free, Put, PutNode, Route, Target;
      ghost var view, frames, next := bp.View(), bp.frames, disk.nextPageId;
      ghost var x, k := z.Descended(view, mode, c, next), z.Routed(c.key).t;
      NodeStart(p.id, z, next, view);
      var childId;
      r, childId, upKey, newId := PutBelow(mode, p, c, txn, s, z);
      ghost var between, view' := bp.frames, bp.View();
      if r == Done {
        KidDone(s, k, mode, c, next, view, frames);
        x.ParentKept(view');
        PutUnfolds(z.t, mode, c, next);
        r, upKey, newId := PatchInternal(p.id, childId, upKey, newId, txn, s, x);
        NodeEnded(r, s, z, mode, c, next, view, frames, view', between);
      } else if r == KeyNotFound {
        KidMissing(s, k, mode, c, next, view, frames);
        Release(p.id, s, {});
        NodeMissing(s, z.t, mode, c, next, view, frames, between);
      } else {
        KidStopped(s, k, mode, c, next, view, frames);
        Abandon(p.id, s, LeftPage(view, k, mode, c, next, Free(frames, PathIds(k, c.key))));
        NodeStopped(s, z.t, mode, c, next, view, frames, between);
      }
    }

    lemma PutUnfolds(t: Tree, mode: Mode, c: Cell, next: PageId)
      requires t.Node?
      ensures var i := Route(t, c.key);
              var (o, f) := Put(Kid(t, i), mode, c, next);
              Put(t, mode, c, next) == (PutNode(t, i, o, f), if PutNode(t, i, o, f).Two? then f + 1 else f)
    {}

    lemma NodeStart(id: PageId, z: Zone, next: PageId, view: Disk)
      requires Inv() && PinOf(bp.frames, id) > 0 && z.t.Node? && z.t.id == id && z.Ok() && next == disk.nextPageId && view == bp.View()
      requires Match(view, z.t, z.nxt)
      ensures id in Stuck(bp.frames) && id in view && forall x | x in bp.frames :: x < next
    {
      PinnedStuck(id);
    }

    lemma KidDone(s: Start, k: Tree, mode: Mode, c: Cell, next: PageId, view: Disk, frames: Frames)
      requires Ended(Done, s, k, mode, c, next, view, frames)
      ensures !Missing(k, mode, c.key) && Dirtied(frames, bp.frames, Touched(k, mode, c, next), s.txn)
      ensures Free(frames, PathIds(k, c.key)) >= Demand(k, mode, c, next)
    {}

    lemma KidMissing(s: Start, k: Tree, mode: Mode, c: Cell, next: PageId, view: Disk, frames: Frames)
      requires Ended(KeyNotFound, s, k, mode, c, next, view, frames)
      ensures Missing(k, mode, c.key) && SameDirt(frames, bp.frames) && Free(frames, PathIds(k, c.key)) >= 0
    {}

    lemma KidStopped(s: Start, k: Tree, mode: Mode, c: Cell, next: PageId, view: Disk, frames: Frames)
      requires Ended(PoolFull, s, k, mode, c, next, view, frames)
      ensures Stopped(s, LeftPage(view, k, mode, c, next, Free(frames, PathIds(k, c.key))))
      ensures Dirtied(frames, bp.frames, Finished(k, mode, c, next, Free(frames, PathIds(k, c.key))), s.txn)
      ensures BlankLeft(disk.pages, next, Free(frames, PathIds(k, c.key)))
      ensures Free(frames, PathIds(k, c.key)) < Demand(k, mode, c, next)
    {}

    lemma NodeMissing(s: Start, t: Tree, mode: Mode, c: Cell, next: PageId, view: Disk, frames: Frames, between: Frames)
      requires t.Node? && t.id in Stuck(frames) && SameDirt(frames, between) && SameDirt(between, bp.frames)
      requires var k := Kid(t, Route(t, c.key)); Missing(k, mode, c.key) && Free(frames, PathIds(k, c.key)) >= 0
      ensures Ended(KeyNotFound, s, t, mode, c, next, view, frames)
    {
      hide Stopped, Route, Stuck, PathIds, Find, Target, Touched;
      RestOfPath(frames, t, c.key);
      NodeDemand(t, mode, c, next);
      forall x: PageId ensures DirtyOf(between, x) == DirtyOf(frames, x) {}
    }

    lemma NodeStopped(s: Start, t: Tree, mode: Mode, c: Cell, next: PageId, view: Disk, frames: Frames, between: Frames)
      requires t.Node? && t.id in Stuck(frames)
      requires var k := Kid(t, Route(t, c.key));
               var free := Free(frames, PathIds(k, c.key));
               && free < Demand(k, mode, c, next) && Stopped(s, LeftPage(view, k, mode, c, next, free))
               && BlankLeft(disk.pages, next, free)
               && Dirtied(frames, between, Finished(k, mode, c, next, free), s.txn) && SameDirt(between, bp.frames)
      ensures Ended(PoolFull, s, t, mode, c, next, view, frames)
    {
      hide Stopped, Route, Stuck, PathIds, Find, Target, Put, PutNode, Missing;
      RestOfPath(frames, t, c.key);
      NodeDemand(t, mode, c, next);
      MissingDemand(Kid(t, Route(t, c.key)), mode, c, next);
      forall x: PageId ensures DirtyOf(bp.frames, x) == DirtyOf(between, x) {}
    }

    lemma PinnedStuck(id: PageId)
      requires Inv() && PinOf(bp.frames, id) > 0
      ensures id in Stuck(bp.frames)
    {
      StuckIs(bp.frames);
    }

    /** The child has taken in the cell: the frames that are left decide whether the node can split in turn. */
    lemma NodeRoom(s: Start, z: Zone, mode: Mode, c: Cell, next: PageId, frames: Frames, between: Frames)
      requires z.t.Node? && !Missing(z.Routed(c.key).t, mode, c.key)
      requires (forall id | id in frames :: id < next) && IdsBelow(z.t, next) && z.t.id in Stuck(frames) && SamePins(frames, between)
      requires var k := z.Routed(c.key).t;
               Dirtied(frames, between, Touched(k, mode, c, next), s.txn) && Free(frames, PathIds(k, c.key)) >= Demand(k, mode, c, next)
      ensures var i := Route(z.t, c.key);
              var (o, f) := Put(Kid(z.t, i), mode, c, next);
              var free, two := Free(frames, PathIds(z.t, c.key)), PutNode(z.t, i, o, f).Two?;
              && next <= f && free >= f - next && !Missing(z.t, mode, c.key)
              && Demand(z.t, mode, c, next) == f - next + (if two then 1 else 0) && (two ==> o.Two?)
              && (two ==> (|Stuck(between) + {f}| > bp.maxSize <==> free == f - next))
    {
      hide Put, PutNode, Route, Find, Target, Stuck, PathIds, Missing, Touched, Dirtied;
      var i := Route(z.t, c.key);
      var k := Kid(z.t, i);
      RestOfPath(frames, z.t, c.key);
      NodeDemand(z.t, mode, c, next);
      KidIds(z.t, i);
      FramesTaken(frames, between, k, mode, c, next, s.txn);
      PutNodeTwo(z.t, i, Put(k, mode, c, next).0, Put(k, mode, c, next).1);
    }

    /** The node has been patched, or has found no frame for its own split. */
    lemma NodeEnded(r: Result, s: Start, z: Zone, mode: Mode, c: Cell, next: PageId, view: Disk, frames: Frames, view': Disk, between: Frames)
      requires z.t.Node? && Inv() && r != KeyNotFound && !Missing(z.Routed(c.key).t, mode, c.key)
      requires (forall id | id in frames :: id < next) && IdsBelow(z.t, next) && z.t.id in Stuck(frames)
      requires SamePins(frames, between) && z.t.id in view && z.t.id in view' && view'[z.t.id] == view[z.t.id]
      requires var k := z.Routed(c.key).t;
               && Dirtied(frames, between, Touched(k, mode, c, next), s.txn)
               && Free(frames, PathIds(k, c.key)) >= Demand(k, mode, c, next)
               && Patching(r, s, z.Descended(view, mode, c, next), Put(k, mode, c, next).1, view', between)
      ensures Ended(r, s, z.t, mode, c, next, view, frames)
    {
      hide Stopped, Put, PutNode, Route, Find, Target, Stuck, PathIds, Missing, Unchanged, Demand, Dirtied, SameDirt, HalfPatched, Free, BlankLeft, BlankHalf;
      var i := Route(z.t, c.key);
      var k := Kid(z.t, i);
      NodeRoom(s, z, mode, c, next, frames, between);
      LastHalfBlank(k, mode, c, next);
      DirtJoin(frames, between, bp.frames, Touched(k, mode, c, next), Patches(z.t, i, Put(k, mode, c, next).0, Put(k, mode, c, next).1), s.txn);
    }

    lemma LastHalfBlank(t: Tree, mode: Mode, c: Cell, next: PageId)
      ensures var (o, f) := Put(t, mode, c, next); o.Two? && BlankHalf(disk.pages, o) ==> BlankLeft(disk.pages, next, f - next)
    {
      hide Put;
      LastHalf(t, mode, c, next);
    }

    /** The recursive call on the responsible child. */
    method PutBelow(mode: Mode, p: Page, c: Cell, txn: TxnId, ghost s: Start, ghost z: Zone)
      returns (r: Result, childId: PageId, upKey: Key, newId: PageId)
      requires PutReady(p.id, c, s, mode, z) && s.txn == txn && PinOf(bp.frames, p.id) > 0 && z.t.Node? && bp.View()[p.id] == p
      modifies disk, bp, wm
      ensures bp.Counted(0, z.h + 1)
      ensures Inv() && SamePins(old(bp.frames), bp.frames) && disk.rootPageId == old(disk.rootPageId)
      ensures Ended(r, s, z.Routed(c.key).t, mode, c, old(disk.nextPageId), old(bp.View()), old(bp.frames))
      ensures r == KeyNotFound ==>
                && mode == Updating && Find(Target(z.t, c.key).cells, c.key) == |Target(z.t, c.key).cells|
                && Work(s, {}) && bp.View() == old(bp.View()) && wm.buf == old(wm.buf) && disk.nextPageId == old(disk.nextPageId)
      ensures r == Done ==>
                var x := z.Descended(old(bp.View()), mode, c, old(disk.nextPageId));
                && PatchReady(p.id, childId, upKey, newId, s, x) && x.Fits()
                && disk.nextPageId == Put(z.Routed(c.key).t, mode, c, old(disk.nextPageId)).1
                && (mode == Updating ==> Find(Target(z.t, c.key).cells, c.key) < |Target(z.t, c.key).cells|)
      decreases z.t, 0
    {
      hide PoolOk, PinsOk, CoherentOk, Filed, Logged, Grew, Put, Tidy, Distinct, Balanced, MatchOut, Find, AllTyped, Stopped,
        Ended, Stuck, Touched, Missing, Demand, PathIds, PageTyped, UpperBound;
      ghost var view, next := bp.View(), disk.nextPageId;
      z.RoutedOk(view, c.key, next);
      z.RoutedPage(view, c.key);
      var _ := PageAt(p.id);
      childId := FindChild(p, c.key);
      r, upKey, newId := PutRecursive(mode, childId, c, txn, s, z.Routed(c.key));
      if r == Done { z.DescendedOk(view, bp.View(), mode, c, next); }
    }

    // ---- Insert and Update ----

    /** createNewRoot. */
    method CreateNewRoot(oldRootId: PageId, key: Key, rightId: PageId, txn: TxnId, ghost s: Start, ghost o: Outcome) returns (r: Result)
      requires Work(s, {}) && s.txn == txn && Typed(key, ints) && disk.nextPageId < NO_PAGE
      requires o.Two? && MatchOut(bp.View(), o, NO_PAGE) && o.left.id == oldRootId && o.right.id == rightId && o.sep == key
      requires Fits([Cell(key, Child(oldRootId))])
      modifies disk, bp, wm
      ensures bp.Counted(0, 1)
      ensures Inv() && SamePins(old(bp.frames), bp.frames) && r != KeyNotFound
      ensures r == PoolFull <==> |Stuck(old(bp.frames)) + {old(disk.nextPageId)}| > bp.maxSize
      ensures r == PoolFull ==> Stopped(s, None) && disk.rootPageId == old(disk.rootPageId) && SameDirt(old(bp.frames), bp.frames)
      ensures r == Done ==> Dirtied(old(bp.frames), bp.frames, {old(disk.nextPageId)}, txn)
      ensures r == Done ==>
                && Work(s, {}) && disk.nextPageId == old(disk.nextPageId) + 1 && disk.rootPageId == old(disk.nextPageId)
                && Match(bp.View(), Grow(o, old(disk.nextPageId)), NO_PAGE) && BlankRoot(disk.pages, disk.rootPageId)
                && Unchanged(old(bp.View()), bp.View(), {})
    {
      hide PoolOk, PinsOk, CoherentOk, Logged, Grew, Filed, Match, MatchOut, Grow, NodePage, Stopped;
      ghost var next, view := disk.nextPageId, bp.View();
      var id := Allocate(InternalPage, s, {});
      assert {} + {id} == {id};
      var ok := Fetch(id, s, {id});
      if !ok {
        StoppedHere(s, {id}, None);
        return PoolFull;
      }
      FillRoot(id, oldRootId, key, rightId, txn, s, o);
      GrownRootMatch(view, bp.View(), o, next);
      disk.SetRootPageId(id);
      return Done;
    }

    method FillRoot(id: PageId, oldRootId: PageId, key: Key, rightId: PageId, txn: TxnId, ghost s: Start, ghost o: Outcome)
      requires Work(s, {id}) && s.txn == txn && Typed(key, ints) && PinOf(bp.frames, id) > 0
      requires id in bp.View() && bp.View()[id] == NewPage(InternalPage, id)
      requires o.Two? && o.left.id == oldRootId && o.right.id == rightId && o.sep == key && Fits([Cell(key, Child(oldRootId))])
      modifies bp, wm
      ensures bp.Counted(-1, 0)
      ensures Work(s, {}) && PinsMoved(old(bp.frames), bp.frames, id, -1) && Dirtied(old(bp.frames), bp.frames, {id}, txn)
      ensures Unchanged(old(bp.View()), bp.View(), {id}) && id in bp.View() && NodePage(bp.View()[id], Grow(o, id))
    {
      var p := PageAt(id);
      NewRootPage(o, id);
      p := AddCell(p, Cell(key, Child(oldRootId)));
      FinishLeaf(p.(right := rightId), OpInsert, txn, s, {id});
    }

    /** How an insertion or update of the whole tree ends. */
    ghost predicate RootEnded(r: Result, s: Start, t: Tree, mode: Mode, c: Cell, next: PageId, view: Disk, frames: Frames)
      reads disk, bp, wm
    {
      var free := Free(frames, PathIds(t, c.key));
      && (r == PoolFull <==> free < RootDemand(t, mode, c, next))
      && (r == PoolFull ==>
            && Stopped(s, LeftAtRoot(view, t, mode, c, next, free)) && Dirtied(frames, bp.frames, RootFinished(t, mode, c, next, free), s.txn)
            && (free < Demand(t, mode, c, next) ==> BlankLeft(disk.pages, next, free)))
      && (r == KeyNotFound <==> r != PoolFull && Missing(t, mode, c.key))
      && (r == KeyNotFound ==> SameDirt(frames, bp.frames))
      && (r == Done ==> Dirtied(frames, bp.frames, RootTouched(t, mode, c, next), s.txn))
    }

    /** insertRecursive or updateRecursive at the root, then createNewRoot if the root has split. */
    method PutAtRoot(mode: Mode, c: Cell, txn: TxnId, ghost s: Start) returns (r: Result)
      requires Shaped() && s == Start(Now(), txn) && Typed(c.key, ints) && c.body.Data?
      requires PutRootFits(tree, mode, c, disk.nextPageId) && Placed(tree, mode, c, disk.nextPageId) && disk.nextPageId + Height(tree) + 2 < NO_PAGE
      modifies disk, bp, wm
      ensures bp.Counted(0, Height(tree) + 2)
      ensures Inv() && SamePins(old(bp.frames), bp.frames)
      ensures RootEnded(r, s, tree, mode, c, old(disk.nextPageId), old(bp.View()), old(bp.frames))
      ensures r == PoolFull ==> disk.rootPageId == old(disk.rootPageId)
      ensures r == KeyNotFound ==>
                && mode == Updating && Find(Target(tree, c.key).cells, c.key) == |Target(tree, c.key).cells|
                && Work(s, {}) && bp.View() == old(bp.View()) && wm.buf == old(wm.buf)
                && disk.nextPageId == old(disk.nextPageId) && disk.rootPageId == old(disk.rootPageId)
      ensures r == Done ==>
                var t' := PutRoot(tree, mode, c, old(disk.nextPageId));
                var (o, next) := Put(tree, mode, c, old(disk.nextPageId));
                && Work(s, {}) && disk.rootPageId == t'.id && Match(bp.View(), t', NO_PAGE)
                && 0 < disk.nextPageId == (if o.Two? then next + 1 else next) <= NO_PAGE
                && (o.Two? ==> BlankRoot(disk.pages, disk.rootPageId)) && Unchanged(old(bp.View()), bp.View(), Ids(tree))
                && (mode == Updating ==> Find(Target(tree, c.key).cells, c.key) < |Target(tree, c.key).cells|)
    {
      hide PoolOk, PinsOk, CoherentOk, Filed, Logged, Grew, Match, Put, PutFits, Placed, Tidy, Distinct, Balanced,
        Contents, Target, Find, AllTyped, Stopped, Ended, RootEnded, Stuck, Touched, Demand, PathIds, LeftPage, Missing, Free, Dirtied, Ordered, SpaceOk, Bounded, WellShaped, IdsBelow, Ids, FirstLeaf, Unchanged, LeftAtRoot, Finished, Fits, PutDone, BlankRoot, NodePage, SpineOk, Missing;
      ghost var z, next0 := Zone(tree, NO_PAGE, Height(tree)), disk.nextPageId;
      ghost var (o, next) := Put(tree, mode, c, next0);
      var rootId := disk.rootPageId;
      RootReady(s, mode, c);
      FramesBelow();
      ghost var view, frames := bp.View(), bp.frames;
      var upKey, newPageId;
      r, upKey, newPageId := PutRecursive(mode, rootId, c, txn, s, z);
      if r == Done { RootOut(upKey, newPageId, s, view, tree, o, next); }
      if r == Done && newPageId != 0 {
        r := SplitRoot(rootId, upKey, newPageId, txn, s, mode, c, next0, view, frames);
      } else {
        NoNewRoot(r, s, tree, mode, c, next0, view, frames);
      }
    }

    /** createNewRoot over the halves of a root that has split. */
    method SplitRoot(oldRootId: PageId, key: Key, rightId: PageId, txn: TxnId, ghost s: Start, ghost mode: Mode, ghost c: Cell,
                     ghost next0: PageId, ghost view: Disk, ghost frames: Frames) returns (r: Result)
      requires Work(s, {}) && s.txn == txn && Typed(key, ints) && disk.nextPageId < NO_PAGE && Fits([Cell(key, Child(oldRootId))])
      requires var (o, next) := Put(tree, mode, c, next0);
               && o.Two? && disk.nextPageId == next && MatchOut(bp.View(), o, NO_PAGE)
               && o.left.id == oldRootId && o.right.id == rightId && o.sep == key
      requires Ended(Done, s, tree, mode, c, next0, view, frames) && Unchanged(view, bp.View(), Ids(tree)) && SamePins(frames, bp.frames)
      requires (forall id | id in frames :: id < next0) && IdsBelow(tree, next0)
      modifies disk, bp, wm
      ensures bp.Counted(0, 1)
      ensures Inv() && SamePins(old(bp.frames), bp.frames) && r != KeyNotFound
      ensures RootEnded(r, s, tree, mode, c, next0, view, frames)
      ensures r == PoolFull ==> disk.rootPageId == old(disk.rootPageId)
      ensures r == Done ==>
                && Work(s, {}) && disk.nextPageId == old(disk.nextPageId) + 1 && disk.rootPageId == old(disk.nextPageId)
                && Match(bp.View(), Grow(Put(tree, mode, c, next0).0, old(disk.nextPageId)), NO_PAGE) && BlankRoot(disk.pages, disk.rootPageId)
                && Unchanged(view, bp.View(), Ids(tree))
    {
      hide PoolOk, PinsOk, CoherentOk, Filed, Logged, Grew, Match, MatchOut, Put, AllTyped, Stopped, Ended, RootEnded, Stuck, Touched, Demand, PathIds,
        Missing, Free, Dirtied, IdsBelow, Ids, Unchanged, Fits, BlankRoot, Grow;
      ghost var between, grown := bp.frames, bp.View();
      KidDone(s, tree, mode, c, next0, view, frames);
      FramesTaken(frames, between, tree, mode, c, next0, txn);
      r := CreateNewRoot(oldRootId, key, rightId, txn, s, Put(tree, mode, c, next0).0);
      if r == Done { StillUnchanged(view, grown, bp.View(), Ids(tree)); }
      NewRootEnded(r, s, tree, mode, c, next0, view, frames, between);
    }

    lemma StillUnchanged(v0: Disk, v1: Disk, v2: Disk, ids: set<PageId>)
      requires Unchanged(v0, v1, ids) && Unchanged(v1, v2, {})
      ensures Unchanged(v0, v2, ids)
    {}

    /** The pages of the root after the put, one or two. */
    lemma RootOut(upKey: Key, newId: PageId, s: Start, view: Disk, t: Tree, o: Outcome, next: PageId)
      requires PutDone(upKey, newId, s, view, t, NO_PAGE, o, next) && Stays(o).id == t.id && (o.Two? ==> o.right.id > 0)
      ensures Work(s, {}) && disk.nextPageId == next && (newId != 0 <==> o.Two?) && Unchanged(view, bp.View(), Ids(t))
      ensures o.One? ==> o.t.id == t.id && Match(bp.View(), o.t, NO_PAGE)
      ensures o.Two? ==>
                && MatchOut(bp.View(), o, NO_PAGE) && o.left.id == t.id && newId == o.right.id && upKey == o.sep && Typed(upKey, ints)
    {
      hide PoolOk, PinsOk, CoherentOk, Filed, Logged, Grew, AllTyped, Match;
    }

    lemma RootReady(s: Start, mode: Mode, c: Cell)
      requires Shaped() && s.pool == Now() && Typed(c.key, ints)
      requires PutFits(tree, mode, c, disk.nextPageId) && Placed(tree, mode, c, disk.nextPageId) && disk.nextPageId + Height(tree) + 2 < NO_PAGE
      ensures PutReady(disk.rootPageId, c, s, mode, Zone(tree, NO_PAGE, Height(tree))) && IdsBelow(tree, disk.nextPageId)
      ensures var (o, next) := Put(tree, mode, c, disk.nextPageId);
              && 0 < disk.nextPageId <= next <= disk.nextPageId + Height(tree) + 1
              && Stays(o).id == tree.id && (o.Two? ==> o.right.id > 0)
    {
      hide PoolOk, PinsOk, CoherentOk, Filed, Logged, Grew, Match, PutFits, Placed, Tidy, AllTyped, SpaceOk, Bounded;
      StartWork(s);
      PutDistinct(tree, mode, c, disk.nextPageId);
      PutBalanced(tree, mode, c, disk.nextPageId, Height(tree));
    }

    lemma FramesBelow()
      requires Inv()
      ensures |bp.frames.Keys| <= bp.maxSize
      ensures forall id | id in bp.frames :: id < disk.nextPageId
    {}

    lemma NoNewRoot(r: Result, s: Start, t: Tree, mode: Mode, c: Cell, next: PageId, view: Disk, frames: Frames)
      requires Ended(r, s, t, mode, c, next, view, frames) && (r == Done ==> Put(t, mode, c, next).0.One?)
      ensures RootEnded(r, s, t, mode, c, next, view, frames)
    {
      hide Stopped, Put, Touched, Missing, LeftPage, PathIds;
    }

    lemma NewRootEnded(r: Result, s: Start, t: Tree, mode: Mode, c: Cell, next: PageId, view: Disk, frames: Frames, between: Frames)
      requires !Missing(t, mode, c.key) && Put(t, mode, c, next).0.Two? && Free(frames, PathIds(t, c.key)) >= Demand(t, mode, c, next)
      requires Dirtied(frames, between, Touched(t, mode, c, next), s.txn) && r != KeyNotFound
      requires var n := Put(t, mode, c, next).1;
               && |Stuck(between) + {n}| == |Stuck(frames) + PathIds(t, c.key)| + (n - next) + 1
               && (r == PoolFull <==> |Stuck(between) + {n}| > bp.maxSize)
               && (r == PoolFull ==> Stopped(s, None) && SameDirt(between, bp.frames))
               && (r == Done ==> Dirtied(between, bp.frames, {n}, s.txn))
      ensures RootEnded(r, s, t, mode, c, next, view, frames)
    {
      hide Stopped, Put, Touched, Missing, LeftPage, PathIds, Stuck;
      forall x: PageId
        ensures DirtyOf(between, x) == if x in Touched(t, mode, c, next) then Some(s.txn) else DirtyOf(frames, x) {}
    }

    method PutTree(mode: Mode, c: Cell, txn: TxnId, ghost s: Start) returns (r: Result)
      requires Shaped() && s == Start(Now(), txn) && Typed(c.key, ints) && c.body.Data?
      requires PutRootFits(tree, mode, c, disk.nextPageId) && Placed(tree, mode, c, disk.nextPageId) && disk.nextPageId + Height(tree) + 2 < NO_PAGE
      modifies disk, bp, wm
      ensures bp.Counted(0, Height(tree) + 2)
      ensures Inv() && SamePins(old(bp.frames), bp.frames)
      ensures RootEnded(r, s, tree, mode, c, old(disk.nextPageId), old(bp.View()), old(bp.frames))
      ensures |Stuck(old(bp.frames))| + 2 * Height(tree) + 3 <= bp.maxSize ==> r != PoolFull
      ensures r == PoolFull ==> disk.rootPageId == old(disk.rootPageId)
      ensures r == KeyNotFound ==>
                && mode == Updating && Lookup(Target(tree, c.key).cells, c.key) == None
                && Work(s, {}) && bp.View() == old(bp.View()) && wm.buf == old(wm.buf)
                && disk.nextPageId == old(disk.nextPageId) && disk.rootPageId == old(disk.rootPageId)
      ensures r == Done ==>
                var t' := PutRoot(tree, mode, c, old(disk.nextPageId));
                && Work(s, {}) && Represents(bp.View(), t', disk.rootPageId, disk.nextPageId)
                && (Put(tree, mode, c, old(disk.nextPageId)).0.Two? ==> BlankRoot(disk.pages, disk.rootPageId))
                && Unchanged(old(bp.View()), bp.View(), Ids(tree))
                && (mode == Updating ==> Lookup(Target(tree, c.key).cells, c.key) != None)
    {
      hide PoolOk, PinsOk, CoherentOk, Filed, Logged, Grew, Put, PutRoot, Match, WellShaped, SpaceOk, PutRootFits,
        Placed, Tidy, Target, BlankRoot, Stopped, RootEnded, AllTyped, Unchanged, Ids, Bounded, PathIds, Stuck, RootDemand;
      ghost var next := disk.nextPageId;
      PutRootSound(tree, mode, c, next);
      EnoughFrames(bp.frames, tree, mode, c, next);
      ghost var view, frames := bp.View(), bp.frames;
      r := PutAtRoot(mode, c, txn, s);
      EnoughMeans(r, s, tree, mode, c, next, view, frames);
    }

    lemma EnoughMeans(r: Result, s: Start, t: Tree, mode: Mode, c: Cell, next: PageId, view: Disk, frames: Frames)
      requires RootEnded(r, s, t, mode, c, next, view, frames)
      ensures r == PoolFull <==> Free(frames, PathIds(t, c.key)) < RootDemand(t, mode, c, next)
    {}

    /** A page a level for the way down, a new one a level, and a new root. */
    lemma EnoughFrames(frames: Frames, t: Tree, mode: Mode, c: Cell, next: PageId)
      requires WellShaped(t, next)
      ensures |Stuck(frames)| + 2 * Height(t) + 3 <= bp.maxSize ==> Free(frames, PathIds(t, c.key)) >= RootDemand(t, mode, c, next)
    {
      PathLength(t, c.key, Height(t));
      PutBalanced(t, mode, c, next, Height(t));
      TogetherFewer(Stuck(frames), PathIds(t, c.key));
    }

    /**
      Insert: the tree takes in the cell as Put says, whatever splits. As long as separators keep the leaves
      apart they go on doing so, and the contents, keys repeated or not, gain the row behind equal keys and lose
      rows exactly if the leaf's halves do not fit. In an ordered tree a second row with a key that is present goes
      behind the first, and no search will find it. Otherwise the tree stays ordered, and a separator comes to repeat
      exactly if an emptied leaf splits on its own lower separator.
     */
    method Insert(table: nat, pk: Pk, row: Row, txn: TxnId) returns (r: Result)
      requires Shaped() && Typed(Key(table, pk), ints) && Accepts(Inserting, Cell(Key(table, pk), Data(row)))
      requires disk.nextPageId + Height(tree) + 2 < NO_PAGE
      modifies this`tree, disk, bp, wm
      ensures bp.Counted(0, old(Height(tree)) + 2)
      ensures Inv() && SamePins(old(bp.frames), bp.frames) && r != KeyNotFound
      ensures RootEnded(r, Start(old(Now()), txn), old(tree), Inserting, Cell(Key(table, pk), Data(row)), old(disk.nextPageId), old(bp.View()), old(bp.frames))
      ensures |Stuck(old(bp.frames))| + 2 * old(Height(tree)) + 3 <= bp.maxSize ==> r != PoolFull
      ensures r == PoolFull ==> disk.rootPageId == old(disk.rootPageId) && tree == old(tree)
      ensures r == Done ==>
                var c := Cell(Key(table, pk), Data(row));
                && Shaped() && Wrote(old(Now()), Now(), txn)
                && Planted(old(tree), tree, Inserting, c, old(disk.nextPageId), disk.pages)
                && Unchanged(old(bp.View()), bp.View(), old(Ids(tree)))
      ensures r == Done && old(Ordered(tree, Unbounded, Unbounded)) ==>
                var c := Cell(Key(table, pk), Data(row));
                && Taken(old(tree), tree, Inserting, c)
                && (bound.Some? && LeafBalance(bound.value) ==> old(KeepsAll(tree, Inserting, c)))
      ensures r == Done && old(Fenced(tree, Unbounded, Unbounded)) ==>
                var c := Cell(Key(table, pk), Data(row));
                && Fenced(tree, Unbounded, Unbounded) && ByTable(Contents(tree))
                && (Contents(tree) == Sorted(old(Contents(tree)), c) <==> old(KeepsAll(tree, Inserting, c)))
    {
      hide PoolOk, PinsOk, CoherentOk, Filed, Logged, Grew, AllTyped, AsMap, Lookup, Ordered, Strict, PutRootFits,
        Hazard, Put, PutRoot, Placed, Bounded, ByTable, Sorted, Tidy, Match, WellShaped, SpaceOk, Target, Stopped, RootEnded, KeepsAll, Lost, Fenced, Taken;
      var c := Cell(Key(table, pk), Data(row));
      ghost var t' := PutRoot(tree, Inserting, c, disk.nextPageId);
      if Ordered(tree, Unbounded, Unbounded) { PutMeaning(tree, Inserting, c, disk.nextPageId); }
      Accepted(Inserting, c);
      PutKeepsApart(tree, Inserting, c, disk.nextPageId);
      r := PutTree(Inserting, c, txn, Start(Now(), txn));
      if r == Done { tree := t'; }
    }

    /** Update: the row of a key that is present is replaced; a missing key is an error without effect. */
    method Update(table: nat, pk: Pk, row: Row, txn: TxnId) returns (r: Result)
      requires Shaped() && Typed(Key(table, pk), ints) && Accepts(Updating, Cell(Key(table, pk), Data(row)))
      requires disk.nextPageId + Height(tree) + 2 < NO_PAGE
      modifies this`tree, disk, bp, wm
      ensures bp.Counted(0, old(Height(tree)) + 2)
      ensures Inv() && SamePins(old(bp.frames), bp.frames)
      ensures RootEnded(r, Start(old(Now()), txn), old(tree), Updating, Cell(Key(table, pk), Data(row)), old(disk.nextPageId), old(bp.View()), old(bp.frames))
      ensures |Stuck(old(bp.frames))| + 2 * old(Height(tree)) + 3 <= bp.maxSize ==> r != PoolFull
      ensures r == PoolFull ==> disk.rootPageId == old(disk.rootPageId) && tree == old(tree)
      ensures r == KeyNotFound ==>
                && Shaped() && tree == old(tree) && bp.View() == old(bp.View()) && wm.buf == old(wm.buf) && Wrote(old(Now()), Now(), txn)
                && Lookup(Target(tree, Key(table, pk)).cells, Key(table, pk)) == None
      ensures r == Done ==>
                var c := Cell(Key(table, pk), Data(row));
                && old(Lookup(Target(tree, c.key).cells, c.key)) != None
                && Shaped() && Wrote(old(Now()), Now(), txn)
                && Planted(old(tree), tree, Updating, c, old(disk.nextPageId), disk.pages)
                && Unchanged(old(bp.View()), bp.View(), old(Ids(tree)))
      ensures r == KeyNotFound && old(Ordered(tree, Unbounded, Unbounded)) ==> Lookup(Contents(tree), Key(table, pk)) == None
      ensures r == Done && old(Ordered(tree, Unbounded, Unbounded)) ==>
                var c := Cell(Key(table, pk), Data(row));
                && old(Lookup(Contents(tree), Key(table, pk))) != None
                && Taken(old(tree), tree, Updating, c)
                && (bound.Some? && LeafBalance(bound.value) ==> old(KeepsAll(tree, Updating, c)))
      ensures r == Done && old(Fenced(tree, Unbounded, Unbounded)) ==> Fenced(tree, Unbounded, Unbounded) && ByTable(Contents(tree))
    {
      hide PoolOk, PinsOk, CoherentOk, Filed, Logged, Grew, AllTyped, AsMap, Lookup, Ordered, Strict, PutRootFits,
        Hazard, Put, PutRoot, Match, WellShaped, SpaceOk, Base, Sorted, Placed, Bounded, Tidy, Target, ByTable, Stopped, RootEnded,
        KeepsAll, Lost, Fenced, Taken;
      var c := Cell(Key(table, pk), Data(row));
      ghost var t' := PutRoot(tree, Updating, c, disk.nextPageId);
      if Ordered(tree, Unbounded, Unbounded) {
        TargetLookup(tree, c.key);
        PutMeaning(tree, Updating, c, disk.nextPageId);
      }
      Accepted(Updating, c);
      PutKeepsApart(tree, Updating, c, disk.nextPageId);
      r := PutTree(Updating, c, txn, Start(Now(), txn));
      if r == Done { tree := t'; }
    }

    // ---- Search and Delete ----

    /** findLeaf: the leaf responsible for a key; every page on the way is pinned only while it is read. */
    method FindLeaf(key: Key, ghost s: Start) returns (ok: bool, id: PageId)
      requires Shaped() && Work(s, {}) && Typed(key, ints)
      modifies bp
      ensures bp.Counted(0, 1)
      ensures Work(s, {}) && bp.View() == old(bp.View()) && SameUses(old(bp.frames), bp.frames)
      ensures ok <==> Fetchable(old(bp.frames), PathIds(tree, key))
      ensures ok ==> id == Target(tree, key).id && id in disk.pages
    {
      hide PoolOk, PinsOk, CoherentOk, Filed, Logged, Grew, AllTyped, Fetchable, SameUses, Stuck, Ids, Ordered, SpaceOk, IdsBelow, Tidy, Distinct, Balanced, PathIds, Route;
      id := disk.rootPageId;
      ghost var z := Zone(tree, NO_PAGE, Height(tree));
      NoUse(bp.frames);
      while true
        invariant Work(s, {}) && bp.View() == old(bp.View()) && SameUses(old(bp.frames), bp.frames) && bp.Counted(0, 1)
        invariant Fetchable(old(bp.frames), PathIds(tree, key)) <==> Fetchable(old(bp.frames), PathIds(z.t, key))
        invariant z.Ok() && Match(bp.View(), z.t, z.nxt) && IdsBelow(z.t, disk.nextPageId)
        invariant z.t.id == id && Target(tree, key) == Target(z.t, key)
        decreases z.t
      {
        RootInIds(z.t);
        var leaf, child;
        ghost var between := bp.frames;
        ok, leaf, child := Step(id, key, s, z);
        SameUsesThrough(old(bp.frames), between, bp.frames);
        FetchPath(old(bp.frames), between, z.t, key);
        if !ok || leaf { return; }
        z.RoutedOk(bp.View(), key, disk.nextPageId);
        id, z := child, z.Routed(key);
      }
    }

    /** One page of the descent: the child to go to, if the page is not a leaf. */
    method Step(id: PageId, key: Key, ghost s: Start, ghost z: Zone) returns (ok: bool, leaf: bool, child: PageId)
      requires Work(s, {}) && Match(bp.View(), z.t, z.nxt) && z.t.id == id && id in disk.pages && Typed(key, ints)
      modifies bp
      ensures bp.Counted(0, 1)
      ensures Work(s, {}) && bp.View() == old(bp.View()) && SameUses(old(bp.frames), bp.frames)
      ensures ok <==> Fetchable(old(bp.frames), {id})
      ensures ok ==> (leaf <==> z.t.Leaf?) && (!leaf ==> child == Kid(z.t, Route(z.t, key)).id)
    {
      child, leaf := id, false;
      var p;
      ok, p := ReadPage(id, s);
      if !ok { return; }
      leaf := p.kind.LeafPage?;
      if !leaf { child := FindChild(p, key); }
    }

    /** The descent and the search in the leaf, which stays pinned. */
    method Locate(key: Key, ghost s: Start) returns (ok: bool, p: Page, i: nat, found: bool)
      requires Shaped() && Work(s, {}) && Typed(key, ints)
      modifies bp
      ensures bp.Counted(if ok then 1 else 0, 1)
      ensures Work(s, {}) && bp.View() == old(bp.View()) && SameDirt(old(bp.frames), bp.frames)
      ensures ok <==> Fetchable(old(bp.frames), PathIds(tree, key))
      ensures if ok then PinsMoved(old(bp.frames), bp.frames, p.id, 1) else SamePins(old(bp.frames), bp.frames)
      ensures ok ==>
                && PinOf(bp.frames, p.id) > 0 && p.id in bp.View() && p == bp.View()[p.id] && PageTyped(p, ints)
                && LeafPageIs(p, Target(tree, key), p.right) && Rows(p.cells)
                && (found <==> Find(p.cells, key) < |p.cells|) && (found ==> i == Find(p.cells, key))
    {
      hide PoolOk, PinsOk, CoherentOk, Filed, Logged, Grew, AllTyped, WellShaped, SpaceOk, Fetchable, Stuck, PathIds;
      i, found, p := 0, false, NewPage(LeafPage, 0);
      var id;
      ok, id := FindLeaf(key, s);
      if !ok { return; }
      AgainFetch(old(bp.frames), tree, key);
      ok := Fetch(id, s, {});
      p := PageAt(id);
      TargetMatch(bp.View(), tree, key, NO_PAGE);
      TargetTidy(tree, key);
      i, found := SearchInLeaf(p, key);
    }

    /** The leaf has just been in a frame, so it gets one once more. */
    lemma AgainFetch(frames: Frames, t: Tree, key: Key)
      requires Inv() && SameUses(frames, bp.frames) && Fetchable(frames, PathIds(t, key))
      ensures |Stuck(bp.frames) + {Target(t, key).id}| <= bp.maxSize
    {
      PathInIds(t, key);
      SameStuck(frames, bp.frames);
      FramesBelow();
      FetchOne(bp.frames, Target(t, key).id);
    }

    /** Search: the row in the leaf that the descent reaches, which in an ordered tree is the row of the key. */
    method Search(table: nat, pk: Pk) returns (r: Result, row: Option<Row>)
      requires Shaped() && Typed(Key(table, pk), ints)
      modifies bp
      ensures bp.Counted(0, 1)
      ensures Shaped() && bp.View() == old(bp.View()) && SameUses(old(bp.frames), bp.frames)
      ensures r != KeyNotFound
      ensures r == PoolFull <==> !Fetchable(old(bp.frames), PathIds(tree, Key(table, pk)))
      ensures r == Done ==> row == Lookup(Target(tree, Key(table, pk)).cells, Key(table, pk))
      ensures r == Done && Ordered(tree, Unbounded, Unbounded) ==> row == Lookup(Contents(tree), Key(table, pk))
    {
      hide PoolOk, PinsOk, CoherentOk, Filed, Logged, Grew, AllTyped, Match, Ordered, WellShaped, SpaceOk, Tidy, Fetchable, PathIds, Target,
        Contents, Bounded;
      ghost var s := Start(Now(), 0);
      var key := Key(table, pk);
      StartWork(s);
      var ok, p, i, found := Locate(key, s);
      if !ok { return PoolFull, None; }
      if Ordered(tree, Unbounded, Unbounded) { TargetLookup(tree, key); }
      Release(p.id, s, {});
      return Done, if found then Some(RowOf(p.cells[i])) else None;
    }

    /** Delete: the row of a key that is present goes; a missing key is an error without effect. */
    method Delete(table: nat, pk: Pk, txn: TxnId) returns (r: Result)
      requires Shaped() && Typed(Key(table, pk), ints)
      modifies this`tree, bp, wm
      ensures bp.Counted(0, 1)
      ensures SamePins(old(bp.frames), bp.frames) && Shaped()
      ensures r == PoolFull <==> !Fetchable(old(bp.frames), PathIds(old(tree), Key(table, pk)))
      ensures r != Done ==> SameDirt(old(bp.frames), bp.frames)
      ensures r == Done ==> Dirtied(old(bp.frames), bp.frames, {Target(old(tree), Key(table, pk)).id}, txn)
      ensures r != Done ==> tree == old(tree) && bp.View() == old(bp.View()) && wm.buf == old(wm.buf)
      ensures r != PoolFull ==> (r == KeyNotFound <==> old(Lookup(Target(tree, Key(table, pk)).cells, Key(table, pk))) == None)
      ensures r == Done ==> tree == Remove(old(tree), Key(table, pk)) && Wrote(old(Now()), Now(), txn)
      ensures r != PoolFull && old(Ordered(tree, Unbounded, Unbounded)) ==>
                && Valid() && (r == KeyNotFound <==> old(Lookup(Contents(tree), Key(table, pk))) == None)
                && Contents(tree) == Base(old(Contents(tree)), Key(table, pk), Updating)
                && AsMap(Contents(tree)) == old(AsMap(Contents(tree))) - {Key(table, pk)}
                && (old(Strict(tree, Unbounded, Unbounded)) ==> Strict(tree, Unbounded, Unbounded))
      ensures r == Done && old(Fenced(tree, Unbounded, Unbounded)) ==> Fenced(tree, Unbounded, Unbounded) && ByTable(Contents(tree))
    {
      hide PoolOk, PinsOk, CoherentOk, Logged, Grew, Filed, Ordered, Strict, Contents, Base, WellShaped, SpaceOk, Tidy,
        Match, AllTyped, AsMap, Bounded, Target, Remove, Rows, Fetchable, Stuck, PathIds, Lookup, Fenced, ByTable;
      ghost var s := Start(Now(), txn);
      var key := Key(table, pk);
      StartWork(s);
      RemoveSound(tree, key, bound, disk.nextPageId);
      if Ordered(tree, Unbounded, Unbounded) { RemovedFrom(tree, key); }
      FindLooks(Target(tree, key).cells, key);
      RemoveKeepsApart(tree, key);
      var ok, p, i, found := Locate(key, s);
      if !ok { return PoolFull; }
      if !found {
        Release(p.id, s, {});
        return KeyNotFound;
      }
      DeleteFound(p, i, key, txn, s);
      tree := Remove(tree, key);
      return Done;
    }

    method DeleteFound(p: Page, i: nat, key: Key, txn: TxnId, ghost s: Start)
      requires Shaped() && Work(s, {}) && s.txn == txn && Seen(s.pool) == bp.View()
      requires PinOf(bp.frames, p.id) > 0 && p.id in bp.View() && p == bp.View()[p.id] && PageTyped(p, ints)
      requires LeafPageIs(p, Target(tree, key), p.right) && i == Find(p.cells, key) < |p.cells|
      modifies bp, wm
      ensures bp.Counted(-1, 0)
      ensures Work(s, {}) && PinsMoved(old(bp.frames), bp.frames, p.id, -1) && Dirtied(old(bp.frames), bp.frames, {p.id}, txn)
      ensures Represents(bp.View(), Remove(tree, key), disk.rootPageId, disk.nextPageId)
    {
      hide PoolOk, PinsOk, CoherentOk, Filed, Logged, Grew, AllTyped, Match, WellShaped, SpaceOk, Tidy;
      FinishLeaf(DeleteCell(p, i), OpDelete, txn, s, {});
      RemoveSound(tree, key, bound, disk.nextPageId);
      RemoveRepresents(Seen(s.pool), bp.View(), tree, key, disk.rootPageId, disk.nextPageId);
    }

    // ---- Scan ----

    /** findLeftmostLeaf. */
    method FindLeftmostLeaf(ghost s: Start) returns (ok: bool, id: PageId)
      requires Shaped() && Work(s, {})
      modifies bp
      ensures bp.Counted(0, 1)
      ensures Work(s, {}) && bp.View() == old(bp.View()) && SameUses(old(bp.frames), bp.frames)
      ensures ok <==> Fetchable(old(bp.frames), SpineIds(tree))
      ensures ok ==> id == FirstLeaf(tree)
    {
      hide PoolOk, PinsOk, CoherentOk, Filed, Logged, Grew, AllTyped, Fetchable, SameUses, Stuck, Ids, SpaceOk, SpineIds;
      NoUse(bp.frames);
      id := disk.rootPageId;
      ghost var z := Zone(tree, NO_PAGE, Height(tree));
      while true
        invariant Work(s, {}) && bp.View() == old(bp.View()) && SameUses(old(bp.frames), bp.frames) && bp.Counted(0, 1)
        invariant Fetchable(old(bp.frames), SpineIds(tree)) <==> Fetchable(old(bp.frames), SpineIds(z.t))
        invariant Match(bp.View(), z.t, z.nxt) && SpineOk(z.t) && z.t.id == id && FirstLeaf(z.t) == FirstLeaf(tree)
        decreases z.t
      {
        NodeMatchId(bp.View(), z.t, z.nxt);
        var p;
        ghost var between := bp.frames;
        ok, p := ReadPage(id, s);
        SameUsesThrough(old(bp.frames), between, bp.frames);
        FetchSpine(old(bp.frames), between, z.t);
        if !ok || p.kind.LeafPage? || |p.cells| == 0 { return; }
        assert Match(bp.View(), Kid(z.t, 0), After(z.t, 0, z.nxt));
        id, z := p.cells[0].body.id, Zone(Kid(z.t, 0), After(z.t, 0, z.nxt), 0);
      }
    }

    /** Scan: the rows of one table in key order, read along the leaf chain up to the first greater table. */
    method Scan(table: nat) returns (r: Result, rows: seq<Row>)
      requires Shaped() && ByTable(Contents(tree))
      modifies bp
      ensures bp.Counted(0, 1)
      ensures Shaped() && bp.View() == old(bp.View()) && SameUses(old(bp.frames), bp.frames)
      ensures r != KeyNotFound && (r == Done ==> rows == TableRows(Contents(tree), table))
      ensures r == PoolFull <==> !Fetchable(old(bp.frames), SpineIds(tree) + ScannedIds(Leaves(tree), table))
    {
      hide PoolOk, PinsOk, CoherentOk, Filed, Logged, Grew, AllTyped, Match, WellShaped, SpaceOk, Tidy, Bounded, Contents, ByTable, TableRows,
        Fetchable, OrderedLeaves, Chained;
      ghost var s := Start(Now(), 0);
      StartWork(s);
      NoUse(bp.frames);
      FetchTwo(bp.frames, bp.frames, SpineIds(tree), ScannedIds(Leaves(tree), table));
      var ok, leafId := FindLeftmostLeaf(s);
      FetchTwo(old(bp.frames), bp.frames, SpineIds(tree), ScannedIds(Leaves(tree), table));
      if !ok { return PoolFull, []; }
      ChainOfTree(bp.View(), tree, disk.rootPageId, disk.nextPageId);
      ok, rows := ScanChain(leafId, table, s, Leaves(tree), Contents(tree));
      r := if ok then Done else PoolFull;
    }

    method ScanChain(first: PageId, table: nat, ghost s: Start, ghost ls: seq<Tree>, ghost all: seq<Cell>) returns (ok: bool, rows: seq<Row>)
      requires Work(s, {}) && Chained(bp.View(), ls, NO_PAGE) && ls != [] && first == ls[0].id && OrderedLeaves(ls, all)
      modifies bp
      ensures bp.Counted(0, 1)
      ensures Work(s, {}) && bp.View() == old(bp.View()) && SameUses(old(bp.frames), bp.frames)
      ensures ok <==> Fetchable(old(bp.frames), ScannedIds(ls, table))
      ensures ok ==> rows == TableRows(all, table)
    {
      hide PoolOk, PinsOk, CoherentOk, Filed, Logged, Grew, AllTyped, Fetchable, SameUses, Stuck, ByTable, Beyond, Rows;
      NoUse(bp.frames);
      rows := [];
      var leafId := first;
      ghost var n := 0;
      while leafId != NO_PAGE
        invariant Work(s, {}) && bp.View() == old(bp.View()) && SameUses(old(bp.frames), bp.frames) && bp.Counted(0, 1)
        invariant n <= |ls| && leafId == (if n < |ls| then ls[n].id else NO_PAGE)
        invariant Fetchable(old(bp.frames), ScannedIds(ls, table)) <==> Fetchable(old(bp.frames), ScannedIds(ls[n..], table))
        invariant rows == TableRows(LeafCells(ls[..n]), table)
        decreases |ls| - n
      {
        var done, next;
        ghost var between := bp.frames;
        ok, rows, done, next := ScanPage(leafId, table, rows, s, ls, n, all);
        SameUsesThrough(old(bp.frames), between, bp.frames);
        FetchChain(old(bp.frames), between, ls, n, table);
        if !ok || done { return; }
        leafId, n := next, n + 1;
      }
      assert ls[..|ls|] == ls && ls[|ls|..] == [];
      FetchTwo(old(bp.frames), bp.frames, {}, {});
      ok := true;
    }

    method ScanPage(id: PageId, table: nat, before: seq<Row>, ghost s: Start, ghost ls: seq<Tree>, ghost n: nat, ghost all: seq<Cell>)
      returns (ok: bool, rows: seq<Row>, done: bool, next: PageId)
      requires Work(s, {}) && n < |ls| && Link(bp.View(), ls, n, NO_PAGE) && id == ls[n].id && OrderedLeaves(ls, all)
      requires before == TableRows(LeafCells(ls[..n]), table)
      modifies bp
      ensures bp.Counted(0, 1)
      ensures Work(s, {}) && bp.View() == old(bp.View()) && SameUses(old(bp.frames), bp.frames)
      ensures ok <==> Fetchable(old(bp.frames), {id})
      ensures ok ==> (done <==> Beyond(ls[n], table))
      ensures ok && done ==> rows == TableRows(all, table)
      ensures ok && !done ==>
                rows == TableRows(LeafCells(ls[..n + 1]), table) && next == (if n + 1 < |ls| then ls[n + 1].id else NO_PAGE)
    {
      hide PoolOk, PinsOk, CoherentOk, Logged, Grew, AllTyped, TableRows, Filed, LeafCells, ByTable;
      CellsOfLeaf(ls, n, all);
      rows, done, next := before, false, id;
      var p;
      ok, p := ReadPage(id, s);
      if !ok { return; }
      rows, done := ScanLeaf(p.cells, table, before, LeafCells(ls[..n]));
      next := p.right;
      if done { ScanStops(ls, n, all, table); }
    }

    /** A page that is pinned only while it is read. */
    method ReadPage(id: PageId, ghost s: Start) returns (ok: bool, p: Page)
      requires Work(s, {}) && id in disk.pages
      modifies bp
      ensures bp.Counted(0, 1)
      ensures Work(s, {}) && bp.View() == old(bp.View()) && SameUses(old(bp.frames), bp.frames)
      ensures ok <==> Fetchable(old(bp.frames), {id})
      ensures ok ==> id in bp.View() && p == bp.View()[id] && PageTyped(p, ints)
    {
      hide PoolOk, PinsOk, CoherentOk, Filed, Logged, Grew, AllTyped, Fetchable, Stuck;
      FramesBelow();
      FetchOne(bp.frames, id);
      p := NewPage(LeafPage, id);
      ok := Fetch(id, s, {});
      if !ok { return; }
      p := PageAt(id);
      Release(id, s, {});
    }

    /** The loop over the cells of one leaf. */
    method ScanLeaf(cells: seq<Cell>, table: nat, before: seq<Row>, ghost seen: seq<Cell>) returns (rows: seq<Row>, done: bool)
      requires before == TableRows(seen, table) && ByTable(cells) && Rows(cells)
      ensures rows == TableRows(seen + cells, table)
      ensures done <==> exists i :: 0 <= i < |cells| && cells[i].key.table > table
    {
      rows, done := before, false;
      assert seen + cells[..0] == seen;
      for i := 0 to |cells|
        invariant rows == TableRows(seen + cells[..i], table)
        invariant forall j | 0 <= j < i :: cells[j].key.table <= table
      {
        TableRowsStep(seen + cells[..i], cells[i], table);
        assert seen + cells[..i + 1] == seen + cells[..i] + [cells[i]];
        if cells[i].key.table < table { continue; }
        if cells[i].key.table > table {
          TailRows(seen, cells, i, table);
          return rows, true;
        }
        rows := rows + [cells[i].body.row];
      }
      assert cells[..|cells|] == cells;
    }
  }

  /** The right half of a split is still blank in the file. */
  ghost predicate BlankHalf(pages: Disk, o: Outcome)
    requires o.Two?
  {
    var id := o.right.id;
    id in pages && pages[id] == NewPage(if o.right.Leaf? then LeafPage else InternalPage, id)
  }

  /** So is the last of the new pages, of which there are as many as there were frames for; the first is a leaf. */
  ghost predicate BlankLeft(pages: Disk, next: PageId, free: int) {
    free > 0 ==>
      var id := next + free - 1;
      id in pages && pages[id] == NewPage(if free == 1 then LeafPage else InternalPage, id)
  }

  /** The page that createNewRoot has allocated is still blank in the file. */
  ghost predicate BlankRoot(pages: Disk, root: PageId) {
    root in pages && pages[root] == NewPage(InternalPage, root)
  }

  /** The tree has taken in the cell, perhaps under a new root. */
  ghost predicate Planted(t: Tree, t': Tree, mode: Mode, c: Cell, next: PageId, pages: Disk) {
    t' == PutRoot(t, mode, c, next) && (Put(t, mode, c, next).0.Two? ==> BlankRoot(pages, t'.id))
  }

  lemma FindLooks(cells: seq<Cell>, key: Key)
    ensures Find(cells, key) < |cells| <==> Lookup(cells, key) != None
  {}

  lemma TypedStill(view: Disk, p: Page, ints: iset<nat>)
    requires AllTyped(view, ints) && PageTyped(p, ints)
    ensures AllTyped(view[p.id := p], ints)
  {}

  lemma NodeMatchId(view: Disk, t: Tree, nxt: PageId)
    requires Match(view, t, nxt)
    ensures t.id in view
  {}

  lemma RemoveKeepsApart(t: Tree, key: Key)
    requires Tidy(t)
    ensures Fenced(t, Unbounded, Unbounded) ==> Fenced(Remove(t, key), Unbounded, Unbounded) && ByTable(Contents(Remove(t, key)))
  {
    hide Fenced, Tidy, ByTable;
    RemoveTidy(t, key);
    if Fenced(t, Unbounded, Unbounded) {
      RemoveFenced(t, key, Unbounded, Unbounded);
      FencedByTable(Remove(t, key));
    }
  }

  lemma RemoveSound(t: Tree, key: Key, bound: Option<Weights>, next: PageId)
    requires WellShaped(t, next) && SpaceOk(t) && Tidy(t) && Bounded(t, bound)
    ensures var t' := Remove(t, key); WellShaped(t', next) && SpaceOk(t') && Tidy(t') && Bounded(t', bound)
  {
    RemoveRootShape(t, key, next);
    RemoveSpace(t, key);
    RemoveTidy(t, key);
    if bound.Some? { RemoveWeighted(t, key, bound.value); }
  }

  lemma RemoveRepresents(view: Disk, view': Disk, t: Tree, key: Key, root: PageId, next: PageId)
    requires Represents(view, t, root, next)
    requires WellShaped(Remove(t, key), next) && SpaceOk(Remove(t, key)) && Tidy(Remove(t, key))
    requires var l := Target(t, key);
             && l.id in view && l.id in view'
             && SameButLsn(view'[l.id], view[l.id].(cells := Base(l.cells, key, Updating)))
             && Unchanged(view, view', {l.id})
    ensures Represents(view', Remove(t, key), root, next)
  {
    RemoveMatch(view, view', t, key, NO_PAGE);
    RemoveSame(t, key);
  }

  lemma {:induction false} TargetTidy(t: Tree, key: Key)
    requires Tidy(t)
    ensures Ascending(Target(t, key).cells) && Rows(Target(t, key).cells)
    decreases t
  {
    if t.Node? {
      assert Tidy(Kid(t, Route(t, key)));
      TargetTidy(Kid(t, Route(t, key)), key);
    }
  }

  lemma LastLeaf(ls: seq<Tree>, n: nat)
    requires n < |ls| && forall i :: 0 <= i < |ls| ==> ls[i].Leaf?
    ensures LeafCells(ls[..n + 1]) == LeafCells(ls[..n]) + ls[n].cells
  {
    Prefixes(ls, n);
  }

  lemma LeafPrefix(ls: seq<Tree>, n: nat)
    requires n < |ls| && forall i :: 0 <= i < |ls| ==> ls[i].Leaf?
    ensures LeafCells(ls[..n + 1]) == LeafCells(ls[..n]) + ls[n].cells
    ensures LeafCells(ls) == LeafCells(ls[..n + 1]) + LeafCells(ls[n + 1..])
  {
    LastLeaf(ls, n);
    hide LeafCells;
    Cut(ls, n + 1);
    LeafCellsAppend(ls[..n + 1], ls[n + 1..]);
  }

  /** Leaves whose cells, in order, ascend by table; their pages exist. */
  ghost predicate OrderedLeaves(ls: seq<Tree>, all: seq<Cell>) {
    && (forall i :: 0 <= i < |ls| ==> ls[i].Leaf? && ls[i].id != NO_PAGE)
    && LeafCells(ls) == all && ByTable(all) && Rows(all)
  }

  lemma ChainOfTree(view: Disk, t: Tree, root: PageId, next: PageId)
    requires Represents(view, t, root, next) && ByTable(Contents(t))
    ensures Chained(view, Leaves(t), NO_PAGE) && Leaves(t) != [] && Leaves(t)[0].id == FirstLeaf(t)
    ensures OrderedLeaves(Leaves(t), Contents(t))
  {
    LeafChain(view, t, NO_PAGE);
    ContentsOfLeaves(t);
    ContentsRows(t);
    LeafIds(t);
  }

  lemma CellsOfLeaf(ls: seq<Tree>, n: nat, all: seq<Cell>)
    requires n < |ls| && OrderedLeaves(ls, all)
    ensures LeafCells(ls[..n + 1]) == LeafCells(ls[..n]) + ls[n].cells
    ensures ByTable(ls[n].cells) && Rows(ls[n].cells)
  {
    hide LeafCells, ByTable, Rows;
    LeafPrefix(ls, n);
    MiddleByTable(LeafCells(ls[..n]), ls[n].cells, LeafCells(ls[n + 1..]));
  }

  lemma MiddleByTable(a: seq<Cell>, b: seq<Cell>, c: seq<Cell>)
    requires ByTable(a + b + c) && Rows(a + b + c)
    ensures ByTable(b) && Rows(b)
  {
    forall i | 0 <= i < |b| ensures b[i] == (a + b + c)[|a| + i] {}
  }

  lemma TableRowsStep(cells: seq<Cell>, c: Cell, table: nat)
    ensures TableRows(cells + [c], table) == TableRows(cells, table) + if c.key.table == table then [RowOf(c)] else []
  {
    assert (cells + [c])[..|cells|] == cells;
  }

  /** Behind a cell of a greater table there is no row of the table. */
  lemma TailRows(seen: seq<Cell>, cells: seq<Cell>, i: nat, table: nat)
    requires ByTable(cells) && i < |cells| && cells[i].key.table > table
    ensures TableRows(seen + cells, table) == TableRows(seen + cells[..i], table)
  {
    forall j | i <= j < |cells| ensures cells[j].key.table != table {
      if i < j { assert cells[i].key.table <= cells[j].key.table; }
    }
    NoTableCells(cells[i..], table);
    TableCellsAppend(seen + cells[..i], cells[i..], table);
    assert seen + cells == seen + cells[..i] + cells[i..];
  }

  lemma NothingBehind(front: seq<Cell>, all: seq<Cell>, table: nat)
    requires ByTable(all) && |front| <= |all| && all[..|front|] == front
    requires exists i :: 0 <= i < |front| && front[i].key.table > table
    ensures TableRows(all, table) == TableRows(front, table)
  {
    var i :| 0 <= i < |front| && front[i].key.table > table;
    var rest := all[|front|..];
    forall j | 0 <= j < |rest| ensures rest[j].key.table != table {
      assert all[i].key.table <= all[|front| + j].key.table;
    }
    NoTableCells(rest, table);
    TableCellsAppend(front, rest, table);
    assert all == front + rest;
  }

  /** A leaf with a greater table ends the scan. */
  lemma ScanStops(ls: seq<Tree>, n: nat, all: seq<Cell>, table: nat)
    requires n < |ls| && OrderedLeaves(ls, all)
    requires exists i :: 0 <= i < |ls[n].cells| && ls[n].cells[i].key.table > table
    ensures TableRows(all, table) == TableRows(LeafCells(ls[..n + 1]), table)
  {
    hide TableRows, LeafCells;
    var i :| 0 <= i < |ls[n].cells| && ls[n].cells[i].key.table > table;
    LeafPrefix(ls, n);
    var front := LeafCells(ls[..n + 1]);
    assert front[|LeafCells(ls[..n])| + i] == ls[n].cells[i];
    NothingBehind(front, all, table);
  }

  lemma EmptyTree(view: Disk, id: PageId)
    requires view == map[id := NewPage(LeafPage, id).(right := NO_PAGE)] && id == 0
    ensures var t := Leaf(id, [], PAGE_SIZE);
            && Represents(view, t, id, 1) && Ordered(t, Unbounded, Unbounded) && Contents(t) == [] && forall w :: Weighted(t, w)
  {
    var t := Leaf(id, [], PAGE_SIZE);
    assert Balanced(t, 0) && Height(t) == 0;
  }

  ghost predicate Represents(view: Disk, t: Tree, root: PageId, next: PageId) {
    root == t.id && 0 < next <= NO_PAGE && Match(view, t, NO_PAGE) && WellShaped(t, next) && SpaceOk(t) && Tidy(t)
  }

  lemma NewRootPage(o: Outcome, id: PageId)
    requires o.Two? && Fits([Cell(o.sep, Child(o.left.id))])
    ensures var p := AddCell(NewPage(InternalPage, id), Cell(o.sep, Child(o.left.id)));
            NodePage(p.(right := o.right.id), Grow(o, id)) && p.cells == [Cell(o.sep, Child(o.left.id))]
  {
    var c := Cell(o.sep, Child(o.left.id));
    LoadSingle(c);
    assert InsertAt([], 0, c) == [c] == Branches(Grow(o, id).seps);
  }

  lemma GrownRootMatch(view: Disk, view': Disk, o: Outcome, id: PageId)
    requires o.Two? && MatchOut(view, o, NO_PAGE) && id !in view && Unchanged(view, view', {id})
    requires id in view' && NodePage(view'[id], Grow(o, id))
    ensures Match(view', Grow(o, id), NO_PAGE)
  {
    var g := Grow(o, id);
    MatchIds(view, o.left, FirstLeaf(o.right));
    MatchIds(view, o.right, NO_PAGE);
    MatchFrame(view, view', o.left, FirstLeaf(o.right));
    MatchFrame(view, view', o.right, NO_PAGE);
    forall j | 0 <= j <= |g.seps| ensures Match(view', Kid(g, j), After(g, j, NO_PAGE)) {
      assert Kid(g, j) == if j == 0 then o.left else o.right;
    }
    NodeMatch(view', g, NO_PAGE);
  }

  lemma PutKeepsApart(t: Tree, mode: Mode, c: Cell, next: PageId)
    requires Tidy(t) && Placed(t, mode, c, next) && c.body.Data?
    ensures var t' := PutRoot(t, mode, c, next);
            Fenced(t, Unbounded, Unbounded) ==>
              && Fenced(t', Unbounded, Unbounded) && ByTable(Contents(t'))
              && (mode == Inserting ==> (Contents(t') == Sorted(Contents(t), c) <==> KeepsAll(t, mode, c)))
  {
    hide Placed, PutRoot, Fenced, Tidy, Sorted, ByTable, KeepsAll;
    if Fenced(t, Unbounded, Unbounded) {
      PutRootFenced(t, mode, c, next);
      PutRootTidy(t, mode, c, next);
      FencedByTable(PutRoot(t, mode, c, next));
      InsertedAmongEquals(t, c, next);
    }
  }

  /** What every insertion and update keeps. */
  lemma PutRootSound(t: Tree, mode: Mode, c: Cell, next: PageId)
    requires WellShaped(t, next) && SpaceOk(t) && Tidy(t) && c.body.Data?
    requires PutRootFits(t, mode, c, next) && Placed(t, mode, c, next)
    ensures var t' := PutRoot(t, mode, c, next);
            var (o, f) := Put(t, mode, c, next);
            WellShaped(t', if o.Two? then f + 1 else f) && SpaceOk(t') && Tidy(t')
  {
    PutRootShape(t, mode, c, next);
    PutRootSpace(t, mode, c, next);
    PutRootTidy(t, mode, c, next);
  }

  /**
    What an ordered tree is when it has taken in a cell. Its cells are the sorted cells with the new one
    exactly if the leaf's halves fit. As a map it gains the row and loses what the halves have no room for; its
    keys strictly ascend, and separators come to repeat exactly if an emptied leaf splits on its lower separator. A
    second row with a key that is present goes behind the first one and changes no lookup.
   */
  ghost predicate Taken(t: Tree, t': Tree, mode: Mode, c: Cell)
    requires c.body.Data?
  {
    var m, m' := AsMap(Contents(t)), AsMap(Contents(t'));
    && (Contents(t') == Sorted(Base(Contents(t), c.key, mode), c) <==> KeepsAll(t, mode, c))
    && if mode == Inserting && c.key in m then
         KeepsAll(t, mode, c) ==> m' == m && !Ordered(t', Unbounded, Unbounded)
       else
         && Ordered(t', Unbounded, Unbounded)
         && m' == m[c.key := c.body.row] - Lost(t, mode, c) && (Lost(t, mode, c) == {} <==> KeepsAll(t, mode, c))
         && (Strict(t, Unbounded, Unbounded) ==> (Strict(t', Unbounded, Unbounded) <==> !Hazard(t, mode, c, Unbounded)))
  }

  /** What they mean for an ordered tree. */
  lemma PutMeaning(t: Tree, mode: Mode, c: Cell, next: PageId)
    requires Ordered(t, Unbounded, Unbounded) && c.body.Data?
    ensures Taken(t, PutRoot(t, mode, c, next), mode, c)
    ensures c.key in AsMap(Contents(t)) <==> Lookup(Contents(t), c.key) != None
  {
    hide AsMap, Lookup, Sorted, Base, Put, PutRoot, Ordered, Strict, Hazard, KeepsAll, Lost, Find, Parted;
    OrderedParted(t, mode, c.key, Unbounded, Unbounded);
    PutRootContents(t, mode, c, next);
    PutOrder(t, mode, c, next);
    InsertedInto(t, c);
    UpdatedIn(t, c);
    AbsentFinds(t, c.key);
    if mode == Updating || c.key !in AsMap(Contents(t)) { PutLost(t, mode, c, next); }
  }

  lemma AbsentFinds(t: Tree, key: Key)
    ensures Lookup(Contents(t), key) == None <==> Find(Contents(t), key) == |Contents(t)|
  {}

  lemma PutOrder(t: Tree, mode: Mode, c: Cell, next: PageId)
    requires Ordered(t, Unbounded, Unbounded) && c.body.Data?
    ensures OrderKept(PutRoot(t, mode, c, next), t, mode, c)
  {
    hide Ordered, Strict, Hazard, KeepsAll, Put;
    if mode.Inserting? && Lookup(Contents(t), c.key) != None {
      var t' := PutRoot(t, mode, c, next);
      PutRootContents(t, mode, c, next);
      OrderedParted(t, mode, c.key, Unbounded, Unbounded);
      ContentsSorted(t, Unbounded, Unbounded);
      DuplicateMap(Contents(t), c);
      if Ordered(t', Unbounded, Unbounded) { ContentsSorted(t', Unbounded, Unbounded); }
    } else {
      PutRootOrdered(t, mode, c, next);
    }
  }

  lemma AscendingByTable(cells: seq<Cell>)
    requires Ascending(cells)
    ensures ByTable(cells)
  {
    forall i, j | 0 <= i < j < |cells| ensures cells[i].key.table <= cells[j].key.table { assert !Lt(cells[j].key, cells[i].key); }
  }

  /** With the leaves apart and each page ascending, they do. */
  lemma FencedByTable(t: Tree)
    requires Fenced(t, Unbounded, Unbounded) && Tidy(t)
    ensures ByTable(Contents(t))
  {
    FencedContents(t, Unbounded, Unbounded);
    AscendingByTable(Contents(t));
  }

  /** Tables follow one another in ascending order, which is all that a scan relies on. */
  predicate ByTable(cells: seq<Cell>) {
    forall i, j :: 0 <= i < j < |cells| ==> cells[i].key.table <= cells[j].key.table
  }

  /**
    The order survives if no key comes to occur twice, and then separators repeat exactly if an
    emptied leaf splits on its lower separator.
   */
  ghost predicate OrderKept(t': Tree, t: Tree, mode: Mode, c: Cell) {
    && ((mode == Inserting ==> Lookup(Contents(t), c.key) == None) ==>
          && Ordered(t', Unbounded, Unbounded)
          && (Strict(t, Unbounded, Unbounded) ==> (Strict(t', Unbounded, Unbounded) <==> !Hazard(t, mode, c, Unbounded))))
    && (mode == Inserting && Lookup(Contents(t), c.key) != None && KeepsAll(t, mode, c) ==> !Ordered(t', Unbounded, Unbounded))
  }

  ghost predicate Bounded(t: Tree, bound: Option<Weights>) {
    bound.Some? ==> SepBalance(bound.value) && Weighted(t, bound.value)
  }

  // ---- The contents as a map ----

  lemma InsertedInto(t: Tree, c: Cell)
    requires Ordered(t, Unbounded, Unbounded) && c.body.Data?
    ensures var m := AsMap(Contents(t));
            AsMap(Sorted(Base(Contents(t), c.key, Inserting), c)) == if c.key in m then m else m[c.key := c.body.row]
    ensures c.key in AsMap(Contents(t)) <==> Lookup(Contents(t), c.key) != None
  {
    ContentsSorted(t, Unbounded, Unbounded);
    LookupInMap(Contents(t), c.key);
    if Find(Contents(t), c.key) < |Contents(t)| { DuplicateMap(Contents(t), c); } else { InsertedMap(Contents(t), c); }
  }

  lemma UpdatedIn(t: Tree, c: Cell)
    requires Ordered(t, Unbounded, Unbounded) && c.body.Data?
    ensures AsMap(Sorted(Base(Contents(t), c.key, Updating), c)) == AsMap(Contents(t))[c.key := c.body.row]
  {
    ContentsSorted(t, Unbounded, Unbounded);
    UpdatedMap(Contents(t), c);
  }

  /** What a deletion means for an ordered tree. */
  lemma RemovedFrom(t: Tree, key: Key)
    requires Ordered(t, Unbounded, Unbounded)
    ensures var t' := Remove(t, key);
            && Ordered(t', Unbounded, Unbounded) && (Strict(t, Unbounded, Unbounded) ==> Strict(t', Unbounded, Unbounded))
            && Contents(t') == Base(Contents(t), key, Updating)
            && AsMap(Contents(t')) == AsMap(Contents(t)) - {key}
    ensures Lookup(Target(t, key).cells, key) == None <==> Lookup(Contents(t), key) == None
    ensures Lookup(Contents(t), key) == None ==> Base(Contents(t), key, Updating) == Contents(t)
  {
    ContentsSorted(t, Unbounded, Unbounded);
    RemovedMap(Contents(t), key);
    RemoveOrdered(t, key, Unbounded, Unbounded);
    RemoveContents(t, key, Unbounded, Unbounded);
    TargetLookup(t, key);
  }

  /** Looking a key up in the leaf that findLeaf reaches is looking it up in the whole tree. */
  lemma TargetLookup(t: Tree, key: Key)
    requires Ordered(t, Unbounded, Unbounded)
    ensures var l := Target(t, key);
            && SortedCells(l.cells)
            && Lookup(l.cells, key) == Lookup(Contents(t), key)
            && (Find(l.cells, key) == |l.cells| <==> Lookup(Contents(t), key) == None)
  {
    TargetDecides(t, key, Unbounded, Unbounded);
    ContentsSorted(t, Unbounded, Unbounded);
    var l, all := Target(t, key).cells, Contents(t);
    ContentsSorted(Target(t, key), Unbounded, Unbounded);
    var i := Find(l, key);
    if i < |l| {
      assert l[i] in all;
      var k :| 0 <= k < |all| && all[k] == l[i];
      FindSorted(all, k);
    } else {
      forall k | 0 <= k < |all| ensures all[k].key != key { assert all[k] in all; }
    }
  }

  lemma KidShape(t: Tree, i: nat, h: nat, next: PageId)
    requires t.Node? && i <= |t.seps| && Distinct(t) && Balanced(t, h) && Tidy(t) && IdsBelow(t, next)
    ensures h > 0 && Distinct(Kid(t, i)) && Balanced(Kid(t, i), h - 1) && Tidy(Kid(t, i)) && IdsBelow(Kid(t, i), next)
  {
    hide Ids;
    KidsApart(t, i, i);
    KidIds(t, i);
  }

  lemma KidMatch(view: Disk, t: Tree, i: nat, nxt: PageId)
    requires t.Node? && i <= |t.seps| && Match(view, t, nxt)
    ensures Match(view, Kid(t, i), After(t, i, nxt))
  {}

  /** A subtree in its place: what follows its last leaf, and its height. */
  datatype Zone = Zone(t: Tree, nxt: PageId, h: nat) {

    ghost predicate Ok() {
      Distinct(t) && Balanced(t, h) && Tidy(t)
    }

    /** The zone of the child responsible for a key. */
    ghost function Routed(key: Key): Zone
      requires t.Node?
    {
      var i := Route(t, key);
      Zone(Kid(t, i), After(t, i, nxt), if h > 0 then h - 1 else 0)
    }

    lemma RoutedOk(view: Disk, key: Key, next: PageId)
      requires Ok() && t.Node? && Match(view, t, nxt) && IdsBelow(t, next)
      ensures var k := Routed(key);
              && k.Ok() && k.h == h - 1 && Match(view, k.t, k.nxt) && IdsBelow(k.t, next)
    {
      hide Route, After, FirstLeaf, Ids, Distinct, Balanced, Tidy, Match, IdsBelow;
      var i := Route(t, key);
      KidShape(t, i, h, next);
      KidMatch(view, t, i, nxt);
    }

    lemma RoutedPage(view: Disk, key: Key)
      requires t.Node? && Match(view, t, nxt)
      ensures t.id in view && NodePage(view[t.id], t)
      ensures var cells, i := view[t.id].cells, Route(t, key);
              && (forall j | 0 <= j < |cells| :: cells[j].body.Child?)
              && Routed(key).t.id == if i < |cells| then cells[i].body.id else view[t.id].right
    {}

    /** The node once its responsible child has received the cell. */
    ghost function Descended(view: Disk, mode: Mode, c: Cell, next: PageId): Split
      requires t.Node?
    {
      Split(t, Route(t, c.key), Put(Routed(c.key).t, mode, c, next).0, nxt, view)
    }

    lemma DescendedOk(view: Disk, now: Disk, mode: Mode, c: Cell, next: PageId)
      requires Ok() && t.Node? && Match(view, t, nxt) && IdsBelow(t, next) && PutFits(t, mode, c, next) && Placed(t, mode, c, next)
      requires var k := Routed(c.key);
               MatchOut(now, Put(k.t, mode, c, next).0, k.nxt) && Unchanged(view, now, Ids(k.t))
      ensures var x, next' := Descended(view, mode, c, next), Put(Routed(c.key).t, mode, c, next).1;
              && x.Ok(now) && x.Fits() && next <= next' <= next + h && IdsBelow(t, next')
              && (x.o.Two? ==> x.o.right.id >= next)
    {
      var k, i := Routed(c.key), Route(t, c.key);
      RoutedOk(view, c.key, next);
      PutDistinct(k.t, mode, c, next);
      PutBalanced(k.t, mode, c, next, k.h);
      PutFirstLeaf(k.t, mode, c, next);
      KidsApart(t, i, i);
      RootInIds(t);
    }
  }

  /** A full internal page which, with one more cell, would say what g says. */
  ghost predicate Dividable(p: Page, c: Cell, g: Tree)
    requires g.Node?
  {
    && p.kind.InternalPage? && Ascending(p.cells) && p.right == g.last.id
    && g.seps != [] && Sorted(p.cells, c) == Branches(g.seps)
  }

  lemma {:induction false} KeptTyped(cells: seq<Cell>, ints: iset<nat>)
    requires forall i | 0 <= i < |cells| :: Typed(cells[i].key, ints)
    ensures forall i | 0 <= i < |Kept(cells)| :: Typed(Kept(cells)[i].key, ints)
  {
    if cells != [] { KeptTyped(cells[..|cells| - 1], ints); }
  }

  /** The pages that hold the halves of a full leaf and its new cell. */
  ghost predicate HalvedLeaf(left: Page, right: Page, p: Page, c: Cell, upKey: Key) {
    var all := Sorted(p.cells, c);
    var mid := |all| / 2;
    && upKey == all[mid].key
    && LeafPageIs(left, KeptLeaf(left.id, all[..mid]), right.id)
    && LeafPageIs(right, KeptLeaf(right.id, all[mid..]), p.right)
  }

  lemma LeafMatch(view: Disk, l: Tree, nxt: PageId)
    requires l.Leaf? && l.id in view && LeafPageIs(view[l.id], l, nxt)
    ensures Match(view, l, nxt) && Ids(l) == {l.id} && FirstLeaf(l) == l.id
  {}

  lemma PlacedOutcome(view: Disk, p: Page, t: Tree, mode: Mode, c: Cell, next: PageId, nxt: PageId)
    requires t.Leaf? && LeafPageIs(p, Leaf(t.id, Base(t.cells, c.key, mode), t.off), nxt) && HasRoom(p, c)
    requires p.id in view && SameButLsn(view[p.id], InsertCellAt(p, UpperBound(p.cells, c.key), c))
    ensures var o := PutLeaf(t, mode, c, next); MatchOut(view, o, nxt) && o.One? && Ids(t) == {p.id}
  {
    hide Match, Ids, FirstLeaf, UpperBound, Find, Base, Size, TotalSize;
    LeafMatch(view, PutLeaf(t, mode, c, next).t, nxt);
    LeafIdsOf(t);
  }

  lemma LeafIdsOf(t: Tree)
    requires t.Leaf?
    ensures Ids(t) == {t.id}
  {}

  lemma RoomDecides(p: Page, t: Tree, mode: Mode, c: Cell, next: PageId)
    requires t.Leaf? && p.id == t.id && p.cells == Base(t.cells, c.key, mode) && p.off == t.off
    ensures PutLeaf(t, mode, c, next).Two? <==> !HasRoom(p, c)
    ensures Touched(t, mode, c, next) == {p.id} + if HasRoom(p, c) then {} else {next}
  {
    hide Base, Sorted, Size;
  }

  lemma HalvedOutcome(view: Disk, p: Page, t: Tree, mode: Mode, c: Cell, upKey: Key, next: PageId, nxt: PageId)
    requires t.Leaf? && LeafPageIs(p, Leaf(t.id, Base(t.cells, c.key, mode), t.off), nxt) && !HasRoom(p, c)
    requires p.id in view && next in view && view[p.id].id == p.id && view[next].id == next
    requires HalvedLeaf(view[p.id], view[next], p, c, upKey)
    ensures var o := PutLeaf(t, mode, c, next);
            MatchOut(view, o, nxt) && o.Two? && o.right.id == next && o.right.Leaf? && upKey == o.sep && Ids(t) == {p.id}
  {
    hide Match, Ids, FirstLeaf, UpperBound, Find, Base, Sorted, Size, TotalSize, Kept, Fits;
    var o := PutLeaf(t, mode, c, next);
    LeafMatch(view, o.left, next);
    LeafMatch(view, o.right, nxt);
    LeafIdsOf(t);
  }

  lemma SplitUnchanged(v0: Disk, v1: Disk, v2: Disk, id: PageId, newId: PageId)
    requires newId !in v0 && newId in v1 && v1 == v0[newId := v1[newId]] && Unchanged(v1, v2, {id, newId})
    ensures Unchanged(v0, v2, {id})
  {}

  lemma LeavesButLsn(l: Page, r: Page, l': Page, r': Page, p: Page, c: Cell, upKey: Key)
    requires HalvedLeaf(l, r, p, c, upKey) && SameButLsn(l', l) && SameButLsn(r', r)
    ensures HalvedLeaf(l', r', p, c, upKey)
  {}

  lemma DividedButLsn(l: Page, r: Page, l': Page, r': Page, upKey: Key, g: Tree, newId: PageId)
    requires g.Node? && g.seps != [] && Divided(l, r, upKey, g, newId) && SameButLsn(l', l) && SameButLsn(r', r)
    ensures Divided(l', r', upKey, g, newId)
  {}

  /** The page of an internal node to which the cells have been offered one by one. */
  ghost predicate KeptNode(p: Page, t: Tree)
    requires t.Node?
  {
    var kept := Kept(Branches(t.seps));
    p.kind.InternalPage? && p.id == t.id && p.cells == kept && p.off == FilledOff(kept) && p.right == t.last.id
  }

  lemma DividedFits(left: Page, right: Page, upKey: Key, g: Tree, newId: PageId)
    requires g.Node? && g.seps != [] && Divided(left, right, upKey, g, newId) && HalvesFit(g.seps)
    ensures var h := Halves(g, newId); upKey == h.sep && NodePage(left, h.left) && NodePage(right, h.right)
  {
    hide Fits, Kept, Branches;
    KeptAllIffFits(Branches(g.seps[..|g.seps| / 2]));
    KeptAllIffFits(Branches(g.seps[|g.seps| / 2 + 1..]));
  }

  ghost predicate Divided(left: Page, right: Page, upKey: Key, g: Tree, newId: PageId)
    requires g.Node? && g.seps != []
  {
    var h := Halves(g, newId);
    upKey == h.sep && KeptNode(left, h.left) && KeptNode(right, h.right)
  }

  /** Child i of node t, represented at `view`, has become the outcome o. */
  datatype Split = Split(t: Tree, i: nat, o: Outcome, nxt: PageId, view: Disk) {

    ghost predicate Ok(now: Disk) {
      && t.Node? && i <= |t.seps| && Distinct(t) && Tidy(t) && Match(view, t, nxt)
      && MatchOut(now, o, After(t, i, nxt)) && Unchanged(view, now, Ids(Kid(t, i)))
      && Stays(o).id == Kid(t, i).id && FirstLeaf(Stays(o)) == FirstLeaf(Kid(t, i))
      && t.id !in OutIds(o)
      && (o.Two? ==> UpperBound(Branches(t.seps), o.sep) == i)
    }

    ghost predicate Fits()
      requires t.Node? && i <= |t.seps|
    {
      o.Two? ==>
        || RoomFor(t.off, |t.seps|, Cell(o.sep, Child(o.left.id)))
        || HalvesFit(SplitSeps(t, i, o.left, o.sep, o.right))
    }

    ghost function Taken(): Tree
      requires t.Node? && i <= |t.seps| && o.Two?
    {
      Charged(t, i, o)
    }

    lemma ParentPage(now: Disk)
      requires Ok(now)
      ensures t.id in now && NodePage(now[t.id], t)
    {
      KidsApart(t, i, i);
    }

    lemma ParentKept(now: Disk)
      requires Ok(now)
      ensures t.id in now && t.id in view && now[t.id] == view[t.id]
    {
      KidsApart(t, i, i);
    }

    lemma PatchedPage(p: Page, c: Cell, ints: iset<nat>)
      requires t.Node? && i <= |t.seps| && o.Two? && c == Cell(o.sep, Child(o.left.id)) && Typed(c.key, ints)
      requires p.id == t.id && p.kind.InternalPage? && p.off == t.off && PageTyped(p, ints)
      requires p.cells == Repointed(t, i, o.right.id) && p.right == SplitLast(t, i, o.right).id
      ensures InsertAt(p.cells, i, c) == Branches(Taken().seps)
      ensures HasRoom(p, c) <==> RoomFor(t.off, |t.seps|, c)
      ensures HasRoom(p, c) ==> NodePage(InsertCellAt(p, i, c), Taken()) && PageTyped(InsertCellAt(p, i, c), ints)
    {
      PatchedCells(t, i, o);
    }

    /** The patched page, when the old child's new cell has no room in it. */
    lemma FullPage(p: Page, c: Cell)
      requires t.Node? && i <= |t.seps| && o.Two? && Tidy(t) && Fits() && c == Cell(o.sep, Child(o.left.id))
      requires p.kind.InternalPage? && p.cells == Repointed(t, i, o.right.id) && p.right == SplitLast(t, i, o.right).id
      requires UpperBound(p.cells, c.key) == i && InsertAt(p.cells, i, c) == Branches(Taken().seps) && !RoomFor(t.off, |t.seps|, c)
      ensures Dividable(p, c, Taken()) && HalvesFit(Taken().seps)
    {
      hide UpperBound, Branches, HalvesFit, RoomFor, Ascending, Tidy;
      RepointedAscending(t, i, o.right.id);
    }

    lemma ReplacedOk(now: Disk)
      requires Ok(now) && o.One?
      ensures MatchOut(now, PutNode(t, i, o, 0), nxt) && Unchanged(view, now, Ids(t))
    {
      ReplacedMatch(view, now, t, i, o.t, nxt);
      KidIds(t, i);
    }

    lemma SplitFrame(now: Disk, then': Disk)
      requires Ok(now) && o.Two? && Unchanged(now, then', {t.id})
      ensures MatchOut(then', o, After(t, i, nxt)) && Unchanged(view, then', Ids(Kid(t, i)) + {t.id})
    {
      MatchIds(now, o.left, FirstLeaf(o.right));
      MatchIds(now, o.right, After(t, i, nxt));
      MatchFrame(now, then', o.left, FirstLeaf(o.right));
      MatchFrame(now, then', o.right, After(t, i, nxt));
    }

    /** The parent's page alone has changed since. */
    lemma KidsOk(now: Disk, then': Disk)
      requires Ok(now) && o.Two? && Unchanged(now, then', {t.id})
      ensures KidsMatch(then', Taken(), nxt) && Unchanged(view, then', Ids(t))
    {
      KidIds(t, i);
      RootInIds(t);
      SplitFrame(now, then');
      GrownMatch(view, then', t, i, o, Taken().off, nxt);
    }

    lemma GrownOk(now: Disk, then': Disk)
      requires Ok(now) && o.Two? && Unchanged(now, then', {t.id}) && t.id in then' && NodePage(then'[t.id], Taken())
      ensures Match(then', Taken(), nxt) && Unchanged(view, then', Ids(t))
    {
      KidsOk(now, then');
      NodeMatch(then', Taken(), nxt);
    }

    lemma HalvesOk(now: Disk, then': Disk, upKey: Key, newId: PageId)
      requires Ok(now) && o.Two? && Unchanged(now, then', {t.id}) && t.id in then' && newId in then'
      requires Divided(then'[t.id], then'[newId], upKey, Taken(), newId) && HalvesFit(Taken().seps)
      ensures var h := Halves(Taken(), newId);
              MatchOut(then', h, nxt) && Unchanged(view, then', Ids(t)) && h.Two? && upKey == h.sep && newId == h.right.id
    {
      KidsOk(now, then');
      DividedFits(then'[t.id], then'[newId], upKey, Taken(), newId);
      HalvesMatch(then', Taken(), newId, nxt);
    }
  }

  lemma FindIs(cells: seq<Cell>, key: Key, i: nat)
    requires i <= |cells| && (forall j :: 0 <= j < i ==> cells[j].key != key)
    requires i < |cells| ==> cells[i].key == key
    ensures Find(cells, key) == i
  {}

  lemma LoggedDirt(s: Start, buf: seq<Rec>, view: Disk, frames: Frames, frames': Frames, held: set<PageId>)
    requires Logged(s, buf, view, frames, held) && SameDirt(frames, frames')
    ensures Logged(s, buf, view, frames', held)
  {
    forall id | id in view && id !in held ensures Recorded(s, buf[|s.pool.buf|..], view, frames', id) {
      assert Recorded(s, buf[|s.pool.buf|..], view, frames, id);
    }
  }

  lemma LoggedChange(s: Start, buf: seq<Rec>, view: Disk, view': Disk, frames: Frames, frames': Frames, held: set<PageId>, id: PageId)
    requires Logged(s, buf, view, frames, held) && SameDirt(frames, frames')
    requires view.Keys <= view'.Keys && forall x :: x in view' && x != id ==> x in view && view'[x] == view[x]
    ensures Logged(s, buf, view', frames', held + {id})
  {
    forall x | x in view' && x !in held + {id} ensures Recorded(s, buf[|s.pool.buf|..], view', frames', x) {
      assert Recorded(s, buf[|s.pool.buf|..], view, frames, x);
    }
  }

  lemma SortedTyped(cells: seq<Cell>, c: Cell, ints: iset<nat>)
    requires Typed(c.key, ints) && forall i | 0 <= i < |cells| :: Typed(cells[i].key, ints)
    ensures forall i | 0 <= i < |Sorted(cells, c)| :: Typed(Sorted(cells, c)[i].key, ints)
  {}

  lemma RepointedAscending(t: Tree, i: nat, r: PageId)
    requires t.Node? && i <= |t.seps| && Tidy(t)
    ensures Ascending(Repointed(t, i, r))
  {
    var cells := Repointed(t, i, r);
    forall a, b | 0 <= a < b < |cells| ensures !Lt(cells[b].key, cells[a].key) {
      assert !Lt(Branches(t.seps)[b].key, Branches(t.seps)[a].key);
    }
  }
}
