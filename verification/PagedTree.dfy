/** Facts that tie single page operations to the tree, and the bookkeeping of one statement's writes. */
module PagedTree {
  import opened Types
  import opened Keys
  import opened Pages
  import opened Storage
  import opened Tree
  import opened TreeShape
  import opened TreeDemand

  // ---- Patching an internal page ----

  lemma PositionIs(cells: seq<Cell>, key: Key, u: nat)
    requires u <= |cells| && (forall j :: 0 <= j < u ==> !Lt(key, cells[j].key)) && (u < |cells| ==> Lt(key, cells[u].key))
    ensures UpperBound(cells, key) == u
  {}

  /** A position depends on the keys alone. */
  lemma SamePosition(a: seq<Cell>, b: seq<Cell>, key: Key)
    requires |a| == |b| && forall j :: 0 <= j < |a| ==> a[j].key == b[j].key
    ensures UpperBound(a, key) == UpperBound(b, key)
  {
    PositionIs(b, key, UpperBound(a, key));
  }

  /** The page's cells once the pointer of child i has been overwritten. */
  function Repointed(t: Tree, i: nat, r: PageId): seq<Cell>
    requires t.Node? && i <= |t.seps|
  {
    var b := Branches(t.seps);
    if i < |b| then b[i := Cell(b[i].key, Child(r))] else b
  }

  lemma PatchedCells(t: Tree, i: nat, o: Outcome)
    requires t.Node? && i <= |t.seps| && o.Two?
    ensures InsertAt(Repointed(t, i, o.right.id), i, Cell(o.sep, Child(o.left.id)))
            == Branches(SplitSeps(t, i, o.left, o.sep, o.right))
  {
    var b' := Branches(SplitSeps(t, i, o.left, o.sep, o.right));
    var ins := InsertAt(Repointed(t, i, o.right.id), i, Cell(o.sep, Child(o.left.id)));
    assert |ins| == |b'|;
    forall j | 0 <= j < |ins| ensures ins[j] == b'[j] {}
  }

  /** The children of a node have different pages. */
  lemma KidIdsDiffer(t: Tree, i: nat, j: nat)
    requires t.Node? && Distinct(t) && i <= |t.seps| && j <= |t.seps| && i != j
    ensures Kid(t, i).id != Kid(t, j).id
  {
    KidsApart(t, i, j);
    RootInIds(Kid(t, i));
    RootInIds(Kid(t, j));
  }

  lemma BranchesSlice(seps: seq<Sep>, mid: nat)
    requires mid < |seps|
    ensures Branches(seps)[..mid] == Branches(seps[..mid])
    ensures Branches(seps)[mid + 1..] == Branches(seps[mid + 1..])
  {}

  // ---- The writes of one statement ----

  /** The page file, the pool and the log between two statements. */
  datatype Pool = Pool(pages: Disk, frames: Frames, durable: seq<Rec>, buf: seq<Rec>, nextLsn: nat, root: PageId)

  /** Where a statement started, and the transaction it writes for. */
  datatype Start = Start(pool: Pool, txn: TxnId)

  /** What readers of the pool see. */
  function Seen(p: Pool): Disk { ViewOf(p.pages, p.frames) }

  predicate IsWrite(r: Rec) {
    (r.op.OpInsert? || r.op.OpUpdate? || r.op.OpDelete?) && r.redo.Some? && r.redo.value.id == r.page
  }

  /** The last of the records about a page carries its image as it was before its LSN was stamped. */
  ghost predicate LastImage(recs: seq<Rec>, id: PageId, p: Page) {
    exists k ::
      && 0 <= k < |recs| && recs[k].page == id && recs[k].redo.Some? && p == recs[k].redo.value.(lsn := recs[k].lsn)
      && forall j :: k < j < |recs| ==> recs[j].page != id
  }

  ghost predicate NoneAbout(recs: seq<Rec>, id: PageId) {
    forall j :: 0 <= j < |recs| ==> recs[j].page != id
  }

  ghost predicate Recorded(s: Start, recs: seq<Rec>, view: Disk, frames: Frames, id: PageId)
    requires id in view
  {
    || (id in s.pool.pages && NoneAbout(recs, id) && view[id] == Seen(s.pool)[id] && DirtyOf(frames, id) == DirtyOf(s.pool.frames, id))
    || (LastImage(recs, id, view[id]) && DirtyOf(frames, id) == Some(s.txn))
  }

  /** A record of the statement, with its place in the sequence of LSNs. */
  predicate RecordOk(s: Start, r: Rec, k: nat) {
    IsWrite(r) && r.txn == s.txn && r.lsn == s.pool.nextLsn + k
  }

  /**
    Everything the statement has changed so far is in the log buffer and in frames marked with its
    transaction, except the pages it still holds.
   */
  ghost predicate Logged(s: Start, buf: seq<Rec>, view: Disk, frames: Frames, held: set<PageId>) {
    var n := |s.pool.buf|;
    && n <= |buf| && buf[..n] == s.pool.buf
    && (forall k | n <= k < |buf| :: RecordOk(s, buf[k], k - n) && buf[k].page in view)
    && (forall id | id in view && id !in held :: Recorded(s, buf[n..], view, frames, id))
  }

  predicate Blank(p: Page, id: PageId) { p == NewPage(p.kind, id) }

  /** The page file has at most gained new blank pages, and the log file nothing. */
  ghost predicate Grew(p: Pool, pages: Disk, durable: seq<Rec>, buf: seq<Rec>, nextLsn: nat) {
    && durable == p.durable && nextLsn == p.nextLsn + |buf| - |p.buf|
    && (forall id | id in p.pages :: id in pages && pages[id] == p.pages[id])
    && forall id | id in pages && id !in p.pages :: Blank(pages[id], id)
  }

  /** What a statement that is done has done to the page file, the pool and the log. */
  ghost predicate Wrote(p: Pool, q: Pool, txn: TxnId) {
    && Logged(Start(p, txn), q.buf, Seen(q), q.frames, {})
    && Grew(p, q.pages, q.durable, q.buf, q.nextLsn) && SamePins(p.frames, q.frames)
  }

  lemma LastImageAppend(recs: seq<Rec>, r: Rec, id: PageId, p: Page)
    requires r.page != id && LastImage(recs, id, p)
    ensures LastImage(recs + [r], id, p)
  {
    var k :| 0 <= k < |recs| && recs[k].page == id && recs[k].redo.Some? && p == recs[k].redo.value.(lsn := recs[k].lsn)
             && forall j :: k < j < |recs| ==> recs[j].page != id;
    assert (recs + [r])[k] == recs[k];
  }

  lemma LastImageNow(recs: seq<Rec>, r: Rec, p: Page)
    requires r.redo.Some? && p == r.redo.value.(lsn := r.lsn)
    ensures LastImage(recs + [r], r.page, p)
  {
    assert (recs + [r])[|recs|] == r;
  }

  /** finishPage: the page leaves the held set, recorded. */
  lemma FinishLogged(s: Start, buf: seq<Rec>, view: Disk, frames: Frames, held: set<PageId>, r: Rec, view': Disk, frames': Frames)
    requires Logged(s, buf, view, frames, held) && RecordOk(s, r, |buf| - |s.pool.buf|) && r.page in view
    requires view'.Keys == view.Keys && forall id :: id in view && id != r.page ==> view'[id] == view[id]
    requires view'[r.page] == r.redo.value.(lsn := r.lsn) && DirtyOf(frames', r.page) == Some(s.txn)
    requires forall id :: id != r.page ==> DirtyOf(frames', id) == DirtyOf(frames, id)
    ensures Logged(s, buf + [r], view', frames', held - {r.page})
  {
    var recs := buf[|s.pool.buf|..];
    assert (buf + [r])[|s.pool.buf|..] == recs + [r];
    assert (buf + [r])[..|s.pool.buf|] == s.pool.buf;
    forall id | id in view' && id !in held - {r.page} ensures Recorded(s, recs + [r], view', frames', id) {
      if id == r.page {
        LastImageNow(recs, r, view'[id]);
      } else {
        assert Recorded(s, recs, view, frames, id);
        if LastImage(recs, id, view[id]) { LastImageAppend(recs, r, id, view[id]); }
      }
    }
    LoggedRecords(s, buf, view, frames, held, r, view');
  }

  lemma LoggedRecords(s: Start, buf: seq<Rec>, view: Disk, frames: Frames, held: set<PageId>, r: Rec, view': Disk)
    requires Logged(s, buf, view, frames, held) && RecordOk(s, r, |buf| - |s.pool.buf|) && r.page in view && view'.Keys == view.Keys
    ensures forall k | |s.pool.buf| <= k < |buf + [r]| :: RecordOk(s, (buf + [r])[k], k - |s.pool.buf|) && (buf + [r])[k].page in view'
  {}

  ghost predicate SamePins(f: Frames, f': Frames) {
    forall x: PageId {:trigger PinOf(f', x)} :: PinOf(f', x) == PinOf(f, x)
  }

  ghost predicate SameDirt(f: Frames, f': Frames) {
    forall x: PageId {:trigger DirtyOf(f', x)} :: DirtyOf(f', x) == DirtyOf(f, x)
  }

  /** Pages have been read and given up again. */
  ghost predicate SameUses(f: Frames, f': Frames) {
    SamePins(f, f') && SameDirt(f, f')
  }

  lemma NoUse(f: Frames)
    ensures SameUses(f, f)
  {}

  lemma SameUsesThrough(f: Frames, g: Frames, h: Frames)
    requires SameUses(f, g) && SameUses(g, h)
    ensures SameUses(f, h)
  {}

  /** Pins as before, but for d more on one page. */
  ghost predicate PinsMoved(f: Frames, f': Frames, id: PageId, d: int) {
    forall x: PageId {:trigger PinOf(f', x)} :: PinOf(f', x) == PinOf(f, x) + if x == id then d else 0
  }

  /** The transaction has written exactly these pages. */
  ghost predicate Dirtied(f: Frames, f': Frames, ids: set<PageId>, txn: TxnId) {
    forall x: PageId {:trigger DirtyOf(f', x)} :: DirtyOf(f', x) == if x in ids then Some(txn) else DirtyOf(f, x)
  }

  // ---- Where a statement stops for want of a frame ----

  /** A page that was changed in place and given up without a record. */
  function LeftIds(left: Option<Page>): set<PageId> {
    if left.Some? then {left.value.id} else {}
  }

  /** New pages that never got a frame. */
  function Unframed(old': Disk, pages: Disk, frames: Frames): set<PageId> {
    set id | id in pages && id !in old' && id !in frames
  }

  /** An internal page whose pointer to child i leads to the new right half, without a cell for the left one. */
  function HalfPatched(p: Page, t: Tree, i: nat, o: Outcome): Page
    requires t.Node? && i <= |t.seps| && o.Two?
  {
    p.(cells := Repointed(t, i, o.right.id), right := SplitLast(t, i, o.right).id)
  }

  /**
    The page that is left changed when there are frames for the way down and for `free` new pages, and
    no more: the leaf of an update that has lost its old cell, or the internal page over the child that
    was the last to split.
   */
  function LeftPage(view: Disk, t: Tree, mode: Mode, c: Cell, next: PageId, free: int): Option<Page>
    decreases t
  {
    match t
    case Leaf(_, cells, _) =>
      if free == 0 && mode.Updating? && t.id in view then Some(view[t.id].(cells := Base(cells, c.key, mode))) else None
    case Node(_, _, _, _) =>
      var i := Route(t, c.key);
      var (o, f) := Put(Kid(t, i), mode, c, next);
      if free < f - next then LeftPage(view, Kid(t, i), mode, c, next, free)
      else if o.Two? && t.id in view then Some(HalfPatched(view[t.id], t, i, o)) else None
  }

  /** The same for the whole tree: nothing is left changed if only the new root is missing. */
  function LeftAtRoot(view: Disk, t: Tree, mode: Mode, c: Cell, next: PageId, free: int): Option<Page> {
    if free < Demand(t, mode, c, next) then LeftPage(view, t, mode, c, next, free) else None
  }

  lemma {:induction false} NothingLeft(view: Disk, t: Tree, mode: Mode, c: Cell, next: PageId, free: int)
    requires free < 0
    ensures LeftPage(view, t, mode, c, next, free) == None && Finished(t, mode, c, next, free) == {}
    decreases t
  {
    if t.Node? {
      var i := Route(t, c.key);
      NextGrows(Kid(t, i), mode, c, next);
      NothingLeft(view, Kid(t, i), mode, c, next, free);
    }
  }

  lemma StuckMore(f: Frames, f': Frames, id: PageId)
    requires PinsMoved(f, f', id, 1) && SameDirt(f, f')
    ensures Stuck(f') == Stuck(f) + {id}
  {
    StuckIs(f);
    StuckIs(f');
    forall x: PageId ensures x in Stuck(f') <==> x in Stuck(f) + {id} {
      assert PinOf(f', x) == PinOf(f, x) + if x == id then 1 else 0;
      assert DirtyOf(f', x) == DirtyOf(f, x);
    }
  }

  /** A demand that is not met is not that of an update of a missing key. */
  lemma MissingDemand(t: Tree, mode: Mode, c: Cell, next: PageId)
    ensures Missing(t, mode, c.key) ==> Demand(t, mode, c, next) == 0
    ensures !Missing(t, mode, c.key) ==> Demand(t, mode, c, next) == Put(t, mode, c, next).1 - next
  {}

  lemma DirtJoin(f: Frames, g: Frames, h: Frames, a: set<PageId>, b: set<PageId>, txn: TxnId)
    requires Dirtied(f, g, a, txn)
    ensures Dirtied(g, h, b, txn) ==> Dirtied(f, h, a + b, txn)
    ensures SameDirt(g, h) ==> Dirtied(f, h, a, txn)
  {
    forall x: PageId ensures DirtyOf(g, x) == if x in a then Some(txn) else DirtyOf(f, x) {}
  }

  lemma NoneDirtied(f: Frames, f': Frames, txn: TxnId)
    ensures SameDirt(f, f') ==> Dirtied(f, f', {}, txn)
  {}

  lemma SameStuck(f: Frames, f': Frames)
    requires SamePins(f, f') && SameDirt(f, f')
    ensures Stuck(f') == Stuck(f)
  {
    StuckIs(f);
    StuckIs(f');
    forall x: PageId ensures x in Stuck(f') <==> x in Stuck(f) {
      assert PinOf(f', x) == PinOf(f, x) && DirtyOf(f', x) == DirtyOf(f, x);
    }
  }

  lemma StuckDirtied(f: Frames, f': Frames, ids: set<PageId>, txn: TxnId)
    requires SamePins(f, f') && Dirtied(f, f', ids, txn)
    ensures Stuck(f') == Stuck(f) + ids
  {
    StuckIs(f);
    StuckIs(f');
    forall x: PageId ensures x in Stuck(f') <==> x in Stuck(f) + ids {
      assert PinOf(f', x) == PinOf(f, x);
      assert DirtyOf(f', x) == if x in ids then Some(txn) else DirtyOf(f, x);
    }
  }

  /** The first page of the way down: without a frame for it there is none for the whole way. */
  lemma FirstOfPath(frames: Frames, t: Tree, key: Key)
    ensures (Stuck(frames) + {t.id}) + PathIds(t, key) == Stuck(frames) + PathIds(t, key)
    ensures |Stuck(frames) + {t.id}| <= |Stuck(frames) + PathIds(t, key)|
  {
    Fewer(Stuck(frames) + {t.id}, Stuck(frames) + PathIds(t, key));
  }

  lemma RestOfPath(frames: Frames, t: Tree, key: Key)
    requires t.Node? && t.id in Stuck(frames)
    ensures Stuck(frames) + PathIds(t, key) == Stuck(frames) + PathIds(Kid(t, Route(t, key)), key)
  {}

  /** What a node asks for is what its child asks for, and one page more if it splits itself. */
  lemma NodeDemand(t: Tree, mode: Mode, c: Cell, next: PageId)
    requires t.Node?
    ensures var i := Route(t, c.key);
            var (o, f) := Put(Kid(t, i), mode, c, next);
            && next <= f
            && (Missing(t, mode, c.key) <==> Missing(Kid(t, i), mode, c.key))
            && Demand(Kid(t, i), mode, c, next) <= Demand(t, mode, c, next)
            && (!Missing(t, mode, c.key) ==> Demand(t, mode, c, next) == f - next + if PutNode(t, i, o, f).Two? then 1 else 0)
  {
    NextGrows(Kid(t, Route(t, c.key)), mode, c, next);
  }

  /** When the child has split, the frames it has taken up are those of its way down and of its new pages. */
  lemma FramesTaken(f: Frames, f': Frames, t: Tree, mode: Mode, c: Cell, next: PageId, txn: TxnId)
    requires SamePins(f, f') && Dirtied(f, f', Touched(t, mode, c, next), txn)
    requires (forall id | id in f :: id < next) && IdsBelow(t, next)
    ensures var (o, n) := Put(t, mode, c, next);
            o.Two? ==> |Stuck(f') + {n}| == |Stuck(f) + PathIds(t, c.key)| + (n - next) + 1
  {
    hide Put, Touched, PathIds, Stuck, Dirtied, SamePins, NewIds;
    var (o, n) := Put(t, mode, c, next);
    if o.Two? {
      StuckDirtied(f, f', Touched(t, mode, c, next), txn);
      TwoTouched(t, mode, c, next);
      NextGrows(t, mode, c, next);
      PathInIds(t, c.key);
      InFrames(f);
      OneNewMore(Stuck(f), PathIds(t, c.key), next, n);
    }
  }

  lemma StuckIn(f: Frames)
    ensures Stuck(f) <= f.Keys
  {}

  lemma LeafRoom(f: Frames, t: Tree, key: Key, next: PageId)
    requires t.Leaf? && t.id in Stuck(f) && forall id | id in f :: id < next
    ensures Stuck(f) + PathIds(t, key) == Stuck(f) <= f.Keys && |Stuck(f) + {next}| == |Stuck(f)| + 1
  {
    InFrames(f);
    StuckIn(f);
  }

  lemma SameDirtThrough(f: Frames, g: Frames, h: Frames)
    requires SameDirt(f, g)
    ensures SameDirt(g, h) ==> SameDirt(f, h)
  {
    forall x: PageId ensures DirtyOf(g, x) == DirtyOf(f, x) {}
  }

  lemma DirtiedThrough(f: Frames, g: Frames, h: Frames, ids: set<PageId>, txn: TxnId)
    requires SameDirt(f, g)
    ensures Dirtied(g, h, ids, txn) ==> Dirtied(f, h, ids, txn)
  {
    forall x: PageId ensures DirtyOf(g, x) == DirtyOf(f, x) {}
  }

  lemma InFrames(f: Frames)
    ensures forall id | id in Stuck(f) :: id in f
  {}

  lemma OneNewMore(a: set<PageId>, b: set<PageId>, next: PageId, n: PageId)
    requires next <= n && (forall id | id in a :: id < next) && forall id | id in b :: id < next
    ensures |a + (b + NewIds(next, n)) + {n}| == |a + b| + (n - next) + 1
  {
    PlusNew(a + b, next, n + 1);
    assert a + (b + NewIds(next, n)) + {n} == a + b + NewIds(next, n + 1);
  }

  // ---- What one step does to the pool ----

  lemma ReleasedUse(pages: Disk, frames: Frames, id: PageId)
    requires id in frames && frames[id].pin > 0
    ensures var frames' := frames[id := Unpinned(frames[id], false, 0)];
            && ViewOf(pages, frames') == ViewOf(pages, frames)
            && PinsMoved(frames, frames', id, -1) && SameDirt(frames, frames')
            && forall held | id !in held && CoherentOk(pages, frames, held) :: CoherentOk(pages, frames', held)
  {}

  lemma ChangedUse(pages: Disk, frames: Frames, p: Page)
    requires p.id in frames && frames[p.id].pin > 0 && p.id in pages
    ensures var frames' := frames[p.id := frames[p.id].(page := p)];
            && ViewOf(pages, frames') == ViewOf(pages, frames)[p.id := p]
            && SamePins(frames, frames') && SameDirt(frames, frames')
            && forall held | CoherentOk(pages, frames, held) :: CoherentOk(pages, frames', held + {p.id})
  {}

  lemma FinishedUse(pages: Disk, frames: Frames, p: Page, txn: TxnId)
    requires p.id in frames && frames[p.id].pin > 0 && p.id in pages
    ensures var changed := frames[p.id := frames[p.id].(page := p)];
            var frames' := changed[p.id := Unpinned(changed[p.id], true, txn)];
            && ViewOf(pages, frames') == ViewOf(pages, frames)[p.id := p]
            && PinsMoved(frames, frames', p.id, -1)
            && DirtyOf(frames', p.id) == Some(txn)
            && (forall x :: x != p.id ==> DirtyOf(frames', x) == DirtyOf(frames, x))
            && forall held | CoherentOk(pages, frames, held) :: CoherentOk(pages, frames', held - {p.id})
  {
    ChangedUse(pages, frames, p);
  }

  ghost predicate PageTyped(p: Page, ints: iset<nat>) {
    forall i | 0 <= i < |p.cells| :: Typed(p.cells[i].key, ints)
  }

  ghost predicate AllTyped(view: Disk, ints: iset<nat>) {
    forall id | id in view :: PageTyped(view[id], ints)
  }
}
