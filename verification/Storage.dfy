/**
  The page file, the log and the buffer pool as objects: storage/page/disk.go, storage/wal/wal.go
  at the level of whole records, and storage/buffer/buffer.go. File operations do not fail here.
 */
module Storage {
  import opened Types
  import opened Pages

  type TxnId = nat

  datatype Operation = OpInsert | OpUpdate | OpDelete | OpCommit | OpAbort

  /** A log record. Page changes carry the image of the whole page, the other operations nothing. */
  datatype Rec = Rec(lsn: nat, txn: TxnId, page: PageId, op: Operation, redo: Option<Page>)

  datatype Frame = Frame(page: Page, pin: nat, dirty: bool, txn: TxnId)

  type Disk = map<PageId, Page>
  type Frames = map<PageId, Frame>

  /** What a reader of the pool sees: the frame if there is one, the page on disk otherwise. */
  function ViewOf(disk: Disk, frames: Frames): Disk {
    map id | id in disk :: if id in frames then frames[id].page else disk[id]
  }

  function PinOf(frames: Frames, id: PageId): nat {
    if id in frames then frames[id].pin else 0
  }

  /** The transaction whose uncommitted change the frame of a page holds, if any. */
  function DirtyOf(frames: Frames, id: PageId): Option<TxnId> {
    if id in frames && frames[id].dirty then Some(frames[id].txn) else None
  }

  predicate Evictable(f: Frame) {
    f.pin == 0 && !f.dirty
  }

  /** The pages whose frames cannot be given up: they are pinned or dirty. */
  function Stuck(frames: Frames): set<PageId> {
    set id | id in frames && !Evictable(frames[id])
  }

  lemma StuckIs(frames: Frames)
    ensures forall id: PageId {:trigger id in Stuck(frames)} :: id in Stuck(frames) <==> PinOf(frames, id) > 0 || DirtyOf(frames, id).Some?
  {}

  lemma StuckBound(frames: Frames, id: PageId, maxSize: nat)
    requires |frames.Keys| <= maxSize
    ensures id in frames ==> |Stuck(frames) + {id}| <= maxSize
    ensures id !in frames && |frames.Keys| < maxSize ==> |Stuck(frames) + {id}| <= maxSize
    ensures (exists x :: x in frames && Evictable(frames[x])) ==> |Stuck(frames) + {id}| <= maxSize
    ensures id !in frames && |frames.Keys| == maxSize && (forall x :: x in frames ==> !Evictable(frames[x])) ==>
              |Stuck(frames) + {id}| > maxSize
  {
    var stuck := Stuck(frames);
    Fewer(stuck, frames.Keys);
    if id in frames { Fewer(stuck + {id}, frames.Keys); }
    if x :| x in frames && Evictable(frames[x]) { Fewer(stuck, frames.Keys - {x}); }
    if forall x :: x in frames ==> !Evictable(frames[x]) { assert stuck == frames.Keys; }
  }

  lemma {:induction false} Fewer<T>(a: set<T>, b: set<T>)
    requires a <= b
    ensures |a| <= |b|
  {
    if a != {} {
      var x :| x in a;
      Fewer(a - {x}, b - {x});
    }
  }

  lemma TogetherFewer<T>(a: set<T>, b: set<T>)
    ensures |a + b| <= |a| + |b|
  {
    assert a + b == a + (b - a);
    Fewer(b - a, b);
  }

  /** Each page is stored under its own id. */
  ghost predicate Filed(pages: Disk) {
    forall id | id in pages :: pages[id].id == id
  }

  class DiskManager {
    var pages: Disk
    var rootPageId: PageId
    var nextPageId: PageId
    /** For each page written through WritePage, the log file as it was at that moment. */
    ghost var logAt: map<PageId, seq<Rec>>

    ghost predicate Valid()
      reads this
    {
      Filed(pages) && forall id: PageId :: id in pages <==> id < nextPageId
    }

    constructor ()
      ensures Valid() && pages == map[] && nextPageId == 0 && rootPageId == NO_PAGE
    {
      pages, nextPageId, rootPageId := map[], 0, NO_PAGE;
      logAt := map[];
    }

    /** A new id and an empty page, written to disk at once and outside any transaction. */
    method AllocatePage(kind: PageKind) returns (id: PageId)
      requires Valid() && nextPageId < NO_PAGE
      modifies this
      ensures Valid() && id == old(nextPageId) && id !in old(pages)
      ensures pages == old(pages)[id := NewPage(kind, id)]
      ensures nextPageId == old(nextPageId) + 1 && rootPageId == old(rootPageId)
    {
      id := nextPageId;
      nextPageId := nextPageId + 1;
      pages := pages[id := NewPage(kind, id)];
    }

    method WritePage(p: Page, ghost log: seq<Rec>)
      requires Valid() && p.id in pages
      modifies this
      ensures Valid() && pages == old(pages)[p.id := p] && logAt == old(logAt)[p.id := log]
      ensures nextPageId == old(nextPageId) && rootPageId == old(rootPageId)
    {
      pages := pages[p.id := p];
      logAt := logAt[p.id := log];
    }

    method SetRootPageId(id: PageId)
      modifies this
      ensures pages == old(pages) && nextPageId == old(nextPageId) && rootPageId == id
    {
      rootPageId := id;
    }
  }

  class WALManager {
    /** The records in the log file, and those still in memory. */
    var durable: seq<Rec>
    var buf: seq<Rec>
    var nextLsn: nat

    constructor (log: seq<Rec>)
      ensures durable == log && buf == []
      ensures nextLsn == if log == [] then 0 else log[|log| - 1].lsn + 1
    {
      durable, buf := log, [];
      nextLsn := if log == [] then 0 else log[|log| - 1].lsn + 1;
    }

    method Append(txn: TxnId, page: PageId, op: Operation, redo: Option<Page>) returns (lsn: nat)
      modifies this
      ensures lsn == old(nextLsn) && nextLsn == old(nextLsn) + 1
      ensures durable == old(durable) && buf == old(buf) + [Rec(lsn, txn, page, op, redo)]
    {
      lsn := nextLsn;
      nextLsn := nextLsn + 1;
      buf := buf + [Rec(lsn, txn, page, op, redo)];
    }

    method Flush()
      modifies this
      ensures durable == old(durable) + old(buf) && buf == [] && nextLsn == old(nextLsn)
    {
      if |buf| == 0 { return; }
      durable := durable + buf;
      buf := [];
    }
  }

  // ---- Effects of whole-pool operations ----

  predicate Flushable(f: Frame, committed: set<TxnId>) {
    f.dirty && f.txn in committed
  }

  function Cleaned(f: Frame): Frame { f.(dirty := false) }

  function FlushedDisk(disk: Disk, frames: Frames, committed: set<TxnId>): Disk {
    disk + map id | id in frames && Flushable(frames[id], committed) :: frames[id].page
  }

  function FlushedFrames(frames: Frames, committed: set<TxnId>): Frames {
    map id | id in frames :: if Flushable(frames[id], committed) then Cleaned(frames[id]) else frames[id]
  }

  function DiscardedFrames(disk: Disk, frames: Frames, txn: TxnId): Frames
    requires frames.Keys <= disk.Keys
  {
    map id | id in frames ::
      if Flushable(frames[id], {txn}) then Cleaned(frames[id]).(page := disk[id]) else frames[id]
  }

  /** FlushAll after every frame but those in `todo`. */
  ghost predicate FlushedSoFar(disk0: Disk, frames0: Frames, disk: Disk, frames: Frames, todo: set<PageId>, committed: set<TxnId>) {
    && frames.Keys == frames0.Keys && disk.Keys == disk0.Keys
    && (forall id | id in frames0 ::
          frames[id] == if id !in todo && Flushable(frames0[id], committed) then Cleaned(frames0[id]) else frames0[id])
    && (forall id | id in disk0 ::
          disk[id] == if id in frames0 && id !in todo && Flushable(frames0[id], committed) then frames0[id].page else disk0[id])
  }

  lemma FlushStep(disk0: Disk, frames0: Frames, disk: Disk, frames: Frames, todo: set<PageId>, committed: set<TxnId>, id: PageId)
    requires FlushedSoFar(disk0, frames0, disk, frames, todo, committed)
    requires id in todo && id in frames0 && id in disk0
    ensures id in frames && id in disk && frames[id] == frames0[id]
    ensures if Flushable(frames[id], committed)
            then FlushedSoFar(disk0, frames0, disk[id := frames[id].page], frames[id := Cleaned(frames[id])], todo - {id}, committed)
            else FlushedSoFar(disk0, frames0, disk, frames, todo - {id}, committed)
  {}

  lemma FlushStart(disk: Disk, frames: Frames, committed: set<TxnId>)
    ensures FlushedSoFar(disk, frames, disk, frames, frames.Keys, committed)
  {}

  /** A clean or written frame still holds its own page. */
  lemma FlushedIds(disk0: Disk, frames0: Frames, disk: Disk, frames: Frames, todo: set<PageId>, committed: set<TxnId>)
    requires FlushedSoFar(disk0, frames0, disk, frames, todo, committed)
    requires forall id | id in frames0 :: frames0[id].page.id == id
    ensures frames.Keys == frames0.Keys && disk.Keys == disk0.Keys && forall id | id in frames :: frames[id].page.id == id
  {}

  lemma FlushPins(frames: Frames, committed: set<TxnId>)
    ensures forall x: PageId :: PinOf(FlushedFrames(frames, committed), x) == PinOf(frames, x)
  {}

  lemma FlushDone(disk0: Disk, frames0: Frames, disk: Disk, frames: Frames, committed: set<TxnId>)
    requires FlushedSoFar(disk0, frames0, disk, frames, {}, committed) && frames0.Keys <= disk0.Keys
    ensures disk == FlushedDisk(disk0, frames0, committed) && frames == FlushedFrames(frames0, committed)
  {}

  /** DiscardTxn after every frame but those in `todo`, none of them pinned. */
  ghost predicate DiscardedSoFar(disk: Disk, frames0: Frames, frames: Frames, todo: set<PageId>, txn: TxnId) {
    && frames.Keys == frames0.Keys <= disk.Keys
    && (forall id | id in frames0 ::
          frames[id] == if id in todo then frames0[id] else DiscardedFrames(disk, frames0, txn)[id])
    && (forall id | id in frames0 && id !in todo && Flushable(frames0[id], {txn}) :: frames0[id].pin == 0)
  }

  lemma DiscardStep(disk: Disk, frames0: Frames, frames: Frames, todo: set<PageId>, txn: TxnId, id: PageId)
    requires DiscardedSoFar(disk, frames0, frames, todo, txn) && id in todo && id in frames0
    ensures frames[id] == frames0[id]
    ensures if Flushable(frames[id], {txn})
            then frames[id].pin == 0 ==>
                   DiscardedSoFar(disk, frames0, frames[id := Cleaned(frames[id]).(page := disk[id])], todo - {id}, txn)
            else DiscardedSoFar(disk, frames0, frames, todo - {id}, txn)
  {}

  lemma DiscardPins(disk: Disk, frames0: Frames, frames: Frames, todo: set<PageId>, txn: TxnId)
    requires DiscardedSoFar(disk, frames0, frames, todo, txn)
    ensures forall x: PageId :: PinOf(frames, x) == PinOf(frames0, x)
  {}

  // ---- The recency list ----

  /** The list names the frames, each once, from the latest fetch to the earliest. */
  ghost predicate Recency(lru: seq<PageId>, ids: set<PageId>, fetched: map<PageId, nat>) {
    && (forall id: PageId :: id in lru <==> id in ids)
    && ids <= fetched.Keys
    && forall i, j :: 0 <= i < j < |lru| ==> fetched[lru[i]] > fetched[lru[j]]
  }

  function Without(lru: seq<PageId>, i: nat): seq<PageId>
    requires i < |lru|
  {
    lru[..i] + lru[i + 1..]
  }

  lemma WithoutRecency(lru: seq<PageId>, ids: set<PageId>, fetched: map<PageId, nat>, i: nat)
    requires Recency(lru, ids, fetched) && i < |lru|
    ensures Recency(Without(lru, i), ids - {lru[i]}, fetched)
  {
    var w := Without(lru, i);
    forall j | 0 <= j < |w| ensures w[j] == lru[if j < i then j else j + 1] && w[j] != lru[i] {
      assert fetched[lru[i]] != fetched[lru[if j < i then j else j + 1]];
    }
    forall id: PageId | id in ids && id != lru[i] ensures id in w {
      var j :| 0 <= j < |lru| && lru[j] == id;
      assert w[if j < i then j else j - 1] == id;
    }
    forall id: PageId | id in w ensures id in lru { }
  }

  lemma FrontRecency(lru: seq<PageId>, ids: set<PageId>, fetched: map<PageId, nat>, id: PageId, clock: nat)
    requires Recency(lru, ids, fetched) && id !in ids
    requires forall x :: x in ids ==> fetched[x] < clock
    ensures Recency([id] + lru, ids + {id}, fetched[id := clock])
  {
    forall x: PageId ensures x in [id] + lru <==> x in ids + {id} {}
  }

  ghost predicate FramesOk(pages: Disk, frames: Frames, fetched: map<PageId, nat>, clock: nat, maxSize: nat) {
    && |frames.Keys| <= maxSize
    && (forall id :: id in frames ==> id in fetched && fetched[id] <= clock)
    && (forall id :: id in frames ==> id in pages && frames[id].page.id == id)
  }

  /** The invariant of the pool's own fields: frames, recency list and fetch times. */
  ghost predicate PoolOk(pages: Disk, frames: Frames, lru: seq<PageId>, fetched: map<PageId, nat>, clock: nat, maxSize: nat) {
    Recency(lru, frames.Keys, fetched) && FramesOk(pages, frames, fetched, clock, maxSize)
  }

  /** A pin count never falls below zero; a clean unpin keeps the mark of an earlier writer. */
  function Unpinned(f: Frame, isDirty: bool, txn: TxnId): Frame {
    Frame(f.page, if f.pin > 0 then f.pin - 1 else 0, f.dirty || isDirty, if isDirty then txn else f.txn)
  }

  function Pinned(f: Frame): Frame { f.(pin := f.pin + 1) }

  lemma UpdatedOk(pages: Disk, frames: Frames, fetched: map<PageId, nat>, clock: nat, maxSize: nat, f: Frame)
    requires FramesOk(pages, frames, fetched, clock, maxSize) && f.page.id in pages
    requires f.page.id in frames || |frames.Keys| < maxSize
    ensures var id := f.page.id; FramesOk(pages, frames[id := f], fetched[id := clock + 1], clock + 1, maxSize)
  {
    assert frames[f.page.id := f].Keys == frames.Keys + {f.page.id};
  }

  lemma PinnedRecency(lru: seq<PageId>, ids: set<PageId>, fetched: map<PageId, nat>, clock: nat, i: nat)
    requires Recency(lru, ids, fetched) && i < |lru| && forall x :: x in ids ==> fetched[x] < clock
    ensures Recency([lru[i]] + Without(lru, i), ids, fetched[lru[i] := clock])
  {
    assert lru[i] in lru;
    WithoutRecency(lru, ids, fetched, i);
    FrontRecency(Without(lru, i), ids - {lru[i]}, fetched, lru[i], clock);
    assert (ids - {lru[i]}) + {lru[i]} == ids;
  }

  lemma PinnedOk(pages: Disk, frames: Frames, lru: seq<PageId>, fetched: map<PageId, nat>, clock: nat, maxSize: nat, i: nat)
    requires PoolOk(pages, frames, lru, fetched, clock, maxSize) && i < |lru|
    ensures lru[i] in frames
    ensures var id := lru[i];
            PoolOk(pages, frames[id := Pinned(frames[id])], [id] + Without(lru, i), fetched[id := clock + 1], clock + 1, maxSize)
  {
    var id := lru[i];
    assert id in lru;
    PinnedRecency(lru, frames.Keys, fetched, clock + 1, i);
    UpdatedOk(pages, frames, fetched, clock, maxSize, Pinned(frames[id]));
    assert frames[id := Pinned(frames[id])].Keys == frames.Keys;
  }

  lemma AddedOk(pages: Disk, frames: Frames, lru: seq<PageId>, fetched: map<PageId, nat>, clock: nat, maxSize: nat, f: Frame)
    requires PoolOk(pages, frames, lru, fetched, clock, maxSize) && |frames.Keys| < maxSize
    requires f.page.id !in frames && f.page.id in pages
    ensures var id := f.page.id;
            PoolOk(pages, frames[id := f], [id] + lru, fetched[id := clock + 1], clock + 1, maxSize)
  {
    var id := f.page.id;
    FrontRecency(lru, frames.Keys, fetched, id, clock + 1);
    UpdatedOk(pages, frames, fetched, clock, maxSize, f);
    assert frames[id := f].Keys == frames.Keys + {id};
  }

  lemma RemovedOk(pages: Disk, frames: Frames, lru: seq<PageId>, fetched: map<PageId, nat>, clock: nat, maxSize: nat, i: nat)
    requires PoolOk(pages, frames, lru, fetched, clock, maxSize) && i < |lru|
    ensures lru[i] in frames
    ensures PoolOk(pages, frames - {lru[i]}, Without(lru, i), fetched, clock, maxSize)
    ensures |(frames - {lru[i]}).Keys| == |frames.Keys| - 1
  {
    assert lru[i] in lru;
    WithoutRecency(lru, frames.Keys, fetched, i);
    assert (frames - {lru[i]}).Keys == frames.Keys - {lru[i]};
  }

  lemma ReframedOk(pages: Disk, pages': Disk, frames: Frames, frames': Frames, lru: seq<PageId>, fetched: map<PageId, nat>, clock: nat, maxSize: nat)
    requires PoolOk(pages, frames, lru, fetched, clock, maxSize)
    requires frames'.Keys == frames.Keys && pages.Keys <= pages'.Keys
    requires forall id :: id in frames' ==> frames'[id].page.id == id
    ensures PoolOk(pages', frames', lru, fetched, clock, maxSize)
  {}

  /**
    Every clean frame equals its page on disk, except the frames `held`: those are pinned by
    someone who has started to change them and will unpin them as dirty.
   */
  ghost predicate CoherentOk(pages: Disk, frames: Frames, held: set<PageId>) {
    forall id | id in frames && !frames[id].dirty && (id !in held || frames[id].pin == 0) ::
      id in pages && frames[id].page == pages[id]
  }

  /** Two states of the pool that readers, holders and writers cannot tell apart, pins on `id` aside. */
  ghost predicate SameUse(pages: Disk, frames: Frames, frames': Frames, id: PageId, pins: nat) {
    && (forall x: PageId {:trigger PinOf(frames', x)} :: PinOf(frames', x) == PinOf(frames, x) + if x == id then pins else 0)
    && (forall x: PageId {:trigger DirtyOf(frames', x)} :: DirtyOf(frames', x) == DirtyOf(frames, x))
    && (forall held {:trigger CoherentOk(pages, frames', held)} ::
          CoherentOk(pages, frames, held) ==>
            CoherentOk(pages, frames', held) && ViewOf(pages, frames') == ViewOf(pages, frames))
  }

  lemma RemovedUse(pages: Disk, frames: Frames, victim: PageId, id: PageId)
    requires victim in frames && Evictable(frames[victim])
    ensures SameUse(pages, frames, frames - {victim}, id, 0)
  {}

  lemma PinnedUse(pages: Disk, frames: Frames, id: PageId)
    requires id in frames
    ensures SameUse(pages, frames, frames[id := Pinned(frames[id])], id, 1)
  {
    assert ViewOf(pages, frames[id := Pinned(frames[id])]) == ViewOf(pages, frames);
  }

  lemma AddedUse(pages: Disk, frames: Frames, id: PageId)
    requires id !in frames && id in pages
    ensures SameUse(pages, frames, frames[id := Frame(pages[id], 1, false, 0)], id, 1)
  {
    assert ViewOf(pages, frames[id := Frame(pages[id], 1, false, 0)]) == ViewOf(pages, frames);
  }

  lemma UseTransitive(pages: Disk, f: Frames, g: Frames, h: Frames, id: PageId)
    requires SameUse(pages, f, g, id, 0) && SameUse(pages, g, h, id, 1)
    ensures SameUse(pages, f, h, id, 1)
  {
    forall held | CoherentOk(pages, f, held) ensures CoherentOk(pages, h, held) && ViewOf(pages, h) == ViewOf(pages, f) {
      assert CoherentOk(pages, g, held);
    }
  }

  /** The pins one by one, and a bound on how many there have ever been at once. */
  ghost predicate PinsOk(frames: Frames, pins: multiset<PageId>, peak: nat) {
    (forall x: PageId :: pins[x] == PinOf(frames, x)) && |pins| <= peak
  }

  lemma PinsSame(frames: Frames, frames': Frames, pins: multiset<PageId>, peak: nat)
    requires PinsOk(frames, pins, peak) && forall x: PageId :: PinOf(frames', x) == PinOf(frames, x)
    ensures PinsOk(frames', pins, peak)
  {}

  lemma PinsMore(frames: Frames, frames': Frames, pins: multiset<PageId>, peak: nat, id: PageId)
    requires PinsOk(frames, pins, peak)
    requires forall x: PageId :: PinOf(frames', x) == PinOf(frames, x) + if x == id then 1 else 0
    ensures var pins' := pins + multiset{id}; PinsOk(frames', pins', if peak < |pins'| then |pins'| else peak)
  {}

  lemma PinsFewer(frames: Frames, frames': Frames, pins: multiset<PageId>, peak: nat, id: PageId)
    requires PinsOk(frames, pins, peak) && PinOf(frames, id) > 0
    requires forall x: PageId :: PinOf(frames', x) == PinOf(frames, x) - if x == id then 1 else 0
    ensures PinsOk(frames', pins - multiset{id}, peak) && |pins - multiset{id}| == |pins| - 1
  {
    assert pins[id] > 0;
    assert pins - multiset{id} + multiset{id} == pins;
  }

  datatype FetchError = Fetched | NoEvictableFrame | NoSuchPage

  class BufferPool {
    const disk: DiskManager
    const wm: WALManager
    const maxSize: nat
    var frames: Frames
    /** Page ids, most recently fetched first. */
    var lru: seq<PageId>
    /** When each frame was last fetched. */
    ghost var clock: nat
    ghost var fetched: map<PageId, nat>
    /** All pins, and the most there have been at once. */
    ghost var pins: multiset<PageId>
    ghost var peak: nat

    ghost predicate Valid()
      reads this, disk
    {
      disk.Valid() && PoolOk(disk.pages, frames, lru, fetched, clock, maxSize) && PinsOk(frames, pins, peak)
    }

    /** The number of pins has changed by `d`, and was at no time more than `k` above its start. */
    twostate predicate Counted(d: int, k: nat)
      reads this
    {
      && |pins| == old(|pins|) + d
      && peak <= if old(peak) > old(|pins|) + k then old(peak) else old(|pins|) + k
    }

    ghost predicate Coherent(held: set<PageId>)
      reads this, disk
    {
      CoherentOk(disk.pages, frames, held)
    }

    ghost function View(): Disk
      reads this, disk
    {
      ViewOf(disk.pages, frames)
    }

    constructor (disk: DiskManager, wm: WALManager, maxSize: nat)
      requires disk.Valid()
      ensures this.disk == disk && this.wm == wm && this.maxSize == maxSize
      ensures Valid() && Coherent({}) && frames == map[]
    {
      this.disk, this.wm, this.maxSize := disk, wm, maxSize;
      frames, lru, clock, fetched := map[], [], 0, map[];
      pins, peak := multiset{}, 0;
    }

    lemma OldestEvictable(i: nat)
      requires Valid() && i < |lru| && forall j | i < j < |lru| :: lru[j] in frames && !Evictable(frames[lru[j]])
      ensures lru[i] in frames
      ensures forall id | id in frames && Evictable(frames[id]) :: id in fetched && fetched[lru[i]] <= fetched[id]
    {
      assert lru[i] in lru;
      forall id | id in frames && Evictable(frames[id]) ensures id in fetched && fetched[lru[i]] <= fetched[id] {
        assert id in lru;
        var j :| 0 <= j < |lru| && lru[j] == id;
      }
    }

    lemma ListedIsFrame()
      requires Valid()
      ensures forall i | 0 <= i < |lru| :: lru[i] in frames
      ensures forall id | id in frames :: id in lru
    {
      forall i | 0 <= i < |lru| ensures lru[i] in frames { assert lru[i] in lru; }
    }

    /** Removes the least recently fetched frame that is neither pinned nor dirty. */
    method Evict() returns (ok: bool, ghost victim: PageId)
      requires Valid()
      modifies this
      ensures pins == old(pins) && peak == old(peak)
      ensures Valid() && clock == old(clock) && fetched == old(fetched)
      ensures !ok ==> frames == old(frames) && lru == old(lru) && forall id | id in frames :: !Evictable(frames[id])
      ensures ok ==>
                && victim in old(frames) && Evictable(old(frames)[victim])
                && frames == old(frames) - {victim} && |frames.Keys| == |old(frames).Keys| - 1
                && forall id | id in old(frames) && Evictable(old(frames)[id]) :: fetched[victim] <= fetched[id]
    {
      hide PoolOk, Recency;
      victim := 0;
      var i := |lru|;
      ListedIsFrame();
      while i > 0
        invariant 0 <= i <= |lru| && forall j | i <= j < |lru| :: !Evictable(frames[lru[j]])
      {
        i := i - 1;
        var id := lru[i];
        if Evictable(frames[id]) {
          OldestEvictable(i);
          EvictFrame(i);
          return true, id;
        }
      }
      forall id | id in frames ensures !Evictable(frames[id]) {
        var j :| 0 <= j < |lru| && lru[j] == id;
      }
      return false, victim;
    }

    method EvictFrame(i: nat)
      requires Valid() && i < |lru| && PinOf(frames, lru[i]) == 0
      modifies this
      ensures pins == old(pins) && peak == old(peak)
      ensures Valid() && clock == old(clock) && fetched == old(fetched)
      ensures frames == old(frames) - {old(lru)[i]} && lru == Without(old(lru), i)
      ensures |frames.Keys| == |old(frames).Keys| - 1
    {
      hide PoolOk, Filed, PinsOk;
      RemovedOk(disk.pages, frames, lru, fetched, clock, maxSize, i);
      PinsSame(frames, frames - {lru[i]}, pins, peak);
      frames := frames - {lru[i]};
      lru := lru[..i] + lru[i + 1..];
    }

    /** The page is in the pool and pinned once more; what readers see has not changed. */
    method FetchPage(id: PageId) returns (e: FetchError)
      requires Valid()
      modifies this
      ensures Valid()
      ensures e == Fetched ==> id in frames && SameUse(disk.pages, old(frames), frames, id, 1)
      ensures e != Fetched ==> SameUse(disk.pages, old(frames), frames, id, 0)
      ensures e == NoEvictableFrame ==>
                frames == old(frames) && |frames.Keys| == maxSize && forall x | x in frames :: !Evictable(frames[x])
      ensures e == NoEvictableFrame <==> |Stuck(old(frames)) + {id}| > maxSize
      ensures e == NoSuchPage ==> id !in disk.pages
      ensures Counted(if e == Fetched then 1 else 0, 1)
      ensures e == Fetched ==> lru != [] && lru[0] == id && fetched == old(fetched)[id := clock] && clock == old(clock) + 1
    {
      hide Stuck, Recency, Filed;
      StuckBound(frames, id, maxSize);
      if id in frames {
        PinnedUse(disk.pages, frames, id);
        PinFrame(id);
        return Fetched;
      }
      ghost var before := frames;
      if |frames.Keys| >= maxSize {
        var ok, victim := Evict();
        if !ok { return NoEvictableFrame; }
        RemovedUse(disk.pages, before, victim, id);
      }
      assert SameUse(disk.pages, before, frames, id, 0);
      if id !in disk.pages { return NoSuchPage; }
      ghost var between := frames;
      AddedUse(disk.pages, frames, id);
      AddFrame(id);
      UseTransitive(disk.pages, before, between, frames, id);
      return Fetched;
    }

    /** A hit: one more pin, and MoveToFront. */
    method PinFrame(id: PageId)
      requires Valid() && id in frames
      modifies this
      ensures Valid() && |lru| > 0 && lru[0] == id && fetched == old(fetched)[id := clock] && clock == old(clock) + 1
      ensures frames == old(frames)[id := Pinned(old(frames)[id])] && Counted(1, 1)
    {
      hide PoolOk, Filed, PinsOk;
      ListedIsFrame();
      var i :| 0 <= i < |lru| && lru[i] == id;
      PinnedOk(disk.pages, frames, lru, fetched, clock, maxSize, i);
      frames := frames[id := Pinned(frames[id])];
      CountPin(old(frames), id);
      lru := [id] + (lru[..i] + lru[i + 1..]);
      clock := clock + 1;
      fetched := fetched[id := clock];
    }

    /** A miss, with room: the page is read from disk. */
    method AddFrame(id: PageId)
      requires Valid() && id !in frames && id in disk.pages && |frames.Keys| < maxSize
      modifies this
      ensures Valid() && lru == [id] + old(lru) && fetched == old(fetched)[id := clock] && clock == old(clock) + 1
      ensures frames == old(frames)[id := Frame(disk.pages[id], 1, false, 0)] && Counted(1, 1)
    {
      hide PoolOk, PinsOk;
      AddedOk(disk.pages, frames, lru, fetched, clock, maxSize, Frame(disk.pages[id], 1, false, 0));
      frames := frames[id := Frame(disk.pages[id], 1, false, 0)];
      CountPin(old(frames), id);
      lru := [id] + lru;
      clock := clock + 1;
      fetched := fetched[id := clock];
    }

    ghost method CountPin(before: Frames, id: PageId)
      requires PinsOk(before, pins, peak)
      requires forall x: PageId :: PinOf(frames, x) == PinOf(before, x) + if x == id then 1 else 0
      modifies this`pins, this`peak
      ensures PinsOk(frames, pins, peak) && Counted(1, 1)
    {
      PinsMore(before, frames, pins, peak, id);
      pins := pins + multiset{id};
      if peak < |pins| { peak := |pins|; }
    }

    /** Announces the end of a use; `isDirty` records the writer. */
    method UnpinPage(id: PageId, isDirty: bool, txn: TxnId)
      requires Valid()
      modifies this`frames, this`pins
      ensures Valid() && (PinOf(old(frames), id) > 0 ==> Counted(-1, 0))
      ensures frames == if id in old(frames) then old(frames)[id := Unpinned(old(frames)[id], isDirty, txn)] else old(frames)
    {
      hide Recency, Filed;
      if id !in frames { return; }
      var f := frames[id];
      if f.pin > 0 { f := f.(pin := f.pin - 1); }
      if isDirty { f := f.(dirty := true, txn := txn); }
      ReframedOk(disk.pages, disk.pages, frames, frames[id := f], lru, fetched, clock, maxSize);
      frames := frames[id := f];
      UncountPin(old(frames), id);
    }

    ghost method UncountPin(before: Frames, id: PageId)
      requires PinsOk(before, pins, peak)
      requires forall x: PageId :: PinOf(frames, x) == PinOf(before, x) - if x == id && PinOf(before, x) > 0 then 1 else 0
      modifies this`pins
      ensures PinsOk(frames, pins, peak) && (PinOf(before, id) > 0 ==> Counted(-1, 0))
    {
      if PinOf(before, id) > 0 {
        PinsFewer(before, frames, pins, peak, id);
        pins := pins - multiset{id};
      } else {
        PinsSame(before, frames, pins, peak);
      }
    }

    /** The holder of a pinned page changes it in place. */
    method Mutate(p: Page)
      requires Valid() && p.id in frames && frames[p.id].pin > 0
      modifies this`frames
      ensures Valid() && frames == old(frames)[p.id := old(frames)[p.id].(page := p)]
    {
      frames := frames[p.id := frames[p.id].(page := p)];
      assert frames.Keys == old(frames).Keys;
      PinsSame(old(frames), frames, pins, peak);
    }

    /** Writes the log, then every dirty page of the given transactions, and no other page. */
    method FlushAll(committed: set<TxnId>)
      requires Valid()
      modifies this`frames, disk, wm
      ensures Valid()
      ensures wm.durable == old(wm.durable) + old(wm.buf) && wm.buf == [] && wm.nextLsn == old(wm.nextLsn)
      ensures disk.pages == FlushedDisk(old(disk.pages), old(frames), committed)
      ensures frames == FlushedFrames(old(frames), committed)
      ensures forall id | id in old(frames) && Flushable(old(frames)[id], committed) :: id in disk.logAt && disk.logAt[id] == wm.durable
      ensures disk.rootPageId == old(disk.rootPageId) && disk.nextPageId == old(disk.nextPageId)
    {
      hide Recency, FlushedSoFar, FlushedDisk, FlushedFrames, Filed;
      wm.Flush();
      var todo := frames.Keys;
      ghost var pages0, frames0 := disk.pages, frames;
      FlushStart(pages0, frames0, committed);
      while todo != {}
        invariant todo <= frames0.Keys && disk.Valid()
        invariant FlushedSoFar(pages0, frames0, disk.pages, frames, todo, committed)
        invariant forall id | id in frames0 && id !in todo && Flushable(frames0[id], committed) ::
                    id in disk.logAt && disk.logAt[id] == wm.durable
        invariant wm.durable == old(wm.durable) + old(wm.buf) && wm.buf == [] && wm.nextLsn == old(wm.nextLsn)
        invariant disk.rootPageId == old(disk.rootPageId) && disk.nextPageId == old(disk.nextPageId)
        decreases todo
      {
        var id :| id in todo;
        FlushStep(pages0, frames0, disk.pages, frames, todo, committed, id);
        FlushedIds(pages0, frames0, disk.pages, frames, todo, committed);
        if frames[id].dirty && frames[id].txn in committed {
          disk.WritePage(frames[id].page, wm.durable);
          frames := frames[id := Cleaned(frames[id])];
        }
        todo := todo - {id};
      }
      FlushedIds(pages0, frames0, disk.pages, frames, todo, committed);
      FlushDone(pages0, frames0, disk.pages, frames, committed);
      FlushPins(frames0, committed);
      PinsSame(frames0, frames, pins, peak);
      ReframedOk(pages0, disk.pages, frames0, frames, lru, fetched, clock, maxSize);
    }

    /**
      Reloads every frame the transaction dirtied. A pinned one stops the loop with an error,
      which leaves the frames visited before it already reloaded.
     */
    method DiscardTxn(txn: TxnId) returns (s: Status)
      requires Valid()
      modifies this`frames
      ensures Valid() && frames.Keys == old(frames).Keys
      ensures s == Ok <==> forall id | id in old(frames) && Flushable(old(frames)[id], {txn}) :: old(frames)[id].pin == 0
      ensures s == Ok ==> frames == DiscardedFrames(disk.pages, old(frames), txn)
      ensures forall id | id in frames ::
                frames[id] == old(frames)[id] || frames[id] == DiscardedFrames(disk.pages, old(frames), txn)[id]
    {
      hide Recency, PinsOk;
      var todo := frames.Keys;
      ghost var frames0 := frames;
      while todo != {}
        invariant todo <= frames0.Keys
        invariant DiscardedSoFar(disk.pages, frames0, frames, todo, txn)
        decreases todo
      {
        var id :| id in todo;
        DiscardStep(disk.pages, frames0, frames, todo, txn, id);
        var f := frames[id];
        if f.dirty && f.txn == txn {
          if f.pin > 0 {
            DiscardPins(disk.pages, frames0, frames, todo, txn);
            PinsSame(frames0, frames, pins, peak);
            ReframedOk(disk.pages, disk.pages, frames0, frames, lru, fetched, clock, maxSize);
            return Failed;
          }
          frames := frames[id := Cleaned(f).(page := disk.pages[id])];
        }
        todo := todo - {id};
      }
      DiscardPins(disk.pages, frames0, frames, todo, txn);
      PinsSame(frames0, frames, pins, peak);
      ReframedOk(disk.pages, disk.pages, frames0, frames, lru, fetched, clock, maxSize);
      return Ok;
    }
  }
}
