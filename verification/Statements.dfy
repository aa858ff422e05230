/**
  The statements of the tree as runs of the machine, and what becomes of the tree when they are
  committed, rolled back or lost in a crash. Pages come back; the root pointer does not.
 */
module Statements {
  import opened Types
  import opened Pages
  import opened Storage
  import opened Machine
  import opened MachineProofs
  import opened Durability
  import opened Hypotheses
  import opened PagedTree

  /** The machine is in the state of page file, pool and log; which clean pages are cached may differ. */
  ghost predicate Mirrors(s: Sys, p: Pool) {
    && s.up && s.disk == p.pages && s.log == p.durable && s.buf == p.buf && s.nextLsn == p.nextLsn && s.root == p.root
    && SamePins(p.frames, s.frames) && SameDirt(p.frames, s.frames) && ViewOf(s.disk, s.frames) == Seen(p)
    && Framed(s.disk, s.frames) && Framed(p.pages, p.frames)
  }

  /** Frames hold pages of the file, each its own. */
  ghost predicate Framed(disk: Disk, frames: Frames) {
    Filed(disk) && forall id | id in frames :: id in disk && frames[id].page.id == id
  }

  // ---- New pages ----

  /** The same transactions, log and versions of old pages. */
  ghost predicate SamePast(s: Sys, e: Sys) {
    && e.up == s.up && e.phase == s.phase && e.log == s.log
    && forall id | id in s.cv && id in s.disk :: id in e.cv && e.cv[id] == s.cv[id]
  }

  ghost predicate Extends(pages: Disk, disk: Disk) {
    forall id | id in disk :: id in pages && pages[id] == disk[id]
  }

  lemma AllocateStep(s: Sys, p: Page)
    requires s.up && p.id !in s.disk
    ensures Enabled(s, Allocate(p))
    ensures var e := Apply(s, Allocate(p));
            e == s.(disk := s.disk[p.id := p], born := e.born, cv := e.cv) && SamePast(s, e)
  {}

  lemma {:induction false} AllocateAll(s: Sys, pages: Disk) returns (run: seq<Step>)
    requires s.up && Filed(pages) && Extends(pages, s.disk)
    ensures Possible(s, run) && SamePast(s, After(s, run))
    ensures var e := After(s, run); e == s.(disk := pages, born := e.born, cv := e.cv)
    decreases |pages.Keys - s.disk.Keys|
  {
    hide Enabled, Apply, SamePast, Extends, Filed;
    if pages.Keys <= s.disk.Keys {
      run := [];
      NothingNew(s, pages);
    } else {
      var id :| id in pages && id !in s.disk;
      OwnId(pages, id);
      AllocateStep(s, pages[id]);
      var a := Apply(s, Allocate(pages[id]));
      OneStep(s, Allocate(pages[id]));
      FewerNew(s.disk, pages, id);
      var rest := AllocateAll(a, pages);
      AfterJoin(s, [Allocate(pages[id])], rest);
      run := [Allocate(pages[id])] + rest;
      PastJoin(s, a, After(a, rest));
    }
  }

  lemma OwnId(pages: Disk, id: PageId)
    requires Filed(pages) && id in pages
    ensures pages[id].id == id
  {}

  lemma NothingNew(s: Sys, pages: Disk)
    requires Extends(pages, s.disk) && pages.Keys <= s.disk.Keys
    ensures s.disk == pages && SamePast(s, s)
  {}

  lemma PastJoin(s: Sys, a: Sys, e: Sys)
    requires SamePast(s, a) && SamePast(a, e) && s.disk.Keys <= a.disk.Keys
    ensures SamePast(s, e)
  {}

  lemma FewerNew(disk: Disk, pages: Disk, id: PageId)
    requires id in pages && id !in disk && Extends(pages, disk)
    ensures Extends(pages, disk[id := pages[id]])
    ensures |pages.Keys - disk[id := pages[id]].Keys| < |pages.Keys - disk.Keys|
  {
    assert pages.Keys - disk[id := pages[id]].Keys == (pages.Keys - disk.Keys) - {id};
    assert id in pages.Keys - disk.Keys;
  }

  // ---- One record ----

  lemma FetchStep(s: Sys, id: PageId)
    requires s.up && id in s.disk && Framed(s.disk, s.frames)
    ensures Enabled(s, Fetch(id))
    ensures var e := Apply(s, Fetch(id));
            && e == s.(frames := e.frames) && PinsMoved(s.frames, e.frames, id, 1) && SameDirt(s.frames, e.frames)
            && Framed(e.disk, e.frames) && ViewOf(e.disk, e.frames) == ViewOf(s.disk, s.frames)
  {}

  lemma WriteStep(s: Sys, r: Rec)
    requires s.up && InPhase(s, r.txn, {Active}) && IsWrite(r) && r.page in s.disk && Framed(s.disk, s.frames)
    requires r.lsn == s.nextLsn && Exclusive(s, r.txn, r.page) && PinOf(s.frames, r.page) > 0
    ensures Enabled(s, Write(r.txn, r.redo.value, r.op))
    ensures var e := Apply(s, Write(r.txn, r.redo.value, r.op));
            && e == s.(buf := s.buf + [r], nextLsn := s.nextLsn + 1, frames := e.frames, ws := e.ws)
            && PinsMoved(s.frames, e.frames, r.page, -1) && Framed(e.disk, e.frames)
            && ViewOf(e.disk, e.frames) == ViewOf(s.disk, s.frames)[r.page := r.redo.value.(lsn := r.lsn)]
            && DirtyOf(e.frames, r.page) == Some(r.txn)
            && forall x :: x != r.page ==> DirtyOf(e.frames, x) == DirtyOf(s.frames, x)
  {}

  /** A fetch and the write that a record tells of. */
  lemma WriteRecord(s: Sys, r: Rec)
    requires s.up && InPhase(s, r.txn, {Active}) && IsWrite(r) && r.page in s.disk && Framed(s.disk, s.frames)
    requires r.lsn == s.nextLsn && Exclusive(s, r.txn, r.page)
    ensures var run := [Fetch(r.page)] + [Write(r.txn, r.redo.value, r.op)];
            && Possible(s, run)
            && var e := After(s, run);
               && e == s.(buf := s.buf + [r], nextLsn := s.nextLsn + 1, frames := e.frames, ws := e.ws)
               && SamePins(s.frames, e.frames) && Framed(e.disk, e.frames)
               && ViewOf(e.disk, e.frames) == ViewOf(s.disk, s.frames)[r.page := r.redo.value.(lsn := r.lsn)]
               && DirtyOf(e.frames, r.page) == Some(r.txn)
               && forall x :: x != r.page ==> DirtyOf(e.frames, x) == DirtyOf(s.frames, x)
  {
    hide Enabled, Apply, Framed, ViewOf;
    FetchStep(s, r.page);
    var a := Apply(s, Fetch(r.page));
    assert DirtyOf(a.frames, r.page) == DirtyOf(s.frames, r.page);
    assert PinOf(a.frames, r.page) == PinOf(s.frames, r.page) + 1;
    WriteStep(a, r);
    TwoSteps(s, Fetch(r.page), Write(r.txn, r.redo.value, r.op));
  }

  // ---- All records of a statement ----

  /** The records of a statement. */
  function RecordsOf(p: Pool, q: Pool): seq<Rec> {
    if |p.buf| <= |q.buf| then q.buf[|p.buf|..] else []
  }

  /** No other transaction's change is waiting in a frame that the records are about. */
  ghost predicate OwnDirt(frames: Frames, recs: seq<Rec>, t: TxnId) {
    forall k | 0 <= k < |recs| :: DirtyOf(frames, recs[k].page) in {None, Some(t)}
  }

  /** The machine after the first k records of the statement; the new pages `fresh` have no record yet. */
  ghost predicate Midway(s: Sys, p: Pool, q: Pool, t: TxnId, k: nat, news: set<PageId>) {
    var recs := RecordsOf(p, q);
    && k <= |recs| && s.up && InPhase(s, t, {Active}) && s.disk == q.pages && s.buf == p.buf + recs[..k] && s.nextLsn == p.nextLsn + k
    && SamePins(p.frames, s.frames) && Framed(s.disk, s.frames) && OwnDirt(s.frames, recs, t)
    && Logged(Start(p, t), s.buf, ViewOf(s.disk, s.frames), s.frames, news)
    && forall id | id in news :: NoneAbout(recs[..k], id)
  }

  ghost predicate Enlisted(p: Pool, q: Pool, t: TxnId) {
    forall k | 0 <= k < |RecordsOf(p, q)| ::
      RecordOk(Start(p, t), RecordsOf(p, q)[k], k) && RecordsOf(p, q)[k].page in q.pages
  }

  lemma MidwayStep(s: Sys, e: Sys, p: Pool, q: Pool, t: TxnId, k: nat, news: set<PageId>)
    requires Midway(s, p, q, t, k, news) && k < |RecordsOf(p, q)| && Enlisted(p, q, t)
    requires var r := RecordsOf(p, q)[k];
             && e == s.(buf := s.buf + [r], nextLsn := s.nextLsn + 1, frames := e.frames, ws := e.ws)
             && SamePins(s.frames, e.frames) && Framed(e.disk, e.frames)
             && ViewOf(e.disk, e.frames) == ViewOf(s.disk, s.frames)[r.page := r.redo.value.(lsn := r.lsn)]
             && DirtyOf(e.frames, r.page) == Some(r.txn)
             && forall x :: x != r.page ==> DirtyOf(e.frames, x) == DirtyOf(s.frames, x)
    ensures Midway(e, p, q, t, k + 1, news - {RecordsOf(p, q)[k].page})
  {
    hide Logged, ViewOf, Framed;
    var recs := RecordsOf(p, q);
    var r := recs[k];
    assert recs[..k + 1] == recs[..k] + [r];
    assert p.buf + recs[..k + 1] == s.buf + [r];
    InView(s, r.page);
    FinishLogged(Start(p, t), s.buf, ViewOf(s.disk, s.frames), s.frames, news, r, ViewOf(e.disk, e.frames), e.frames);
    StillOwn(s.frames, e.frames, recs, t, r.page);
    forall id | id in news - {r.page} ensures NoneAbout(recs[..k + 1], id) { assert NoneAbout(recs[..k], id); }
  }

  lemma InView(s: Sys, id: PageId)
    ensures id in s.disk <==> id in ViewOf(s.disk, s.frames)
    ensures ViewOf(s.disk, s.frames).Keys == s.disk.Keys
  {}

  lemma StillOwn(f: Frames, g: Frames, recs: seq<Rec>, t: TxnId, id: PageId)
    requires OwnDirt(f, recs, t) && DirtyOf(g, id) == Some(t) && forall x :: x != id ==> DirtyOf(g, x) == DirtyOf(f, x)
    ensures OwnDirt(g, recs, t)
  {
    forall k | 0 <= k < |recs| ensures DirtyOf(g, recs[k].page) in {None, Some(t)} {
      assert DirtyOf(f, recs[k].page) in {None, Some(t)};
    }
  }

  lemma MidwayRecord(s: Sys, p: Pool, q: Pool, t: TxnId, k: nat, news: set<PageId>)
    requires Midway(s, p, q, t, k, news) && k < |RecordsOf(p, q)| && Enlisted(p, q, t)
    ensures var r := RecordsOf(p, q)[k];
            && InPhase(s, r.txn, {Active}) && IsWrite(r) && r.page in s.disk && r.lsn == s.nextLsn && Exclusive(s, r.txn, r.page)
  {
    assert RecordOk(Start(p, t), RecordsOf(p, q)[k], k);
    assert DirtyOf(s.frames, RecordsOf(p, q)[k].page) in {None, Some(t)};
  }

  lemma {:induction false} WriteAll(s: Sys, p: Pool, q: Pool, t: TxnId, k: nat, news: set<PageId>) returns (run: seq<Step>, left: set<PageId>)
    requires Midway(s, p, q, t, k, news) && Enlisted(p, q, t)
    ensures Possible(s, run) && left <= news && Midway(After(s, run), p, q, t, |RecordsOf(p, q)|, left)
    ensures var e := After(s, run); e == s.(buf := e.buf, nextLsn := e.nextLsn, frames := e.frames, ws := e.ws)
    decreases |RecordsOf(p, q)| - k
  {
    hide Midway, Enlisted, Enabled, Apply, Exclusive, InPhase, Framed, ViewOf, SamePins, IsWrite, RecordsOf;
    if k == |RecordsOf(p, q)| {
      run, left := [], news;
    } else {
      MidwayBounds(s, p, q, t, k, news);
      var r := RecordsOf(p, q)[k];
      MidwayRecord(s, p, q, t, k, news);
      WriteRecord(s, r);
      var one := [Fetch(r.page)] + [Write(r.txn, r.redo.value, r.op)];
      var a := After(s, one);
      MidwayStep(s, a, p, q, t, k, news);
      var rest;
      rest, left := WriteAll(a, p, q, t, k + 1, news - {r.page});
      AfterJoin(s, one, rest);
      run := one + rest;
    }
  }

  lemma MidwayBounds(s: Sys, p: Pool, q: Pool, t: TxnId, k: nat, news: set<PageId>)
    requires Midway(s, p, q, t, k, news)
    ensures k <= |RecordsOf(p, q)| && s.up && Framed(s.disk, s.frames)
  {}

  lemma StartMidway(s: Sys, a: Sys, p: Pool, q: Pool, t: TxnId)
    requires Mirrors(s, p) && Wrote(p, q, t) && InPhase(s, t, {Active}) && OwnDirt(p.frames, RecordsOf(p, q), t) && Framed(q.pages, q.frames)
    requires a == s.(disk := q.pages, born := a.born, cv := a.cv)
    ensures Enlisted(p, q, t) && Midway(a, p, q, t, 0, q.pages.Keys - p.pages.Keys)
  {
    hide Logged, OwnDirt;
    var recs := RecordsOf(p, q);
    assert recs[..0] == [] && p.buf + [] == p.buf;
    ItsRecords(p, q, t);
    StartLogged(s, p, q, t);
    StartDirt(s, p, recs, t);
  }

  lemma ItsRecords(p: Pool, q: Pool, t: TxnId)
    requires Wrote(p, q, t)
    ensures Enlisted(p, q, t)
  {
    var recs := RecordsOf(p, q);
    forall k | 0 <= k < |recs| ensures RecordOk(Start(p, t), recs[k], k) && recs[k].page in q.pages {
      assert recs[k] == q.buf[|p.buf| + k];
    }
  }

  lemma StartDirt(s: Sys, p: Pool, recs: seq<Rec>, t: TxnId)
    requires SameDirt(p.frames, s.frames) && OwnDirt(p.frames, recs, t)
    ensures OwnDirt(s.frames, recs, t)
  {
    forall k | 0 <= k < |recs| ensures DirtyOf(s.frames, recs[k].page) in {None, Some(t)} {
      assert DirtyOf(p.frames, recs[k].page) in {None, Some(t)};
    }
  }

  lemma StartLogged(s: Sys, p: Pool, q: Pool, t: TxnId)
    requires Mirrors(s, p) && Grew(p, q.pages, q.durable, q.buf, q.nextLsn)
    ensures Logged(Start(p, t), p.buf, ViewOf(q.pages, s.frames), s.frames, q.pages.Keys - p.pages.Keys)
  {
    var view, news := ViewOf(q.pages, s.frames), q.pages.Keys - p.pages.Keys;
    assert p.buf[|p.buf|..] == [];
    forall id | id in view && id !in news ensures Recorded(Start(p, t), [], view, s.frames, id) {
      assert ViewOf(s.disk, s.frames)[id] == Seen(p)[id];
    }
  }

  lemma LastImageUnique(recs: seq<Rec>, id: PageId, a: Page, b: Page)
    requires LastImage(recs, id, a) && LastImage(recs, id, b)
    ensures a == b
  {
    var i :| 0 <= i < |recs| && recs[i].page == id && recs[i].redo.Some? && a == recs[i].redo.value.(lsn := recs[i].lsn)
             && forall j :: i < j < |recs| ==> recs[j].page != id;
    var k :| 0 <= k < |recs| && recs[k].page == id && recs[k].redo.Some? && b == recs[k].redo.value.(lsn := recs[k].lsn)
             && forall j :: k < j < |recs| ==> recs[j].page != id;
    assert i == k;
  }

  /** Page by page, the records say what readers see and who has written. */
  lemma RecordsDecide(s: Start, recs: seq<Rec>, v: Disk, f: Frames, w: Disk, g: Frames, id: PageId)
    requires id in v && id in w && Recorded(s, recs, v, f, id) && Recorded(s, recs, w, g, id)
    ensures v[id] == w[id] && DirtyOf(f, id) == DirtyOf(g, id)
  {
    if LastImage(recs, id, v[id]) && LastImage(recs, id, w[id]) { LastImageUnique(recs, id, v[id], w[id]); }
  }

  lemma NewIsRecorded(p: Pool, q: Pool, t: TxnId, id: PageId)
    requires Wrote(p, q, t) && id in q.pages && id !in p.pages
    ensures !NoneAbout(RecordsOf(p, q), id)
  {
    assert id in Seen(q) && Recorded(Start(p, t), RecordsOf(p, q), Seen(q), q.frames, id);
  }

  /** No new page is without a record at the end. */
  lemma NoneLeft(s: Sys, p: Pool, q: Pool, t: TxnId, left: set<PageId>)
    requires Midway(s, p, q, t, |RecordsOf(p, q)|, left) && Wrote(p, q, t) && left <= q.pages.Keys - p.pages.Keys
    ensures left == {}
  {
    hide Wrote, Logged;
    var recs := RecordsOf(p, q);
    assert recs[..|recs|] == recs;
    forall id | id in q.pages && id !in p.pages ensures !NoneAbout(recs, id) { NewIsRecorded(p, q, t, id); }
    assert forall id | id in left :: NoneAbout(recs, id);
  }

  /** At the end the machine shows what the pool shows. */
  lemma EndMirrors(s: Sys, p: Pool, q: Pool, t: TxnId)
    requires Midway(s, p, q, t, |RecordsOf(p, q)|, {}) && Wrote(p, q, t) && Framed(q.pages, q.frames)
    ensures s.disk == q.pages && s.buf == q.buf && s.nextLsn == q.nextLsn
    ensures SamePins(q.frames, s.frames) && SameDirt(q.frames, s.frames) && ViewOf(s.disk, s.frames) == Seen(q)
  {
    var recs := RecordsOf(p, q);
    assert recs[..|recs|] == recs && q.buf == p.buf + recs && s.buf[|p.buf|..] == recs;
    forall id | id in q.pages ensures ViewOf(s.disk, s.frames)[id] == Seen(q)[id] && DirtyOf(s.frames, id) == DirtyOf(q.frames, id) {
      assert Recorded(Start(p, t), recs, Seen(q), q.frames, id);
      assert Recorded(Start(p, t), recs, ViewOf(s.disk, s.frames), s.frames, id);
      RecordsDecide(Start(p, t), recs, ViewOf(s.disk, s.frames), s.frames, Seen(q), q.frames, id);
    }
  }

  lemma SetRootStep(s: Sys, id: PageId)
    requires s.up
    ensures Enabled(s, SetRoot(id)) && Apply(s, SetRoot(id)) == s.(root := id)
  {}

  /**
    An insert, update or delete that is done, written by a transaction that shares no page with
    another one, is a run of Allocate, Fetch and Write steps, and SetRoot.
   */
  lemma StatementIsRun(s: Sys, p: Pool, q: Pool, t: TxnId) returns (run: seq<Step>)
    requires Mirrors(s, p) && InPhase(s, t, {Active}) && Framed(q.pages, q.frames)
    requires Wrote(p, q, t) && OwnDirt(p.frames, RecordsOf(p, q), t)
    ensures Possible(s, run) && Mirrors(After(s, run), q) && SamePast(s, After(s, run))
  {
    hide Midway, Enabled, Apply, OwnDirt, Logged, InPhase, Extends, Blank, RecordsOf, ViewOf, SamePins, SameDirt;
    FileExtends(s, p, q);
    var first := AllocateAll(s, q.pages);
    var a := After(s, first);
    StartMidway(s, a, p, q, t);
    var second, left := WriteAll(a, p, q, t, 0, q.pages.Keys - p.pages.Keys);
    AfterJoin(s, first, second);
    var b := After(a, second);
    NoneLeft(b, p, q, t, left);
    EndMirrors(b, p, q, t);
    MidwayBounds(b, p, q, t, |RecordsOf(p, q)|, {});
    SetRootStep(b, q.root);
    OneStep(b, SetRoot(q.root));
    AfterJoin(s, first + second, [SetRoot(q.root)]);
    run := first + second + [SetRoot(q.root)];
  }

  lemma FileExtends(s: Sys, p: Pool, q: Pool)
    requires Mirrors(s, p) && Grew(p, q.pages, q.durable, q.buf, q.nextLsn)
    ensures Extends(q.pages, s.disk)
  {}
}
