/**
  What becomes of the tree when a transaction commits, is rolled back, or is lost in a crash. Pages
  come back; the root pointer in the file header does not (createNewRoot in storage/btree/btree.go,
  SetRootPageID in storage/page/disk.go, DiscardTxn in storage/buffer/buffer.go).
 */
module Undo {
  import opened Types
  import opened Pages
  import opened Storage
  import opened Recovery
  import opened Machine
  import opened MachineProofs
  import opened Durability
  import opened Hypotheses
  import opened PagedTree
  import opened Statements
  import T = Tree
  import TreeShape
  import TreeMatch
  import B = BTree

  // ---- Statements one after the other ----

  /** The statements of one transaction, one after the other, have written what they have written together. */
  lemma WroteJoin(p: Pool, q: Pool, r: Pool, t: TxnId)
    requires Wrote(p, q, t) && Wrote(q, r, t)
    ensures Wrote(p, r, t)
  {
    hide Logged, Grew;
    LoggedJoin(p, q, r, t, {});
  }

  /** Also if the last one has stopped and not recorded some pages. */
  lemma LoggedJoin(p: Pool, q: Pool, r: Pool, t: TxnId, lost: set<PageId>)
    requires Wrote(p, q, t) && Logged(Start(q, t), r.buf, Seen(r), r.frames, lost) && Grew(q, r.pages, r.durable, r.buf, r.nextLsn)
    ensures Logged(Start(p, t), r.buf, Seen(r), r.frames, lost) && Grew(p, r.pages, r.durable, r.buf, r.nextLsn)
  {
    hide Recorded, IsWrite;
    var n := |p.buf|;
    var a, b := q.buf[n..], r.buf[|q.buf|..];
    assert r.buf[n..] == a + b && r.buf[..n] == p.buf;
    forall k | n <= k < |r.buf| ensures RecordOk(Start(p, t), r.buf[k], k - n) && r.buf[k].page in Seen(r) {
      if k < |q.buf| { assert r.buf[k] == q.buf[k]; }
    }
    forall id | id in Seen(r) && id !in lost ensures Recorded(Start(p, t), a + b, Seen(r), r.frames, id) {
      if id in Seen(q) { assert Recorded(Start(p, t), a, Seen(q), q.frames, id); }
      RecordedJoin(p, q, r, t, a, b, id);
    }
  }

  lemma RecordedJoin(p: Pool, q: Pool, r: Pool, t: TxnId, a: seq<Rec>, b: seq<Rec>, id: PageId)
    requires id in Seen(r) && Recorded(Start(q, t), b, Seen(r), r.frames, id)
    requires id in Seen(q) ==> Recorded(Start(p, t), a, Seen(q), q.frames, id)
    ensures Recorded(Start(p, t), a + b, Seen(r), r.frames, id)
  {
    if LastImage(b, id, Seen(r)[id]) {
      LastImageBehind(a, b, id, Seen(r)[id]);
    } else if LastImage(a, id, Seen(q)[id]) {
      LastImageBefore(a, b, id, Seen(q)[id]);
    }
  }

  lemma LastImageBehind(a: seq<Rec>, b: seq<Rec>, id: PageId, p: Page)
    requires LastImage(b, id, p)
    ensures LastImage(a + b, id, p)
  {
    var k :| 0 <= k < |b| && b[k].page == id && b[k].redo.Some? && p == b[k].redo.value.(lsn := b[k].lsn)
             && forall j :: k < j < |b| ==> b[j].page != id;
    assert (a + b)[|a| + k] == b[k];
  }

  lemma LastImageBefore(a: seq<Rec>, b: seq<Rec>, id: PageId, p: Page)
    requires LastImage(a, id, p) && NoneAbout(b, id)
    ensures LastImage(a + b, id, p)
  {
    var k :| 0 <= k < |a| && a[k].page == id && a[k].redo.Some? && p == a[k].redo.value.(lsn := a[k].lsn)
             && forall j :: k < j < |a| ==> a[j].page != id;
    assert (a + b)[k] == a[k];
  }

  /** The root pointer is as it was, or names a page that did not exist before and is blank in the file. */
  ghost predicate Rooted(p: Pool, q: Pool) {
    q.root == p.root || (q.root !in p.pages && B.BlankRoot(q.pages, q.root))
  }

  lemma RootedJoin(p: Pool, q: Pool, r: Pool, t: TxnId)
    requires Rooted(p, q) && Rooted(q, r) && Wrote(p, q, t) && Wrote(q, r, t)
    ensures Rooted(p, r)
  {}

  // ---- Commit ----

  lemma {:induction false} MatchOn(a: Disk, b: Disk, t: T.Tree, nxt: PageId)
    requires T.Match(a, t, nxt)
    requires forall id | id in T.Ids(t) && id in a :: id in b && SameButLsn(a[id], b[id])
    ensures T.Match(b, t, nxt)
  {
    TreeMatch.MatchIds(a, t, nxt);
    var own := map id | id in a && id in T.Ids(t) :: a[id];
    TreeMatch.MatchFrame(a, own, t, nxt);
    MatchButLsn(own, b, t, nxt);
  }

  lemma FlushedView(disk: Disk, frames: Frames, t: TxnId)
    requires frames.Keys <= disk.Keys
    ensures ViewOf(FlushedDisk(disk, frames, {t}), FlushedFrames(frames, {t})) == ViewOf(disk, frames)
    ensures forall id :: DirtyOf(FlushedFrames(frames, {t}), id) == if DirtyOf(frames, id) == Some(t) then None else DirtyOf(frames, id)
  {}

  /** The page is clean, or what waits in its frame is a change of the transaction. */
  predicate Ours(f: Frames, id: PageId, txn: TxnId) {
    DirtyOf(f, id) in {None, Some(txn)}
  }

  /**
    What is left of the pool if the transaction commits now and the process dies: the pages as readers see
    them, but those with a waiting change of another transaction as they were committed last.
   */
  ghost function Surviving(p: Pool, txn: TxnId): Disk {
    map id | id in Seen(p) && id in p.pages :: if Ours(p.frames, id, txn) then Seen(p)[id] else Recovered(p.durable + p.buf, p.pages)[id]
  }

  /**
    A transaction commits, whatever others have in flight on other pages: after a crash and recovery the
    pages are the surviving ones, and a tree on them is there, at the root pointer.
   */
  lemma CommittedSurvives(s: Sys, p: Pool, q: Pool, txn: TxnId, t: T.Tree, next: PageId) returns (run: seq<Step>)
    requires Inv(s) && Mirrors(s, p) && InPhase(s, txn, {Active}) && Framed(q.pages, q.frames)
    requires Wrote(p, q, txn) && OwnDirt(p.frames, RecordsOf(p, q), txn)
    requires B.Represents(Surviving(q, txn), t, q.root, next)
    ensures Possible(s, run)
    ensures var e := After(s, run);
            && InPhase(e, txn, {Done}) && e.root == t.id
            && SamePages(Recovered(e.log, e.disk), Surviving(q, txn)) && T.Match(Recovered(e.log, e.disk), t, NO_PAGE)
            && Inv(e) && e.up && e.log == q.durable + (q.buf + [Rec(q.nextLsn, txn, 0, OpCommit, None)]) && e.buf == []
            && e.disk == FlushedDisk(q.pages, q.frames, {txn})
  {
    hide Inv, Wrote, OwnDirt, T.Match, TreeShape.WellShaped, RecordsOf, Possible, After, Recovered, Agrees, Apply, Flushed, FlushedDisk, FlushedFrames,
      SamePages, Surviving;
    var work := StatementIsRun(s, p, q, txn);
    var a := After(s, work);
    SamePhases(s, a, txn);
    var commit := CommitIsRun(a, txn);
    AfterJoin(s, work, commit);
    run := work + commit;
    var e := After(s, run);
    RunInv(s, work);
    RunInv(s, run);
    InvAgrees(e);
    SameFlush(a, q, txn);
    CommitVersions(a, txn);
    StateRestores(e);
    SurvivingPages(a, e, q, txn);
    SurvivingMatch(Surviving(q, txn), Recovered(e.log, e.disk), t);
  }

  lemma SurvivingMatch(a: Disk, b: Disk, t: T.Tree)
    requires SamePages(b, a) && T.Match(a, t, NO_PAGE)
    ensures T.Match(b, t, NO_PAGE)
  {
    MatchOn(a, b, t, NO_PAGE);
  }

  lemma SurvivingPages(a: Sys, e: Sys, q: Pool, txn: TxnId)
    requires Mirrors(a, q) && e.up && Agrees(e)
    requires e.disk == FlushedDisk(a.disk, a.frames, {txn}) && e.frames == FlushedFrames(a.frames, {txn})
    requires SamePages(Recovered(e.log, e.disk), e.cv) && SameButOf(Flushed(a).cv, e.cv, a.frames, txn)
    requires SamePages(Recovered(a.log + a.buf, a.disk), Flushed(a).cv)
    ensures SamePages(Recovered(e.log, e.disk), Surviving(q, txn))
  {
    hide Recovered, Flushed, FlushedFrames, FlushedDisk, Agrees, Mirrors;
    RecoveredKeys(a.log + a.buf, a.disk);
    RecoveredKeys(e.log, e.disk);
    MirrorPool(a, q, txn);
    forall id | id in a.disk ensures id in Recovered(e.log, e.disk) && SameButLsn(Recovered(e.log, e.disk)[id], Surviving(q, txn)[id]) {
      if Ours(q.frames, id, txn) { OursSurvives(a, e, q, txn, id); }
    }
  }

  lemma MirrorPool(a: Sys, q: Pool, txn: TxnId)
    requires Mirrors(a, q)
    ensures a.disk == q.pages && a.log + a.buf == q.durable + q.buf && Seen(q).Keys == q.pages.Keys
    ensures FlushedDisk(a.disk, a.frames, {txn}).Keys == a.disk.Keys
    ensures forall id :: DirtyOf(a.frames, id) == DirtyOf(q.frames, id)
  {}

  lemma OursSurvives(a: Sys, e: Sys, q: Pool, txn: TxnId, id: PageId)
    requires Mirrors(a, q) && e.up && Agrees(e) && Ours(q.frames, id, txn) && id in a.disk
    requires e.disk == FlushedDisk(a.disk, a.frames, {txn}) && e.frames == FlushedFrames(a.frames, {txn})
    ensures id in Recovered(e.log, e.disk) && id in Seen(q) && SameButLsn(Recovered(e.log, e.disk)[id], Seen(q)[id])
  {
    hide Recovered;
    FlushedView(a.disk, a.frames, txn);
    SameKeys(e);
    assert DirtyOf(a.frames, id) == DirtyOf(q.frames, id);
    assert ViewOf(e.disk, e.frames)[id] == Seen(q)[id];
  }

  lemma RecoveredKeys(recs: seq<Rec>, disk: Disk)
    ensures Recovered(recs, disk).Keys == disk.Keys
  {}

  /** Which clean pages are cached makes no difference to what a commit writes. */
  lemma SameFlush(a: Sys, q: Pool, txn: TxnId)
    requires Mirrors(a, q)
    ensures FlushedDisk(a.disk, a.frames, {txn}) == FlushedDisk(q.pages, q.frames, {txn})
    ensures a.frames.Keys <= a.disk.Keys && q.frames.Keys <= q.pages.Keys
  {
    forall id: PageId ensures DirtyOf(a.frames, id) == DirtyOf(q.frames, id) {}
    forall id | id in a.frames && Flushable(a.frames[id], {txn}) ensures id in q.frames && Flushable(q.frames[id], {txn}) && a.frames[id].page == q.frames[id].page {
      assert DirtyOf(a.frames, id) == Some(txn);
      assert ViewOf(a.disk, a.frames)[id] == Seen(q)[id];
    }
    forall id | id in q.frames && Flushable(q.frames[id], {txn}) ensures id in a.frames && Flushable(a.frames[id], {txn}) {
      assert DirtyOf(q.frames, id) == Some(txn);
    }
  }

  lemma SamePhases(s: Sys, a: Sys, t: TxnId)
    requires InPhase(s, t, {Active}) && SamePast(s, a)
    ensures InPhase(a, t, {Active})
  {}

  lemma SameKeys(e: Sys)
    ensures Recovered(e.log, e.disk).Keys == e.disk.Keys == ViewOf(e.disk, e.frames).Keys
  {}

  // ---- Rollback and crash ----

  /** No step that commits or moves the root. */
  predicate Quiet(run: seq<Step>) {
    forall i | 0 <= i < |run| :: !run[i].AppendCommit? && !run[i].SetRoot?
  }

  ghost predicate NoneCommitting(s: Sys) {
    forall u | u in s.phase :: s.phase[u] != Committing
  }

  lemma QuietStep(s: Sys, a: Step)
    requires NoneCommitting(s) && Enabled(s, a) && !a.AppendCommit? && !a.SetRoot?
    ensures var e := Apply(s, a);
            && NoneCommitting(e) && e.root == s.root && s.disk.Keys <= e.disk.Keys
            && forall id | id in s.cv && id in s.disk :: id in e.cv && e.cv[id] == s.cv[id]
  {}

  /** Until the next commit no committed version changes. */
  lemma {:induction false} QuietRun(s: Sys, run: seq<Step>)
    requires NoneCommitting(s) && Possible(s, run) && Quiet(run)
    ensures var e := After(s, run);
            && e.root == s.root && s.disk.Keys <= e.disk.Keys
            && forall id | id in s.cv && id in s.disk :: id in e.cv && e.cv[id] == s.cv[id]
    decreases run
  {
    hide Enabled, Apply, NoneCommitting;
    if run != [] {
      QuietStep(s, run[0]);
      QuietRun(Apply(s, run[0]), run[1..]);
    }
  }

  /** The first leaf of a tree, which the root still leads to when it has become a blank page. */
  lemma FirstLeafPage(v: Disk, t: T.Tree, next: PageId)
    requires T.Match(v, t, NO_PAGE) && TreeShape.WellShaped(t, next) && next <= NO_PAGE
    ensures 0 in v && v[0].kind.LeafPage?
    ensures t.Node? ==> v[0].right != NO_PAGE
    ensures t.Leaf? ==> v[0].cells == T.Contents(t)
  {
    TreeMatch.LeafChain(v, t, NO_PAGE);
    var ls := T.Leaves(t);
    assert TreeMatch.Link(v, ls, 0, NO_PAGE);
    if t.Node? {
      TreeMatch.RunChain(v, t, |t.seps|, NO_PAGE);
      assert t.seps[..|t.seps|] == t.seps;
      assert T.Match(v, T.Kid(t, |t.seps|), NO_PAGE);
      TreeMatch.LeafChain(v, t.last, NO_PAGE);
      TreeMatch.LeafIds(t);
      assert |ls| >= 2 && ls[1].id in T.Ids(t);
    }
  }

  /** Whatever tree one reads from a blank internal page has the rows of page 0 and no others. */
  lemma ReadFromBlank(v: Disk, u: T.Tree, nxt: PageId)
    requires T.Match(v, u, nxt) && SameButLsn(v[u.id], NewPage(InternalPage, u.id)) && 0 in v && v[0].kind.LeafPage?
    ensures T.Contents(u) == v[0].cells && v[0].right == nxt
  {
    assert u.Node? && |T.Branches(u.seps)| == 0 && u.seps == [];
    assert T.Match(v, T.Kid(u, 0), T.After(u, 0, nxt));
    assert T.Kid(u, 0) == u.last && u.last.id == 0 && T.Flat(u.seps) == [];
  }

  /** The pages have come back. Whether the tree has depends on the root pointer. */
  ghost predicate Back(v: Disk, t: T.Tree, next: PageId, root: PageId) {
    && T.Match(v, t, NO_PAGE) && TreeShape.WellShaped(t, next) && next <= NO_PAGE
    && (root != t.id ==> next <= root && root in v && SameButLsn(v[root], NewPage(InternalPage, root)))
  }

  /** A tree with these rows is represented at the root pointer. */
  ghost predicate Reachable(v: Disk, root: PageId, cells: seq<Cell>) {
    exists u: T.Tree :: u.id == root && T.Match(v, u, NO_PAGE) && T.Contents(u) == cells
  }

  /** Any tree that can be read at the root pointer has the rows of page 0 and no others. */
  ghost predicate OnlyPage0(v: Disk, root: PageId) {
    forall u: T.Tree, nxt: PageId | u.id == root && T.Match(v, u, nxt) :: 0 in v && T.Contents(u) == v[0].cells
  }

  /**
    With the pages back, the rows can be reached from the root pointer if and only if it has not
    moved, or the tree was a single leaf. A moved root pointer leads to a page without cells whose right
    pointer is 0, and every row outside page 0 is lost.
   */
  lemma RootDecides(v: Disk, t: T.Tree, next: PageId, root: PageId)
    requires Back(v, t, next, root)
    ensures Reachable(v, root, T.Contents(t)) <==> (root == t.id || t.Leaf?)
    ensures root != t.id ==> OnlyPage0(v, root)
  {
    FirstLeafPage(v, t, next);
    if root != t.id {
      forall u: T.Tree, nxt: PageId | u.id == root && T.Match(v, u, nxt) ensures T.Contents(u) == v[0].cells && v[0].right == nxt {
        ReadFromBlank(v, u, nxt);
      }
      if t.Leaf? { BlankAbove(v, t, root); }
    }
  }

  /** A blank internal page above the only leaf. */
  lemma BlankAbove(v: Disk, t: T.Tree, root: PageId)
    requires t.Leaf? && t.id == 0 && T.Match(v, t, NO_PAGE)
    requires root in v && SameButLsn(v[root], NewPage(InternalPage, root))
    ensures var u := T.Node(root, [], t, PAGE_SIZE); T.Match(v, u, NO_PAGE) && T.Contents(u) == T.Contents(t)
  {
    var u := T.Node(root, [], t, PAGE_SIZE);
    assert T.Kid(u, 0) == t;
  }

  /** What readers see once the frames of the transaction have been discarded. */
  function Discarded(q: Pool, t: TxnId): Disk
    requires q.frames.Keys <= q.pages.Keys
  {
    ViewOf(q.pages, DiscardedFrames(q.pages, q.frames, t))
  }

  /** The transaction has dirtied pages that were clean, and no others. */
  ghost predicate Claimed(f: Frames, f': Frames, t: TxnId) {
    forall id: PageId | DirtyOf(f', id) == Some(t) :: DirtyOf(f, id) == None
  }

  /** DiscardTxn brings back what readers saw before the transaction's first write, in all pages but those without a record. */
  lemma DiscardedBut(p: Pool, q: Pool, t: TxnId, lost: set<PageId>)
    requires Logged(Start(p, t), q.buf, Seen(q), q.frames, lost) && Grew(p, q.pages, q.durable, q.buf, q.nextLsn)
    requires Claimed(p.frames, q.frames, t) && Framed(p.pages, p.frames) && Framed(q.pages, q.frames)
    requires CoherentOk(p.pages, p.frames, {})
    ensures forall id | id in p.pages && id !in lost :: id in q.pages && Discarded(q, t)[id] == Seen(p)[id]
    ensures forall id | id in q.pages && id !in p.pages && (id !in lost || id !in q.frames) :: Discarded(q, t)[id] == q.pages[id]
    ensures forall id | id in q.pages && DirtyOf(q.frames, id) != Some(t) :: Discarded(q, t)[id] == Seen(q)[id]
  {
    var recs := RecordsOf(p, q);
    forall id | id in q.pages && id !in lost ensures Discarded(q, t)[id] == if id in p.pages then Seen(p)[id] else q.pages[id] {
      assert Recorded(Start(p, t), recs, Seen(q), q.frames, id);
    }
  }

  lemma DiscardedPages(p: Pool, q: Pool, t: TxnId)
    requires Wrote(p, q, t) && Claimed(p.frames, q.frames, t) && Framed(p.pages, p.frames) && Framed(q.pages, q.frames)
    requires CoherentOk(p.pages, p.frames, {})
    ensures forall id | id in p.pages :: id in q.pages && Discarded(q, t)[id] == Seen(p)[id]
    ensures forall id | id in q.pages && id !in p.pages :: Discarded(q, t)[id] == q.pages[id]
  {
    DiscardedBut(p, q, t, {});
  }

  /**
    A rolled-back transaction. The tree is back as it was if and only if no statement has moved the
    root pointer; its rows can be reached if and only if none has, or the tree was a single leaf.
   */
  lemma RolledBack(p: Pool, q: Pool, txn: TxnId, t: T.Tree, next: PageId)
    requires Wrote(p, q, txn) && Claimed(p.frames, q.frames, txn) && Framed(p.pages, p.frames) && Framed(q.pages, q.frames)
    requires CoherentOk(p.pages, p.frames, {})
    requires B.Represents(Seen(p), t, p.root, next) && Rooted(p, q) && forall id: PageId :: id in p.pages <==> id < next
    ensures var v := Discarded(q, txn);
            && (B.Represents(v, t, q.root, next) <==> q.root == p.root)
            && (Reachable(v, q.root, T.Contents(t)) <==> (q.root == p.root || t.Leaf?))
            && (q.root != p.root ==> OnlyPage0(v, q.root))
  {
    hide Claimed, Wrote, TreeShape.WellShaped, T.Match, T.Contents, CoherentOk;
    DiscardedPages(p, q, txn);
    var v := Discarded(q, txn);
    MatchOn(Seen(p), v, t, NO_PAGE);
    RootDecides(v, t, next, q.root);
  }

  /** Statements of one transaction: the states before the first one, between them and after the last one. */
  ghost predicate InTurn(ps: seq<Pool>, txn: TxnId) {
    ps != [] && forall i | 0 < i < |ps| :: Wrote(ps[i - 1], ps[i], txn) && Rooted(ps[i - 1], ps[i])
  }

  lemma NothingWrote(p: Pool, txn: TxnId)
    ensures Wrote(p, p, txn) && Rooted(p, p)
  {}

  lemma {:induction false} StatementsJoin(ps: seq<Pool>, txn: TxnId)
    requires InTurn(ps, txn) && ps[0].root in ps[0].pages
    ensures var p, q := ps[0], ps[|ps| - 1];
            && Wrote(p, q, txn) && Rooted(p, q) && p.pages.Keys <= q.pages.Keys
            && (q.root == p.root <==> forall i | 0 < i < |ps| :: ps[i].root == ps[i - 1].root)
    decreases |ps|
  {
    hide Logged;
    var n := |ps| - 1;
    if n == 0 {
      NothingWrote(ps[0], txn);
    } else {
      var front := ps[..n];
      forall i | 0 < i < n ensures Wrote(front[i - 1], front[i], txn) && Rooted(front[i - 1], front[i]) {
        assert front[i - 1] == ps[i - 1] && front[i] == ps[i];
      }
      StatementsJoin(front, txn);
      WroteJoin(ps[0], ps[n - 1], ps[n], txn);
      RootedJoin(ps[0], ps[n - 1], ps[n], txn);
      RootsJoin(ps, n);
    }
  }

  /** A root pointer that has moved never moves back. */
  lemma RootsJoin(ps: seq<Pool>, n: nat)
    requires n == |ps| - 1 > 0 && ps[0].root in ps[0].pages && ps[0].pages.Keys <= ps[n - 1].pages.Keys && Rooted(ps[n - 1], ps[n])
    requires ps[n - 1].root == ps[0].root <==> forall i | 0 < i < n :: ps[..n][i].root == ps[..n][i - 1].root
    ensures ps[n].root == ps[0].root <==> forall i | 0 < i <= n :: ps[i].root == ps[i - 1].root
  {
    assert forall i | 0 <= i < n :: ps[..n][i] == ps[i];
    if forall i | 0 < i < n :: ps[..n][i].root == ps[..n][i - 1].root {
      forall i | 0 < i < n ensures ps[i].root == ps[i - 1].root { assert ps[..n][i].root == ps[..n][i - 1].root; }
    }
    if forall i | 0 < i <= n :: ps[i].root == ps[i - 1].root {
      forall i | 0 < i < n ensures ps[..n][i].root == ps[..n][i - 1].root { assert ps[i].root == ps[i - 1].root; }
    }
  }

  /**
    A transaction of any number of statements is rolled back. The tree is back as it was if and only if
    none of them has moved the root pointer.
   */
  lemma StatementsRolledBack(ps: seq<Pool>, txn: TxnId, t: T.Tree, next: PageId)
    requires InTurn(ps, txn)
    requires var p, q := ps[0], ps[|ps| - 1];
             && Claimed(p.frames, q.frames, txn) && Framed(p.pages, p.frames) && Framed(q.pages, q.frames)
             && CoherentOk(p.pages, p.frames, {}) && B.Represents(Seen(p), t, p.root, next)
             && forall id: PageId :: id in p.pages <==> id < next
    ensures var q := ps[|ps| - 1];
            var v, moved := Discarded(q, txn), exists i :: 0 < i < |ps| && ps[i].root != ps[i - 1].root;
            && (B.Represents(v, t, q.root, next) <==> !moved)
            && (Reachable(v, q.root, T.Contents(t)) <==> (!moved || t.Leaf?))
            && (moved ==> OnlyPage0(v, q.root))
  {
    hide Claimed, Wrote, TreeShape.WellShaped, T.Match, T.Contents, CoherentOk, Rooted, Framed, Reachable, OnlyPage0;
    RootPage(ps[0], t, next);
    StatementsJoin(ps, txn);
    RolledBack(ps[0], ps[|ps| - 1], txn, t, next);
  }

  lemma RootPage(p: Pool, t: T.Tree, next: PageId)
    requires B.Represents(Seen(p), t, p.root, next)
    ensures p.root in p.pages
  {}

  /**
    A transaction that is never committed, and a crash: at that moment or at any later one before the
    next commit. Recovery brings the committed pages back, and the root pointer decides as before.
   */
  lemma LostInCrash(s: Sys, e: Sys, rest: seq<Step>, p: Pool, q: Pool, txn: TxnId, t: T.Tree, next: PageId)
    requires Inv(s) && Inv(e) && Mirrors(s, p) && Mirrors(e, q) && SamePast(s, e) && NoneCommitting(s)
    requires InPhase(s, txn, {Active}) && Wrote(p, q, txn) && Possible(e, rest) && Quiet(rest)
    requires T.Match(s.cv, t, NO_PAGE) && B.Represents(Seen(p), t, p.root, next) && Rooted(p, q)
    requires forall id: PageId :: id in p.pages <==> id < next
    ensures var f := After(e, rest);
            var v := Recovered(f.log, f.disk);
            && f.root == q.root
            && (B.Represents(v, t, q.root, next) <==> q.root == p.root)
            && (Reachable(v, q.root, T.Contents(t)) <==> (q.root == p.root || t.Leaf?))
            && (q.root != p.root ==> OnlyPage0(v, q.root))
  {
    hide Inv, TreeShape.WellShaped, T.Match, T.Contents, Recovered, Mirrors, Reachable, OnlyPage0;
    var f := After(e, rest);
    MirrorsRoot(s, p);
    MirrorsRoot(e, q);
    QuietRun(e, rest);
    RunInv(e, rest);
    StateRestores(f);
    InvKeys(s);
    InvKeys(f);
    if q.root != p.root { NewPageVersion(s, e, p, q, txn, q.root); }
    var v := Recovered(f.log, f.disk);
    MatchOn(s.cv, v, t, NO_PAGE);
    RootDecides(v, t, next, q.root);
  }

  lemma MirrorsRoot(s: Sys, p: Pool)
    requires Mirrors(s, p)
    ensures s.root == p.root && s.disk == p.pages && s.up
  {}

  lemma InvKeys(s: Sys)
    requires Inv(s)
    ensures s.disk.Keys == s.cv.Keys
  {}

  /** The last committed version of a page that the transaction has allocated is the blank page. */
  lemma NewPageVersion(s: Sys, e: Sys, p: Pool, q: Pool, txn: TxnId, id: PageId)
    requires Inv(e) && Mirrors(e, q) && SamePast(s, e) && InPhase(s, txn, {Active}) && Wrote(p, q, txn)
    requires id in q.pages && id !in p.pages
    ensures id in e.cv && SameButLsn(q.pages[id], e.cv[id])
  {
    hide LogOk, PhasesOk, RedoOk, ContentsOk, MarkedOk, PendingOk, LatestOk, TraceOk, NoSteal;
    var recs := RecordsOf(p, q);
    NewIsRecorded(p, q, txn, id);
    assert Recorded(Start(p, txn), recs, Seen(q), q.frames, id);
    assert DirtyOf(e.frames, id) == DirtyOf(q.frames, id) == Some(txn);
  }

  // ---- One insert or update ----

  lemma PutMovesRoot(p: Pool, q: Pool, t: T.Tree, mode: T.Mode, c: Cell, next: PageId, t': T.Tree)
    requires B.Planted(t, t', mode, c, next, q.pages) && TreeShape.WellShaped(t, next)
    requires p.root == t.id && q.root == t'.id && forall id: PageId :: id in p.pages <==> id < next
    ensures Rooted(p, q) && (q.root == p.root <==> !T.Put(t, mode, c, next).0.Two?)
  {
    TreeShape.PutDistinct(t, mode, c, next);
    TreeShape.RootInIds(t);
  }

  /** What an insert or update that is done ensures, from one pool state to the next. */
  ghost predicate PutDone(p: Pool, q: Pool, txn: TxnId, t: T.Tree, mode: T.Mode, c: Cell, next: PageId, t': T.Tree) {
    && Wrote(p, q, txn) && B.Represents(Seen(p), t, p.root, next) && q.root == t'.id && B.Planted(t, t', mode, c, next, q.pages)
    && forall id: PageId :: id in p.pages <==> id < next
  }

  /** An insert or update, the first write of its transaction, is rolled back: the exact condition. */
  lemma PutRolledBack(p: Pool, q: Pool, txn: TxnId, t: T.Tree, mode: T.Mode, c: Cell, next: PageId, t': T.Tree)
    requires PutDone(p, q, txn, t, mode, c, next, t')
    requires Claimed(p.frames, q.frames, txn) && Framed(p.pages, p.frames) && Framed(q.pages, q.frames)
    requires CoherentOk(p.pages, p.frames, {})
    ensures var v, grew := Discarded(q, txn), T.Put(t, mode, c, next).0.Two?;
            && (B.Represents(v, t, q.root, next) <==> !grew)
            && (Reachable(v, q.root, T.Contents(t)) <==> (!grew || t.Leaf?))
            && (grew ==> OnlyPage0(v, q.root))
  {
    hide Claimed, Wrote, TreeShape.WellShaped, T.Match, T.Contents, T.Put, CoherentOk, B.Planted, Rooted, Reachable, OnlyPage0;
    PutMovesRoot(p, q, t, mode, c, next, t');
    RolledBack(p, q, txn, t, next);
  }

  /** The same after a crash before the commit. */
  lemma PutLostInCrash(s: Sys, e: Sys, rest: seq<Step>, p: Pool, q: Pool, txn: TxnId, t: T.Tree, mode: T.Mode, c: Cell, next: PageId, t': T.Tree)
    requires PutDone(p, q, txn, t, mode, c, next, t')
    requires Inv(s) && Inv(e) && Mirrors(s, p) && Mirrors(e, q) && SamePast(s, e) && NoneCommitting(s)
    requires InPhase(s, txn, {Active}) && Possible(e, rest) && Quiet(rest) && T.Match(s.cv, t, NO_PAGE)
    ensures var v, grew := Recovered(After(e, rest).log, After(e, rest).disk), T.Put(t, mode, c, next).0.Two?;
            && After(e, rest).root == q.root
            && (B.Represents(v, t, q.root, next) <==> !grew)
            && (Reachable(v, q.root, T.Contents(t)) <==> (!grew || t.Leaf?))
            && (grew ==> OnlyPage0(v, q.root))
  {
    hide Wrote, TreeShape.WellShaped, T.Match, T.Contents, T.Put, B.Planted, Rooted, Reachable, OnlyPage0, Inv, Mirrors,
      SamePast, Recovered;
    PutMovesRoot(p, q, t, mode, c, next, t');
    LostInCrash(s, e, rest, p, q, txn, t, next);
  }

  lemma PoolFramed(b: B.BTree)
    requires b.Inv()
    ensures Framed(b.Now().pages, b.Now().frames) && Seen(b.Now()) == b.bp.View()
    ensures forall id: PageId :: id in b.Now().pages <==> id < b.disk.nextPageId
  {}
}
