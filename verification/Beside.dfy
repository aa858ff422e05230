/**
  A row is put into the tree while other transactions have changes waiting in pages beside its way: what is
  left after commit, crash and recovery is the tree on the surviving pages with the row put into it.
 */
module Beside {
  import opened Types
  import opened Keys
  import opened Pages
  import opened Storage
  import opened Recovery
  import opened PagedTree
  import opened Statements
  import opened Undo
  import opened TreeMatch
  import opened TreeShape
  import opened TreeDemand
  import opened TreeLocal
  import T = Tree
  import B = BTree

  /** The statement has put the cell into the tree of the pool. */
  ghost predicate TookIn(p: Pool, q: Pool, txn: TxnId, t: T.Tree, mode: T.Mode, c: Cell, next: PageId) {
    && Wrote(p, q, txn) && Dirtied(p.frames, q.frames, RootTouched(t, mode, c, next), txn)
    && Unchanged(Seen(p), Seen(q), T.Ids(t))
    && T.Match(Seen(p), t, NO_PAGE) && T.Match(Seen(q), T.PutRoot(t, mode, c, next), NO_PAGE)
    && T.Distinct(t) && IdsBelow(t, next) && Framed(p.pages, p.frames) && Framed(q.pages, q.frames)
    && forall id: PageId :: id in p.pages <==> id < next
  }

  /** No page between the root and the leaf of the key has a waiting change of another transaction. */
  ghost predicate WayClear(f: Frames, t: T.Tree, key: Key, txn: TxnId) {
    forall id | id in PathIds(t, key) :: Ours(f, id, txn)
  }

  // ---- What recovery makes of a page that the statement has no record about ----

  lemma {:induction false} LastCommittedBefore(a: seq<Rec>, b: seq<Rec>, done: set<TxnId>, id: PageId)
    requires NoneAbout(b, id)
    ensures LastCommitted(a + b, done, id) == LastCommitted(a, done, id)
  {
    if b == [] { assert a + b == a; } else {
      assert (a + b)[..|a + b| - 1] == a + b[..|b| - 1];
      assert (a + b)[|a + b| - 1] == b[|b| - 1];
      LastCommittedBefore(a, b[..|b| - 1], done, id);
    }
  }

  lemma NoneCommit(a: seq<Rec>, b: seq<Rec>)
    requires forall k | 0 <= k < |b| :: !b[k].op.OpCommit?
    ensures Committed(a + b) == Committed(a)
  {
    forall t | t in Committed(a) ensures t in Committed(a + b) {
      var k :| 0 <= k < |a| && a[k].op.OpCommit? && a[k].txn == t;
      assert (a + b)[k] == a[k];
    }
  }

  lemma RecoveredStill(p: Pool, q: Pool, txn: TxnId, id: PageId)
    requires Wrote(p, q, txn) && id in p.pages && NoneAbout(RecordsOf(p, q), id)
    ensures id in q.pages && Recovered(q.durable + q.buf, q.pages)[id] == Recovered(p.durable + p.buf, p.pages)[id]
  {
    var recs := RecordsOf(p, q);
    assert q.durable + q.buf == p.durable + p.buf + recs;
    NoneCommit(p.durable + p.buf, recs);
    LastCommittedBefore(p.durable + p.buf, recs, Committed(p.durable + p.buf), id);
  }

  // ---- Which pages the statement writes ----

  lemma WrittenPage(p: Pool, q: Pool, txn: TxnId, id: PageId)
    requires Wrote(p, q, txn) && id in Seen(q) && DirtyOf(q.frames, id) != Some(txn)
    ensures id in p.pages && NoneAbout(RecordsOf(p, q), id)
  {
    assert Recorded(Start(p, txn), RecordsOf(p, q), Seen(q), q.frames, id);
  }

  lemma TouchedOurs(p: Pool, q: Pool, txn: TxnId, t: T.Tree, mode: T.Mode, c: Cell, next: PageId, id: PageId)
    requires TookIn(p, q, txn, t, mode, c, next) && WayClear(p.frames, t, c.key, txn) && id in RootTouched(t, mode, c, next)
    ensures Ours(p.frames, id, txn)
  {
    hide Wrote, T.Match, T.Distinct, T.Ids, PathIds, Touched, T.Put;
    TouchedIn(t, mode, c, next);
    NextGrows(t, mode, c, next);
    if id !in PathIds(t, c.key) { assert id !in p.frames; }
  }

  lemma WritesOwn(p: Pool, q: Pool, txn: TxnId, t: T.Tree, mode: T.Mode, c: Cell, next: PageId)
    requires TookIn(p, q, txn, t, mode, c, next) && WayClear(p.frames, t, c.key, txn)
    ensures OwnDirt(p.frames, RecordsOf(p, q), txn)
  {
    hide T.Match, T.Distinct, T.Ids, RootTouched;
    var recs := RecordsOf(p, q);
    forall k | 0 <= k < |recs| ensures Ours(p.frames, recs[k].page, txn) {
      var id := recs[k].page;
      assert RecordOk(Start(p, txn), q.buf[|p.buf| + k], k);
      if DirtyOf(q.frames, id) != Some(txn) { WrittenPage(p, q, txn, id); }
      if id in RootTouched(t, mode, c, next) { TouchedOurs(p, q, txn, t, mode, c, next, id); }
    }
  }

  // ---- The surviving pages before and after ----

  lemma SurvivingTouched(p: Pool, q: Pool, txn: TxnId, t: T.Tree, mode: T.Mode, c: Cell, next: PageId, id: PageId)
    requires TookIn(p, q, txn, t, mode, c, next) && id in RootTouched(t, mode, c, next)
    ensures id in Seen(q) && id in Surviving(q, txn) && Surviving(q, txn)[id] == Seen(q)[id]
  {
    hide T.Match, T.Distinct, T.Ids, RootTouched, Recovered, Wrote, T.PutRoot;
    assert DirtyOf(q.frames, id) == Some(txn);
  }

  lemma SurvivingUntouched(p: Pool, q: Pool, txn: TxnId, t: T.Tree, mode: T.Mode, c: Cell, next: PageId, id: PageId)
    requires TookIn(p, q, txn, t, mode, c, next) && id !in RootTouched(t, mode, c, next) && id in Surviving(p, txn)
    ensures id in Surviving(q, txn) && SameButLsn(Surviving(p, txn)[id], Surviving(q, txn)[id])
  {
    hide T.Match, T.Distinct, T.Ids, RootTouched, Recovered, Wrote, T.PutRoot;
    assert DirtyOf(q.frames, id) == DirtyOf(p.frames, id);
    StillThere(p, q, txn, id);
    if Ours(p.frames, id, txn) {
      if id in T.Ids(t) { RootUntouchedStay(Seen(p), Seen(q), t, mode, c, next, id); }
    } else {
      WrittenPage(p, q, txn, id);
      RecoveredStill(p, q, txn, id);
    }
  }

  lemma StillThere(p: Pool, q: Pool, txn: TxnId, id: PageId)
    requires Wrote(p, q, txn) && id in p.pages && id in Seen(p) && Framed(q.pages, q.frames)
    ensures id in q.pages && id in Seen(q)
  {}

  /** The surviving pages before, with those that the statement has written. */
  ghost function Overwritten(p: Pool, q: Pool, txn: TxnId, ids: set<PageId>): Disk {
    var w, w' := Surviving(p, txn), Surviving(q, txn);
    map id | id in w' :: if id in ids || id !in w then w'[id] else w[id]
  }

  lemma WayAgrees(p: Pool, q: Pool, txn: TxnId, t: T.Tree, mode: T.Mode, c: Cell, next: PageId)
    requires TookIn(p, q, txn, t, mode, c, next) && WayClear(p.frames, t, c.key, txn)
    ensures SameOn(Seen(p), Surviving(p, txn), PathIds(t, c.key))
  {
    hide T.Match, T.Distinct, T.Ids, RootTouched, PathIds, Recovered, Wrote;
    MatchIds(Seen(p), t, NO_PAGE);
    PathInIds(t, c.key);
  }

  lemma WrittenAgree(p: Pool, q: Pool, txn: TxnId, t: T.Tree, mode: T.Mode, c: Cell, next: PageId)
    requires TookIn(p, q, txn, t, mode, c, next)
    ensures SameOn(Seen(q), Overwritten(p, q, txn, RootTouched(t, mode, c, next)), RootTouched(t, mode, c, next))
  {
    hide TookIn, RootTouched, Surviving;
    var touched := RootTouched(t, mode, c, next);
    forall id | id in touched ensures id in Seen(q) && id in Surviving(q, txn) && Surviving(q, txn)[id] == Seen(q)[id] {
      SurvivingTouched(p, q, txn, t, mode, c, next, id);
    }
  }

  lemma OthersAgree(p: Pool, q: Pool, txn: TxnId, t: T.Tree, mode: T.Mode, c: Cell, next: PageId, ids: set<PageId>)
    requires TookIn(p, q, txn, t, mode, c, next) && ids <= Surviving(p, txn).Keys
    ensures var touched := RootTouched(t, mode, c, next); SameOn(Surviving(p, txn), Overwritten(p, q, txn, touched), ids - touched)
  {
    hide TookIn, RootTouched, Surviving;
    var touched := RootTouched(t, mode, c, next);
    forall id | id in ids - touched ensures id in Surviving(q, txn) { SurvivingUntouched(p, q, txn, t, mode, c, next, id); }
  }

  lemma OverwrittenSurvives(p: Pool, q: Pool, txn: TxnId, t: T.Tree, mode: T.Mode, c: Cell, next: PageId, u: T.Tree)
    requires TookIn(p, q, txn, t, mode, c, next)
    requires T.Match(Overwritten(p, q, txn, RootTouched(t, mode, c, next)), u, NO_PAGE)
    ensures T.Match(Surviving(q, txn), u, NO_PAGE)
  {
    hide TookIn, RootTouched, Surviving, T.Match;
    var touched := RootTouched(t, mode, c, next);
    forall id | id in Surviving(q, txn)
      ensures SameButLsn(Overwritten(p, q, txn, touched)[id], Surviving(q, txn)[id])
    {
      if id !in touched && id in Surviving(p, txn) { SurvivingUntouched(p, q, txn, t, mode, c, next, id); }
    }
    MatchOn(Overwritten(p, q, txn, touched), Surviving(q, txn), u, NO_PAGE);
  }

  /**
    A transaction puts a cell into the tree. If no page on the way to its leaf has a change of another one in
    flight, then what a crash after the commit would leave is the tree that it would have left before, with the cell
    put into it: the others' changes, on whatever pages beside the way, are gone and nothing else is.
   */
  lemma SurvivingPut(p: Pool, q: Pool, txn: TxnId, t: T.Tree, u: T.Tree, mode: T.Mode, c: Cell, next: PageId)
    requires TookIn(p, q, txn, t, mode, c, next) && WayClear(p.frames, t, c.key, txn)
    requires B.Represents(Surviving(p, txn), u, t.id, next)
    ensures T.Match(Surviving(q, txn), T.PutRoot(u, mode, c, next), NO_PAGE)
    ensures T.PutRoot(u, mode, c, next).id == T.PutRoot(t, mode, c, next).id && T.Put(u, mode, c, next).1 == T.Put(t, mode, c, next).1
    ensures T.Put(u, mode, c, next).0.Two? <==> T.Put(t, mode, c, next).0.Two?
    ensures T.PutRootFits(t, mode, c, next) <==> T.PutRootFits(u, mode, c, next)
    ensures T.Placed(t, mode, c, next) <==> T.Placed(u, mode, c, next)
    ensures T.Target(u, c.key) == T.Target(t, c.key)
  {
    hide Wrote, T.Match, T.Ids, Surviving, RootTouched, PathIds, Overwritten, T.PutRoot, T.PutRootFits, T.Placed, T.Put, T.Target;
    var touched := RootTouched(t, mode, c, next);
    WayAgrees(p, q, txn, t, mode, c, next);
    WrittenAgree(p, q, txn, t, mode, c, next);
    MatchIds(Surviving(p, txn), u, NO_PAGE);
    OthersAgree(p, q, txn, t, mode, c, next, T.Ids(u));
    PutRootLocal(Seen(p), Seen(q), Surviving(p, txn), Overwritten(p, q, txn, touched), t, u, mode, c, next);
    OverwrittenSurvives(p, q, txn, t, mode, c, next, T.PutRoot(u, mode, c, next));
  }

  lemma SurvivingTyped(p: Pool, q: Pool, txn: TxnId, t: T.Tree, mode: T.Mode, c: Cell, next: PageId, ints: iset<nat>)
    requires TookIn(p, q, txn, t, mode, c, next)
    requires AllTyped(Surviving(p, txn), ints) && AllTyped(Seen(q), ints)
    ensures AllTyped(Surviving(q, txn), ints)
  {
    hide TookIn;
    forall id | id in Surviving(q, txn) ensures PageTyped(Surviving(q, txn)[id], ints) {
      if !Ours(q.frames, id, txn) { SurvivingOther(p, q, txn, t, mode, c, next, id); }
    }
  }

  lemma SurvivingOther(p: Pool, q: Pool, txn: TxnId, t: T.Tree, mode: T.Mode, c: Cell, next: PageId, id: PageId)
    requires TookIn(p, q, txn, t, mode, c, next) && id in Surviving(q, txn) && !Ours(q.frames, id, txn)
    ensures id in Surviving(p, txn) && SameButLsn(Surviving(p, txn)[id], Surviving(q, txn)[id])
  {
    hide T.Match, T.Distinct, T.Ids, RootTouched, Recovered, Wrote, T.PutRoot;
    WrittenPage(p, q, txn, id);
    SurvivingUntouched(p, q, txn, t, mode, c, next, id);
  }
}
