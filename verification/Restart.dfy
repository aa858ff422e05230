/**
  The code from end to end: a row is inserted and committed, the process dies, and the next one recovers
  and opens the tree (storage/btree/btree.go, txn/txn.go, storage/btree/recovery.go).
 */
module Restart {
  import opened Types
  import opened Keys
  import opened Pages
  import opened Storage
  import opened Recovery
  import opened Machine
  import opened MachineProofs
  import opened Durability
  import T = Tree
  import TreeShape
  import TreeSpace
  import opened TreeDemand
  import opened TreeMap
  import opened PagedTree
  import opened Statements
  import opened TreeMatch
  import opened Undo
  import opened Beside
  import opened Transactions
  import opened Locks
  import B = BTree

  /** What the next process finds in the files: a log that can be read, and under it the pages of the tree. */
  ghost predicate Recoverable(log: seq<Rec>, disk: Disk, root: PageId, next: PageId, t: T.Tree, ints: iset<nat>) {
    && Increasing(log) && ImagesOk(log, disk) && AllTyped(Recovered(log, disk), ints)
    && B.Represents(Recovered(log, disk), t, root, next)
  }

  lemma InvLog(e: Sys)
    requires Inv(e) && e.buf == []
    ensures Increasing(e.log) && ImagesOk(e.log, e.disk)
  {
    assert e.log + e.buf == e.log;
  }

  lemma SameTyped(v: Disk, w: Disk, ints: iset<nat>)
    requires SamePages(v, w) && AllTyped(w, ints)
    ensures AllTyped(v, ints)
  {
    forall id | id in v ensures PageTyped(v[id], ints) { assert PageTyped(w[id], ints); }
  }

  /** A tree in the surviving pages. */
  ghost predicate Survives(p: Pool, txn: TxnId, u: T.Tree, next: PageId, ints: iset<nat>) {
    B.Represents(Surviving(p, txn), u, p.root, next) && AllTyped(Surviving(p, txn), ints)
  }

  /** If the transaction has the tree `u` in the surviving pages, the files it leaves behind are recovered to it. */
  lemma Files(s: Sys, p: Pool, q: Pool, txn: TxnId, u: T.Tree, next: PageId, ints: iset<nat>)
    requires Inv(s) && Mirrors(s, p) && InPhase(s, txn, {Active}) && Framed(q.pages, q.frames)
    requires Wrote(p, q, txn) && OwnDirt(p.frames, RecordsOf(p, q), txn) && Survives(q, txn, u, next, ints)
    ensures Recoverable(q.durable + (q.buf + [Rec(q.nextLsn, txn, 0, OpCommit, None)]), FlushedDisk(q.pages, q.frames, {txn}), q.root, next, u, ints)
  {
    hide Wrote, T.Match, Recovered, FlushedDisk, FlushedFrames, AllTyped, Mirrors, Inv, Possible, After, OwnDirt, Surviving, SamePages;
    var run := CommittedSurvives(s, p, q, txn, u, next);
    var e := After(s, run);
    InvLog(e);
    SameTyped(Recovered(e.log, e.disk), Surviving(q, txn), ints);
  }

  lemma StillSurvives(p: Pool, q: Pool, txn: TxnId, t: T.Tree, u: T.Tree, c: Cell, next: PageId, next': PageId, ints: iset<nat>)
    requires TookIn(p, q, txn, t, T.Inserting, c, next) && WayClear(p.frames, t, c.key, txn) && p.root == t.id
    requires Survives(p, txn, u, next, ints) && AllTyped(Seen(q), ints) && c.body.Data?
    requires T.PutRootFits(t, T.Inserting, c, next) && T.Placed(t, T.Inserting, c, next)
    requires q.root == T.PutRoot(t, T.Inserting, c, next).id && 0 < next' <= NO_PAGE && forall id | id in q.pages :: id < next'
    ensures Survives(q, txn, T.PutRoot(u, T.Inserting, c, next), next', ints) && T.PutRootFits(u, T.Inserting, c, next)
  {
    hide TookIn, WayClear, AllTyped, T.Match, T.Put, T.PutRoot, T.PutRootFits, T.Placed, T.Tidy, TreeSpace.SpaceOk, T.Distinct, T.Balanced, T.SpineOk, T.Ids;
    SurvivingPut(p, q, txn, t, u, T.Inserting, c, next);
    B.PutRootSound(u, T.Inserting, c, next);
    SurvivingTyped(p, q, txn, t, T.Inserting, c, next, ints);
    TreeMatch.MatchIds(Surviving(q, txn), T.PutRoot(u, T.Inserting, c, next), NO_PAGE);
    SurvivingIds(q, txn);
  }

  lemma SurvivingIds(q: Pool, txn: TxnId)
    ensures Surviving(q, txn).Keys <= q.pages.Keys
  {}

  lemma InsertTookIn(b: B.BTree, p: Pool, t: T.Tree, c: Cell, next: PageId, view: Disk, txn: TxnId)
    requires b.Shaped() && b.RootEnded(B.Done, Start(p, txn), t, T.Inserting, c, next, view, p.frames) && Wrote(p, b.Now(), txn)
    requires b.tree == T.PutRoot(t, T.Inserting, c, next) && Unchanged(Seen(p), b.bp.View(), T.Ids(t))
    requires B.Represents(Seen(p), t, p.root, next) && Framed(p.pages, p.frames) && forall id: PageId :: id in p.pages <==> id < next
    ensures TookIn(p, b.Now(), txn, t, T.Inserting, c, next)
    ensures b.Now().root == b.tree.id && AllTyped(Seen(b.Now()), b.ints) && 0 < b.disk.nextPageId <= NO_PAGE
  {
    hide Wrote, T.Match, T.PutRoot, T.Tidy, TreeSpace.SpaceOk, T.Balanced, T.SpineOk, T.Ids, Dirtied, RootTouched, B.Bounded, AllTyped;
    PoolFramed(b);
  }

  lemma StillBounded(u: T.Tree, c: Cell, next: PageId, bound: Option<TreeSpace.Weights>)
    requires B.Bounded(u, bound) && (bound.Some? ==> TreeSpace.CellWithin(c, bound.value))
    ensures B.Bounded(T.PutRoot(u, T.Inserting, c, next), bound)
  {
    if bound.Some? { TreeSpace.PutRootWeighted(u, T.Inserting, c, next, bound.value); }
  }

  /**
    A row is inserted and its transaction committed. Other transactions may have changes in flight, only not on
    the way to the row: `u` is the tree that a crash would leave without them.
   */
  method InsertCommitted(m: Manager, t: Txn, b: B.BTree, table: nat, pk: Pk, row: Row, ghost s: Sys, ghost u: T.Tree) returns (r: B.Result)
    requires m.Valid() && m.Mine(t) && t.state == StateActive && m.bp == b.bp && m.wm == b.wm
    requires b.Shaped() && Typed(Key(table, pk), b.ints) && b.Accepts(T.Inserting, Cell(Key(table, pk), Data(row)))
    requires b.disk.nextPageId + T.Height(b.tree) + 2 < NO_PAGE
    requires Inv(s) && Mirrors(s, b.Now()) && InPhase(s, t.id, {Active}) && WayClear(b.bp.frames, b.tree, Key(table, pk), t.id)
    requires Survives(b.Now(), t.id, u, b.disk.nextPageId, b.ints) && B.Bounded(u, b.bound)
    requires T.Ordered(u, T.Unbounded, T.Unbounded) && Key(table, pk) !in AsMap(T.Contents(u))
    modifies m, t, b`tree, b.disk, b.bp, b.wm
    ensures r == B.Done ==>
              var c := Cell(Key(table, pk), Data(row));
              var u' := T.PutRoot(u, T.Inserting, c, old(b.disk.nextPageId));
              && AsMap(T.Contents(u')) == AsMap(T.Contents(u))[c.key := row] - Lost(u, T.Inserting, c)
              && T.Ordered(u', T.Unbounded, T.Unbounded) && B.Bounded(u', b.bound) && b.disk.Valid()
              && Recoverable(b.wm.durable, b.disk.pages, b.disk.rootPageId, b.disk.nextPageId, u', b.ints)
  {
    hide Inv, Mirrors, Wrote, T.Ordered, T.Match, T.Contents, T.Strict, T.Tidy, TreeShape.WellShaped, AllTyped, AsMap,
      Recoverable, B.Bounded, PoolOk, PinsOk, Framed, CoherentOk, FlushedDisk, FlushedFrames, T.Put, T.PutRoot, T.PutRootFits, T.Placed, InPhase, B.BTree.RootEnded, MutexesOk, Lists, SameDirt, SamePins,
      Survives, TookIn, WayClear, OwnDirt, Unchanged, TreeSpace.CellWithin, B.Taken;
    ghost var p, tree, next, c := b.Now(), b.tree, b.disk.nextPageId, Cell(Key(table, pk), Data(row));
    PoolFramed(b);
    b.Accepted(T.Inserting, c);
    StillBounded(u, c, next, b.bound);
    r := b.Insert(table, pk, row, t.id);
    if r == B.Done {
      ghost var q, u' := b.Now(), T.PutRoot(u, T.Inserting, c, next);
      InsertTookIn(b, p, tree, c, next, old(b.bp.View()), t.id);
      WritesOwn(p, q, t.id, tree, T.Inserting, c, next);
      PoolFramed(b);
      StillSurvives(p, q, t.id, tree, u, c, next, b.disk.nextPageId, b.ints);
      Files(s, p, q, t.id, u', b.disk.nextPageId, b.ints);
      InsertMeans(u, c, next);
      var st := m.Commit(t);
    }
  }

  lemma InsertMeans(u: T.Tree, c: Cell, next: PageId)
    requires T.Ordered(u, T.Unbounded, T.Unbounded) && c.body.Data? && c.key !in AsMap(T.Contents(u))
    ensures var u' := T.PutRoot(u, T.Inserting, c, next);
            && T.Ordered(u', T.Unbounded, T.Unbounded)
            && AsMap(T.Contents(u')) == AsMap(T.Contents(u))[c.key := c.body.row] - Lost(u, T.Inserting, c)
  {
    hide T.Ordered, AsMap, T.PutRoot, Lost;
    B.PutMeaning(u, T.Inserting, c, next);
  }

  /** The next process: it reads the log, recovers the page file and opens the tree, with an empty pool. */
  method Reopen(disk: DiskManager, log: seq<Rec>, size: nat, ghost ints: iset<nat>, ghost bound: Option<TreeSpace.Weights>, ghost t: T.Tree)
    returns (b: B.BTree)
    requires disk.Valid() && B.Bounded(t, bound)
    requires Recoverable(log, disk.pages, disk.rootPageId, disk.nextPageId, t, ints)
    modifies disk
    ensures fresh(b) && fresh(b.bp) && fresh(b.wm) && b.disk == disk && b.bp.maxSize == size && b.bp.frames == map[]
    ensures b.Shaped() && b.tree == t && b.ints == ints && b.wm.durable == log
  {
    hide T.Match, T.Tidy, TreeShape.WellShaped, B.Bounded, AllTyped;
    BoundBalanced(t, bound);
    RootBelow(Recovered(log, disk.pages), t, disk.rootPageId, disk.nextPageId);
    var wm := new WALManager(log);
    Recover(disk, wm);
    var bp := new BufferPool(disk, wm, size);
    NothingCached(disk.pages);
    b := new B.BTree(disk, bp, wm, ints, bound, t);
  }

  method ReopenAndSearch(disk: DiskManager, log: seq<Rec>, size: nat, table: nat, pk: Pk,
                         ghost ints: iset<nat>, ghost bound: Option<TreeSpace.Weights>, ghost t: T.Tree)
    returns (b: B.BTree, got: B.Result, found: Option<Row>)
    requires disk.Valid() && B.Bounded(t, bound) && T.Ordered(t, T.Unbounded, T.Unbounded) && Typed(Key(table, pk), ints)
    requires Recoverable(log, disk.pages, disk.rootPageId, disk.nextPageId, t, ints)
    modifies disk
    ensures b.Valid() && b.tree == t
    ensures size > 0 ==> got == B.Done && found == Lookup(T.Contents(t), Key(table, pk))
  {
    hide T.Ordered, T.Match, T.Contents, T.Strict, T.Tidy, TreeShape.WellShaped, AllTyped, Recoverable, PoolOk, PinsOk, CoherentOk, B.Bounded;
    b := Reopen(disk, log, size, ints, bound, t);
    assert Stuck(b.bp.frames) == {};
    got, found := b.Search(table, pk);
  }

  lemma BoundBalanced(t: T.Tree, bound: Option<TreeSpace.Weights>)
    requires B.Bounded(t, bound)
    ensures bound.Some? ==> TreeSpace.SepBalance(bound.value)
  {}

  lemma RootBelow(view: Disk, t: T.Tree, root: PageId, next: PageId)
    requires B.Represents(view, t, root, next)
    ensures root < NO_PAGE
  {
    TreeShape.RootInIds(t);
  }

  lemma NothingCached(disk: Disk)
    ensures ViewOf(disk, map[]) == disk
  {}

  /**
    A row is inserted and committed, the process dies, and the next one looks for it: it is there with all the rows
    of the committed tree, in a pool of any size, and of what others had in flight nothing is.
   */
  method InsertCommitRestart(m: Manager, t: Txn, b: B.BTree, table: nat, pk: Pk, row: Row, size: nat, ghost s: Sys, ghost u: T.Tree)
    returns (r: B.Result, b': B.BTree, got: B.Result, found: Option<Row>)
    requires m.Valid() && m.Mine(t) && t.state == StateActive && m.bp == b.bp && m.wm == b.wm
    requires b.Shaped() && Typed(Key(table, pk), b.ints) && b.Accepts(T.Inserting, Cell(Key(table, pk), Data(row)))
    requires b.disk.nextPageId + T.Height(b.tree) + 2 < NO_PAGE
    requires Inv(s) && Mirrors(s, b.Now()) && InPhase(s, t.id, {Active}) && WayClear(b.bp.frames, b.tree, Key(table, pk), t.id)
    requires Survives(b.Now(), t.id, u, b.disk.nextPageId, b.ints) && B.Bounded(u, b.bound)
    requires T.Ordered(u, T.Unbounded, T.Unbounded) && Key(table, pk) !in AsMap(T.Contents(u))
    modifies m, t, b`tree, b.disk, b.bp, b.wm
    ensures r == B.Done ==>
              var c := Cell(Key(table, pk), Data(row));
              && b'.Valid() && AsMap(T.Contents(b'.tree)) == AsMap(T.Contents(u))[c.key := row] - Lost(u, T.Inserting, c)
              && (size > 0 ==> got == B.Done && found == if c.key in Lost(u, T.Inserting, c) then None else Some(row))
  {
    hide Inv, Mirrors, T.Ordered, T.Match, T.Contents, T.Strict, T.Tidy, TreeShape.WellShaped, AllTyped, AsMap,
      Recoverable, PoolOk, PinsOk, CoherentOk, InPhase, MutexesOk, Lists, Survives, WayClear, T.PutRoot, B.Bounded;
    ghost var next := b.disk.nextPageId;
    r := InsertCommitted(m, t, b, table, pk, row, s, u);
    b', got, found := b, r, None;
    if r == B.Done {
      b', got, found := ReopenAndSearch(b.disk, b.wm.durable, size, table, pk, b.ints, b.bound, T.PutRoot(u, T.Inserting, Cell(Key(table, pk), Data(row)), next));
      LookupInMap(T.Contents(b'.tree), Key(table, pk));
    }
  }

  /** When no other transaction has a change in flight, the surviving tree is the one in the pool. */
  lemma AloneSurvives(b: B.BTree, txn: TxnId, key: Key)
    requires b.Shaped() && forall id: PageId :: Ours(b.bp.frames, id, txn)
    ensures Survives(b.Now(), txn, b.tree, b.disk.nextPageId, b.ints) && WayClear(b.bp.frames, b.tree, key, txn)
  {
    PoolFramed(b);
    assert Surviving(b.Now(), txn) == Seen(b.Now());
  }
}
