/** Redo of the latest committed page images (storage/btree/recovery.go). */
module Recovery {
  import opened Types
  import opened Pages
  import opened Storage

  ghost predicate Increasing(recs: seq<Rec>) {
    forall i, j :: 0 <= i < j < |recs| ==> recs[i].lsn < recs[j].lsn
  }

  /** The transactions with a COMMIT record. */
  ghost function Committed(recs: seq<Rec>): set<TxnId> {
    set i | 0 <= i < |recs| && recs[i].op.OpCommit? :: recs[i].txn
  }

  predicate PageWrite(r: Rec, id: PageId) {
    r.op !in {OpCommit, OpAbort} && r.page == id
  }

  /** The last record about a page, whoever wrote it. */
  ghost function LastOf(recs: seq<Rec>, id: PageId): Option<Rec> {
    if recs == [] then None
    else if PageWrite(recs[|recs| - 1], id) then Some(recs[|recs| - 1])
    else LastOf(recs[..|recs| - 1], id)
  }

  /** The last record about a page among those of the given transactions. */
  ghost function LastCommitted(recs: seq<Rec>, done: set<TxnId>, id: PageId): Option<Rec> {
    if recs == [] then None
    else
      var r := recs[|recs| - 1];
      if PageWrite(r, id) && r.txn in done then Some(r) else LastCommitted(recs[..|recs| - 1], done, id)
  }

  /** Every page record carries an image of its own page, and that page is on disk. */
  ghost predicate ImagesOk(recs: seq<Rec>, disk: Disk) {
    forall i | 0 <= i < |recs| && PageWrite(recs[i], recs[i].page) ::
      recs[i].redo.Some? && recs[i].redo.value.id == recs[i].page && recs[i].page in disk
  }

  /** The image recovery gives to a page, if any. */
  ghost function Redo(recs: seq<Rec>, id: PageId): Option<Page> {
    match LastCommitted(recs, Committed(recs), id)
    case None => None
    case Some(r) => r.redo
  }

  ghost function Recovered(recs: seq<Rec>, disk: Disk): Disk {
    map id | id in disk :: match Redo(recs, id) case Some(p) => p case None => disk[id]
  }

  lemma {:induction false} LastCommittedIn(recs: seq<Rec>, done: set<TxnId>, id: PageId) returns (k: nat)
    requires LastCommitted(recs, done, id).Some?
    ensures k < |recs| && recs[k] == LastCommitted(recs, done, id).value && PageWrite(recs[k], id) && recs[k].txn in done
    ensures forall j :: k < j < |recs| ==> !(PageWrite(recs[j], id) && recs[j].txn in done)
  {
    k := |recs| - 1;
    if !(PageWrite(recs[k], id) && recs[k].txn in done) {
      var n := k;
      k := LastCommittedIn(recs[..n], done, id);
      assert forall j :: 0 <= j < n ==> recs[..n][j] == recs[j];
    }
  }

  /** A second recovery from the same log changes nothing. */
  lemma RecoverTwice(recs: seq<Rec>, disk: Disk)
    ensures Recovered(recs, Recovered(recs, disk)) == Recovered(recs, disk)
  {
    assert Recovered(recs, disk).Keys == disk.Keys;
  }

  /** Recovery after a crash in the middle of recovery completes the work. */
  lemma RecoverResumed(recs: seq<Rec>, disk: Disk, partial: Disk)
    requires partial.Keys == disk.Keys
    requires forall id :: id in disk ==> partial[id] == disk[id] || partial[id] == Recovered(recs, disk)[id]
    ensures Recovered(recs, partial) == Recovered(recs, disk)
  {}

  // ---- The code ----

  /** The first two loops of Recover. */
  method Scan(records: seq<Rec>) returns (committed: set<TxnId>, latest: map<PageId, Rec>)
    requires Increasing(records)
    ensures committed == Committed(records)
    ensures forall id: PageId :: id in latest <==> LastCommitted(records, committed, id).Some?
    ensures forall id :: id in latest ==> latest[id] == LastCommitted(records, committed, id).value
  {
    committed := {};
    for i := 0 to |records|
      invariant committed == Committed(records[..i])
    {
      if records[i].op == OpCommit { committed := committed + {records[i].txn}; }
      CommittedStep(records, i);
    }
    assert records[..|records|] == records;
    latest := map[];
    for i := 0 to |records|
      invariant forall id: PageId :: id in latest <==> LastCommitted(records[..i], committed, id).Some?
      invariant forall id :: id in latest ==> latest[id] == LastCommitted(records[..i], committed, id).value
    {
      var r := records[i];
      assert records[..i + 1][..i] == records[..i];
      if r.op != OpInsert && r.op != OpUpdate && r.op != OpDelete { continue; }
      if r.txn !in committed { continue; }
      if r.page in latest {
        var k := LastCommittedIn(records[..i], committed, r.page);
        assert records[..i][k] == records[k];
      }
      if r.page !in latest || r.lsn > latest[r.page].lsn { latest := latest[r.page := r]; }
    }
  }

  lemma CommittedStep(recs: seq<Rec>, i: nat)
    requires i < |recs|
    ensures Committed(recs[..i + 1]) == Committed(recs[..i]) + if recs[i].op.OpCommit? then {recs[i].txn} else {}
  {
    var a, b := recs[..i + 1], recs[..i];
    forall t | t in Committed(b) ensures t in Committed(a) {
      var j :| 0 <= j < |b| && b[j].op.OpCommit? && b[j].txn == t;
      assert a[j] == b[j];
    }
    if recs[i].op.OpCommit? { assert a[i] == recs[i]; }
  }

  /** Recover: every page with a committed change gets the image of the latest one. */
  method Recover(disk: DiskManager, wm: WALManager)
    requires disk.Valid() && Increasing(wm.durable) && ImagesOk(wm.durable, disk.pages)
    modifies disk
    ensures disk.Valid() && disk.pages == Recovered(wm.durable, old(disk.pages))
    ensures disk.rootPageId == old(disk.rootPageId) && disk.nextPageId == old(disk.nextPageId)
  {
    var records := wm.durable;
    var committed, latest := Scan(records);
    ghost var before := disk.pages;
    var todo := latest.Keys;
    while todo != {}
      invariant disk.Valid() && todo <= latest.Keys && disk.pages.Keys == before.Keys
      invariant disk.rootPageId == old(disk.rootPageId) && disk.nextPageId == old(disk.nextPageId)
      invariant forall id | id in before :: disk.pages[id] == if id in todo then before[id] else Recovered(records, before)[id]
      decreases todo
    {
      var id :| id in todo;
      ghost var k := LastCommittedIn(records, committed, id);
      disk.WritePage(latest[id].redo.value, records);
      todo := todo - {id};
    }
  }
}
