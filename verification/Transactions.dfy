/** Transactions and their manager as objects (txn/txn.go). */
module Transactions {
  import opened Types
  import opened Storage
  import opened Locks

  datatype State = StateActive | StateCommitted | StateAborted

  datatype LockStatus = Locked | CannotUpgrade | GaveUp

  class Txn {
    const id: TxnId
    var state: State
    var locks: seq<Entry>

    constructor (id: TxnId)
      ensures this.id == id && state == StateActive && locks == []
    {
      this.id := id;
      state, locks := StateActive, [];
    }

    /** Whether the transaction already has the lock. */
    method Holds(entry: Entry) returns (r: bool)
      ensures r <==> entry in locks
    {
      for i := 0 to |locks|
        invariant forall j | 0 <= j < i :: locks[j] != entry
      {
        if locks[i] == entry { return true; }
      }
      return false;
    }
  }

  /** The list names the entries of the set, each once. */
  ghost predicate Lists(locks: seq<Entry>, entries: set<Entry>) {
    && (forall e: Entry :: e in locks <==> e in entries)
    && forall i, j :: 0 <= i < j < |locks| ==> locks[i] != locks[j]
  }

  lemma ListsMore(locks: seq<Entry>, entries: set<Entry>, e: Entry)
    requires Lists(locks, entries) && e !in entries
    ensures Lists(locks + [e], entries + {e})
  {}

  lemma ListsFewer(locks: seq<Entry>, entries: set<Entry>)
    requires locks != [] && Lists(locks, entries)
    ensures locks[0] in entries && Lists(locks[1..], entries - {locks[0]})
  {
    assert locks == [locks[0]] + locks[1..];
  }

  class Manager {
    const wm: WALManager
    const bp: BufferPool
    var nextTxnId: nat
    var tableLocks: Mutexes
    /** Every transaction begun here, the locks each holds, and the locks of abandoned requests. */
    ghost var txns: map<TxnId, Txn>
    ghost var held: Held
    ghost var waiting: multiset<Entry>
    ghost var lost: multiset<Entry>

    ghost predicate Valid()
      reads this, txns.Values
    {
      && bp.wm == wm && txns.Keys == held.Keys
      && (forall id | id in txns :: txns[id].id == id <= nextTxnId && Lists(txns[id].locks, held[id]))
      && MutexesOk(tableLocks, held, lost)
    }

    ghost predicate Mine(t: Txn)
      reads this
    {
      t.id in txns && txns[t.id] == t
    }

    constructor (wm: WALManager, bp: BufferPool)
      requires bp.wm == wm
      ensures Valid() && this.wm == wm && this.bp == bp && nextTxnId == 0
      ensures txns == map[] && held == map[] && waiting == lost == multiset{}
    {
      this.wm, this.bp, nextTxnId := wm, bp, 0;
      tableLocks, txns, held, waiting, lost := map[], map[], map[], multiset{}, multiset{};
    }

    /** A new id, and a transaction that holds nothing. */
    method Begin() returns (t: Txn)
      requires Valid()
      modifies this
      ensures Valid() && fresh(t) && Mine(t) && t.state == StateActive && t.id !in old(txns)
      ensures t.id == nextTxnId == old(nextTxnId) + 1
      ensures txns == old(txns)[t.id := t] && held == old(held)[t.id := {}] && t.locks == []
      ensures waiting == old(waiting) && lost == old(lost) && tableLocks == old(tableLocks)
    {
      nextTxnId := nextTxnId + 1;
      t := new Txn(nextTxnId);
      BeginOk(tableLocks, held, lost, t.id);
      txns, held := txns[t.id := t], held[t.id := {}];
    }

    /** The table's mutex, made if there is none yet. */
    method TableMu(table: Table) returns (m: RWMutex)
      requires Valid()
      modifies this`tableLocks
      ensures Valid() && table in tableLocks && m == tableLocks[table] == MutexOf(old(tableLocks), table)
      ensures tableLocks == old(tableLocks)[table := m]
    {
      if table !in tableLocks {
        MadeOk(tableLocks, held, lost, table);
        tableLocks := tableLocks[table := UNLOCKED];
      }
      m := tableLocks[table];
    }

    /**
      `granted` is what the mutex, the clock and the caller's context decide: whether the request got
      through before the wait ended. An abandoned request keeps waiting for the mutex on its own.
     */
    method RLock(t: Txn, table: Table, granted: bool) returns (s: LockStatus)
      requires Valid() && Mine(t)
      requires granted ==> Free(MutexOf(tableLocks, table), Read) || CanRead(held[t.id], table)
      modifies this, t`locks
      ensures Valid() && txns == old(txns) && lost == old(lost) && nextTxnId == old(nextTxnId)
      ensures s != CannotUpgrade
      ensures s == Locked <==> granted || CanRead(old(held)[t.id], table)
      ensures s == Locked ==> CanRead(held[t.id], table) && waiting == old(waiting)
      ensures CanRead(old(held)[t.id], table) ==> held == old(held)
      ensures !CanRead(old(held)[t.id], table) && granted ==>
                held == old(held)[t.id := old(held)[t.id] + {Entry(Read, table)}]
      ensures s == GaveUp ==> held == old(held) && waiting == old(waiting) + multiset{Entry(Read, table)}
    {
      hide MutexesOk;
      var r := t.Holds(Entry(Read, table));
      var w := t.Holds(Entry(Write, table));
      if r || w { return Locked; }
      var m := TableMu(table);
      if granted {
        Take(t, Entry(Read, table), m);
        return Locked;
      }
      waiting := waiting + multiset{Entry(Read, table)};
      return GaveUp;
    }

    /** A read lock is never upgraded: asking for one is an error at once. */
    method Lock(t: Txn, table: Table, granted: bool) returns (s: LockStatus)
      requires Valid() && Mine(t)
      requires granted ==> Free(MutexOf(tableLocks, table), Write) || CanRead(held[t.id], table)
      modifies this, t`locks
      ensures Valid() && txns == old(txns) && lost == old(lost) && nextTxnId == old(nextTxnId)
      ensures s == CannotUpgrade <==> Entry(Read, table) in old(held)[t.id] && Entry(Write, table) !in old(held)[t.id]
      ensures s == Locked <==> Entry(Write, table) in held[t.id]
      ensures s == Locked ==> held == old(held)[t.id := old(held)[t.id] + {Entry(Write, table)}]
      ensures s == GaveUp ==> !granted && waiting == old(waiting) + multiset{Entry(Write, table)}
      ensures s != GaveUp ==> waiting == old(waiting)
      ensures s != Locked ==> held == old(held)
    {
      var w := t.Holds(Entry(Write, table));
      if w {
        assert held[t.id] + {Entry(Write, table)} == held[t.id];
        return Locked;
      }
      var r := t.Holds(Entry(Read, table));
      if r { return CannotUpgrade; }
      var m := TableMu(table);
      if granted {
        Take(t, Entry(Write, table), m);
        return Locked;
      }
      waiting := waiting + multiset{Entry(Write, table)};
      return GaveUp;
    }

    /** The mutex lets the transaction in, and the entry goes to its list. */
    method Take(t: Txn, e: Entry, m: RWMutex)
      requires Valid() && Mine(t) && e !in held[t.id] && m == MutexOf(tableLocks, e.table) && Free(m, e.mode)
      modifies this`tableLocks, this`held, t`locks
      ensures Valid() && held == old(held)[t.id := old(held)[t.id] + {e}]
    {
      TakeOk(tableLocks, held, lost, t.id, e);
      ListsMore(t.locks, held[t.id], e);
      tableLocks := tableLocks[e.table := Taken(m, e.mode)];
      t.locks := t.locks + [e];
      held := held[t.id := held[t.id] + {e}];
    }

    /** An abandoned request gets its lock after all. No transaction has it, so nothing releases it. */
    method LateGrant(e: Entry)
      requires Valid() && e in waiting && Free(MutexOf(tableLocks, e.table), e.mode)
      modifies this
      ensures Valid() && txns == old(txns) && held == old(held) && nextTxnId == old(nextTxnId)
      ensures waiting == old(waiting) - multiset{e} && lost == old(lost) + multiset{e}
    {
      LoseOk(tableLocks, held, lost, e);
      tableLocks := tableLocks[e.table := Taken(MutexOf(tableLocks, e.table), e.mode)];
      waiting, lost := waiting - multiset{e}, lost + multiset{e};
    }

    /** Releases every lock of the transaction, and no other. */
    method Unlock(t: Txn)
      requires Valid() && Mine(t)
      modifies this`tableLocks, this`held, t`locks
      ensures Valid() && t.locks == [] && held == old(held)[t.id := {}]
    {
      hide MutexesOk, Lists;
      while t.locks != []
        invariant Valid() && Mine(t)
        invariant held.Keys == old(held).Keys && forall u | u in held && u != t.id :: held[u] == old(held)[u]
        decreases |t.locks|
      {
        ReleaseFirst(t);
      }
      NothingListed(held[t.id]);
      assert held == old(held)[t.id := {}];
    }

    method ReleaseFirst(t: Txn)
      requires Valid() && Mine(t) && t.locks != []
      modifies this`tableLocks, this`held, t`locks
      ensures Valid() && t.locks == old(t.locks)[1..] && held == old(held)[t.id := old(held)[t.id] - {old(t.locks)[0]}]
    {
      var entry := t.locks[0];
      ListsFewer(t.locks, held[t.id]);
      ReleaseOk(tableLocks, held, lost, t.id, entry);
      var m := MutexOf(tableLocks, entry.table);
      tableLocks := tableLocks[entry.table := Released(m, entry.mode)];
      t.locks := t.locks[1..];
      held := held[t.id := held[t.id] - {entry}];
    }

    /** The last part of Commit and Rollback. */
    method End(t: Txn, state: State)
      requires Valid() && Mine(t)
      modifies this`tableLocks, this`held, t
      ensures Valid() && t.state == state && t.locks == [] && held == old(held)[t.id := {}]
    {
      t.state := state;
      Unlock(t);
    }

    /**
      COMMIT reaches the log file first, then exactly the pages this transaction dirtied are
      written, then its locks are released.
     */
    method Commit(t: Txn) returns (s: Status)
      requires Valid() && Mine(t) && bp.Valid()
      modifies this`tableLocks, this`held, t, wm, bp`frames, bp.disk
      ensures Valid() && bp.Valid()
      ensures s == Ok <==> old(t.state) == StateActive
      ensures s == Failed ==> unchanged(this) && unchanged(t) && unchanged(wm) && unchanged(bp) && unchanged(bp.disk)
      ensures s == Ok ==>
                && wm.durable == old(wm.durable) + (old(wm.buf) + [Rec(old(wm.nextLsn), t.id, 0, OpCommit, None)])
                && wm.buf == [] && wm.nextLsn == old(wm.nextLsn) + 1
                && bp.disk.pages == FlushedDisk(old(bp.disk.pages), old(bp.frames), {t.id})
                && bp.frames == FlushedFrames(old(bp.frames), {t.id})
                && bp.disk.rootPageId == old(bp.disk.rootPageId) && bp.disk.nextPageId == old(bp.disk.nextPageId)
                && t.state == StateCommitted && t.locks == [] && held == old(held)[t.id := {}]
      ensures s == Ok ==>
                forall id | id in old(bp.frames) && Flushable(old(bp.frames)[id], {t.id}) ::
                  id in bp.disk.logAt && wm.durable == bp.disk.logAt[id]
    {
      hide MutexesOk, Lists, PoolOk, Filed, FlushedDisk, FlushedFrames;
      if t.state != StateActive { return Failed; }
      var lsn := wm.Append(t.id, 0, OpCommit, None);
      wm.Flush();
      bp.FlushAll({t.id});
      End(t, StateCommitted);
      return Ok;
    }

    /**
      Throws away this transaction's changes to the pool. A pinned page makes it fail half way: the
      transaction stays active and keeps its locks.
     */
    method Rollback(t: Txn) returns (s: Status)
      requires Valid() && Mine(t) && bp.Valid()
      modifies this`tableLocks, this`held, t, wm, bp`frames
      ensures Valid() && bp.Valid() && wm.durable == old(wm.durable) && bp.frames.Keys == old(bp.frames).Keys
      ensures old(t.state) != StateActive ==> s == Failed && unchanged(this) && unchanged(t) && unchanged(wm) && unchanged(bp)
      ensures old(t.state) == StateActive ==>
                && wm.buf == old(wm.buf) + [Rec(old(wm.nextLsn), t.id, 0, OpAbort, None)] && wm.nextLsn == old(wm.nextLsn) + 1
                && (s == Ok <==> forall id | id in old(bp.frames) && Flushable(old(bp.frames)[id], {t.id}) :: old(bp.frames)[id].pin == 0)
      ensures s == Ok ==>
                && bp.frames == DiscardedFrames(bp.disk.pages, old(bp.frames), t.id)
                && t.state == StateAborted && t.locks == [] && held == old(held)[t.id := {}]
      ensures s == Failed ==> unchanged(this) && unchanged(t)
    {
      hide MutexesOk, Lists, PoolOk, Filed, DiscardedFrames;
      if t.state != StateActive { return Failed; }
      var lsn := wm.Append(t.id, 0, OpAbort, None);
      s := bp.DiscardTxn(t.id);
      if s == Failed { return Failed; }
      End(t, StateAborted);
      return Ok;
    }
  }

  lemma NothingListed(entries: set<Entry>)
    requires Lists([], entries)
    ensures entries == {}
  {}
}
