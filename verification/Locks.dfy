/** Table locks: reader/writer mutexes and who holds them (txn/txn.go). */
module Locks {
  import opened Types
  import opened Storage

  type Table = Text

  datatype Mode = Read | Write

  /** An entry of a transaction's lock list, "r:table" or "w:table" in the code. */
  datatype Entry = Entry(mode: Mode, table: Table)

  type Held = map<TxnId, set<Entry>>

  /** A reader/writer mutex: any number of readers or one writer. */
  datatype RWMutex = RWMutex(readers: nat, writer: bool)

  const UNLOCKED := RWMutex(0, false)

  type Mutexes = map<Table, RWMutex>

  /** A mutex is made on first use, unlocked. */
  function MutexOf(mutexes: Mutexes, table: Table): RWMutex {
    if table in mutexes then mutexes[table] else UNLOCKED
  }

  /** When the mutex lets a caller in. */
  predicate Free(m: RWMutex, mode: Mode) {
    !m.writer && (mode == Write ==> m.readers == 0)
  }

  function Taken(m: RWMutex, mode: Mode): RWMutex {
    if mode == Read then m.(readers := m.readers + 1) else m.(writer := true)
  }

  function Released(m: RWMutex, mode: Mode): RWMutex
    requires mode == Read ==> m.readers > 0
  {
    if mode == Read then m.(readers := m.readers - 1) else m.(writer := false)
  }

  predicate Conflict(a: Entry, b: Entry) {
    a.table == b.table && (a.mode == Write || b.mode == Write)
  }

  /** Whether the entries allow reading the table; a write lock does as well. */
  predicate CanRead(entries: set<Entry>, table: Table) {
    Entry(Read, table) in entries || Entry(Write, table) in entries
  }

  function Holders(held: Held, e: Entry): set<TxnId> {
    set t | t in held && e in held[t]
  }

  /**
    The mutex counts its holders: transactions, and abandoned requests (`lost`) that were granted
    after their transaction had given up, and which nobody will release.
   */
  ghost predicate MutexOk(m: RWMutex, held: Held, lost: multiset<Entry>, table: Table) {
    && m.readers == |Holders(held, Entry(Read, table))| + lost[Entry(Read, table)]
    && (if m.writer then 1 else 0) == |Holders(held, Entry(Write, table))| + lost[Entry(Write, table)]
    && (m.writer ==> m.readers == 0)
  }

  ghost predicate MutexesOk(mutexes: Mutexes, held: Held, lost: multiset<Entry>) {
    forall table: Table :: MutexOk(MutexOf(mutexes, table), held, lost, table)
  }

  /** Nothing that is held conflicts with the entry. */
  ghost predicate Compatible(held: Held, lost: multiset<Entry>, e: Entry) {
    && (forall t, f | t in held && f in held[t] :: !Conflict(e, f))
    && forall f | f in lost :: !Conflict(e, f)
  }

  lemma HolderCounts(held: Held, e: Entry)
    ensures |Holders(held, e)| == 0 <==> forall t | t in held :: e !in held[t]
  {
    if |Holders(held, e)| == 0 {
      forall t | t in held ensures e !in held[t] { assert t !in Holders(held, e); }
    } else {
      var t :| t in Holders(held, e);
    }
  }

  /** The mutex lets a caller in exactly when nobody holds a conflicting lock. */
  lemma FreeIffCompatible(m: RWMutex, held: Held, lost: multiset<Entry>, e: Entry)
    requires MutexOk(m, held, lost, e.table)
    ensures Free(m, e.mode) <==> Compatible(held, lost, e)
  {
    var r, w := Entry(Read, e.table), Entry(Write, e.table);
    HolderCounts(held, r);
    HolderCounts(held, w);
    assert Conflict(e, w) && (Conflict(e, r) <==> e.mode == Write);
    if Free(m, e.mode) {
      forall f: Entry | Conflict(e, f) ensures f !in lost && forall t | t in held :: f !in held[t] {
        assert f == if f.mode == Write then w else r;
      }
    } else {
      assert w in lost || Holders(held, w) != {} || r in lost || Holders(held, r) != {};
    }
  }

  /** Mutual exclusion: no two transactions hold conflicting locks. */
  lemma Exclusion(mutexes: Mutexes, held: Held, lost: multiset<Entry>, t: TxnId, u: TxnId, e: Entry, f: Entry)
    requires MutexesOk(mutexes, held, lost)
    requires t in held && u in held && t != u && e in held[t] && f in held[u]
    ensures !Conflict(e, f)
  {
    var m := MutexOf(mutexes, e.table);
    assert MutexOk(m, held, lost, e.table);
    if Conflict(e, f) {
      assert t in Holders(held, e) && u in Holders(held, f);
      if e == f {
        assert {t, u} <= Holders(held, e);
        Fewer({t, u}, Holders(held, e));
      } else {
        HolderCounts(held, e);
        HolderCounts(held, f);
      }
    }
  }

  lemma TakeOne(m: RWMutex, held: Held, lost: multiset<Entry>, t: TxnId, e: Entry)
    requires MutexOk(m, held, lost, e.table) && t in held && e !in held[t] && Free(m, e.mode)
    ensures MutexOk(Taken(m, e.mode), held[t := held[t] + {e}], lost, e.table)
  {
    var held' := held[t := held[t] + {e}];
    assert Holders(held', e) == Holders(held, e) + {t} && t !in Holders(held, e);
    var f := Entry(if e.mode == Read then Write else Read, e.table);
    assert Holders(held', f) == Holders(held, f);
  }

  /** The mutex of another table is not concerned. */
  lemma OtherTable(m: RWMutex, held: Held, lost: multiset<Entry>, t: TxnId, entries: set<Entry>, table: Table)
    requires MutexOk(m, held, lost, table) && t in held
    requires forall f: Entry | f.table == table :: f in entries <==> f in held[t]
    ensures MutexOk(m, held[t := entries], lost, table)
  {
    var held' := held[t := entries];
    assert Holders(held', Entry(Read, table)) == Holders(held, Entry(Read, table));
    assert Holders(held', Entry(Write, table)) == Holders(held, Entry(Write, table));
  }

  lemma TakeOk(mutexes: Mutexes, held: Held, lost: multiset<Entry>, t: TxnId, e: Entry)
    requires MutexesOk(mutexes, held, lost) && t in held && e !in held[t] && Free(MutexOf(mutexes, e.table), e.mode)
    ensures MutexesOk(mutexes[e.table := Taken(MutexOf(mutexes, e.table), e.mode)], held[t := held[t] + {e}], lost)
  {
    hide MutexOk, Taken, Free;
    var mutexes' := mutexes[e.table := Taken(MutexOf(mutexes, e.table), e.mode)];
    TakeOne(MutexOf(mutexes, e.table), held, lost, t, e);
    forall table: Table ensures MutexOk(MutexOf(mutexes', table), held[t := held[t] + {e}], lost, table) {
      if table != e.table { OtherTable(MutexOf(mutexes, table), held, lost, t, held[t] + {e}, table); }
    }
  }

  lemma ReleaseOk(mutexes: Mutexes, held: Held, lost: multiset<Entry>, t: TxnId, e: Entry)
    requires MutexesOk(mutexes, held, lost) && t in held && e in held[t]
    ensures e.mode == Read ==> MutexOf(mutexes, e.table).readers > 0
    ensures MutexesOk(mutexes[e.table := Released(MutexOf(mutexes, e.table), e.mode)], held[t := held[t] - {e}], lost)
  {
    var held' := held[t := held[t] - {e}];
    assert MutexOk(MutexOf(mutexes, e.table), held, lost, e.table);
    assert t in Holders(held, e);
    Fewer({t}, Holders(held, e));
    forall f: Entry ensures Holders(held', f) == if f == e then Holders(held, f) - {t} else Holders(held, f) {}
    var mutexes' := mutexes[e.table := Released(MutexOf(mutexes, e.table), e.mode)];
    forall table: Table ensures MutexOk(MutexOf(mutexes', table), held', lost, table) {
      assert MutexOk(MutexOf(mutexes, table), held, lost, table);
    }
  }

  lemma LoseOk(mutexes: Mutexes, held: Held, lost: multiset<Entry>, e: Entry)
    requires MutexesOk(mutexes, held, lost) && Free(MutexOf(mutexes, e.table), e.mode)
    ensures MutexesOk(mutexes[e.table := Taken(MutexOf(mutexes, e.table), e.mode)], held, lost + multiset{e})
  {
    var mutexes' := mutexes[e.table := Taken(MutexOf(mutexes, e.table), e.mode)];
    forall table: Table ensures MutexOk(MutexOf(mutexes', table), held, lost + multiset{e}, table) {
      assert MutexOk(MutexOf(mutexes, table), held, lost, table);
    }
  }

  lemma BeginOk(mutexes: Mutexes, held: Held, lost: multiset<Entry>, t: TxnId)
    requires MutexesOk(mutexes, held, lost) && t !in held
    ensures MutexesOk(mutexes, held[t := {}], lost)
  {
    forall f: Entry ensures Holders(held[t := {}], f) == Holders(held, f) {}
    forall table: Table ensures MutexOk(MutexOf(mutexes, table), held[t := {}], lost, table) {
      assert MutexOk(MutexOf(mutexes, table), held, lost, table);
    }
  }

  lemma MadeOk(mutexes: Mutexes, held: Held, lost: multiset<Entry>, table: Table)
    requires MutexesOk(mutexes, held, lost) && table !in mutexes
    ensures MutexesOk(mutexes[table := UNLOCKED], held, lost)
  {
    var mutexes' := mutexes[table := UNLOCKED];
    forall x: Table ensures MutexOk(MutexOf(mutexes', x), held, lost, x) {
      assert MutexOk(MutexOf(mutexes, x), held, lost, x);
    }
  }
}
