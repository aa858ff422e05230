/**
  Strict two-phase locking at the level of statements: which tables a statement locks
  (executor/executor.go), when a lock is granted, and when it is released (txn/txn.go), with the
  statements of any number of transactions interleaved in any way.
 */
module Serial {
  import opened Types
  import opened Storage
  import opened Locks
  import P = Plans

  type Rows = seq<Row>
  type Db = map<Table, Rows>

  /** Rows, or an error. */
  type Answer = Option<Rows>

  /**
    A statement is an arbitrary function of the tables it uses. A query reads several; INSERT, UPDATE
    and DELETE use one, and may change it even when they end in an error.
   */
  datatype Stmt =
    | Query(tables: set<Table>, ask: Db -> Answer)
    | Change(table: Table, act: Rows -> (Rows, Answer))

  function Restrict(db: Db, tables: set<Table>): Db {
    map t | t in db && t in tables :: db[t]
  }

  /** The effect of one statement, alone. */
  function Exec(db: Db, s: Stmt): (Db, Answer) {
    match s
    case Query(tables, ask) => (db, ask(Restrict(db, tables)))
    case Change(table, act) =>
      if table in db then (db[table := act(db[table]).0], act(db[table]).1) else (db, None)
  }

  /** A query sees the changed table as the change left it and the others as they were, and changes nothing. */
  lemma ChangeIsSeen(db: Db, table: Table, act: Rows -> (Rows, Answer), tables: set<Table>, ask: Db -> Answer)
    ensures var (db', answer) := Exec(db, Change(table, act));
            && answer == (if table in db then act(db[table]).1 else None)
            && Exec(db', Query(tables, ask)) == (db', ask(map t | t in db && t in tables :: if t == table then act(db[t]).0 else db[t]))
  {
    var db' := Exec(db, Change(table, act)).0;
    assert Restrict(db', tables) == map t | t in db && t in tables :: if t == table then act(db[t]).0 else db[t];
  }

  /** What a transaction did: its statements and the answers it got. */
  type History = seq<(Stmt, Answer)>

  function ExecAll(db: Db, h: History): Db {
    if h == [] then db else Exec(ExecAll(db, h[..|h| - 1]), h[|h| - 1].0).0
  }

  /** Run alone from `db`, the statements give the recorded answers. */
  ghost predicate Agrees(db: Db, h: History) {
    h == [] || (Agrees(db, h[..|h| - 1]) && Exec(ExecAll(db, h[..|h| - 1]), h[|h| - 1].0).1 == h[|h| - 1].1)
  }

  /** The transactions one after the other. */
  function ExecSerially(db: Db, done: seq<History>): Db {
    if done == [] then db else ExecAll(ExecSerially(db, done[..|done| - 1]), done[|done| - 1])
  }

  ghost predicate AgreesSerially(db: Db, done: seq<History>) {
    done == [] || (AgreesSerially(db, done[..|done| - 1]) && Agrees(ExecSerially(db, done[..|done| - 1]), done[|done| - 1]))
  }

  // ---- The system ----

  /** `hist` and `done` record what transactions saw; no step depends on them. */
  datatype Sys = Sys(
    db: Db, committed: Db, held: Held, waiting: multiset<Entry>, lost: multiset<Entry>, hist: map<TxnId, History>, done: seq<History>)

  function Start(db: Db): Sys { Sys(db, db, map[], multiset{}, multiset{}, map[], []) }

  datatype Step =
    | Begin(t: TxnId)
    | Acquire(t: TxnId, e: Entry)
    | GiveUp(t: TxnId, e: Entry)
    | LateGrant(e: Entry)
    | Run(t: TxnId, s: Stmt)
    | Commit(t: TxnId)
    | Rollback(t: TxnId, left: Db)

  /** The locks lockFor takes before the statement runs. */
  predicate Covered(entries: set<Entry>, s: Stmt) {
    match s
    case Query(tables, _) => forall table | table in tables :: CanRead(entries, table)
    case Change(table, _) => Entry(Write, table) in entries
  }

  /** The statement uses the tables that executing the plan reads, or the one it changes. */
  ghost predicate StatementOf(s: Stmt, node: P.PlanNode) {
    match node
    case Insert(table) => s.Change? && s.table == table
    case Update(table) => s.Change? && s.table == table
    case Delete(table) => s.Change? && s.table == table
    case _ => s.Query? && forall table :: table in s.tables <==> P.Reads(node, table)
  }

  /** The locks that lockFor takes for a plan are the ones its statement needs. */
  lemma PlanIsCovered(entries: set<Entry>, node: P.PlanNode, s: Stmt)
    requires StatementOf(s, node)
    ensures P.Covers(entries, node) <==> Covered(entries, s)
  {
    hide P.Reads;
  }

  /** There is such a statement for every plan, whatever it asks. */
  lemma PlanIsStatement(node: P.PlanNode, ask: Db -> Answer, act: Rows -> (Rows, Answer)) returns (s: Stmt)
    ensures StatementOf(s, node)
  {
    match node
    case Insert(table) => s := Change(table, act);
    case Update(table) => s := Change(table, act);
    case Delete(table) => s := Change(table, act);
    case _ =>
      s := Query((set table | table in P.TableNamesOf(node)), ask);
      forall table ensures table in s.tables <==> P.Reads(node, table) { P.NamesAreReads(node, table); }
  }

  ghost predicate Enabled(s: Sys, a: Step) {
    match a
    case Begin(t) => t !in s.held
    case Acquire(t, e) => t in s.held && !CanRead(s.held[t], e.table) && Compatible(s.held, s.lost, e)
    case GiveUp(t, e) => t in s.held && !CanRead(s.held[t], e.table)
    case LateGrant(e) => e in s.waiting && Compatible(s.held, s.lost, e)
    case Run(t, stmt) => t in s.held && Covered(s.held[t], stmt)
    case Commit(t) => t in s.held
    case Rollback(t, _) => t in s.held
  }

  /** The tables a transaction may have changed. */
  function Owned(entries: set<Entry>): set<Table> {
    set e | e in entries && e.mode == Write :: e.table
  }

  /** The first database with the tables of the set taken from the second. */
  function Mixed(a: Db, b: Db, tables: set<Table>): Db {
    map t | t in a :: if t in tables && t in b then b[t] else a[t]
  }

  /** What a rollback should leave: the committed version of the tables that the transaction may have changed. */
  function Restored(s: Sys, t: TxnId): Db
    requires t in s.held
  {
    Mixed(s.db, s.committed, Owned(s.held[t]))
  }

  /**
    What a rollback does leave is a parameter. Discarding pages leaves the committed tables as long as no page
    has two writers in flight and the transaction has not moved the root pointer (Undo).
   */
  ghost function Apply(s: Sys, a: Step): Sys
    requires Enabled(s, a)
  {
    match a
    case Begin(t) => s.(held := s.held[t := {}], hist := s.hist[t := []])
    case Acquire(t, e) => s.(held := s.held[t := s.held[t] + {e}])
    case GiveUp(t, e) => s.(waiting := s.waiting + multiset{e})
    case LateGrant(e) => s.(waiting := s.waiting - multiset{e}, lost := s.lost + multiset{e})
    case Run(t, stmt) =>
      var (db, answer) := Exec(s.db, stmt);
      s.(db := db, hist := s.hist[t := Seen(s, t) + [(stmt, answer)]])
    case Commit(t) =>
      s.(committed := Mixed(s.committed, s.db, Owned(s.held[t])), done := s.done + [Seen(s, t)],
         held := s.held - {t}, hist := s.hist - {t})
    case Rollback(t, left) => s.(db := left, held := s.held - {t}, hist := s.hist - {t})
  }

  function Seen(s: Sys, t: TxnId): History {
    if t in s.hist then s.hist[t] else []
  }

  // ---- The invariant ----

  /** No two transactions hold conflicting locks. */
  ghost predicate Exclusive(held: Held) {
    forall t, u, e, f | t in held && u in held && t != u && e in held[t] && f in held[u] :: !Conflict(e, f)
  }

  ghost predicate HistoryCovered(entries: set<Entry>, h: History) {
    forall i | 0 <= i < |h| :: Covered(entries, h[i].0)
  }

  /** On the tables of the set, the databases are alike. */
  ghost predicate SameOn(a: Db, b: Db, entries: set<Entry>) {
    forall table: Table | CanRead(entries, table) ::
      (table in a <==> table in b) && (table in a ==> a[table] == b[table])
  }

  /**
    A transaction in flight could have run alone on the committed tables: it would have got the same
    answers, and what it may read is as it would be then.
   */
  ghost predicate Isolated(committed: Db, db: Db, entries: set<Entry>, h: History) {
    && HistoryCovered(entries, h)
    && Agrees(committed, h)
    && SameOn(db, ExecAll(committed, h), entries)
  }

  ghost predicate AllIsolated(s: Sys) {
    forall t | t in s.held :: Isolated(s.committed, s.db, s.held[t], Seen(s, t))
  }

  /** A table that nobody may write is as it was committed. */
  ghost predicate Settled(db: Db, committed: Db, held: Held) {
    && db.Keys == committed.Keys
    && forall table | table in db && (forall t | t in held :: table !in Owned(held[t])) :: db[table] == committed[table]
  }

  ghost predicate Inv(s: Sys, db0: Db) {
    && s.held.Keys == s.hist.Keys && Exclusive(s.held)
    && AllIsolated(s) && Settled(s.db, s.committed, s.held)
    && s.committed == ExecSerially(db0, s.done) && AgreesSerially(db0, s.done)
  }

  // ---- Statements on similar databases ----

  lemma SameAnswer(a: Db, b: Db, entries: set<Entry>, s: Stmt)
    requires SameOn(a, b, entries) && Covered(entries, s)
    ensures Exec(a, s).1 == Exec(b, s).1 && SameOn(Exec(a, s).0, Exec(b, s).0, entries)
  {
    if s.Query? {
      assert Restrict(a, s.tables) == Restrict(b, s.tables);
    } else {
      assert CanRead(entries, s.table);
    }
  }

  lemma {:induction false} SameHistory(a: Db, b: Db, entries: set<Entry>, h: History)
    requires SameOn(a, b, entries) && HistoryCovered(entries, h)
    ensures SameOn(ExecAll(a, h), ExecAll(b, h), entries) && (Agrees(a, h) <==> Agrees(b, h))
  {
    if h != [] {
      var h0 := h[..|h| - 1];
      assert forall i | 0 <= i < |h0| :: h0[i] == h[i];
      SameHistory(a, b, entries, h0);
      SameAnswer(ExecAll(a, h0), ExecAll(b, h0), entries, h[|h| - 1].0);
    }
  }

  /** A history changes no table but those its transaction may write. */
  lemma {:induction false} HistoryFrame(db: Db, entries: set<Entry>, h: History)
    requires HistoryCovered(entries, h)
    ensures ExecAll(db, h).Keys == db.Keys
    ensures forall table | table in db && table !in Owned(entries) :: ExecAll(db, h)[table] == db[table]
  {
    if h != [] {
      var h0, s := h[..|h| - 1], h[|h| - 1].0;
      assert forall i | 0 <= i < |h0| :: h0[i] == h[i];
      HistoryFrame(db, entries, h0);
      assert Covered(entries, s);
      if s.Change? { assert s.table in Owned(entries); }
    }
  }

  lemma MoreEntries(committed: Db, db: Db, entries: set<Entry>, h: History, e: Entry)
    requires Isolated(committed, db, entries, h) && db.Keys == committed.Keys
    requires e.table in db && e.table !in Owned(entries) ==> db[e.table] == committed[e.table]
    requires e.table !in Owned(entries)
    ensures Isolated(committed, db, entries + {e}, h)
  {
    forall i | 0 <= i < |h| ensures Covered(entries + {e}, h[i].0) { assert Covered(entries, h[i].0); }
    HistoryFrame(committed, entries, h);
    var after := ExecAll(committed, h);
    forall table: Table | CanRead(entries + {e}, table)
      ensures (table in db <==> table in after) && (table in db ==> db[table] == after[table])
    {
      if table != e.table { assert CanRead(entries, table); }
    }
  }

  lemma OneMore(committed: Db, db: Db, entries: set<Entry>, h: History, s: Stmt)
    requires Isolated(committed, db, entries, h) && Covered(entries, s)
    ensures Isolated(committed, Exec(db, s).0, entries, h + [(s, Exec(db, s).1)])
  {
    var h' := h + [(s, Exec(db, s).1)];
    assert h'[..|h' | - 1] == h;
    SameAnswer(db, ExecAll(committed, h), entries, s);
  }

  /** Changes to tables the transaction cannot read do not concern it. */
  lemma Undisturbed(committed: Db, db: Db, committed': Db, db': Db, entries: set<Entry>, h: History)
    requires Isolated(committed, db, entries, h) && SameOn(committed, committed', entries) && SameOn(db, db', entries)
    ensures Isolated(committed', db', entries, h)
  {
    SameHistory(committed, committed', entries, h);
  }

  /** A table that one transaction may write, no other may read. */
  lemma OwnedIsUnread(held: Held, t: TxnId, u: TxnId, table: Table)
    requires Exclusive(held) && t in held && u in held && t != u && table in Owned(held[t])
    ensures !CanRead(held[u], table)
  {
    var e :| e in held[t] && e.mode == Write && e.table == table;
    forall f | f in held[u] ensures f.table != table { assert !Conflict(e, f); }
  }

  // ---- Steps ----

  lemma BeginInv(s: Sys, db0: Db, t: TxnId)
    requires Inv(s, db0) && Enabled(s, Begin(t))
    ensures Inv(Apply(s, Begin(t)), db0)
  {
    hide Isolated;
    var s' := Apply(s, Begin(t));
    BeginIsolated(s);
    forall u | u in s'.held ensures Isolated(s'.committed, s'.db, s'.held[u], Seen(s', u)) {
      if u != t { assert Isolated(s.committed, s.db, s.held[u], Seen(s, u)); }
    }
    forall table | table in s.db && (forall u | u in s'.held :: table !in Owned(s'.held[u])) ensures s.db[table] == s.committed[table] {
      forall u | u in s.held ensures table !in Owned(s.held[u]) { assert s'.held[u] == s.held[u]; }
    }
  }

  lemma BeginIsolated(s: Sys)
    ensures Isolated(s.committed, s.db, {}, [])
  {}

  lemma AcquireInv(s: Sys, db0: Db, t: TxnId, e: Entry)
    requires Inv(s, db0) && Enabled(s, Acquire(t, e))
    ensures Inv(Apply(s, Acquire(t, e)), db0)
  {
    hide Isolated;
    var s' := Apply(s, Acquire(t, e));
    forall u | u in s.held ensures e.table !in Owned(s.held[u]) {
      forall f | f in s.held[u] && f.mode == Write ensures f.table != e.table { assert !Conflict(e, f); }
    }
    assert Isolated(s.committed, s.db, s.held[t], Seen(s, t));
    MoreEntries(s.committed, s.db, s.held[t], Seen(s, t), e);
    forall u | u in s'.held ensures Isolated(s'.committed, s'.db, s'.held[u], Seen(s', u)) {
      if u != t { assert Isolated(s.committed, s.db, s.held[u], Seen(s, u)); }
    }
    AcquireExclusive(s.held, s.lost, t, e);
    MoreOwned(s, t, s.held[t] + {e});
  }

  lemma AcquireExclusive(held: Held, lost: multiset<Entry>, t: TxnId, e: Entry)
    requires Exclusive(held) && t in held && Compatible(held, lost, e)
    ensures Exclusive(held[t := held[t] + {e}])
  {
    var held' := held[t := held[t] + {e}];
    forall a, b, x, y | a in held' && b in held' && a != b && x in held'[a] && y in held'[b] ensures !Conflict(x, y) {
      if a == t && x == e {
        assert y in held[b];
      } else if b == t && y == e {
        assert x in held[a] && !Conflict(e, x);
      } else {
        assert x in held[a] && y in held[b];
      }
    }
  }

  lemma MoreOwned(s: Sys, t: TxnId, entries: set<Entry>)
    requires Settled(s.db, s.committed, s.held) && t in s.held && s.held[t] <= entries
    ensures Settled(s.db, s.committed, s.held[t := entries])
  {
    var held' := s.held[t := entries];
    forall table | table in s.db && (forall u | u in held' :: table !in Owned(held'[u])) ensures s.db[table] == s.committed[table] {
      forall u | u in s.held ensures table !in Owned(s.held[u]) {
        assert table !in Owned(held'[u]);
      }
    }
  }

  lemma RunStepInv(s: Sys, db0: Db, t: TxnId, stmt: Stmt)
    requires Inv(s, db0) && Enabled(s, Run(t, stmt))
    ensures Inv(Apply(s, Run(t, stmt)), db0)
  {
    hide Isolated, Settled, Exclusive;
    var s' := Apply(s, Run(t, stmt));
    forall u | u in s'.held ensures Isolated(s'.committed, s'.db, s'.held[u], Seen(s', u)) {
      assert Isolated(s.committed, s.db, s.held[u], Seen(s, u));
      if u == t {
        OneMore(s.committed, s.db, s.held[t], Seen(s, t), stmt);
      } else {
        RunUnseen(s, t, u, stmt);
        Undisturbed(s.committed, s.db, s.committed, s'.db, s.held[u], Seen(s, u));
      }
    }
    RunSettled(s, t, stmt);
  }

  lemma RunUnseen(s: Sys, t: TxnId, u: TxnId, stmt: Stmt)
    requires Exclusive(s.held) && t in s.held && u in s.held && t != u && Covered(s.held[t], stmt)
    ensures SameOn(s.db, Exec(s.db, stmt).0, s.held[u])
  {
    if stmt.Change? { OwnedIsUnread(s.held, t, u, stmt.table); }
  }

  lemma RunSettled(s: Sys, t: TxnId, stmt: Stmt)
    requires Settled(s.db, s.committed, s.held) && t in s.held && Covered(s.held[t], stmt)
    ensures Settled(Exec(s.db, stmt).0, s.committed, s.held)
  {
    if stmt.Change? { assert stmt.table in Owned(s.held[t]); }
  }

  lemma CommitInv(s: Sys, db0: Db, t: TxnId)
    requires Inv(s, db0) && Enabled(s, Commit(t))
    ensures Inv(Apply(s, Commit(t)), db0)
  {
    hide Isolated, Exclusive;
    var s' := Apply(s, Commit(t));
    assert Isolated(s.committed, s.db, s.held[t], Seen(s, t));
    CommitIsReplay(s, t);
    assert s'.done[..|s'.done| - 1] == s.done;
    IsolatedAgrees(s, t);
    forall u | u in s'.held ensures Isolated(s'.committed, s'.db, s'.held[u], Seen(s', u)) {
      assert Isolated(s.committed, s.db, s.held[u], Seen(s, u));
      MixedUnseen(s.committed, s.db, s.held, t, u);
      Undisturbed(s.committed, s.db, s'.committed, s.db, s.held[u], Seen(s, u));
    }
    FewerExclusive(s.held, t);
    CommitSettled(s, t);
  }

  lemma IsolatedAgrees(s: Sys, t: TxnId)
    requires t in s.held && Isolated(s.committed, s.db, s.held[t], Seen(s, t))
    ensures Agrees(s.committed, Seen(s, t))
  {}

  /** Taking over the written tables is running the whole transaction on the committed ones. */
  lemma CommitIsReplay(s: Sys, t: TxnId)
    requires t in s.held && Isolated(s.committed, s.db, s.held[t], Seen(s, t)) && s.db.Keys == s.committed.Keys
    ensures Mixed(s.committed, s.db, Owned(s.held[t])) == ExecAll(s.committed, Seen(s, t))
  {
    HistoryFrame(s.committed, s.held[t], Seen(s, t));
    var after := ExecAll(s.committed, Seen(s, t));
    forall table | table in s.committed && table in Owned(s.held[t]) ensures s.db[table] == after[table] {
      assert CanRead(s.held[t], table);
    }
  }

  lemma MixedUnseen(a: Db, b: Db, held: Held, t: TxnId, u: TxnId)
    requires Exclusive(held) && t in held && u in held && t != u
    ensures SameOn(a, Mixed(a, b, Owned(held[t])), held[u])
  {
    forall table: Table | table in Owned(held[t]) ensures !CanRead(held[u], table) { OwnedIsUnread(held, t, u, table); }
  }

  lemma FewerExclusive(held: Held, t: TxnId)
    requires Exclusive(held)
    ensures Exclusive(held - {t})
  {}

  lemma CommitSettled(s: Sys, t: TxnId)
    requires Settled(s.db, s.committed, s.held) && t in s.held
    ensures Settled(s.db, Mixed(s.committed, s.db, Owned(s.held[t])), s.held - {t})
    ensures Settled(Mixed(s.db, s.committed, Owned(s.held[t])), s.committed, s.held - {t})
  {
    var held' := s.held - {t};
    forall table | table in s.db && table !in Owned(s.held[t]) && (forall u | u in held' :: table !in Owned(held'[u]))
      ensures s.db[table] == s.committed[table]
    {
      forall u | u in s.held ensures table !in Owned(s.held[u]) {
        if u != t { assert held'[u] == s.held[u]; }
      }
    }
  }

  lemma RollbackInv(s: Sys, db0: Db, t: TxnId)
    requires Inv(s, db0) && t in s.held
    ensures Inv(Apply(s, Rollback(t, Restored(s, t))), db0)
  {
    hide Isolated, Settled, Exclusive;
    var s' := Apply(s, Rollback(t, Restored(s, t)));
    forall u | u in s'.held ensures Isolated(s'.committed, s'.db, s'.held[u], Seen(s', u)) {
      assert Isolated(s.committed, s.db, s.held[u], Seen(s, u));
      MixedUnseen(s.db, s.committed, s.held, t, u);
      Undisturbed(s.committed, s.db, s.committed, s'.db, s.held[u], Seen(s, u));
    }
    FewerExclusive(s.held, t);
    CommitSettled(s, t);
  }

  /** Requests that are waiting, and those granted too late, concern no transaction. */
  lemma SameRest(s: Sys, s': Sys, db0: Db)
    requires Inv(s, db0) && s' == s.(waiting := s'.waiting, lost := s'.lost)
    ensures Inv(s', db0)
  {
    hide Isolated;
    forall u | u in s.held ensures Isolated(s.committed, s.db, s.held[u], Seen(s', u)) {
      assert Isolated(s.committed, s.db, s.held[u], Seen(s, u));
    }
  }

  ghost predicate Restores(s: Sys, a: Step)
    requires Enabled(s, a)
  {
    a.Rollback? ==> a.left == Restored(s, a.t)
  }

  lemma StepInv(s: Sys, db0: Db, a: Step)
    requires Inv(s, db0) && Enabled(s, a) && Restores(s, a)
    ensures Inv(Apply(s, a), db0)
  {
    match a
    case Begin(t) => BeginInv(s, db0, t);
    case Acquire(t, e) => AcquireInv(s, db0, t, e);
    case GiveUp(t, e) => SameRest(s, Apply(s, a), db0);
    case LateGrant(e) => SameRest(s, Apply(s, a), db0);
    case Run(t, stmt) => RunStepInv(s, db0, t, stmt);
    case Commit(t) => CommitInv(s, db0, t);
    case Rollback(t, _) => RollbackInv(s, db0, t);
  }

  // ---- Serialisability ----

  ghost predicate Possible(s: Sys, run: seq<Step>)
    decreases |run|
  {
    run != [] ==> Enabled(s, run[0]) && Possible(Apply(s, run[0]), run[1..])
  }

  ghost function After(s: Sys, run: seq<Step>): Sys
    requires Possible(s, run)
    decreases |run|
  {
    if run == [] then s else After(Apply(s, run[0]), run[1..])
  }

  /** Every rollback of the run restores what its transaction may have changed. */
  ghost predicate Restoring(s: Sys, run: seq<Step>)
    requires Possible(s, run)
    decreases |run|
  {
    run != [] ==> Restores(s, run[0]) && Restoring(Apply(s, run[0]), run[1..])
  }

  lemma {:induction false} RunInv(s: Sys, db0: Db, run: seq<Step>)
    requires Inv(s, db0) && Possible(s, run) && Restoring(s, run)
    ensures Inv(After(s, run), db0)
    decreases |run|
  {
    if run != [] {
      StepInv(s, db0, run[0]);
      RunInv(Apply(s, run[0]), db0, run[1..]);
    }
  }

  /**
    The committed transactions one after the other, in commit order, would have got the answers they got, and the
    committed tables are the result. With no transaction in flight these are all there is.
   */
  ghost predicate Serially(s: Sys, db0: Db) {
    && AgreesSerially(db0, s.done)
    && s.committed == ExecSerially(db0, s.done)
    && (s.held == map[] ==> s.db == s.committed)
  }

  /** Every interleaving whose rollbacks restore is equivalent to the committed transactions one after the other. */
  lemma Serialisable(db: Db, run: seq<Step>)
    requires Possible(Start(db), run) && Restoring(Start(db), run)
    ensures Serially(After(Start(db), run), db)
  {
    RunInv(Start(db), db, run);
  }

  /** No dirty reads: what a transaction in flight has read, it could have read alone on the committed tables. */
  lemma ReadsAreCommitted(db: Db, run: seq<Step>, t: TxnId)
    requires Possible(Start(db), run) && Restoring(Start(db), run) && t in After(Start(db), run).held
    ensures var s := After(Start(db), run); Agrees(s.committed, Seen(s, t))
  {
    RunInv(Start(db), db, run);
  }

  // ---- Rollbacks that do not restore ----

  /** However the run goes on, with no further rollback that fails to restore. */
  ghost predicate AlwaysSerially(s: Sys, db0: Db) {
    forall run | Possible(s, run) && Restoring(s, run) :: Serially(After(s, run), db0)
  }

  predicate OnlyCommits(run: seq<Step>) { forall i | 0 <= i < |run| :: run[i].Commit? }

  /** All transactions commit. */
  lemma {:induction false} AllCommit(s: Sys) returns (run: seq<Step>)
    ensures Possible(s, run) && Restoring(s, run) && OnlyCommits(run)
    ensures var e := After(s, run); e.held == map[] && e.waiting == s.waiting && e.lost == s.lost
    decreases |s.held.Keys|
  {
    hide Enabled, Apply, Restores;
    if t :| t in s.held {
      OneCommit(s, t);
      var rest := AllCommit(Apply(s, Commit(t)));
      run := [Commit(t)] + rest;
      assert run[1..] == rest;
    } else {
      run := [];
    }
  }

  lemma OneCommit(s: Sys, t: TxnId)
    requires t in s.held
    ensures Enabled(s, Commit(t)) && Restores(s, Commit(t))
    ensures var s' := Apply(s, Commit(t)); s'.held.Keys == s.held.Keys - {t} && s'.waiting == s.waiting && s'.lost == s.lost
  {}

  /** Commits depend on the locks alone, and change no table. */
  lemma {:induction false} CommitsAlike(a: Sys, b: Sys, run: seq<Step>)
    requires Possible(a, run) && OnlyCommits(run) && b == a.(db := b.db, committed := b.committed)
    ensures Possible(b, run) && Restoring(b, run)
    ensures var d, e := After(a, run), After(b, run); e.held == d.held && e.done == d.done && d.db == a.db && e.db == b.db
    decreases |run|
  {
    if run != [] { CommitsAlike(Apply(a, run[0]), Apply(b, run[0]), run[1..]); }
  }

  /**
    A rollback, whatever it leaves behind: everything is serialisable ever after if and only if it leaves the
    committed version of the tables that its transaction had locked for writing, and all others as they were.
   */
  lemma RollbackIsSafeIff(s: Sys, db0: Db, t: TxnId, left: Db)
    requires Inv(s, db0) && t in s.held
    ensures AlwaysSerially(Apply(s, Rollback(t, left)), db0) <==> left == Restored(s, t)
  {
    hide Inv, Restored;
    RollbackInv(s, db0, t);
    var good, s' := Apply(s, Rollback(t, Restored(s, t))), Apply(s, Rollback(t, left));
    if left == Restored(s, t) {
      forall run | Possible(s', run) && Restoring(s', run) ensures Serially(After(s', run), db0) {
        RunInv(s', db0, run);
        InvSerially(After(s', run), db0);
      }
    }
    if AlwaysSerially(s', db0) {
      var run := AllCommit(good);
      CommitsAlike(good, s', run);
      RunInv(good, db0, run);
      InvSerially(After(good, run), db0);
    }
  }

  lemma InvSerially(s: Sys, db0: Db)
    requires Inv(s, db0)
    ensures Serially(s, db0)
  {}

  // ---- Locks of abandoned requests ----

  /** No step gives a lock of an abandoned request back: those locks are kept, and joined by the grants of the run. */
  lemma {:induction false} LostLocksAdd(s: Sys, run: seq<Step>)
    requires Possible(s, run)
    ensures After(s, run).lost == s.lost + Granted(run)
    decreases |run|
  {
    if run != [] { LostLocksAdd(Apply(s, run[0]), run[1..]); }
  }

  /** The locks that abandoned requests are granted in a run. */
  function Granted(run: seq<Step>): multiset<Entry> {
    if run == [] then multiset{}
    else (if run[0].LateGrant? then multiset{run[0].e} else multiset{}) + Granted(run[1..])
  }

  /** Once granted to an abandoned request, a lock is held for ever, and no run lets a conflicting request through again. */
  lemma LostLockStaysLost(s: Sys, run: seq<Step>, t: TxnId, e: Entry, f: Entry)
    requires Possible(s, run) && e in s.lost && Conflict(e, f)
    ensures e in After(s, run).lost && !Enabled(After(s, run), Acquire(t, f))
  {
    LostLocksAdd(s, run);
  }

  predicate NobodyGivesUp(run: seq<Step>) { forall i | 0 <= i < |run| :: !run[i].GiveUp? }

  /** Every abandoned request that is still waiting is shut out by a lock that nobody will release. */
  ghost predicate ShutOut(s: Sys) {
    forall e | e in s.waiting :: exists f :: f in s.lost && Conflict(e, f)
  }

  lemma ShutOutStep(s: Sys, a: Step)
    requires Enabled(s, a) && ShutOut(s) && !a.GiveUp?
    ensures var s' := Apply(s, a); s'.lost == s.lost && ShutOut(s')
  {
  }

  lemma {:induction false} ShutOutRun(s: Sys, run: seq<Step>)
    requires Possible(s, run) && ShutOut(s) && NobodyGivesUp(run)
    ensures After(s, run).lost == s.lost
    decreases |run|
  {
    hide Enabled, Apply, ShutOut;
    if run != [] {
      ShutOutStep(s, run[0]);
      ShutOutRun(Apply(s, run[0]), run[1..]);
    }
  }

  lemma {:induction false} Then(s: Sys, run: seq<Step>, a: Step)
    requires Possible(s, run) && Enabled(After(s, run), a)
    ensures Possible(s, run + [a]) && After(s, run + [a]) == Apply(After(s, run), a)
    decreases |run|
  {
    hide Enabled, Apply;
    if run == [] {
      assert [a][1..] == [];
    } else {
      Then(Apply(s, run[0]), run[1..], a);
      assert (run + [a])[1..] == run[1..] + [a];
    }
  }

  /** A request that no such lock shuts out gets its lock as soon as all transactions have ended. */
  lemma GrantedAtEnd(s: Sys, e: Entry) returns (run: seq<Step>)
    requires e in s.waiting && forall f :: f in s.lost ==> !Conflict(e, f)
    ensures Possible(s, run) && NobodyGivesUp(run) && After(s, run).lost == s.lost + multiset{e}
  {
    var commits := AllCommit(s);
    Then(s, commits, LateGrant(e));
    run := commits + [LateGrant(e)];
  }

  /**
    The locks that nobody will release stay as they are, for as long as no transaction gives a request up,
    exactly if every abandoned request that is still waiting conflicts with one of them.
   */
  lemma LostSameIff(s: Sys)
    ensures (forall run | Possible(s, run) && NobodyGivesUp(run) :: After(s, run).lost == s.lost) <==> ShutOut(s)
  {
    hide Enabled, Apply;
    if ShutOut(s) {
      forall run | Possible(s, run) && NobodyGivesUp(run) ensures After(s, run).lost == s.lost { ShutOutRun(s, run); }
    } else {
      var e :| e in s.waiting && forall f :: f in s.lost ==> !Conflict(e, f);
      var run := GrantedAtEnd(s, e);
      assert (s.lost + multiset{e})[e] == s.lost[e] + 1;
    }
  }

  /** The holder of a table commits after another transaction has stopped waiting for it. */
  function GivenUp(table: Table): seq<Step> {
    [Begin(1), Begin(2), Acquire(1, Entry(Write, table))] + [GiveUp(2, Entry(Write, table)), Commit(1), LateGrant(Entry(Write, table))]
  }

  lemma ThreeSteps(s: Sys, a: Step, b: Step, c: Step)
    requires Enabled(s, a) && Enabled(Apply(s, a), b) && Enabled(Apply(Apply(s, a), b), c)
    ensures Possible(s, [a, b, c]) && After(s, [a, b, c]) == Apply(Apply(Apply(s, a), b), c)
  {
    hide Enabled, Apply;
    Then(s, [], a);
    Then(s, [] + [a], b);
    Then(s, [] + [a] + [b], c);
    assert [] + [a] + [b] + [c] == [a, b, c];
  }

  lemma {:induction false} RunsJoin(s: Sys, a: seq<Step>, b: seq<Step>)
    requires Possible(s, a) && Possible(After(s, a), b)
    ensures Possible(s, a + b) && After(s, a + b) == After(After(s, a), b)
    decreases |a|
  {
    hide Enabled, Apply;
    if a == [] {
      assert a + b == b;
    } else {
      RunsJoin(Apply(s, a[0]), a[1..], b);
      assert (a + b)[1..] == a[1..] + b;
    }
  }

  /** From the start six steps lock a table for good: no transaction will ever read or write it again. */
  lemma AbandonedRequestLocksTable(db: Db, table: Table)
    ensures Possible(Start(db), GivenUp(table))
    ensures var s := After(Start(db), GivenUp(table));
            && s.db == db && s.held == map[2 := {}] && s.lost == multiset{Entry(Write, table)}
            && forall more, t, f: Entry | Possible(s, more) && f.table == table :: !Enabled(After(s, more), Acquire(t, f))
  {
    hide Possible, After;
    var e := Entry(Write, table);
    var s0 := Start(db);
    var s2 := Apply(Apply(s0, Begin(1)), Begin(2));
    assert s2.held == map[1 := {}, 2 := {}];
    ThreeSteps(s0, Begin(1), Begin(2), Acquire(1, e));
    var s3 := Apply(s2, Acquire(1, e));
    assert {} + {e} == {e} && s3.held == map[1 := {e}, 2 := {}];
    LateGranted(s3, e);
    RunsJoin(s0, [Begin(1), Begin(2), Acquire(1, e)], [GiveUp(2, e), Commit(1), LateGrant(e)]);
    var s := After(s0, GivenUp(table));
    forall more, t, f: Entry | Possible(s, more) && f.table == table ensures !Enabled(After(s, more), Acquire(t, f)) {
      LostLockStaysLost(s, more, t, e, f);
    }
  }

  lemma LateGranted(s: Sys, e: Entry)
    requires e.mode == Write && s.held == map[1 := {e}, 2 := {}] && s.waiting == multiset{} && s.lost == multiset{}
    ensures var run := [GiveUp(2, e), Commit(1), LateGrant(e)];
            && Possible(s, run)
            && var s' := After(s, run);
               s'.held == map[2 := {}] && s'.lost == multiset{e} && s'.db == s.db
  {
    hide Possible, After;
    var a := Apply(Apply(s, GiveUp(2, e)), Commit(1));
    assert a.held == map[2 := {}] && a.waiting == multiset{e};
    ThreeSteps(s, GiveUp(2, e), Commit(1), LateGrant(e));
  }
}
