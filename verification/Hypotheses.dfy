/**
  What the two hypotheses of the machine are worth: one writer a page, and transaction ids that are
  not used twice. For each the exact condition under which every continuation stays right, in terms
  of what readers see and what recovery would restore, and a run that goes wrong without it.
 */
module Hypotheses {
  import opened Types
  import opened Pages
  import opened Storage
  import opened Recovery
  import opened Machine
  import opened MachineProofs
  import opened Durability

  /** A reader of a page that nobody is changing sees what recovery would restore after a crash now. */
  ghost predicate Agrees(s: Sys) {
    s.up ==> forall id | id in s.disk && DirtyOf(s.frames, id) == None ::
      SameButLsn(ViewOf(s.disk, s.frames)[id], Recovered(s.log, s.disk)[id])
  }

  /** The system never shows a reader one version and recovers to another, whatever the machine does from here. */
  ghost predicate AlwaysAgrees(s: Sys) {
    forall run | Possible(s, run) :: Agrees(After(s, run))
  }

  lemma InvAgrees(s: Sys)
    requires Inv(s)
    ensures Agrees(s)
  {
    hide LogOk, PhasesOk, MarkedOk, PendingOk, LatestOk, TraceOk, NoSteal;
    if s.up {
      forall id | id in s.disk && DirtyOf(s.frames, id) == None
        ensures SameButLsn(ViewOf(s.disk, s.frames)[id], Recovered(s.log, s.disk)[id])
      {
        if id in s.frames { assert FrameOk(s.frames[id], id, s.phase, s.ws, s.disk); }
      }
    }
  }

  lemma InvAlwaysAgrees(s: Sys)
    requires Inv(s)
    ensures AlwaysAgrees(s)
  {
    hide Inv, Agrees;
    forall run | Possible(s, run) ensures Agrees(After(s, run)) {
      RunInv(s, run);
      InvAgrees(After(s, run));
    }
  }

  // ---- No step depends on what the system promises ----

  /** Equal but for the fields that say what the system promises. */
  predicate SameCode(a: Sys, b: Sys) {
    a == b.(born := a.born, cv := a.cv, ws := a.ws)
  }

  lemma SameEnabled(a: Sys, b: Sys, step: Step)
    requires SameCode(a, b) && Enabled(a, step)
    ensures Enabled(b, step)
  {
    if step.Begin? { assert AllRecs(a) == AllRecs(b); }
    if step.EndCommit? || step.EndRollback? { assert NoneDirty(a, step.t); }
  }

  lemma SameStep(a: Sys, b: Sys, step: Step)
    requires SameCode(a, b) && Enabled(a, step) && Enabled(b, step)
    ensures SameCode(Apply(a, step), Apply(b, step))
  {
    hide Enabled;
    if step.FlushLog? { assert Flushed(a).phase == Flushed(b).phase; }
  }

  lemma {:induction false} SameRun(a: Sys, b: Sys, run: seq<Step>)
    requires SameCode(a, b) && Possible(a, run)
    ensures Possible(b, run) && SameCode(After(a, run), After(b, run))
    decreases run
  {
    hide SameCode, Enabled, Apply;
    if run != [] {
      SameEnabled(a, b, run[0]);
      SameStep(a, b, run[0]);
      SameRun(Apply(a, run[0]), Apply(b, run[0]), run[1..]);
    }
  }

  lemma SameAgrees(a: Sys, b: Sys)
    requires SameCode(a, b) && Inv(b)
    ensures AlwaysAgrees(a)
  {
    hide Inv;
    InvAlwaysAgrees(b);
    forall run | Possible(a, run) ensures Agrees(After(a, run)) {
      SameRun(a, b, run);
      assert Agrees(After(b, run));
    }
  }

  // ---- Taking a page over from its writer ----

  /** The page's frame as if its writer had not changed it. */
  function Unowned(s: Sys, id: PageId): Sys
    requires id in s.frames && id in s.disk
  {
    var f := s.frames[id];
    s.(frames := s.frames[id := Cleaned(f).(page := s.disk[id])], ws := s.ws[f.txn := Unsaved(s, f.txn) - {id}])
  }

  /** What its writer put into the page is to be thrown away, or does not differ from the page on disk. */
  predicate Idle(s: Sys, id: PageId)
    requires id in s.frames && id in s.disk
  {
    InPhase(s, s.frames[id].txn, {Aborting}) || SameButLsn(s.frames[id].page, s.disk[id])
  }

  lemma UnownedInv(s: Sys, id: PageId)
    requires Inv(s) && s.up && DirtyOf(s.frames, id).Some? && id in s.disk && Idle(s, id)
    ensures Inv(Unowned(s, id))
  {
    hide LogOk, PhasesOk, RedoOk, DiskOk, ContentsOk, MarkedOk, PendingOk, LatestOk, TraceOk, NoSteal;
    CommittedOwner(s, s.frames[id].txn, id);
    UnownedDisk(s, id);
    UnownedFrames(s, id);
    UnownedWrites(s, id);
    UnownedTrace(s, id);
  }

  lemma UnownedDisk(s: Sys, id: PageId)
    requires DiskOk(s.up, s.frames, s.phase, s.disk, s.cv) && ContentsOk(s.frames, s.phase, s.ws, s.disk)
    requires PendingOk(s.ws, s.phase, s.cv) && s.up && s.disk.Keys == s.cv.Keys
    requires DirtyOf(s.frames, id).Some? && id in s.disk && Idle(s, id)
    ensures SameButLsn(s.disk[id], s.cv[id])
    ensures DiskOk(s.up, Unowned(s, id).frames, s.phase, s.disk, s.cv)
  {
    var u, s' := s.frames[id].txn, Unowned(s, id);
    assert FrameOk(s.frames[id], id, s.phase, s.ws, s.disk);
    assert Has(s.phase, u, {Durable}) ==> SameButLsn(s.ws[u][id], s.cv[id]);
    forall x | x in s.disk && DirtyIn(s.frames, s.phase, x, {Durable}) && x != id
      ensures DirtyIn(s'.frames, s.phase, x, {Durable}) {}
  }

  lemma UnownedFrames(s: Sys, id: PageId)
    requires ContentsOk(s.frames, s.phase, s.ws, s.disk) && DirtyOf(s.frames, id).Some? && id in s.disk
    ensures ContentsOk(Unowned(s, id).frames, s.phase, Unowned(s, id).ws, s.disk)
  {
    var s' := Unowned(s, id);
    forall x | x in s'.frames ensures FrameOk(s'.frames[x], x, s.phase, s'.ws, s.disk) {
      if x != id { assert FrameOk(s.frames[x], x, s.phase, s.ws, s.disk); }
    }
  }

  lemma UnownedWrites(s: Sys, id: PageId)
    requires PendingOk(s.ws, s.phase, s.cv) && LatestOk(s.ws, s.phase, s.log + s.buf) && MarkedOk(s.ws, s.frames)
    requires DirtyOf(s.frames, id).Some? && id in s.disk
    ensures var s' := Unowned(s, id);
            PendingOk(s'.ws, s.phase, s.cv) && LatestOk(s'.ws, s.phase, s.log + s.buf) && MarkedOk(s'.ws, s'.frames)
  {
    var s' := Unowned(s, id);
    forall v, x | v in s'.ws && x in s'.ws[v] ensures DirtyOf(s'.frames, x) == Some(v) {
      assert DirtyOf(s.frames, x) == Some(v);
    }
  }

  lemma UnownedTrace(s: Sys, id: PageId)
    requires TraceOk(s.log + s.buf, s.phase, s.ws, s.cv) && LatestOk(s.ws, s.phase, s.log + s.buf)
    requires ContentsOk(s.frames, s.phase, s.ws, s.disk) && id in s.cv && id in s.disk && SameButLsn(s.disk[id], s.cv[id])
    requires DirtyOf(s.frames, id).Some? && Idle(s, id)
    ensures TraceOk(s.log + s.buf, s.phase, Unowned(s, id).ws, s.cv)
  {
    var recs, u, ws' := s.log + s.buf, s.frames[id].txn, Unowned(s, id).ws;
    assert FrameOk(s.frames[id], id, s.phase, s.ws, s.disk);
    forall i | 0 <= i < |recs| && PageWrite(recs[i], recs[i].page) && Has(s.phase, recs[i].txn, {Active, Committing})
      ensures recs[i].page in Of(ws', recs[i].txn) || Moot(recs, i, s.cv)
    {
      assert recs[i].page in Of(s.ws, recs[i].txn) || Moot(recs, i, s.cv);
      if recs[i].txn == u && recs[i].page == id {
        assert LastIs(recs, id, u, s.ws[u][id]);
        var k := LastOfIn(recs, id);
        assert i != k ==> Replaced(recs, i);
      }
    }
  }

  // ---- Discarding one page ----

  lemma {:induction false} UnpinAll(s: Sys, id: PageId) returns (run: seq<Step>)
    requires s.up && id in s.frames
    ensures Possible(s, run) && After(s, run) == s.(frames := s.frames[id := s.frames[id].(pin := 0)])
    decreases PinOf(s.frames, id)
  {
    if s.frames[id].pin == 0 {
      run := [];
      assert s.frames[id := s.frames[id].(pin := 0)] == s.frames;
    } else {
      OneStep(s, Unpin(id));
      var a := Apply(s, Unpin(id));
      var rest := UnpinAll(a, id);
      AfterJoin(s, [Unpin(id)], rest);
      run := [Unpin(id)] + rest;
    }
  }

  ghost predicate Aborts(recs: seq<Rec>) { forall i | 0 <= i < |recs| :: recs[i].op.OpAbort? }

  lemma Reloaded(s: Sys, v: TxnId, id: PageId) returns (run: seq<Step>)
    requires s.up && DirtyOf(s.frames, id) == Some(v) && id in s.disk && InPhase(s, v, {Aborting})
    ensures Possible(s, run)
    ensures var s' := After(s, run);
            s' == s.(frames := s.frames[id := Cleaned(s.frames[id]).(pin := 0, page := s.disk[id])], ws := s'.ws)
  {
    run := UnpinAll(s, id);
    var a := After(s, run);
    OneStep(a, Reload(v, id));
    AfterJoin(s, run, [Reload(v, id)]);
    run := run + [Reload(v, id)];
    assert After(s, run).frames == s.frames[id := Cleaned(s.frames[id]).(pin := 0, page := s.disk[id])];
  }

  /** The writer of a page, still active or rolling back, gives the page up. */
  lemma Discarded(s: Sys, v: TxnId, id: PageId) returns (run: seq<Step>, more: seq<Rec>)
    requires s.up && DirtyOf(s.frames, id) == Some(v) && id in s.disk && InPhase(s, v, {Active, Aborting})
    ensures Possible(s, run) && Aborts(more)
    ensures var s' := After(s, run);
            s' == s.(buf := s.buf + more, nextLsn := s'.nextLsn, phase := s.phase[v := Aborting], ws := s'.ws,
                     frames := s.frames[id := Cleaned(s.frames[id]).(pin := 0, page := s.disk[id])])
  {
    if InPhase(s, v, {Aborting}) {
      run := Reloaded(s, v, id);
      more := [];
      assert s.buf + more == s.buf && s.phase[v := Aborting] == s.phase;
    } else {
      more := [Rec(s.nextLsn, v, 0, OpAbort, None)];
      OneStep(s, BeginRollback(v));
      var a := Apply(s, BeginRollback(v));
      var back := Reloaded(a, v, id);
      AfterJoin(s, [BeginRollback(v)], back);
      run := [BeginRollback(v)] + back;
    }
  }

  // ---- What recovery makes of records at the end of the log ----

  ghost predicate NotAbout(recs: seq<Rec>, id: PageId, done: set<TxnId>) {
    forall i | 0 <= i < |recs| && PageWrite(recs[i], id) :: recs[i].txn !in done
  }

  lemma {:induction false} LastBehind(a: seq<Rec>, b: seq<Rec>, done: set<TxnId>, id: PageId)
    requires NotAbout(b, id, done)
    ensures LastCommitted(a + b, done, id) == LastCommitted(a, done, id)
  {
    if b == [] {
      assert a + b == a;
    } else {
      assert (a + b)[..|a + b| - 1] == a + b[..|b| - 1];
      LastBehind(a, b[..|b| - 1], done, id);
    }
  }

  lemma NoCommits(recs: seq<Rec>)
    requires forall i | 0 <= i < |recs| :: !recs[i].op.OpCommit?
    ensures Committed(recs) == {}
  {}

  lemma NotCommitted(s: Sys, t: TxnId)
    requires PhasesOk(s.log, s.buf, s.phase) && Has(s.phase, t, {Active, Aborting})
    ensures t !in Committed(s.log + s.buf)
  {
    CommittedAppend(s.log, s.buf);
  }

  /** The page is shown as it is on disk, while recovery would give it another image. */
  lemma Disagrees(s: Sys, id: PageId)
    requires s.up && id in s.disk && DirtyOf(s.frames, id) == None && (id in s.frames ==> s.frames[id].page == s.disk[id])
    requires Redo(s.log, id).Some? && !SameButLsn(s.disk[id], Redo(s.log, id).value)
    ensures !Agrees(s)
  {}

  lemma GoesWrong(s: Sys, run: seq<Step>)
    requires Possible(s, run) && !Agrees(After(s, run))
    ensures !AlwaysAgrees(s)
  {}

  // ---- Two writers on one page ----

  /** The page may be written: no other transaction's change waits in the frame, or none that matters. */
  predicate MayWrite(s: Sys, t: TxnId, id: PageId)
    requires id in s.frames && id in s.disk
  {
    Exclusive(s, t, id) || Idle(s, id)
  }

  /**
    A page written by two transactions in flight: all goes well ever after if and only if no other
    transaction's change was waiting in the frame, or the change was being rolled back, or it was
    none. Otherwise some continuation has readers see a version that recovery would replace.
   */
  lemma WriteIsSafeIff(s: Sys, t: TxnId, p: Page, op: Operation)
    requires Inv(s) && CanWrite(s, t, p, op)
    ensures p.id in s.frames && p.id in s.disk
    ensures AlwaysAgrees(Written(s, t, p, op)) <==> MayWrite(s, t, p.id)
  {
    hide LogOk, PhasesOk, RedoOk, DiskOk, MarkedOk, PendingOk, LatestOk, TraceOk, NoSteal, AlwaysAgrees;
    if Exclusive(s, t, p.id) {
      WriteInv(s, t, p, op);
      SameAgrees(Written(s, t, p, op), Written(s, t, p, op));
    } else if Idle(s, p.id) {
      UnownedInv(s, p.id);
      TakenOver(s, t, p, op);
      WriteInv(Unowned(s, p.id), t, p, op);
      SameAgrees(Written(s, t, p, op), Written(Unowned(s, p.id), t, p, op));
    } else {
      SecondWriterLoses(s, t, p, op);
    }
  }

  lemma TakenOver(s: Sys, t: TxnId, p: Page, op: Operation)
    requires CanWrite(s, t, p, op) && p.id in s.disk && DirtyOf(s.frames, p.id).Some?
    ensures var s' := Unowned(s, p.id);
            CanWrite(s', t, p, op) && Exclusive(s', t, p.id) && SameCode(Written(s, t, p, op), Written(s', t, p, op))
  {
    var s' := Unowned(s, p.id);
    assert Written(s, t, p, op).frames == Written(s', t, p, op).frames;
  }

  /** The first writer's change differs from the page on disk, and it commits or has committed; the second rolls back. */
  lemma SecondWriterLoses(s: Sys, t: TxnId, p: Page, op: Operation)
    requires Inv(s) && CanWrite(s, t, p, op) && p.id in s.disk && !MayWrite(s, t, p.id)
    ensures !AlwaysAgrees(Written(s, t, p, op))
  {
    hide LogOk, PhasesOk, RedoOk, DiskOk, MarkedOk, PendingOk, LatestOk, TraceOk, NoSteal, AlwaysAgrees, Agrees;
    assert FrameOk(s.frames[p.id], p.id, s.phase, s.ws, s.disk);
    if Has(s.phase, s.frames[p.id].txn, {Durable}) { DurableLost(s, t, p, op); } else { CommitLost(s, t, p, op); }
  }

  lemma DurableLost(s: Sys, t: TxnId, p: Page, op: Operation)
    requires Inv(s) && CanWrite(s, t, p, op) && p.id in s.disk && !MayWrite(s, t, p.id)
    requires Has(s.phase, s.frames[p.id].txn, {Durable})
    ensures !AlwaysAgrees(Written(s, t, p, op))
  {
    hide LogOk, PhasesOk, RedoOk, DiskOk, MarkedOk, PendingOk, LatestOk, TraceOk, NoSteal, AlwaysAgrees, Agrees, ContentsOk;
    var s' := Written(s, t, p, op);
    var back, more := Discarded(s', t, p.id);
    DurableImage(s, s.frames[p.id].txn, p.id);
    Disagrees(After(s', back), p.id);
    GoesWrong(s', back);
  }

  lemma CommitLost(s: Sys, t: TxnId, p: Page, op: Operation)
    requires Inv(s) && CanWrite(s, t, p, op) && p.id in s.disk && !MayWrite(s, t, p.id)
    requires Has(s.phase, s.frames[p.id].txn, {Active, Committing})
    ensures !AlwaysAgrees(Written(s, t, p, op))
  {
    hide LogOk, PhasesOk, RedoOk, DiskOk, MarkedOk, PendingOk, LatestOk, TraceOk, NoSteal, AlwaysAgrees, Agrees, ContentsOk, Redo;
    var s', u, w := Written(s, t, p, op), s.frames[p.id].txn, Rec(s.nextLsn, t, p.id, op, Some(p));
    var back, more := Discarded(s', t, p.id);
    var a := After(s', back);
    var commit, c := CommitAndFlush(a, u);
    AfterJoin(s', back, commit);
    LoserImage(s, t, u, w, more, c);
    assert s.log + (s.buf + [w] + more + c) == s.log + s.buf + ([w] + more + c);
    Disagrees(After(a, commit), p.id);
    GoesWrong(s', back + commit);
  }

  lemma DurableImage(s: Sys, u: TxnId, id: PageId)
    requires RedoOk(s.log, s.disk, s.cv) && PendingOk(s.ws, s.phase, s.cv) && ContentsOk(s.frames, s.phase, s.ws, s.disk)
    requires DirtyOf(s.frames, id) == Some(u) && Has(s.phase, u, {Durable}) && id in s.disk
    requires !SameButLsn(s.frames[id].page, s.disk[id])
    ensures Redo(s.log, id).Some? && !SameButLsn(s.disk[id], Redo(s.log, id).value)
  {
    assert FrameOk(s.frames[id], id, s.phase, s.ws, s.disk);
    assert id in s.cv;
  }

  /** The COMMIT record of one transaction, if it is still to be written. */
  predicate CommitOf(c: seq<Rec>, u: TxnId) {
    c == [] || (|c| == 1 && c[0].op.OpCommit? && c[0].txn == u)
  }

  /** A transaction appends its COMMIT record, if it has not yet, and the log is flushed. */
  lemma CommitAndFlush(s: Sys, u: TxnId) returns (run: seq<Step>, c: seq<Rec>)
    requires s.up && InPhase(s, u, {Active, Committing})
    ensures Possible(s, run) && CommitOf(c, u) && (s.phase[u] == Active ==> c != [])
    ensures var e := After(s, run);
            e.up && e.disk == s.disk && e.frames == s.frames && e.log == s.log + (s.buf + c)
  {
    if s.phase[u] == Active {
      c := [Rec(s.nextLsn, u, 0, OpCommit, None)];
      OneStep(s, AppendCommit(u));
      var a := Apply(s, AppendCommit(u));
      OneStep(a, FlushLog);
      AfterJoin(s, [AppendCommit(u)], [FlushLog]);
      run := [AppendCommit(u)] + [FlushLog];
    } else {
      OneStep(s, FlushLog);
      run, c := [FlushLog], [];
      assert s.buf + [] == s.buf;
    }
  }

  lemma LoserImage(s: Sys, t: TxnId, u: TxnId, w: Rec, more: seq<Rec>, c: seq<Rec>)
    requires PhasesOk(s.log, s.buf, s.phase) && LatestOk(s.ws, s.phase, s.log + s.buf) && ContentsOk(s.frames, s.phase, s.ws, s.disk)
    requires Has(s.phase, t, {Active}) && w.txn == t && !w.op.OpCommit? && w.page in s.disk && u != t
    requires DirtyOf(s.frames, w.page) == Some(u) && Has(s.phase, u, {Active, Committing})
    requires Aborts(more) && CommitOf(c, u) && (s.phase[u] == Active ==> c != [])
    requires !SameButLsn(s.frames[w.page].page, s.disk[w.page])
    ensures var redo := Redo(s.log + s.buf + ([w] + more + c), w.page);
            redo.Some? && !SameButLsn(s.disk[w.page], redo.value)
  {
    hide PhasesOk;
    var recs, id := s.log + s.buf, w.page;
    assert FrameOk(s.frames[id], id, s.phase, s.ws, s.disk);
    assert LastIs(recs, id, u, s.ws[u][id]);
    NotCommitted(s, t);
    if s.phase[u] == Committing { IsCommitting(s, u); }
    LoserRedo(recs, w, more, c, u, s.ws[u][id]);
  }

  lemma IsCommitting(s: Sys, u: TxnId)
    requires PhasesOk(s.log, s.buf, s.phase) && Has(s.phase, u, {Committing})
    ensures u in Committed(s.log + s.buf)
  {
    CommittedAppend(s.log, s.buf);
  }

  lemma LoserRedo(recs: seq<Rec>, w: Rec, more: seq<Rec>, c: seq<Rec>, u: TxnId, q: Page)
    requires LastIs(recs, w.page, u, q) && w.txn !in Committed(recs) && !w.op.OpCommit? && w.txn != u
    requires Aborts(more) && CommitOf(c, u) && (c == [] ==> u in Committed(recs))
    ensures Redo(recs + ([w] + more + c), w.page) == Some(q)
  {
    hide LastOf, LastCommitted;
    var end := [w] + more + c;
    EndCommits(w, more, c, u);
    CommittedAppend(recs, end);
    LastBehind(recs, end, Committed(recs + end), w.page);
    LastIsCommitted(recs, Committed(recs + end), w.page);
  }

  lemma EndCommits(w: Rec, more: seq<Rec>, c: seq<Rec>, u: TxnId)
    requires !w.op.OpCommit? && Aborts(more) && CommitOf(c, u)
    ensures Committed([w] + more + c) == if c == [] then {} else {u}
  {
    CommittedAppend([w] + more, c);
    NoCommits([w] + more);
    if c != [] {
      assert c == [c[0]];
      CommittedOne(c[0]);
    }
  }

  // ---- A transaction made active again ----

  /** The transaction is active, with an id that may have been used before or after a rollback that stopped half-way. */
  function Reopened(s: Sys, t: TxnId): Sys {
    s.(phase := s.phase[t := Active], ws := s.ws[t := Unsaved(s, t)])
  }

  function CommitRec(s: Sys, t: TxnId): Rec { Rec(s.nextLsn, t, 0, OpCommit, None) }

  /** There is no COMMIT record of the transaction, and one now would change no page but those it has waiting in frames. */
  ghost predicate Harmless(s: Sys, t: TxnId) {
    && t !in Committed(AllRecs(s))
    && forall id | id in s.disk && DirtyOf(s.frames, id) != Some(t) :: RedoneAlike(s, t, id)
  }

  ghost predicate RedoneAlike(s: Sys, t: TxnId, id: PageId)
    requires id in s.disk
  {
    SameButLsn(Recovered(AllRecs(s) + [CommitRec(s, t)], s.disk)[id], Recovered(AllRecs(s), s.disk)[id])
  }

  /** All goes well ever after if and only if the COMMIT record the transaction may write changes nothing that it should not. */
  lemma ReopenIsSafeIff(s: Sys, t: TxnId)
    requires Inv(s) && s.up && (t in s.phase ==> s.phase[t] == Aborting)
    ensures AlwaysAgrees(Reopened(s, t)) <==> Harmless(s, t)
  {
    hide LogOk, PhasesOk, RedoOk, DiskOk, ContentsOk, MarkedOk, PendingOk, LatestOk, TraceOk, NoSteal, AlwaysAgrees, RedoneAlike;
    if Harmless(s, t) {
      ReopenedInv(s, t);
      InvAlwaysAgrees(Reopened(s, t));
    } else if t in Committed(AllRecs(s)) {
      AlreadyCommitted(s, t);
    } else {
      var id :| id in s.disk && DirtyOf(s.frames, id) != Some(t) && !RedoneAlike(s, t, id);
      CommitRevives(s, t, id);
    }
  }

  /** Transaction ids restart with the process: the exact condition under which one can be used again. */
  lemma BeginIsSafeIff(s: Sys, t: TxnId)
    requires Inv(s) && s.up && t !in s.phase
    ensures AlwaysAgrees(s.(phase := s.phase[t := Active], ws := s.ws[t := map[]])) <==> Harmless(s, t)
  {
    ReopenIsSafeIff(s, t);
  }

  /** A rollback that stops at a pinned page leaves the transaction active: when going on with it is safe. */
  lemma ResumeIsSafeIff(s: Sys, t: TxnId)
    requires Inv(s) && s.up && InPhase(s, t, {Aborting})
    ensures AlwaysAgrees(s.(phase := s.phase[t := Active])) <==> Harmless(s, t)
  {
    assert s.ws[t := Unsaved(s, t)] == s.ws;
    ReopenIsSafeIff(s, t);
  }

  lemma ReopenedInv(s: Sys, t: TxnId)
    requires Inv(s) && s.up && (t in s.phase ==> s.phase[t] == Aborting) && Harmless(s, t)
    ensures Inv(Reopened(s, t))
  {
    hide LogOk, RedoOk, DiskOk, ContentsOk, MarkedOk, PendingOk, LatestOk, TraceOk, NoSteal, RedoneAlike, PhasesOk;
    ReopenedPhases(s, t);
    ReopenedFrames(s, t);
    ReopenedWrites(s, t);
    ReopenedTrace(s, t);
  }

  lemma ReopenedPhases(s: Sys, t: TxnId)
    requires PhasesOk(s.log, s.buf, s.phase) && (t in s.phase ==> s.phase[t] == Aborting) && t !in Committed(AllRecs(s))
    ensures PhasesOk(s.log, s.buf, s.phase[t := Active])
  {
    CommittedAppend(s.log, s.buf);
  }

  lemma ReopenedFrames(s: Sys, t: TxnId)
    requires IdsOk(s.disk, s.born, s.cv, s.frames, s.phase, s.ws) && (t in s.phase ==> s.phase[t] == Aborting)
    requires ContentsOk(s.frames, s.phase, s.ws, s.disk) && DiskOk(s.up, s.frames, s.phase, s.disk, s.cv)
    ensures var s' := Reopened(s, t);
            ContentsOk(s.frames, s'.phase, s'.ws, s.disk) && DiskOk(s.up, s.frames, s'.phase, s.disk, s.cv)
  {
    var s' := Reopened(s, t);
    forall id | id in s.frames ensures FrameOk(s.frames[id], id, s'.phase, s'.ws, s.disk) {
      assert FrameOk(s.frames[id], id, s.phase, s.ws, s.disk);
    }
  }

  lemma ReopenedWrites(s: Sys, t: TxnId)
    requires IdsOk(s.disk, s.born, s.cv, s.frames, s.phase, s.ws) && (t in s.phase ==> s.phase[t] == Aborting)
    requires MarkedOk(s.ws, s.frames) && PendingOk(s.ws, s.phase, s.cv) && LatestOk(s.ws, s.phase, s.log + s.buf)
    ensures var s' := Reopened(s, t);
            MarkedOk(s'.ws, s.frames) && PendingOk(s'.ws, s'.phase, s.cv) && LatestOk(s'.ws, s'.phase, s.log + s.buf)
  {}

  lemma ReopenedTrace(s: Sys, t: TxnId)
    requires Inv(s) && (t in s.phase ==> s.phase[t] == Aborting) && Harmless(s, t)
    ensures TraceOk(s.log + s.buf, Reopened(s, t).phase, Reopened(s, t).ws, s.cv)
  {
    hide LogOk, RedoOk, DiskOk, PendingOk, LatestOk, NoSteal, PhasesOk, RedoneAlike, Moot;
    var recs, s' := s.log + s.buf, Reopened(s, t);
    forall i | 0 <= i < |recs| && PageWrite(recs[i], recs[i].page) && Has(s'.phase, recs[i].txn, {Active, Committing})
      ensures recs[i].page in Of(s'.ws, recs[i].txn) || Moot(recs, i, s.cv)
    {
      if recs[i].txn == t {
        if recs[i].page !in Of(s.ws, t) { OldRecordIsMoot(s, t, i); }
      } else {
        assert recs[i].page in Of(s.ws, recs[i].txn) || Moot(recs, i, s.cv);
      }
    }
  }

  lemma OldRecordIsMoot(s: Sys, t: TxnId, i: nat)
    requires Inv(s) && (t in s.phase ==> s.phase[t] == Aborting) && Harmless(s, t)
    requires i < |s.log + s.buf| && var r := (s.log + s.buf)[i]; r.txn == t && PageWrite(r, r.page) && r.page !in Of(s.ws, t)
    ensures Moot(s.log + s.buf, i, s.cv)
  {
    hide RedoOk, DiskOk, PendingOk, NoSteal, PhasesOk, MarkedOk, LatestOk, TraceOk, DownOk;
    var recs := s.log + s.buf;
    var id := recs[i].page;
    assert id in s.disk && recs[i].redo.Some?;
    if !Replaced(recs, i) {
      NotWaiting(s, t, id);
      assert RedoneAlike(s, t, id);
      RevivedImage(s, t, i);
      if Commits(s, id) { CommittingReplaces(s, t, i); } else { UnflushedPage(s, id); }
    }
  }

  lemma NotWaiting(s: Sys, t: TxnId, id: PageId)
    requires ContentsOk(s.frames, s.phase, s.ws, s.disk) && id !in Of(s.ws, t)
    ensures DirtyOf(s.frames, id) != Some(t)
  {
    if id in s.frames { assert FrameOk(s.frames[id], id, s.phase, s.ws, s.disk); }
  }

  /** With a COMMIT record the last record of the transaction counts, unless a committed one came later. */
  lemma RevivedImage(s: Sys, t: TxnId, i: nat)
    requires i < |s.log + s.buf| && !Replaced(s.log + s.buf, i)
    requires var r := (s.log + s.buf)[i]; r.txn == t && PageWrite(r, r.page) && r.redo.Some?
    ensures Redo(AllRecs(s) + [CommitRec(s, t)], (s.log + s.buf)[i].page) == (s.log + s.buf)[i].redo
  {
    var recs, c := s.log + s.buf, CommitRec(s, t);
    CommittedAppend(recs, [c]);
    CommittedOne(c);
    LastCommittedIs(recs + [c], Committed(recs + [c]), recs[i].page, i);
  }

  lemma CommittingReplaces(s: Sys, t: TxnId, i: nat)
    requires PhasesOk(s.log, s.buf, s.phase) && LatestOk(s.ws, s.phase, s.log + s.buf) && ContentsOk(s.frames, s.phase, s.ws, s.disk)
    requires (t in s.phase ==> s.phase[t] == Aborting) && i < |s.log + s.buf|
    requires var r := (s.log + s.buf)[i]; r.txn == t && PageWrite(r, r.page) && Commits(s, r.page)
    ensures Replaced(s.log + s.buf, i)
  {
    var recs := s.log + s.buf;
    var id := recs[i].page;
    var u := DirtyOf(s.frames, id).value;
    assert FrameOk(s.frames[id], id, s.phase, s.ws, s.disk);
    assert LastIs(recs, id, u, s.ws[u][id]);
    var k := LastOfIn(recs, id);
    CommittedAppend(s.log, s.buf);
  }

  lemma {:induction false} UnusedId(ids: set<PageId>) returns (n: PageId)
    ensures forall id | id in ids :: id < n
  {
    if ids == {} {
      n := 0;
    } else {
      var id :| id in ids;
      var m := UnusedId(ids - {id});
      n := if id < m then m else id + 1;
      forall x | x in ids ensures x < n { assert x == id || x in ids - {id}; }
    }
  }

  lemma TwoSteps(s: Sys, a: Step, b: Step)
    requires Enabled(s, a) && Enabled(Apply(s, a), b)
    ensures Possible(s, [a] + [b]) && After(s, [a] + [b]) == Apply(Apply(s, a), b)
  {
    OneStep(s, a);
    OneStep(Apply(s, a), b);
    AfterJoin(s, [a], [b]);
  }

  /** The transaction writes a page, and the record reaches the log file. */
  lemma WriteLogged(s: Sys, t: TxnId, q: Page)
    requires CanWrite(s, t, q, OpInsert) && Exclusive(s, t, q.id)
    ensures var run, e := [Write(t, q, OpInsert)] + [FlushLog], Flushed(Written(s, t, q, OpInsert));
            && Possible(s, run) && After(s, run) == e
            && e.up && InPhase(e, t, {Active}) && e.disk == s.disk && DirtyOf(e.frames, q.id) == Some(t)
            && e.log == s.log + (s.buf + [Rec(s.nextLsn, t, q.id, OpInsert, Some(q))])
  {
    TwoSteps(s, Write(t, q, OpInsert), FlushLog);
  }

  /** A new page is fetched and written by the transaction, and the record reaches the log file. */
  lemma NewPageLogged(s: Sys, t: TxnId, p: Page, q: Page) returns (run: seq<Step>)
    requires s.up && InPhase(s, t, {Active}) && p.id !in s.disk && p.id !in s.frames && q.id == p.id
    ensures Possible(s, run)
    ensures var e := After(s, run);
            && e.up && InPhase(e, t, {Active}) && e.disk == s.disk[p.id := p] && DirtyOf(e.frames, p.id) == Some(t)
            && e.log == s.log + (s.buf + [Rec(s.nextLsn, t, p.id, OpInsert, Some(q))])
  {
    TwoSteps(s, Allocate(p), Fetch(p.id));
    var b := Apply(Apply(s, Allocate(p)), Fetch(p.id));
    WriteLogged(b, t, q);
    AfterJoin(s, [Allocate(p)] + [Fetch(p.id)], [Write(t, q, OpInsert)] + [FlushLog]);
    run := [Allocate(p)] + [Fetch(p.id)] + ([Write(t, q, OpInsert)] + [FlushLog]);
  }

  lemma InFile(s: Sys, t: TxnId)
    requires PhasesOk(s.log, s.buf, s.phase) && (t in s.phase ==> s.phase[t] == Aborting) && t in Committed(AllRecs(s))
    ensures t in Committed(s.log)
  {
    CommittedAppend(s.log, s.buf);
  }

  /** With an old COMMIT record in the log, a record counts as soon as it is in the file, rollback or not. */
  lemma AlreadyCommitted(s: Sys, t: TxnId)
    requires Inv(s) && s.up && (t in s.phase ==> s.phase[t] == Aborting) && t in Committed(AllRecs(s))
    ensures !AlwaysAgrees(Reopened(s, t))
  {
    hide LogOk, RedoOk, DiskOk, ContentsOk, MarkedOk, PendingOk, LatestOk, TraceOk, NoSteal, AlwaysAgrees, PhasesOk, Agrees;
    var s' := Reopened(s, t);
    var n := UnusedId(s.disk.Keys);
    var p := NewPage(LeafPage, n);
    var q := p.(right := NO_PAGE);
    assert n !in s.disk;
    var run := NewPageLogged(s', t, p, q);
    var a := After(s', run);
    var back, more := Discarded(a, t, n);
    AfterJoin(s', run, back);
    var e, w := After(a, back), Rec(s.nextLsn, t, n, OpInsert, Some(q));
    InFile(s, t);
    assert e.log == s.log + s.buf + [w];
    LastRecordCounts(s.log + s.buf, w);
    CommittedAppend(s.log, s.buf);
    Disagrees(e, n);
    GoesWrong(s', run + back);
  }

  lemma LastRecordCounts(recs: seq<Rec>, w: Rec)
    requires w.txn in Committed(recs) && PageWrite(w, w.page)
    ensures Redo(recs + [w], w.page) == w.redo
  {
    CommittedAppend(recs, [w]);
    LastCommittedIs(recs + [w], Committed(recs + [w]), w.page, |recs|);
  }

  /** The page is made clean: its writer's commit is finished, or its writer gives it up. */
  lemma MadeClean(s: Sys, id: PageId) returns (run: seq<Step>, more: seq<Rec>)
    requires s.up && id in s.disk && (DirtyOf(s.frames, id) == None && id in s.frames ==> s.frames[id].page == s.disk[id])
    requires DirtyOf(s.frames, id).Some? ==> InPhase(s, s.frames[id].txn, {Active, Aborting, Durable})
    ensures Possible(s, run) && Aborts(more)
    ensures var e := After(s, run);
            && e.up && e.log == s.log && e.buf == s.buf + more && e.disk.Keys == s.disk.Keys && DirtyOf(e.frames, id) == None
            && (id in e.frames ==> e.frames[id].page == e.disk[id])
            && e.disk[id] == (if DirtyIn(s.frames, s.phase, id, {Durable}) then s.frames[id].page else s.disk[id])
            && forall t: TxnId | InPhase(s, t, {Active}) && DirtyOf(s.frames, id) != Some(t) :: InPhase(e, t, {Active})
  {
    if DirtyOf(s.frames, id) == None {
      run, more := [], [];
      assert s.buf + [] == s.buf;
    } else if DirtyIn(s.frames, s.phase, id, {Durable}) {
      run, more := [WriteBack(s.frames[id].txn, id)], [];
      OneStep(s, WriteBack(s.frames[id].txn, id));
      assert s.buf + [] == s.buf;
    } else {
      run, more := Discarded(s, s.frames[id].txn, id);
    }
  }

  /** The page as it is once it is clean is its last committed version. */
  lemma CleanVersion(s: Sys, id: PageId)
    requires Inv(s) && s.up && id in s.disk
    ensures id in s.cv
    ensures SameButLsn(if DirtyIn(s.frames, s.phase, id, {Durable}) then s.frames[id].page else s.disk[id], s.cv[id])
    ensures DirtyOf(s.frames, id) == None && id in s.frames ==> s.frames[id].page == s.disk[id]
    ensures DirtyOf(s.frames, id).Some? ==> InPhase(s, s.frames[id].txn, {Active, Committing, Aborting, Durable})
  {
    hide LogOk, RedoOk, MarkedOk, LatestOk, TraceOk, NoSteal, PhasesOk, DownOk;
    if id in s.frames { assert FrameOk(s.frames[id], id, s.phase, s.ws, s.disk); }
  }

  lemma AppendedCommits(recs: seq<Rec>, t: TxnId, c: seq<Rec>)
    requires CommitOf(c, t) && c != []
    ensures Committed(recs + c) == Committed(recs) + {t}
  {
    assert c == [c[0]];
    CommittedAppend(recs, c);
    CommittedOne(c[0]);
  }

  /** A page that a commit on its way will change is recovered to that change, whatever other records count. */
  lemma CommittingAlike(s: Sys, t: TxnId, id: PageId)
    requires PhasesOk(s.log, s.buf, s.phase) && LatestOk(s.ws, s.phase, s.log + s.buf) && ContentsOk(s.frames, s.phase, s.ws, s.disk)
    requires id in s.disk && Commits(s, id)
    ensures RedoneAlike(s, t, id)
  {
    var recs, c := AllRecs(s), CommitRec(s, t);
    var u := DirtyOf(s.frames, id).value;
    IsCommitting(s, u);
    AppendedCommits(recs, t, [c]);
    LastBehind(recs, [c], Committed(recs + [c]), id);
    assert FrameOk(s.frames[id], id, s.phase, s.ws, s.disk);
    assert LastIs(recs, id, u, s.ws[u][id]);
    LastIsCommitted(recs, Committed(recs), id);
    LastIsCommitted(recs, Committed(recs + [c]), id);
  }

  /** If recovery has no image for the page even with the COMMIT record, it has none without it. */
  lemma NoneAlike(s: Sys, t: TxnId, id: PageId)
    requires LogOk(s.log + s.buf, s.nextLsn, s.disk) && id in s.disk && Redo(AllRecs(s) + [CommitRec(s, t)], id) == None
    ensures RedoneAlike(s, t, id)
  {
    var recs, c := AllRecs(s), CommitRec(s, t);
    AppendedCommits(recs, t, [c]);
    var all := Committed(recs + [c]);
    LastBehind(recs, [c], all, id);
    if LastCommitted(recs, all, id).Some? { var k := LastCommittedIn(recs, all, id); }
    NoneCommitted(recs, all, id);
    NoneCommitted(recs, Committed(recs), id);
  }

  /** What the COMMIT record would bring back differs from the page as readers will see it. */
  lemma RevivedDiffers(s: Sys, t: TxnId, id: PageId)
    requires Inv(s) && id in s.disk && !RedoneAlike(s, t, id)
    ensures !Commits(s, id) && id in s.cv
    ensures var redo := Redo(AllRecs(s) + [CommitRec(s, t)], id); redo.Some? && !SameButLsn(s.cv[id], redo.value)
  {
    hide LogOk, RedoOk, DiskOk, MarkedOk, PendingOk, LatestOk, ContentsOk, PhasesOk, TraceOk, NoSteal, DownOk, Redo;
    if Commits(s, id) { CommittingAlike(s, t, id); }
    if Redo(AllRecs(s) + [CommitRec(s, t)], id) == None { NoneAlike(s, t, id); }
    if !Commits(s, id) { UnflushedPage(s, id); }
  }

  /** The transaction commits although a record of it is waiting in the log for a page that has long been put back. */
  lemma CommitRevives(s: Sys, t: TxnId, id: PageId)
    requires Inv(s) && s.up && (t in s.phase ==> s.phase[t] == Aborting) && t !in Committed(AllRecs(s))
    requires id in s.disk && DirtyOf(s.frames, id) != Some(t) && !RedoneAlike(s, t, id)
    ensures !AlwaysAgrees(Reopened(s, t))
  {
    hide Inv, AlwaysAgrees, Agrees, Redo, RedoneAlike, Recovered, Committed, Possible, After, Enabled, Apply;
    var s' := Reopened(s, t);
    CleanVersion(s, id);
    RevivedDiffers(s, t, id);
    var clean, more := MadeClean(s', id);
    var a := After(s', clean);
    var commit, c := CommitAndFlush(a, t);
    AfterJoin(s', clean, commit);
    var e := After(a, commit);
    RevivedAtEnd(s, t, id, more, c);
    assert e.log == AllRecs(s) + (more + c);
    Disagrees(e, id);
    GoesWrong(s', clean + commit);
  }

  lemma RevivedAtEnd(s: Sys, t: TxnId, id: PageId, more: seq<Rec>, c: seq<Rec>)
    requires Aborts(more) && CommitOf(c, t) && c != []
    ensures Redo(AllRecs(s) + (more + c), id) == Redo(AllRecs(s) + [CommitRec(s, t)], id)
  {
    var recs, d := AllRecs(s), CommitRec(s, t);
    assert recs + (more + c) == recs + more + c;
    NoCommits(more);
    CommittedAppend(recs, more);
    AppendedCommits(recs + more, t, c);
    AppendedCommits(recs, t, [d]);
    assert Committed(recs + (more + c)) == Committed(recs) + {t} == Committed(recs + [d]);
    LastBehind(recs, more + c, Committed(recs) + {t}, id);
    LastBehind(recs, [d], Committed(recs) + {t}, id);
  }

  // ---- Runs that go wrong ----

  lemma Then(s: Sys, run: seq<Step>, a: Step)
    requires Possible(s, run) && Enabled(After(s, run), a)
    ensures Possible(s, run + [a]) && After(s, run + [a]) == Apply(After(s, run), a)
  {
    OneStep(After(s, run), a);
    AfterJoin(s, run, [a]);
  }

  lemma ThreeSteps(s: Sys, a: Step, b: Step, c: Step)
    requires Enabled(s, a) && Enabled(Apply(s, a), b) && Enabled(Apply(Apply(s, a), b), c)
    ensures Possible(s, [a, b, c]) && After(s, [a, b, c]) == Apply(Apply(Apply(s, a), b), c)
  {
    hide Enabled, Apply;
    TwoSteps(s, a, b);
    Then(s, [a] + [b], c);
    assert [a] + [b] + [c] == [a, b, c];
  }

  lemma RecordSteps(s: Sys, t: TxnId)
    requires s.up && InPhase(s, t, {Active})
    ensures Enabled(s, AppendCommit(t)) && Enabled(s, BeginRollback(t))
    ensures Apply(s, AppendCommit(t))
            == s.(buf := s.buf + [Rec(s.nextLsn, t, 0, OpCommit, None)], nextLsn := s.nextLsn + 1, phase := s.phase[t := Committing])
    ensures Apply(s, BeginRollback(t))
            == s.(buf := s.buf + [Rec(s.nextLsn, t, 0, OpAbort, None)], nextLsn := s.nextLsn + 1, phase := s.phase[t := Aborting])
  {}

  lemma FlushStep(s: Sys)
    requires s.up
    ensures Enabled(s, FlushLog) && Apply(s, FlushLog) == Flushed(s)
  {}

  lemma EndSteps(s: Sys, t: TxnId)
    requires s.up && NoneDirty(s, t)
    ensures InPhase(s, t, {Durable}) ==> Enabled(s, EndCommit(t)) && Apply(s, EndCommit(t)) == s.(phase := s.phase[t := Done])
    ensures InPhase(s, t, {Aborting}) ==> Enabled(s, EndRollback(t)) && Apply(s, EndRollback(t)) == s.(phase := s.phase[t := Aborted])
  {}

  lemma ReloadOne(s: Sys, t: TxnId, id: PageId)
    requires s.up && InPhase(s, t, {Aborting}) && DirtyOf(s.frames, id) == Some(t) && PinOf(s.frames, id) == 0 && id in s.disk
    ensures Enabled(s, Reload(t, id))
    ensures var e := Apply(s, Reload(t, id));
            e == s.(frames := s.frames[id := Cleaned(s.frames[id]).(page := s.disk[id])], ws := e.ws)
  {}

  /** The second transaction has fetched the page in which the first one's change is waiting. */
  function TwoWriters(p0: Page, p1: Page): seq<Step> {
    [Begin(1), Begin(2), Allocate(p0), Fetch(0), Write(1, p1, OpUpdate), Fetch(0)]
  }

  lemma TwoStarted(p0: Page)
    requires p0.id == 0
    ensures var run := [Begin(1), Begin(2), Allocate(p0)];
            && Possible(Fresh, run)
            && var s := After(Fresh, run);
               s == Fresh.(disk := map[0 := p0], phase := map[1 := Active, 2 := Active], born := s.born, cv := s.cv, ws := s.ws)
  {
    hide Possible, After;
    var a := Apply(Apply(Fresh, Begin(1)), Begin(2));
    assert a.phase == map[1 := Active, 2 := Active];
    ThreeSteps(Fresh, Begin(1), Begin(2), Allocate(p0));
  }

  lemma TwoWritersReady(p0: Page, p1: Page)
    requires p0.id == p1.id == 0
    ensures Possible(Fresh, TwoWriters(p0, p1))
    ensures var s := After(Fresh, TwoWriters(p0, p1));
            s == Fresh.(disk := map[0 := p0], phase := map[1 := Active, 2 := Active], born := s.born, cv := s.cv, ws := s.ws,
                        buf := [Rec(0, 1, 0, OpUpdate, Some(p1))], nextLsn := 1,
                        frames := map[0 := Frame(p1.(lsn := 0), 1, true, 1)])
  {
    TwoStarted(p0);
    var run := [Begin(1), Begin(2), Allocate(p0)];
    Then(Fresh, run, Fetch(0));
    Then(Fresh, run + [Fetch(0)], Write(1, p1, OpUpdate));
    Then(Fresh, run + [Fetch(0)] + [Write(1, p1, OpUpdate)], Fetch(0));
    assert run + [Fetch(0)] + [Write(1, p1, OpUpdate)] + [Fetch(0)] == TwoWriters(p0, p1);
    assert Fresh.buf + [Rec(0, 1, 0, OpUpdate, Some(p1))] == [Rec(0, 1, 0, OpUpdate, Some(p1))];
  }

  /** The second transaction rolls back, the first one commits. */
  const SecondRollsBack: seq<Step> := [BeginRollback(2), Reload(2, 0), EndRollback(2), AppendCommit(1), FlushLog, EndCommit(1)]

  /**
    Two writers on one page, from the start: both transactions have ended, the first one is committed,
    and its change is neither shown to readers nor on disk, though recovery would bring it back.
   */
  lemma CommittedWriteIsLost(p0: Page, p1: Page, p2: Page)
    requires p0.id == p1.id == p2.id == 0
    ensures Possible(Fresh, TwoWriters(p0, p1))
    ensures var s := After(Fresh, TwoWriters(p0, p1));
            && CanWrite(s, 2, p2, OpUpdate) && DirtyOf(s.frames, 0) == Some(1)
            && Possible(Written(s, 2, p2, OpUpdate), SecondRollsBack)
            && var e := After(Written(s, 2, p2, OpUpdate), SecondRollsBack);
               && e.up && InPhase(e, 1, {Done}) && InPhase(e, 2, {Aborted})
               && e.disk == map[0 := p0] && ViewOf(e.disk, e.frames) == map[0 := p0] && Redo(e.log, 0) == Some(p1)
  {
    TwoWritersReady(p0, p1);
    var s := After(Fresh, TwoWriters(p0, p1));
    var a := Written(s, 2, p2, OpUpdate);
    var r1, r2, r3, r4 := Rec(0, 1, 0, OpUpdate, Some(p1)), Rec(1, 2, 0, OpUpdate, Some(p2)), Rec(2, 2, 0, OpAbort, None), Rec(3, 1, 0, OpCommit, None);
    assert a.frames[0] == Frame(p2.(lsn := 1), 0, true, 2);
    RolledBackSecond(a, p0);
    var back := [BeginRollback(2), Reload(2, 0), EndRollback(2)];
    var b := After(a, back);
    CommittedFirst(b);
    AfterJoin(a, back, [AppendCommit(1), FlushLog, EndCommit(1)]);
    assert back + [AppendCommit(1), FlushLog, EndCommit(1)] == SecondRollsBack;
    var e := After(a, SecondRollsBack);
    assert e.log == [r1] + ([r2] + [r3] + [r4]);
    assert [r1][..|[r1]| - 1] == [];
    NoCommits([r1]);
    LoserRedo([r1], r2, [r3], [r4], 1, p1);
  }

  lemma RolledBackSecond(a: Sys, p0: Page)
    requires a.up && a.disk == map[0 := p0] && a.phase == map[1 := Active, 2 := Active]
    requires a.frames.Keys == {0} && DirtyOf(a.frames, 0) == Some(2) && a.frames[0].pin == 0
    ensures var run := [BeginRollback(2), Reload(2, 0), EndRollback(2)];
            && Possible(a, run)
            && var s := After(a, run);
               s == a.(buf := a.buf + [Rec(a.nextLsn, 2, 0, OpAbort, None)], nextLsn := a.nextLsn + 1, ws := s.ws,
                       frames := map[0 := Cleaned(a.frames[0]).(page := p0)], phase := map[1 := Active, 2 := Aborted])
  {
    hide Possible, After, Enabled, Apply;
    RecordSteps(a, 2);
    var b := Apply(a, BeginRollback(2));
    ReloadOne(b, 2, 0);
    var c := Apply(b, Reload(2, 0));
    assert c.frames == map[0 := Cleaned(a.frames[0]).(page := p0)];
    assert NoneDirty(c, 2) && c.phase[2 := Aborted] == map[1 := Active, 2 := Aborted];
    EndSteps(c, 2);
    ThreeSteps(a, BeginRollback(2), Reload(2, 0), EndRollback(2));
  }

  lemma CommittedFirst(b: Sys)
    requires b.up && b.phase == map[1 := Active, 2 := Aborted] && NoneDirty(b, 1)
    ensures var run := [AppendCommit(1), FlushLog, EndCommit(1)];
            && Possible(b, run)
            && var s := After(b, run);
               && s.up && s.disk == b.disk && s.frames == b.frames && s.phase == map[1 := Done, 2 := Aborted]
               && s.log == b.log + (b.buf + [Rec(b.nextLsn, 1, 0, OpCommit, None)])
  {
    hide Possible, After, Enabled, Apply, Flushed, NoneDirty;
    RecordSteps(b, 1);
    var c := Apply(b, AppendCommit(1));
    FlushStep(c);
    assert c.phase == map[1 := Committing, 2 := Aborted];
    SameFrames(b, c, 1);
    DurablePhases(c);
    EndSteps(Flushed(c), 1);
    ThreeSteps(b, AppendCommit(1), FlushLog, EndCommit(1));
  }

  lemma SameFrames(s: Sys, s': Sys, t: TxnId)
    requires NoneDirty(s, t) && s'.frames == s.frames
    ensures NoneDirty(s', t)
  {}

  lemma DurablePhases(c: Sys)
    requires c.phase == map[1 := Committing, 2 := Aborted] && NoneDirty(c, 1)
    ensures var d := Flushed(c);
            && d.phase == map[1 := Durable, 2 := Aborted] && NoneDirty(d, 1)
            && d.up == c.up && d.disk == c.disk && d.frames == c.frames && d.log == c.log + c.buf
  {}

  // ---- A reused id ----

  /** A change of transaction 1 is rolled back, and the process restarts. */
  function RolledBackThenRestarted(p0: Page, p1: Page): seq<Step> {
    [Begin(1), Allocate(p0), Fetch(0)] + [Write(1, p1, OpInsert), BeginRollback(1), Reload(1, 0)]
    + [EndRollback(1), FlushLog, Crash] + [EndRecovery]
  }

  function OldRecords(p1: Page): seq<Rec> { [Rec(0, 1, 0, OpInsert, Some(p1)), Rec(1, 1, 0, OpAbort, None)] }

  lemma FirstFetched(p0: Page)
    requires p0.id == 0
    ensures var run := [Begin(1), Allocate(p0), Fetch(0)];
            && Possible(Fresh, run)
            && var s := After(Fresh, run);
               s == Fresh.(disk := map[0 := p0], phase := map[1 := Active], frames := map[0 := Frame(p0, 1, false, 0)],
                           born := s.born, cv := s.cv, ws := s.ws)
  {
    hide Possible, After;
    ThreeSteps(Fresh, Begin(1), Allocate(p0), Fetch(0));
  }

  lemma WrittenAndReloaded(s: Sys, p0: Page, p1: Page)
    requires p0.id == p1.id == 0
    requires s == Fresh.(disk := map[0 := p0], phase := map[1 := Active], frames := map[0 := Frame(p0, 1, false, 0)],
                         born := s.born, cv := s.cv, ws := s.ws)
    ensures var run := [Write(1, p1, OpInsert), BeginRollback(1), Reload(1, 0)];
            && Possible(s, run)
            && var e := After(s, run);
               e == s.(buf := OldRecords(p1), nextLsn := 2, phase := map[1 := Aborting], frames := map[0 := Frame(p0, 0, false, 1)],
                       ws := e.ws)
  {
    hide Possible, After;
    var a := Apply(s, Write(1, p1, OpInsert));
    assert a.frames == map[0 := Frame(p1.(lsn := 0), 0, true, 1)];
    WrittenThenReloaded(s, a, p0, p1);
  }

  lemma WrittenThenReloaded(s: Sys, a: Sys, p0: Page, p1: Page)
    requires Enabled(s, Write(1, p1, OpInsert)) && a == Apply(s, Write(1, p1, OpInsert)) && a.up
    requires a.disk == map[0 := p0] && a.phase == map[1 := Active] && a.frames == map[0 := Frame(p1.(lsn := 0), 0, true, 1)]
    ensures var run := [Write(1, p1, OpInsert), BeginRollback(1), Reload(1, 0)];
            && Possible(s, run)
            && var e := After(s, run);
               e == a.(buf := a.buf + [Rec(a.nextLsn, 1, 0, OpAbort, None)], nextLsn := a.nextLsn + 1,
                       phase := map[1 := Aborting], frames := map[0 := Frame(p0, 0, false, 1)], ws := e.ws)
  {
    hide Possible, After, Enabled, Apply;
    RecordSteps(a, 1);
    var b := Apply(a, BeginRollback(1));
    ReloadOne(b, 1, 0);
    ThreeSteps(s, Write(1, p1, OpInsert), BeginRollback(1), Reload(1, 0));
  }

  lemma CrashStep(s: Sys)
    ensures Enabled(s, Crash)
    ensures Apply(s, Crash) == s.(buf := [], frames := map[], phase := map[], ws := map[], up := false,
                                  nextLsn := if s.log == [] then 0 else s.log[|s.log| - 1].lsn + 1)
  {}

  lemma EndedAndCrashed(s: Sys, p0: Page, p1: Page)
    requires s == Fresh.(disk := map[0 := p0], buf := OldRecords(p1), nextLsn := 2, phase := map[1 := Aborting],
                         frames := map[0 := Frame(p0, 0, false, 1)], born := s.born, cv := s.cv, ws := s.ws)
    ensures var run := [EndRollback(1), FlushLog, Crash];
            && Possible(s, run)
            && var e := After(s, run);
               e == Fresh.(disk := map[0 := p0], up := false, log := OldRecords(p1), nextLsn := 2, born := e.born, cv := e.cv)
  {
    hide Possible, After, Enabled, Apply;
    assert NoneDirty(s, 1);
    EndSteps(s, 1);
    var a := Apply(s, EndRollback(1));
    FlushStep(a);
    assert [] + OldRecords(p1) == OldRecords(p1);
    CrashStep(Flushed(a));
    ThreeSteps(s, EndRollback(1), FlushLog, Crash);
  }

  lemma NothingToRedo(p1: Page)
    ensures Committed(OldRecords(p1)) == {} && Redo(OldRecords(p1), 0) == None
  {
    NoCommits(OldRecords(p1));
    NoneCommitted(OldRecords(p1), {}, 0);
  }

  lemma Recovers(s: Sys, p0: Page, p1: Page)
    requires s == Fresh.(disk := map[0 := p0], up := false, log := OldRecords(p1), nextLsn := 2, born := s.born, cv := s.cv)
    ensures Possible(s, [EndRecovery]) && After(s, [EndRecovery]) == s.(up := true)
  {
    NothingToRedo(p1);
    OneStep(s, EndRecovery);
  }

  lemma RestartedReady(p0: Page, p1: Page)
    requires p0.id == p1.id == 0
    ensures Possible(Fresh, RolledBackThenRestarted(p0, p1))
    ensures var s := After(Fresh, RolledBackThenRestarted(p0, p1));
            s == Fresh.(disk := map[0 := p0], born := s.born, cv := s.cv, nextLsn := 2, log := OldRecords(p1))
  {
    hide Possible, After, OldRecords, Redo, Enabled, Apply;
    var r1, r2, r3 := [Begin(1), Allocate(p0), Fetch(0)], [Write(1, p1, OpInsert), BeginRollback(1), Reload(1, 0)], [EndRollback(1), FlushLog, Crash];
    FirstFetched(p0);
    WrittenAndReloaded(After(Fresh, r1), p0, p1);
    AfterJoin(Fresh, r1, r2);
    EndedAndCrashed(After(Fresh, r1 + r2), p0, p1);
    AfterJoin(Fresh, r1 + r2, r3);
    Recovers(After(Fresh, r1 + r2 + r3), p0, p1);
    AfterJoin(Fresh, r1 + r2 + r3, [EndRecovery]);
  }

  /**
    Ids restart with the process. With 1 in use again, its COMMIT record, about nothing at all, brings
    back the page change that was rolled back before the restart.
   */
  lemma ReusedIdRevivesAbortedWrite(p0: Page, p1: Page)
    requires p0.id == p1.id == 0
    ensures Possible(Fresh, RolledBackThenRestarted(p0, p1))
    ensures var s := After(Fresh, RolledBackThenRestarted(p0, p1));
            && s.up && 1 !in s.phase && Redo(s.log, 0) == None
            && Possible(Reopened(s, 1), [AppendCommit(1), FlushLog, EndCommit(1)])
            && var e := After(Reopened(s, 1), [AppendCommit(1), FlushLog, EndCommit(1)]);
               e.up && ViewOf(e.disk, e.frames) == map[0 := p0] && Redo(e.log, 0) == Some(p1)
  {
    hide Possible, After, OldRecords, Redo, ViewOf;
    RestartedReady(p0, p1);
    NothingToRedo(p1);
    var s := After(Fresh, RolledBackThenRestarted(p0, p1));
    CommittedAlone(Reopened(s, 1));
    OldRecordCounts(p1, Rec(2, 1, 0, OpCommit, None));
    ViewOfDisk(map[0 := p0]);
  }

  lemma CommittedAlone(s: Sys)
    requires s.up && s.frames == map[] && s.phase == map[1 := Active] && s.buf == []
    ensures var run := [AppendCommit(1), FlushLog, EndCommit(1)];
            && Possible(s, run)
            && var e := After(s, run);
               e.up && e.disk == s.disk && e.frames == s.frames && e.log == s.log + [Rec(s.nextLsn, 1, 0, OpCommit, None)]
  {
    hide Possible, After, Enabled, Apply;
    RecordSteps(s, 1);
    var a := Apply(s, AppendCommit(1));
    FlushStep(a);
    var b := Apply(a, FlushLog);
    assert NoneDirty(b, 1);
    EndSteps(b, 1);
    ThreeSteps(s, AppendCommit(1), FlushLog, EndCommit(1));
  }

  lemma ViewOfDisk(disk: Disk)
    ensures ViewOf(disk, map[]) == disk
  {}

  lemma OldRecordCounts(p1: Page, c: Rec)
    requires c.op.OpCommit? && c.txn == 1
    ensures Redo(OldRecords(p1) + [c], 0) == Some(p1)
  {
    AppendedCommits(OldRecords(p1), 1, [c]);
    NothingToRedo(p1);
    assert Committed(OldRecords(p1) + [c]) == {1};
    LastCommittedIs(OldRecords(p1) + [c], {1}, 0, 0);
  }

  // ---- A rollback that stops half-way ----

  /** A transaction changes two pages; its rollback reloads the first one and stops at the second, which another reader has pinned. */
  function HalfReloaded(p0: Page, p1: Page, q0: Page, q1: Page): seq<Step> {
    [Begin(1), Allocate(p0), Fetch(0)] + [Write(1, p1, OpInsert), Allocate(q0), Fetch(1)] + [Fetch(1), Write(1, q1, OpInsert), BeginRollback(1)]
    + [Reload(1, 0)]
  }

  function HalfRecords(p1: Page, q1: Page): seq<Rec> {
    [Rec(0, 1, 0, OpInsert, Some(p1)), Rec(1, 1, 1, OpInsert, Some(q1)), Rec(2, 1, 0, OpAbort, None)]
  }

  lemma FirstWritten(s: Sys, p0: Page, p1: Page, q0: Page)
    requires p0.id == p1.id == 0 && q0.id == 1
    requires s == Fresh.(disk := map[0 := p0], phase := map[1 := Active], frames := map[0 := Frame(p0, 1, false, 0)],
                         born := s.born, cv := s.cv, ws := s.ws)
    ensures var run := [Write(1, p1, OpInsert), Allocate(q0), Fetch(1)];
            && Possible(s, run)
            && var e := After(s, run);
               e == s.(disk := map[0 := p0, 1 := q0], buf := [Rec(0, 1, 0, OpInsert, Some(p1))], nextLsn := 1,
                       frames := map[0 := Frame(p1.(lsn := 0), 0, true, 1), 1 := Frame(q0, 1, false, 0)],
                       born := e.born, cv := e.cv, ws := e.ws)
  {
    hide Possible, After;
    var a := Apply(s, Write(1, p1, OpInsert));
    assert a.frames == map[0 := Frame(p1.(lsn := 0), 0, true, 1)] && a.buf == [Rec(0, 1, 0, OpInsert, Some(p1))];
    var b := Apply(a, Allocate(q0));
    assert b.disk == map[0 := p0, 1 := q0];
    ThreeSteps(s, Write(1, p1, OpInsert), Allocate(q0), Fetch(1));
  }

  lemma SecondWritten(s: Sys, q0: Page, q1: Page)
    requires q0.id == q1.id == 1 && s.up && s.phase == map[1 := Active] && 0 in s.frames && 1 in s.disk
    requires s.frames == map[0 := s.frames[0], 1 := Frame(q0, 1, false, 0)]
    ensures var run := [Fetch(1), Write(1, q1, OpInsert), BeginRollback(1)];
            && Possible(s, run)
            && var e := After(s, run);
               e == s.(buf := s.buf + [Rec(s.nextLsn, 1, 1, OpInsert, Some(q1))] + [Rec(s.nextLsn + 1, 1, 0, OpAbort, None)],
                       nextLsn := s.nextLsn + 2, phase := map[1 := Aborting],
                       frames := map[0 := s.frames[0], 1 := Frame(q1.(lsn := s.nextLsn), 1, true, 1)], ws := e.ws)
  {
    hide Possible, After, Enabled, Apply;
    PinnedAgain(s, q0);
    var a := Apply(s, Fetch(1));
    PinnedWrite(a, q0, q1);
    var b := Apply(a, Write(1, q1, OpInsert));
    RecordSteps(b, 1);
    ThreeSteps(s, Fetch(1), Write(1, q1, OpInsert), BeginRollback(1));
  }

  lemma PinnedAgain(s: Sys, q0: Page)
    requires s.up && 0 in s.frames && 1 in s.disk && s.frames == map[0 := s.frames[0], 1 := Frame(q0, 1, false, 0)]
    ensures Enabled(s, Fetch(1))
    ensures Apply(s, Fetch(1)) == s.(frames := map[0 := s.frames[0], 1 := Frame(q0, 2, false, 0)])
  {}

  lemma PinnedWrite(a: Sys, q0: Page, q1: Page)
    requires q1.id == 1 && a.up && a.phase == map[1 := Active] && 0 in a.frames
    requires a.frames == map[0 := a.frames[0], 1 := Frame(q0, 2, false, 0)]
    ensures Enabled(a, Write(1, q1, OpInsert))
    ensures var b := Apply(a, Write(1, q1, OpInsert));
            b == a.(buf := a.buf + [Rec(a.nextLsn, 1, 1, OpInsert, Some(q1))], nextLsn := a.nextLsn + 1, ws := b.ws,
                    frames := map[0 := a.frames[0], 1 := Frame(q1.(lsn := a.nextLsn), 1, true, 1)])
  {}

  lemma HalfReloadedReady(p0: Page, p1: Page, q0: Page, q1: Page)
    requires p0.id == p1.id == 0 && q0.id == q1.id == 1
    ensures Possible(Fresh, HalfReloaded(p0, p1, q0, q1))
    ensures var s := After(Fresh, HalfReloaded(p0, p1, q0, q1));
            s == Fresh.(disk := map[0 := p0, 1 := q0], buf := HalfRecords(p1, q1), nextLsn := 3, phase := map[1 := Aborting],
                        frames := map[0 := Frame(p0, 0, false, 1), 1 := Frame(q1.(lsn := 1), 1, true, 1)],
                        born := s.born, cv := s.cv, ws := s.ws)
  {
    hide Possible, After, Enabled, Apply;
    var r1, r2, r3 := [Begin(1), Allocate(p0), Fetch(0)], [Write(1, p1, OpInsert), Allocate(q0), Fetch(1)], [Fetch(1), Write(1, q1, OpInsert), BeginRollback(1)];
    FirstFetched(p0);
    FirstWritten(After(Fresh, r1), p0, p1, q0);
    AfterJoin(Fresh, r1, r2);
    SecondWritten(After(Fresh, r1 + r2), q0, q1);
    AfterJoin(Fresh, r1 + r2, r3);
    var s := After(Fresh, r1 + r2 + r3);
    assert [Rec(0, 1, 0, OpInsert, Some(p1))] + [Rec(1, 1, 1, OpInsert, Some(q1))] + [Rec(2, 1, 0, OpAbort, None)] == HalfRecords(p1, q1);
    ReloadOne(s, 1, 0);
    OneStep(s, Reload(1, 0));
    AfterJoin(Fresh, r1 + r2 + r3, [Reload(1, 0)]);
  }

  lemma HalfRedo(p1: Page, q1: Page, c: Rec)
    requires c.op.OpCommit? && c.txn == 1
    ensures Redo(HalfRecords(p1, q1) + [c], 0) == Some(p1) && Redo(HalfRecords(p1, q1), 0) == None && Committed(HalfRecords(p1, q1)) == {}
  {
    var recs := HalfRecords(p1, q1);
    NoCommits(recs);
    NoneCommitted(recs, {}, 0);
    AppendedCommits(recs, 1, [c]);
    assert Committed(recs + [c]) == {1} && (recs + [c])[0] == recs[0];
    LastCommittedIs(recs + [c], {1}, 0, 0);
  }

  /**
    The transaction is still active after such a rollback. Going on with it is safe exactly if the page that
    has been reloaded had not changed; otherwise a commit brings the change back that readers no longer see.
   */
  lemma HalfReloadedIsUnsafe(p0: Page, p1: Page, q0: Page, q1: Page)
    requires p0.id == p1.id == 0 && q0.id == q1.id == 1
    ensures Possible(Fresh, HalfReloaded(p0, p1, q0, q1))
    ensures var s := After(Fresh, HalfReloaded(p0, p1, q0, q1));
            && Inv(s) && s.up && InPhase(s, 1, {Aborting})
            && (Harmless(s, 1) <==> SameButLsn(p1, p0))
            && (AlwaysAgrees(s.(phase := s.phase[1 := Active])) <==> SameButLsn(p1, p0))
  {
    hide Possible, After, Inv, AlwaysAgrees, HalfRecords, Redo;
    HalfReloadedReady(p0, p1, q0, q1);
    FreshInv();
    RunInv(Fresh, HalfReloaded(p0, p1, q0, q1));
    var s := After(Fresh, HalfReloaded(p0, p1, q0, q1));
    HalfRedo(p1, q1, CommitRec(s, 1));
    assert AllRecs(s) == HalfRecords(p1, q1);
    assert RedoneAlike(s, 1, 0) <==> SameButLsn(p1, p0);
    assert DirtyOf(s.frames, 1) == Some(1) && DirtyOf(s.frames, 0) == None;
    ResumeIsSafeIff(s, 1);
  }
}
