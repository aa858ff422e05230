/** Every step of the machine keeps its invariant. */
module MachineProofs {
  import opened Types
  import opened Pages
  import opened Storage
  import opened Recovery
  import opened Machine

  // ---- Logs ----

  lemma CommittedAppend(a: seq<Rec>, b: seq<Rec>)
    ensures Committed(a + b) == Committed(a) + Committed(b)
  {
    forall t | t in Committed(a + b) ensures t in Committed(a) + Committed(b) {
      var i :| 0 <= i < |a + b| && (a + b)[i].op.OpCommit? && (a + b)[i].txn == t;
      if i < |a| { assert a[i].txn == t; } else { assert b[i - |a|].txn == t; }
    }
    forall t | t in Committed(a) + Committed(b) ensures t in Committed(a + b) {
      if t in Committed(a) {
        var i :| 0 <= i < |a| && a[i].op.OpCommit? && a[i].txn == t;
        assert (a + b)[i] == a[i];
      } else {
        var i :| 0 <= i < |b| && b[i].op.OpCommit? && b[i].txn == t;
        assert (a + b)[|a| + i] == b[i];
      }
    }
  }

  lemma CommittedOne(r: Rec)
    ensures Committed([r]) == if r.op.OpCommit? then {r.txn} else {}
  {
    if r.op.OpCommit? { assert [r][0] == r; }
  }

  lemma LastOfAppend(a: seq<Rec>, r: Rec, id: PageId)
    ensures LastOf(a + [r], id) == if PageWrite(r, id) then Some(r) else LastOf(a, id)
  {
    assert (a + [r])[..|a|] == a;
  }

  /** If the last writer of a page is committed, its record is the last committed one. */
  lemma {:induction false} LastIsCommitted(recs: seq<Rec>, done: set<TxnId>, id: PageId)
    requires LastOf(recs, id).Some? && LastOf(recs, id).value.txn in done
    ensures LastCommitted(recs, done, id) == LastOf(recs, id)
  {
    if !PageWrite(recs[|recs| - 1], id) { LastIsCommitted(recs[..|recs| - 1], done, id); }
  }

  // ---- Begin ----

  lemma NotCommittedYet(recs: seq<Rec>, t: TxnId)
    requires forall i | 0 <= i < |recs| :: recs[i].txn != t
    ensures t !in Committed(recs)
  {}

  lemma BeginInv(s: Sys, t: TxnId)
    requires Inv(s) && Enabled(s, Begin(t))
    ensures Inv(Apply(s, Begin(t)))
  {
    hide IdsOk, LogOk, PhasesOk, RedoOk, DiskOk, ContentsOk, MarkedOk, PendingOk, LatestOk, TraceOk, NoSteal;
    assert AllRecs(s) == s.log + s.buf;
    forall i | 0 <= i < |s.log| ensures s.log[i].txn != t { assert AllRecs(s)[i] == s.log[i]; }
    NotCommittedYet(s.log, t);
    BeginIds(s, t);
    BeginFrames(s, t);
    BeginWrites(s, t);
  }

  lemma BeginIds(s: Sys, t: TxnId)
    requires t !in s.phase && IdsOk(s.disk, s.born, s.cv, s.frames, s.phase, s.ws) && PhasesOk(s.log, s.buf, s.phase)
    requires t !in Committed(s.log)
    ensures IdsOk(s.disk, s.born, s.cv, s.frames, s.phase[t := Active], s.ws[t := map[]])
    ensures PhasesOk(s.log, s.buf, s.phase[t := Active])
  {}

  lemma BeginFrames(s: Sys, t: TxnId)
    requires t !in s.phase && IdsOk(s.disk, s.born, s.cv, s.frames, s.phase, s.ws)
    requires ContentsOk(s.frames, s.phase, s.ws, s.disk) && DiskOk(s.up, s.frames, s.phase, s.disk, s.cv)
    ensures ContentsOk(s.frames, s.phase[t := Active], s.ws[t := map[]], s.disk)
    ensures DiskOk(s.up, s.frames, s.phase[t := Active], s.disk, s.cv)
  {
    forall id | id in s.frames ensures FrameOk(s.frames[id], id, s.phase[t := Active], s.ws[t := map[]], s.disk) {
      assert FrameOk(s.frames[id], id, s.phase, s.ws, s.disk);
    }
  }

  lemma BeginWrites(s: Sys, t: TxnId)
    requires t !in s.phase && IdsOk(s.disk, s.born, s.cv, s.frames, s.phase, s.ws)
    requires MarkedOk(s.ws, s.frames) && PendingOk(s.ws, s.phase, s.cv) && LatestOk(s.ws, s.phase, s.log + s.buf)
    requires TraceOk(s.log + s.buf, s.phase, s.ws, s.cv) && forall i | 0 <= i < |s.log + s.buf| :: (s.log + s.buf)[i].txn != t
    ensures MarkedOk(s.ws[t := map[]], s.frames) && PendingOk(s.ws[t := map[]], s.phase[t := Active], s.cv)
    ensures LatestOk(s.ws[t := map[]], s.phase[t := Active], s.log + s.buf)
    ensures TraceOk(s.log + s.buf, s.phase[t := Active], s.ws[t := map[]], s.cv)
  {}

  // ---- Allocate ----

  lemma AllocateInv(s: Sys, p: Page)
    requires Inv(s) && Enabled(s, Allocate(p))
    ensures Inv(Apply(s, Allocate(p)))
  {
    hide LogOk, PhasesOk, RedoOk, DiskOk, ContentsOk, MarkedOk, PendingOk, LatestOk, TraceOk, NoSteal;
    AllocateLog(s, p);
    AllocatePages(s, p);
    AllocateUsers(s, p);
    AllocateTrace(s, p);
  }

  lemma AllocateTrace(s: Sys, p: Page)
    requires LogOk(s.log + s.buf, s.nextLsn, s.disk) && TraceOk(s.log + s.buf, s.phase, s.ws, s.cv) && p.id !in s.disk
    ensures TraceOk(s.log + s.buf, s.phase, s.ws, s.cv[p.id := p])
  {
    var recs := s.log + s.buf;
    forall i | 0 <= i < |recs| && PageWrite(recs[i], recs[i].page) && Has(s.phase, recs[i].txn, {Active, Committing})
      ensures recs[i].page in Of(s.ws, recs[i].txn) || Moot(recs, i, s.cv[p.id := p])
    {
      assert recs[i].page in s.disk;
      assert recs[i].page in Of(s.ws, recs[i].txn) || Moot(recs, i, s.cv);
    }
  }

  lemma AllocateLog(s: Sys, p: Page)
    requires LogOk(s.log + s.buf, s.nextLsn, s.disk) && p.id !in s.disk
    ensures LogOk(s.log + s.buf, s.nextLsn, s.disk[p.id := p])
    ensures Redo(s.log, p.id) == None
  {
    if LastCommitted(s.log, Committed(s.log), p.id).Some? {
      var k := LastCommittedIn(s.log, Committed(s.log), p.id);
      assert (s.log + s.buf)[k] == s.log[k];
    }
  }

  lemma AllocatePages(s: Sys, p: Page)
    requires RedoOk(s.log, s.disk, s.cv) && DiskOk(s.up, s.frames, s.phase, s.disk, s.cv) && NoSteal(s.log, s.born, s.disk)
    requires Redo(s.log, p.id) == None && p.id !in s.disk
    ensures RedoOk(s.log, s.disk[p.id := p], s.cv[p.id := p])
    ensures DiskOk(s.up, s.frames, s.phase, s.disk[p.id := p], s.cv[p.id := p])
    ensures NoSteal(s.log, s.born[p.id := p], s.disk[p.id := p])
  {
    var disk', born' := s.disk[p.id := p], s.born[p.id := p];
    forall id | id in disk' ensures Saved(s.log, born', id, disk'[id]) {
      if id != p.id { assert Saved(s.log, s.born, id, s.disk[id]); }
    }
  }

  lemma AllocateUsers(s: Sys, p: Page)
    requires ContentsOk(s.frames, s.phase, s.ws, s.disk) && MarkedOk(s.ws, s.frames) && PendingOk(s.ws, s.phase, s.cv)
    requires s.frames.Keys <= s.disk.Keys && p.id !in s.disk
    ensures ContentsOk(s.frames, s.phase, s.ws, s.disk[p.id := p]) && PendingOk(s.ws, s.phase, s.cv[p.id := p])
  {
    forall id | id in s.frames ensures FrameOk(s.frames[id], id, s.phase, s.ws, s.disk[p.id := p]) {
      assert FrameOk(s.frames[id], id, s.phase, s.ws, s.disk);
    }
    forall u, id | u in s.ws && id in s.ws[u] && Has(s.phase, u, {Durable})
      ensures id in s.cv[p.id := p] && SameButLsn(s.ws[u][id], s.cv[p.id := p][id])
    {
      assert DirtyOf(s.frames, id) == Some(u);
    }
  }

  lemma SetRootInv(s: Sys, id: PageId)
    requires Inv(s) && Enabled(s, SetRoot(id))
    ensures Inv(Apply(s, SetRoot(id)))
  {}

  // ---- Fetch, Unpin, Evict ----

  /** Frames that come, go or are pinned without a change of contents or marks. */
  ghost predicate Refreshed(s: Sys, frames': Frames) {
    && frames'.Keys <= s.disk.Keys
    && (forall id | id in frames' :: frames'[id].page.id == id)
    && (forall x: PageId :: DirtyOf(frames', x) == DirtyOf(s.frames, x))
    && forall id | id in frames' ::
         if id in s.frames then frames'[id].page == s.frames[id].page && frames'[id].dirty == s.frames[id].dirty
         else !frames'[id].dirty && frames'[id].page == s.disk[id]
  }

  lemma RefreshedInv(s: Sys, frames': Frames)
    requires Inv(s) && s.up && Refreshed(s, frames')
    ensures Inv(s.(frames := frames'))
  {
    hide LogOk, PhasesOk, RedoOk, DiskOk, ContentsOk, MarkedOk, PendingOk, LatestOk, TraceOk, NoSteal;
    RefreshedDisk(s, frames');
    RefreshedContents(s, frames');
  }

  lemma RefreshedDisk(s: Sys, frames': Frames)
    requires DiskOk(s.up, s.frames, s.phase, s.disk, s.cv) && MarkedOk(s.ws, s.frames) && Refreshed(s, frames')
    ensures DiskOk(s.up, frames', s.phase, s.disk, s.cv) && MarkedOk(s.ws, frames')
  {}

  lemma RefreshedContents(s: Sys, frames': Frames)
    requires ContentsOk(s.frames, s.phase, s.ws, s.disk) && Refreshed(s, frames')
    ensures ContentsOk(frames', s.phase, s.ws, s.disk)
  {
    forall id | id in frames' ensures FrameOk(frames'[id], id, s.phase, s.ws, s.disk) {
      if id in s.frames {
        assert FrameOk(s.frames[id], id, s.phase, s.ws, s.disk);
        assert DirtyOf(frames', id) == DirtyOf(s.frames, id);
      }
    }
  }

  lemma FetchInv(s: Sys, id: PageId)
    requires Inv(s) && Enabled(s, Fetch(id))
    ensures Inv(Apply(s, Fetch(id)))
  {
    hide LogOk, PhasesOk, RedoOk, DiskOk, ContentsOk, MarkedOk, PendingOk, LatestOk, TraceOk, NoSteal;
    RefreshedInv(s, Apply(s, Fetch(id)).frames);
  }

  lemma UnpinInv(s: Sys, id: PageId)
    requires Inv(s) && Enabled(s, Unpin(id))
    ensures Inv(Apply(s, Unpin(id)))
  {
    hide LogOk, PhasesOk, RedoOk, DiskOk, ContentsOk, MarkedOk, PendingOk, LatestOk, TraceOk, NoSteal;
    RefreshedInv(s, Apply(s, Unpin(id)).frames);
  }

  lemma EvictInv(s: Sys, id: PageId)
    requires Inv(s) && Enabled(s, Evict(id))
    ensures Inv(Apply(s, Evict(id)))
  {
    hide LogOk, PhasesOk, RedoOk, DiskOk, ContentsOk, MarkedOk, PendingOk, LatestOk, TraceOk, NoSteal;
    RefreshedInv(s, Apply(s, Evict(id)).frames);
  }

  // ---- Commit and abort records ----

  lemma AppendedLog(s: Sys, r: Rec)
    requires LogOk(s.log + s.buf, s.nextLsn, s.disk) && r.lsn == s.nextLsn
    requires r.op !in {OpCommit, OpAbort} ==> r.redo.Some? && r.redo.value.id == r.page && r.page in s.disk
    ensures s.log + (s.buf + [r]) == s.log + s.buf + [r]
    ensures LogOk(s.log + (s.buf + [r]), s.nextLsn + 1, s.disk)
  {
    assert s.log + (s.buf + [r]) == s.log + s.buf + [r];
  }

  lemma EndRecordInv(s: Sys, t: TxnId, op: Operation, next: Phase)
    requires Inv(s) && s.up && InPhase(s, t, {Active})
    requires (op == OpCommit && next == Committing) || (op == OpAbort && next == Aborting)
    ensures Inv(Appended(s, t, 0, op, None).(phase := s.phase[t := next]))
  {
    hide IdsOk, LogOk, PhasesOk, RedoOk, DiskOk, ContentsOk, MarkedOk, PendingOk, LatestOk, TraceOk, NoSteal;
    var r := Rec(s.nextLsn, t, 0, op, None);
    AppendedLog(s, r);
    EndRecordPhases(s, t, r, next);
    EndRecordFrames(s, t, next);
    EndRecordWrites(s, t, r, next);
  }

  lemma EndRecordPhases(s: Sys, t: TxnId, r: Rec, next: Phase)
    requires PhasesOk(s.log, s.buf, s.phase) && Has(s.phase, t, {Active}) && r.txn == t
    requires IdsOk(s.disk, s.born, s.cv, s.frames, s.phase, s.ws)
    requires (r.op == OpCommit && next == Committing) || (r.op == OpAbort && next == Aborting)
    ensures PhasesOk(s.log, s.buf + [r], s.phase[t := next])
    ensures IdsOk(s.disk, s.born, s.cv, s.frames, s.phase[t := next], s.ws)
  {
    CommittedAppend(s.buf, [r]);
    CommittedOne(r);
  }

  lemma EndRecordFrames(s: Sys, t: TxnId, next: Phase)
    requires Has(s.phase, t, {Active}) && next in {Committing, Aborting}
    requires ContentsOk(s.frames, s.phase, s.ws, s.disk) && DiskOk(s.up, s.frames, s.phase, s.disk, s.cv)
    ensures ContentsOk(s.frames, s.phase[t := next], s.ws, s.disk) && DiskOk(s.up, s.frames, s.phase[t := next], s.disk, s.cv)
  {
    forall id | id in s.frames ensures FrameOk(s.frames[id], id, s.phase[t := next], s.ws, s.disk) {
      assert FrameOk(s.frames[id], id, s.phase, s.ws, s.disk);
    }
  }

  lemma MootAppend(recs: seq<Rec>, r: Rec, i: nat, cv: Disk)
    requires i < |recs| && Moot(recs, i, cv)
    ensures Moot(recs + [r], i, cv)
  {
    CommittedAppend(recs, [r]);
    if Replaced(recs, i) {
      var j :| i < j < |recs| && PageWrite(recs[j], recs[i].page) && (recs[j].txn == recs[i].txn || recs[j].txn in Committed(recs));
      assert (recs + [r])[j] == recs[j];
    }
  }

  /** One more record, whose page is among its transaction's unsaved writes if it changes a page. */
  lemma TraceAppend(recs: seq<Rec>, r: Rec, phase: Phases, phase': Phases, ws: map<TxnId, Disk>, ws': map<TxnId, Disk>, cv: Disk)
    requires TraceOk(recs, phase, ws, cv) && (PageWrite(r, r.page) ==> r.page in Of(ws', r.txn))
    requires forall t | Has(phase', t, {Active, Committing}) :: Has(phase, t, {Active, Committing})
    requires forall t :: Of(ws, t).Keys <= Of(ws', t).Keys
    ensures TraceOk(recs + [r], phase', ws', cv)
  {
    var more := recs + [r];
    forall i | 0 <= i < |more| && PageWrite(more[i], more[i].page) && Has(phase', more[i].txn, {Active, Committing})
      ensures more[i].page in Of(ws', more[i].txn) || Moot(more, i, cv)
    {
      if i < |recs| {
        assert more[i] == recs[i];
        assert recs[i].page in Of(ws, recs[i].txn) || Moot(recs, i, cv);
        if recs[i].page in Of(ws, recs[i].txn) { assert recs[i].page in Of(ws, recs[i].txn).Keys; } else { MootAppend(recs, r, i, cv); }
      }
    }
  }

  lemma EndRecordWrites(s: Sys, t: TxnId, r: Rec, next: Phase)
    requires Has(s.phase, t, {Active}) && next in {Committing, Aborting} && r.op in {OpCommit, OpAbort}
    requires PendingOk(s.ws, s.phase, s.cv) && LatestOk(s.ws, s.phase, s.log + s.buf) && TraceOk(s.log + s.buf, s.phase, s.ws, s.cv)
    ensures PendingOk(s.ws, s.phase[t := next], s.cv)
    ensures LatestOk(s.ws, s.phase[t := next], s.log + s.buf + [r]) && TraceOk(s.log + s.buf + [r], s.phase[t := next], s.ws, s.cv)
  {
    var recs := s.log + s.buf;
    TraceAppend(recs, r, s.phase, s.phase[t := next], s.ws, s.ws, s.cv);
    forall u, id | u in s.ws && id in s.ws[u] && Has(s.phase[t := next], u, {Active, Committing, Aborting})
      ensures LastIs(recs + [r], id, u, s.ws[u][id])
    {
      LastOfAppend(recs, r, id);
      assert LastIs(recs, id, u, s.ws[u][id]);
    }
  }

  lemma AppendCommitInv(s: Sys, t: TxnId)
    requires Inv(s) && Enabled(s, AppendCommit(t))
    ensures Inv(Apply(s, AppendCommit(t)))
  {
    EndRecordInv(s, t, OpCommit, Committing);
  }

  lemma BeginRollbackInv(s: Sys, t: TxnId)
    requires Inv(s) && Enabled(s, BeginRollback(t))
    ensures Inv(Apply(s, BeginRollback(t)))
  {
    EndRecordInv(s, t, OpAbort, Aborting);
  }

  // ---- The end of a commit or a rollback ----

  lemma EndInv(s: Sys, t: TxnId, from: Phase, to: Phase)
    requires Inv(s) && s.up && InPhase(s, t, {from}) && NoneDirty(s, t)
    requires (from == Durable && to == Done) || (from == Aborting && to == Aborted)
    ensures Inv(s.(phase := s.phase[t := to]))
  {
    hide IdsOk, LogOk, PhasesOk, RedoOk, DiskOk, ContentsOk, MarkedOk, PendingOk, LatestOk, TraceOk, NoSteal;
    EndPhases(s, t, from, to);
    EndFrames(s, t, from, to);
    EndWrites(s, t, from, to);
  }

  lemma EndPhases(s: Sys, t: TxnId, from: Phase, to: Phase)
    requires PhasesOk(s.log, s.buf, s.phase) && IdsOk(s.disk, s.born, s.cv, s.frames, s.phase, s.ws)
    requires Has(s.phase, t, {from}) && ((from == Durable && to == Done) || (from == Aborting && to == Aborted))
    ensures PhasesOk(s.log, s.buf, s.phase[t := to]) && IdsOk(s.disk, s.born, s.cv, s.frames, s.phase[t := to], s.ws)
  {
    forall u | u in Committed(s.buf) ensures Has(s.phase[t := to], u, {Committing}) { assert Has(s.phase, u, {Committing}); }
    forall i | 0 <= i < |s.buf| ensures Has(s.phase[t := to], s.buf[i].txn, {Active, Committing, Aborting, Aborted}) {
      assert Has(s.phase, s.buf[i].txn, {Active, Committing, Aborting, Aborted});
    }
  }

  lemma EndFrames(s: Sys, t: TxnId, from: Phase, to: Phase)
    requires Has(s.phase, t, {from}) && NoneDirty(s, t)
    requires ContentsOk(s.frames, s.phase, s.ws, s.disk) && DiskOk(s.up, s.frames, s.phase, s.disk, s.cv)
    ensures ContentsOk(s.frames, s.phase[t := to], s.ws, s.disk) && DiskOk(s.up, s.frames, s.phase[t := to], s.disk, s.cv)
  {
    forall id | id in s.frames ensures FrameOk(s.frames[id], id, s.phase[t := to], s.ws, s.disk) {
      assert FrameOk(s.frames[id], id, s.phase, s.ws, s.disk);
      assert DirtyOf(s.frames, id) != Some(t);
    }
    forall id | id in s.disk && DirtyIn(s.frames, s.phase, id, {Durable}) ensures DirtyIn(s.frames, s.phase[t := to], id, {Durable}) {
      assert DirtyOf(s.frames, id) != Some(t);
    }
  }

  lemma EndWrites(s: Sys, t: TxnId, from: Phase, to: Phase)
    requires Has(s.phase, t, {from}) && to in {Done, Aborted}
    requires PendingOk(s.ws, s.phase, s.cv) && LatestOk(s.ws, s.phase, s.log + s.buf) && TraceOk(s.log + s.buf, s.phase, s.ws, s.cv)
    ensures PendingOk(s.ws, s.phase[t := to], s.cv) && LatestOk(s.ws, s.phase[t := to], s.log + s.buf)
    ensures TraceOk(s.log + s.buf, s.phase[t := to], s.ws, s.cv)
  {}

  // ---- Write ----

  lemma WriteInv(s: Sys, t: TxnId, p: Page, op: Operation)
    requires Inv(s) && Enabled(s, Write(t, p, op))
    ensures Inv(Apply(s, Write(t, p, op)))
  {
    hide LogOk, PhasesOk, RedoOk, DiskOk, ContentsOk, MarkedOk, PendingOk, LatestOk, TraceOk, NoSteal;
    var r := Rec(s.nextLsn, t, p.id, op, Some(p));
    var s' := Apply(s, Write(t, p, op));
    assert Has(s.phase, t, {Active});
    AppendedLog(s, r);
    WritePhases(s, t, r);
    WriteFrames(s, t, p, op);
    WriteWrites(s, t, p, op);
    WriteLatest(s, t, p, op);
  }

  lemma WritePhases(s: Sys, t: TxnId, r: Rec)
    requires PhasesOk(s.log, s.buf, s.phase) && Has(s.phase, t, {Active}) && r.txn == t && r.op != OpCommit
    ensures PhasesOk(s.log, s.buf + [r], s.phase)
  {
    CommittedAppend(s.buf, [r]);
    CommittedOne(r);
  }

  lemma WriteFrames(s: Sys, t: TxnId, p: Page, op: Operation)
    requires CanWrite(s, t, p, op) && Exclusive(s, t, p.id)
    requires ContentsOk(s.frames, s.phase, s.ws, s.disk) && DiskOk(s.up, s.frames, s.phase, s.disk, s.cv)
    ensures var s' := Written(s, t, p, op);
            ContentsOk(s'.frames, s.phase, s'.ws, s.disk) && DiskOk(s.up, s'.frames, s.phase, s.disk, s.cv)
  {
    var s' := Written(s, t, p, op);
    assert FrameOk(s.frames[p.id], p.id, s.phase, s.ws, s.disk);
    forall id | id in s'.frames ensures FrameOk(s'.frames[id], id, s.phase, s'.ws, s.disk) {
      if id != p.id { assert FrameOk(s.frames[id], id, s.phase, s.ws, s.disk); }
    }
    forall id | id in s.disk && DirtyIn(s.frames, s.phase, id, {Durable}) ensures DirtyIn(s'.frames, s.phase, id, {Durable}) {
      assert id != p.id;
    }
  }

  lemma WriteWrites(s: Sys, t: TxnId, p: Page, op: Operation)
    requires CanWrite(s, t, p, op) && Exclusive(s, t, p.id) && PendingOk(s.ws, s.phase, s.cv) && MarkedOk(s.ws, s.frames)
    ensures var s' := Written(s, t, p, op); PendingOk(s'.ws, s.phase, s.cv) && MarkedOk(s'.ws, s'.frames)
  {
    var s' := Written(s, t, p, op);
    forall u, id | u in s'.ws && id in s'.ws[u] ensures DirtyOf(s'.frames, id) == Some(u) {
      if u != t || id != p.id { assert DirtyOf(s.frames, id) == Some(u); }
    }
  }

  lemma WriteLatest(s: Sys, t: TxnId, p: Page, op: Operation)
    requires CanWrite(s, t, p, op) && Exclusive(s, t, p.id) && MarkedOk(s.ws, s.frames)
    requires LatestOk(s.ws, s.phase, s.log + s.buf) && TraceOk(s.log + s.buf, s.phase, s.ws, s.cv)
    ensures var s', r := Written(s, t, p, op), Rec(s.nextLsn, t, p.id, op, Some(p));
            LatestOk(s'.ws, s.phase, s.log + s.buf + [r]) && TraceOk(s.log + s.buf + [r], s.phase, s'.ws, s.cv)
  {
    var s', r, recs := Written(s, t, p, op), Rec(s.nextLsn, t, p.id, op, Some(p)), s.log + s.buf;
    TraceAppend(recs, r, s.phase, s.phase, s.ws, s'.ws, s.cv);
    forall u, id | u in s'.ws && id in s'.ws[u] && Has(s.phase, u, {Active, Committing, Aborting})
      ensures LastIs(recs + [r], id, u, s'.ws[u][id])
    {
      LastOfAppend(recs, r, id);
      if u != t || id != p.id {
        assert DirtyOf(s.frames, id) == Some(u);
        assert LastIs(recs, id, u, s.ws[u][id]);
      }
    }
  }

  // ---- Log flush: the commit point ----

  /** The page's last committed version after the flush: the unsaved write of a committing transaction. */
  lemma FlushInv(s: Sys)
    requires Inv(s) && Enabled(s, FlushLog)
    ensures Inv(Apply(s, FlushLog))
  {
    hide LogOk, RedoOk, DiskOk, ContentsOk, MarkedOk, PendingOk, LatestOk, TraceOk, NoSteal;
    var s' := Flushed(s);
    assert s'.log + s'.buf == s.log + s.buf;
    FlushPhases(s);
    FlushFrames(s);
    FlushWrites(s);
    FlushTrace(s);
    FlushSaved(s);
    FlushRedo(s);
  }

  lemma FlushPhases(s: Sys)
    requires PhasesOk(s.log, s.buf, s.phase)
    ensures var s' := Flushed(s); PhasesOk(s'.log, s'.buf, s'.phase)
  {
    CommittedAppend(s.log, s.buf);
  }

  lemma FlushFrames(s: Sys)
    requires ContentsOk(s.frames, s.phase, s.ws, s.disk) && DiskOk(s.up, s.frames, s.phase, s.disk, s.cv)
    ensures var s' := Flushed(s);
            ContentsOk(s.frames, s'.phase, s.ws, s.disk) && DiskOk(s.up, s.frames, s'.phase, s.disk, s'.cv)
  {
    var s' := Flushed(s);
    forall id | id in s.frames ensures FrameOk(s.frames[id], id, s'.phase, s.ws, s.disk) {
      assert FrameOk(s.frames[id], id, s.phase, s.ws, s.disk);
    }
  }

  lemma FlushWrites(s: Sys)
    requires PendingOk(s.ws, s.phase, s.cv) && LatestOk(s.ws, s.phase, s.log + s.buf)
    requires MarkedOk(s.ws, s.frames) && IdsOk(s.disk, s.born, s.cv, s.frames, s.phase, s.ws)
    ensures var s' := Flushed(s); PendingOk(s.ws, s'.phase, s'.cv) && LatestOk(s.ws, s'.phase, s.log + s.buf)
  {
    var s' := Flushed(s);
    forall t, id | t in s.ws && id in s.ws[t] && Has(s'.phase, t, {Durable})
      ensures id in s'.cv && SameButLsn(s.ws[t][id], s'.cv[id])
    {
      assert DirtyOf(s.frames, id) == Some(t);
    }
  }

  /** A page that a commit changes has the committed record last, behind everything moot. */
  lemma FlushTrace(s: Sys)
    requires TraceOk(s.log + s.buf, s.phase, s.ws, s.cv) && LatestOk(s.ws, s.phase, s.log + s.buf) && PhasesOk(s.log, s.buf, s.phase)
    requires ContentsOk(s.frames, s.phase, s.ws, s.disk)
    ensures var s' := Flushed(s); TraceOk(s.log + s.buf, s'.phase, s.ws, s'.cv)
  {
    hide Moot, ContentsOk, LatestOk, PhasesOk;
    var s', recs := Flushed(s), s.log + s.buf;
    forall i | 0 <= i < |recs| && PageWrite(recs[i], recs[i].page) && Has(s'.phase, recs[i].txn, {Active, Committing})
      ensures recs[i].page in Of(s.ws, recs[i].txn) || Moot(recs, i, s'.cv)
    {
      if recs[i].page !in Of(s.ws, recs[i].txn) { FlushMoot(s, i); }
    }
  }

  lemma {:induction false} LastOfIn(recs: seq<Rec>, id: PageId) returns (k: nat)
    requires LastOf(recs, id).Some?
    ensures k < |recs| && recs[k] == LastOf(recs, id).value && PageWrite(recs[k], id)
    ensures forall j :: k < j < |recs| ==> !PageWrite(recs[j], id)
  {
    k := |recs| - 1;
    if !PageWrite(recs[k], id) {
      var n := k;
      k := LastOfIn(recs[..n], id);
      assert forall j :: 0 <= j < n ==> recs[..n][j] == recs[j];
    }
  }

  lemma FlushMoot(s: Sys, i: nat)
    requires LatestOk(s.ws, s.phase, s.log + s.buf) && PhasesOk(s.log, s.buf, s.phase) && ContentsOk(s.frames, s.phase, s.ws, s.disk)
    requires i < |s.log + s.buf| && var r := (s.log + s.buf)[i]; PageWrite(r, r.page) && r.page !in Of(s.ws, r.txn)
    requires Moot(s.log + s.buf, i, s.cv)
    ensures Moot(s.log + s.buf, i, Flushed(s).cv)
  {
    var recs := s.log + s.buf;
    var id := recs[i].page;
    if Commits(s, id) {
      var t := DirtyOf(s.frames, id).value;
      assert FrameOk(s.frames[id], id, s.phase, s.ws, s.disk);
      assert LastIs(recs, id, t, s.ws[t][id]);
      var k := LastOfIn(recs, id);
      CommittedAppend(s.log, s.buf);
      assert Replaced(recs, i);
    }
  }

  lemma FlushSaved(s: Sys)
    requires NoSteal(s.log, s.born, s.disk)
    ensures NoSteal(s.log + s.buf, s.born, s.disk)
  {
    CommittedAppend(s.log, s.buf);
    forall id | id in s.disk ensures Saved(s.log + s.buf, s.born, id, s.disk[id]) {
      assert Saved(s.log, s.born, id, s.disk[id]);
      if i :| 0 <= i < |s.log| && CommittedImage(s.log, i, id, s.disk[id]) {
        assert CommittedImage(s.log + s.buf, i, id, s.disk[id]);
      }
    }
  }

  lemma FlushRedo(s: Sys)
    requires IdsOk(s.disk, s.born, s.cv, s.frames, s.phase, s.ws) && PhasesOk(s.log, s.buf, s.phase)
    requires RedoOk(s.log, s.disk, s.cv) && LatestOk(s.ws, s.phase, s.log + s.buf) && TraceOk(s.log + s.buf, s.phase, s.ws, s.cv)
    requires MarkedOk(s.ws, s.frames) && ContentsOk(s.frames, s.phase, s.ws, s.disk)
    ensures var s' := Flushed(s); RedoOk(s'.log, s.disk, s'.cv)
  {
    hide RedoOk, IdsOk, LatestOk, TraceOk, MarkedOk, ContentsOk, PhasesOk;
    var s' := Flushed(s);
    forall id | id in s'.cv && id in s.disk
      ensures SameButLsn(match Redo(s'.log, id) case Some(p) => p case None => s.disk[id], s'.cv[id])
    {
      if Commits(s, id) { FlushedPage(s, id); } else { UnflushedPage(s, id); }
    }
    RedoIntro(s'.log, s.disk, s'.cv);
  }

  lemma RedoIntro(log: seq<Rec>, disk: Disk, cv: Disk)
    requires forall id | id in cv && id in disk ::
               SameButLsn(match Redo(log, id) case Some(p) => p case None => disk[id], cv[id])
    ensures RedoOk(log, disk, cv)
  {}

  /** A page written by a transaction that the flush commits: its last record is now committed. */
  lemma FlushedPage(s: Sys, id: PageId)
    requires PhasesOk(s.log, s.buf, s.phase) && LatestOk(s.ws, s.phase, s.log + s.buf)
    requires ContentsOk(s.frames, s.phase, s.ws, s.disk) && Commits(s, id) && id in s.cv
    ensures Redo(s.log + s.buf, id) == Some(Flushed(s).cv[id])
  {
    var t, recs := DirtyOf(s.frames, id).value, s.log + s.buf;
    assert FrameOk(s.frames[id], id, s.phase, s.ws, s.disk);
    assert LastIs(recs, id, t, s.ws[t][id]);
    CommittedAppend(s.log, s.buf);
    LastIsCommitted(recs, Committed(recs), id);
  }

  /** The last committed record is known by its place. */
  lemma {:induction false} LastCommittedIs(recs: seq<Rec>, done: set<TxnId>, id: PageId, k: nat)
    requires k < |recs| && PageWrite(recs[k], id) && recs[k].txn in done
    requires forall j :: k < j < |recs| ==> !(PageWrite(recs[j], id) && recs[j].txn in done)
    ensures LastCommitted(recs, done, id) == Some(recs[k])
  {
    if k < |recs| - 1 { LastCommittedIs(recs[..|recs| - 1], done, id, k); }
  }

  lemma {:induction false} NoneCommitted(recs: seq<Rec>, done: set<TxnId>, id: PageId)
    ensures LastCommitted(recs, done, id) == None <==> forall j | 0 <= j < |recs| && PageWrite(recs[j], id) :: recs[j].txn !in done
  {
    if recs != [] {
      var n := |recs| - 1;
      NoneCommitted(recs[..n], done, id);
      if LastCommitted(recs, done, id) == None {
        forall j | 0 <= j < |recs| && PageWrite(recs[j], id) ensures recs[j].txn !in done {
          if j < n { assert recs[..n][j] == recs[j]; }
        }
      } else if PageWrite(recs[n], id) && recs[n].txn in done {
      } else {
        var j :| 0 <= j < n && PageWrite(recs[..n][j], id) && recs[..n][j].txn in done;
        assert recs[j] == recs[..n][j];
      }
    }
  }

  /** Any other page keeps its recovered version: a committed record that the flush adds is moot. */
  lemma UnflushedPage(s: Sys, id: PageId)
    requires PhasesOk(s.log, s.buf, s.phase) && TraceOk(s.log + s.buf, s.phase, s.ws, s.cv) && MarkedOk(s.ws, s.frames)
    requires RedoOk(s.log, s.disk, s.cv) && !Commits(s, id) && id in s.cv && id in s.disk
    ensures SameButLsn(match Redo(s.log + s.buf, id) case Some(p) => p case None => s.disk[id], s.cv[id])
  {
    hide RedoOk, TraceOk, MarkedOk;
    var done, done', recs := Committed(s.log), Committed(s.log + s.buf), s.log + s.buf;
    CommittedAppend(s.log, s.buf);
    NoneCommitted(recs, done', id);
    if LastCommitted(recs, done', id).Some? {
      var k := LastCommittedIn(recs, done', id);
      if recs[k].txn in Committed(s.buf) { CommittingRecord(s, id, k); } else { DurableRecord(s, id, k); }
    } else {
      NotRecorded(s, id);
    }
  }

  lemma WriterMarked(s: Sys, t: TxnId, id: PageId)
    requires MarkedOk(s.ws, s.frames)
    ensures id in Of(s.ws, t) ==> DirtyOf(s.frames, id) == Some(t)
  {}

  /** Whoever has a record in the log buffer has no COMMIT record in the log file. */
  lemma BufferedInFlight(s: Sys, k: nat)
    requires PhasesOk(s.log, s.buf, s.phase) && k < |s.log + s.buf|
    ensures k >= |s.log| ==> (s.log + s.buf)[k].txn !in Committed(s.log)
  {
    if k >= |s.log| { assert Has(s.phase, s.buf[k - |s.log|].txn, {Active, Committing, Aborting, Aborted}); }
  }

  lemma CommittingRecord(s: Sys, id: PageId, k: nat)
    requires PhasesOk(s.log, s.buf, s.phase) && TraceOk(s.log + s.buf, s.phase, s.ws, s.cv) && MarkedOk(s.ws, s.frames)
    requires !Commits(s, id) && id in s.cv && k < |s.log + s.buf|
    requires var recs := s.log + s.buf;
             && PageWrite(recs[k], id) && recs[k].txn in Committed(s.buf) && recs[k].txn in Committed(recs)
             && forall j :: k < j < |recs| ==> !(PageWrite(recs[j], id) && recs[j].txn in Committed(recs))
    ensures var r := (s.log + s.buf)[k]; r.redo.Some? && SameButLsn(r.redo.value, s.cv[id])
  {
    var recs := s.log + s.buf;
    var t := recs[k].txn;
    assert Has(s.phase, t, {Committing});
    WriterMarked(s, t, id);
    assert Moot(recs, k, s.cv);
  }

  lemma DurableRecord(s: Sys, id: PageId, k: nat)
    requires PhasesOk(s.log, s.buf, s.phase) && RedoOk(s.log, s.disk, s.cv) && id in s.cv && id in s.disk
    requires k < |s.log + s.buf|
    requires var recs := s.log + s.buf;
             && PageWrite(recs[k], id) && recs[k].txn in Committed(s.log) && Committed(s.log) <= Committed(recs)
             && forall j :: k < j < |recs| ==> !(PageWrite(recs[j], id) && recs[j].txn in Committed(recs))
    ensures var r := (s.log + s.buf)[k];
            SameButLsn(match r.redo case Some(p) => p case None => s.disk[id], s.cv[id])
  {
    var recs := s.log + s.buf;
    BufferedInFlight(s, k);
    assert recs[k] == s.log[k];
    forall j | k < j < |s.log| ensures !(PageWrite(s.log[j], id) && s.log[j].txn in Committed(s.log)) { assert recs[j] == s.log[j]; }
    LastCommittedIs(s.log, Committed(s.log), id, k);
  }

  lemma NotRecorded(s: Sys, id: PageId)
    requires RedoOk(s.log, s.disk, s.cv) && id in s.cv && id in s.disk
    requires var recs := s.log + s.buf;
             && Committed(s.log) <= Committed(recs)
             && forall j | 0 <= j < |recs| && PageWrite(recs[j], id) :: recs[j].txn !in Committed(recs)
    ensures SameButLsn(s.disk[id], s.cv[id])
  {
    var recs := s.log + s.buf;
    forall j | 0 <= j < |s.log| && PageWrite(s.log[j], id) ensures s.log[j].txn !in Committed(s.log) { assert recs[j] == s.log[j]; }
    NoneCommitted(s.log, Committed(s.log), id);
  }

  // ---- Pages written by commit, reloaded by rollback ----

  lemma WriteBackInv(s: Sys, t: TxnId, id: PageId)
    requires Inv(s) && Enabled(s, WriteBack(t, id))
    ensures Inv(Apply(s, WriteBack(t, id)))
  {
    hide LogOk, PhasesOk, RedoOk, DiskOk, ContentsOk, MarkedOk, PendingOk, LatestOk, TraceOk, NoSteal;
    var s' := Apply(s, WriteBack(t, id));
    assert id in s.disk && id in s.cv;
    CommittedFrame(s, t, id);
    assert t in s.ws;
    ImagesKept(s, id, s.frames[id].page);
    BackRedo(s, id, s.frames[id].page);
    BackFrames(s, t, id);
    DroppedWrites(s, t, id, s'.frames);
    BackSaved(s, id, s.frames[id].page);
  }

  lemma CommittedFrame(s: Sys, t: TxnId, id: PageId)
    requires ContentsOk(s.frames, s.phase, s.ws, s.disk) && PendingOk(s.ws, s.phase, s.cv)
    requires Has(s.phase, t, {Durable}) && DirtyOf(s.frames, id) == Some(t)
    ensures id in s.cv && SameButLsn(s.frames[id].page, s.cv[id]) && t in s.ws
  {
    assert FrameOk(s.frames[id], id, s.phase, s.ws, s.disk);
  }

  lemma ImagesKept(s: Sys, id: PageId, p: Page)
    requires LogOk(s.log + s.buf, s.nextLsn, s.disk) && id in s.disk
    ensures LogOk(s.log + s.buf, s.nextLsn, s.disk[id := p])
  {}

  lemma BackRedo(s: Sys, id: PageId, p: Page)
    requires RedoOk(s.log, s.disk, s.cv) && id in s.cv && id in s.disk && SameButLsn(p, s.cv[id])
    ensures RedoOk(s.log, s.disk[id := p], s.cv)
  {
    var disk' := s.disk[id := p];
    forall x | x in s.cv && x in disk'
      ensures SameButLsn(match Redo(s.log, x) case Some(q) => q case None => disk'[x], s.cv[x])
    {
      assert x in s.cv && x in s.disk;
    }
  }

  lemma BackFrames(s: Sys, t: TxnId, id: PageId)
    requires ContentsOk(s.frames, s.phase, s.ws, s.disk) && DiskOk(s.up, s.frames, s.phase, s.disk, s.cv)
    requires Enabled(s, WriteBack(t, id)) && id in s.disk && id in s.cv && SameButLsn(s.frames[id].page, s.cv[id])
    ensures var s' := Apply(s, WriteBack(t, id));
            ContentsOk(s'.frames, s.phase, s'.ws, s'.disk) && DiskOk(s.up, s'.frames, s.phase, s'.disk, s.cv)
  {
    var s' := Apply(s, WriteBack(t, id));
    forall x | x in s'.frames ensures FrameOk(s'.frames[x], x, s.phase, s'.ws, s'.disk) {
      if x != id { assert FrameOk(s.frames[x], x, s.phase, s.ws, s.disk); }
    }
  }

  /** A page that is saved, or reloaded, leaves the unsaved writes of its transaction. */
  lemma DroppedWrites(s: Sys, t: TxnId, id: PageId, frames': Frames)
    requires PendingOk(s.ws, s.phase, s.cv) && LatestOk(s.ws, s.phase, s.log + s.buf) && TraceOk(s.log + s.buf, s.phase, s.ws, s.cv)
    requires MarkedOk(s.ws, s.frames) && Has(s.phase, t, {Durable, Aborting}) && DirtyOf(s.frames, id) == Some(t)
    requires forall x :: x != id ==> DirtyOf(frames', x) == DirtyOf(s.frames, x)
    ensures var ws' := s.ws[t := Of(s.ws, t) - {id}];
            && PendingOk(ws', s.phase, s.cv) && LatestOk(ws', s.phase, s.log + s.buf)
            && TraceOk(s.log + s.buf, s.phase, ws', s.cv) && MarkedOk(ws', frames')
  {
    var ws' := s.ws[t := Of(s.ws, t) - {id}];
    forall u, x | u in ws' && x in ws'[u] ensures DirtyOf(frames', x) == Some(u) {
      assert DirtyOf(s.frames, x) == Some(u);
    }
  }

  lemma BackSaved(s: Sys, id: PageId, p: Page)
    requires NoSteal(s.log, s.born, s.disk) && RedoOk(s.log, s.disk, s.cv) && LogOk(s.log + s.buf, s.nextLsn, s.disk)
    requires id in s.cv && id in s.disk && SameButLsn(p, s.cv[id])
    ensures NoSteal(s.log, s.born, s.disk[id := p])
  {
    var disk' := s.disk[id := p];
    forall x | x in disk' ensures Saved(s.log, s.born, x, disk'[x]) {
      assert Saved(s.log, s.born, x, s.disk[x]);
      if x == id { SavedVersion(s, id, p); }
    }
  }

  /** A last committed version is either what the disk has or a durable committed image. */
  lemma SavedVersion(s: Sys, id: PageId, p: Page)
    requires RedoOk(s.log, s.disk, s.cv) && LogOk(s.log + s.buf, s.nextLsn, s.disk)
    requires id in s.cv && id in s.disk && SameButLsn(p, s.cv[id]) && Saved(s.log, s.born, id, s.disk[id])
    ensures Saved(s.log, s.born, id, p)
  {
    var done := Committed(s.log);
    if LastCommitted(s.log, done, id).Some? {
      var k := LastCommittedIn(s.log, done, id);
      assert (s.log + s.buf)[k] == s.log[k];
      assert CommittedImage(s.log, k, id, p);
    } else if i :| 0 <= i < |s.log| && CommittedImage(s.log, i, id, s.disk[id]) {
      assert CommittedImage(s.log, i, id, p);
    }
  }

  lemma ReloadInv(s: Sys, t: TxnId, id: PageId)
    requires Inv(s) && Enabled(s, Reload(t, id))
    ensures Inv(Apply(s, Reload(t, id)))
  {
    hide LogOk, PhasesOk, RedoOk, DiskOk, ContentsOk, MarkedOk, PendingOk, LatestOk, TraceOk, NoSteal;
    var s' := Apply(s, Reload(t, id));
    ReloadFrames(s, t, id);
    DroppedWrites(s, t, id, s'.frames);
    CommittedOwner(s, t, id);
  }

  lemma CommittedOwner(s: Sys, t: TxnId, id: PageId)
    requires ContentsOk(s.frames, s.phase, s.ws, s.disk) && DirtyOf(s.frames, id) == Some(t)
    ensures t in s.ws
  {
    assert FrameOk(s.frames[id], id, s.phase, s.ws, s.disk);
  }

  lemma ReloadFrames(s: Sys, t: TxnId, id: PageId)
    requires ContentsOk(s.frames, s.phase, s.ws, s.disk) && DiskOk(s.up, s.frames, s.phase, s.disk, s.cv)
    requires Enabled(s, Reload(t, id)) && id in s.disk
    ensures var s' := Apply(s, Reload(t, id));
            ContentsOk(s'.frames, s.phase, s'.ws, s.disk) && DiskOk(s.up, s'.frames, s.phase, s.disk, s.cv)
  {
    var s' := Apply(s, Reload(t, id));
    forall x | x in s'.frames ensures FrameOk(s'.frames[x], x, s.phase, s'.ws, s.disk) {
      if x != id { assert FrameOk(s.frames[x], x, s.phase, s.ws, s.disk); }
    }
    forall x | x in s.disk && DirtyIn(s.frames, s.phase, x, {Durable}) ensures DirtyIn(s'.frames, s.phase, x, {Durable}) {
      assert x != id;
    }
  }

  // ---- Crash and recovery ----

  lemma CrashInv(s: Sys)
    requires Inv(s)
    ensures Inv(Apply(s, Crash))
  {
    hide IdsOk, LogOk, PhasesOk, RedoOk, DiskOk, ContentsOk, MarkedOk, PendingOk, LatestOk, TraceOk, NoSteal;
    var s' := Apply(s, Crash);
    assert s'.log + s'.buf == s.log;
    CrashLog(s);
    CrashEmpty(s);
  }

  /** Nothing in memory is left to be wrong. */
  lemma CrashEmpty(s: Sys)
    requires IdsOk(s.disk, s.born, s.cv, s.frames, s.phase, s.ws) && PhasesOk(s.log, s.buf, s.phase)
    ensures IdsOk(s.disk, s.born, s.cv, map[], map[], map[]) && PhasesOk(s.log, [], map[])
    ensures DiskOk(false, map[], map[], s.disk, s.cv) && ContentsOk(map[], map[], map[], s.disk)
    ensures MarkedOk(map[], map[]) && PendingOk(map[], map[], s.cv) && LatestOk(map[], map[], s.log) && TraceOk(s.log, map[], map[], s.cv)
  {}

  lemma CrashLog(s: Sys)
    requires LogOk(s.log + s.buf, s.nextLsn, s.disk)
    ensures LogOk(s.log, if s.log == [] then 0 else s.log[|s.log| - 1].lsn + 1, s.disk)
  {
    forall i, j | 0 <= i < j < |s.log| ensures s.log[i].lsn < s.log[j].lsn {
      assert (s.log + s.buf)[i] == s.log[i] && (s.log + s.buf)[j] == s.log[j];
    }
    forall i | 0 <= i < |s.log| ensures s.log[i] == (s.log + s.buf)[i] {}
  }

  lemma RecoverPageInv(s: Sys, id: PageId)
    requires Inv(s) && Enabled(s, RecoverPage(id))
    ensures Inv(Apply(s, RecoverPage(id)))
  {
    hide LogOk, PhasesOk, RedoOk, ContentsOk, MarkedOk, PendingOk, LatestOk, TraceOk, NoSteal;
    var p := Redo(s.log, id).value;
    assert id in s.cv && s.frames == map[];
    RedoneVersion(s, id);
    ImagesKept(s, id, p);
    BackRedo(s, id, p);
    BackSaved(s, id, p);
    NoFrames(s, s.disk[id := p]);
  }

  lemma NoFrames(s: Sys, disk': Disk)
    ensures ContentsOk(map[], s.phase, s.ws, disk')
  {}

  lemma RedoneVersion(s: Sys, id: PageId)
    requires RedoOk(s.log, s.disk, s.cv) && LogOk(s.log + s.buf, s.nextLsn, s.disk) && id in s.cv && id in s.disk
    requires Redo(s.log, id).Some?
    ensures SameButLsn(Redo(s.log, id).value, s.cv[id]) && Redo(s.log, id).value.id == id
  {
    var k := LastCommittedIn(s.log, Committed(s.log), id);
    assert (s.log + s.buf)[k] == s.log[k];
  }

  lemma EndRecoveryInv(s: Sys)
    requires Inv(s) && Enabled(s, EndRecovery)
    ensures Inv(Apply(s, EndRecovery))
  {
    hide LogOk, PhasesOk, ContentsOk, MarkedOk, PendingOk, LatestOk, TraceOk, NoSteal;
    var s' := Apply(s, EndRecovery);
    forall id | id in s.disk && id in s.cv ensures SameButLsn(s.disk[id], s.cv[id]) {}
  }

  // ---- All steps, all runs ----

  lemma StepInv(s: Sys, a: Step)
    requires Inv(s) && Enabled(s, a)
    ensures Inv(Apply(s, a))
  {
    hide Inv, Enabled, Apply;
    match a
    case Begin(t) => BeginInv(s, t);
    case Allocate(p) => AllocateInv(s, p);
    case SetRoot(id) => SetRootInv(s, id);
    case Fetch(id) => FetchInv(s, id);
    case Unpin(id) => UnpinInv(s, id);
    case Evict(id) => EvictInv(s, id);
    case Write(t, p, op) => WriteInv(s, t, p, op);
    case AppendCommit(t) => AppendCommitInv(s, t);
    case FlushLog => FlushInv(s);
    case WriteBack(t, id) => WriteBackInv(s, t, id);
    case EndCommit(t) => EndCommitInv(s, t);
    case BeginRollback(t) => BeginRollbackInv(s, t);
    case Reload(t, id) => ReloadInv(s, t, id);
    case EndRollback(t) => EndRollbackInv(s, t);
    case Crash => CrashInv(s);
    case RecoverPage(id) => RecoverPageInv(s, id);
    case EndRecovery => EndRecoveryInv(s);
  }

  lemma EndCommitInv(s: Sys, t: TxnId)
    requires Inv(s) && Enabled(s, EndCommit(t))
    ensures Inv(Apply(s, EndCommit(t)))
  {
    EndInv(s, t, Durable, Done);
  }

  lemma EndRollbackInv(s: Sys, t: TxnId)
    requires Inv(s) && Enabled(s, EndRollback(t))
    ensures Inv(Apply(s, EndRollback(t)))
  {
    EndInv(s, t, Aborting, Aborted);
  }

  /** A run: every step is possible when it is taken. */
  ghost predicate Possible(s: Sys, run: seq<Step>)
    decreases run
  {
    run != [] ==> Enabled(s, run[0]) && Possible(Apply(s, run[0]), run[1..])
  }

  ghost function After(s: Sys, run: seq<Step>): Sys
    requires Possible(s, run)
    decreases run
  {
    if run == [] then s else After(Apply(s, run[0]), run[1..])
  }

  lemma {:induction false} RunInv(s: Sys, run: seq<Step>)
    requires Inv(s) && Possible(s, run)
    ensures Inv(After(s, run))
    decreases run
  {
    hide Inv;
    if run != [] {
      StepInv(s, run[0]);
      RunInv(Apply(s, run[0]), run[1..]);
    }
  }

  lemma FreshInv()
    ensures Inv(Fresh)
  {}
}
