/** What the machine's invariant means after any run: recovery, No-Steal, transparency, rollback. */
module Durability {
  import opened Types
  import opened Pages
  import opened Storage
  import opened Recovery
  import opened Machine
  import opened MachineProofs
  import T = Tree

  /** Same pages, each equal up to the LSN field. */
  ghost predicate SamePages(a: Disk, b: Disk) {
    a.Keys == b.Keys && forall id | id in a :: SameButLsn(a[id], b[id])
  }

  lemma StateRestores(s: Sys)
    requires Inv(s)
    ensures SamePages(Recovered(s.log, s.disk), s.cv)
  {
    hide LogOk, PhasesOk, DiskOk, ContentsOk, MarkedOk, PendingOk, LatestOk, TraceOk, NoSteal;
  }

  lemma CrashKeeps(s: Sys)
    ensures Apply(s, Crash).log == s.log && Apply(s, Crash).cv == s.cv && Apply(s, Crash).disk == s.disk
  {}

  /**
    Crash recovery: stop any run at any point, recover from the log file, and every page is its last
    committed version, whatever was half done.
   */
  lemma RecoveryRestores(run: seq<Step>)
    requires Possible(Fresh, run)
    ensures var s := After(Fresh, run); SamePages(Recovered(s.log, s.disk), s.cv)
  {
    hide Inv, SamePages;
    FreshInv();
    RunInv(Fresh, run);
    StateRestores(After(Fresh, run));
  }

  /** The same for a recovery that was itself interrupted and started again. */
  lemma InterruptedRecoveryRestores(run: seq<Step>, ids: seq<PageId>)
    requires Possible(Fresh, run) && Possible(After(Fresh, run), [Crash] + RecoverSteps(ids))
    ensures var s := After(Fresh, run);
            SamePages(Recovered(s.log, After(s, [Crash] + RecoverSteps(ids)).disk), s.cv)
  {
    hide Inv, SamePages, Enabled, Apply;
    FreshInv();
    RunInv(Fresh, run);
    var s := After(Fresh, run);
    var a := Apply(s, Crash);
    CrashInv(s);
    CrashKeeps(s);
    assert ([Crash] + RecoverSteps(ids))[1..] == RecoverSteps(ids);
    RecoverKeeps(a, ids);
    RunInv(a, RecoverSteps(ids));
    StateRestores(After(a, RecoverSteps(ids)));
  }

  function RecoverSteps(ids: seq<PageId>): seq<Step> {
    seq(|ids|, i requires 0 <= i < |ids| => RecoverPage(ids[i]))
  }

  lemma {:induction false} RecoverKeeps(s: Sys, ids: seq<PageId>)
    requires Possible(s, RecoverSteps(ids))
    ensures After(s, RecoverSteps(ids)).log == s.log && After(s, RecoverSteps(ids)).cv == s.cv
    decreases |ids|
  {
    if ids != [] {
      assert RecoverSteps(ids)[1..] == RecoverSteps(ids[1..]);
      RecoverKeeps(Apply(s, RecoverPage(ids[0])), ids[1..]);
    }
  }

  /**
    No-Steal and log-before-data: in every reachable state each page on disk is as it was allocated,
    or carries a durable log image of a transaction whose COMMIT record is durable.
   */
  lemma DiskIsCommitted(run: seq<Step>, id: PageId)
    requires Possible(Fresh, run) && id in After(Fresh, run).disk
    ensures var s := After(Fresh, run); Saved(s.log, s.born, id, s.disk[id])
  {
    FreshInv();
    RunInv(Fresh, run);
  }

  /**
    The pool is transparent: a reader sees the writes of a page's current writer if it has one, and
    the last committed version otherwise, whatever has been fetched, evicted or written back.
   */
  lemma ViewIsLogical(run: seq<Step>, id: PageId)
    requires Possible(Fresh, run) && var s := After(Fresh, run); s.up && id in s.disk
    ensures var s := After(Fresh, run);
            var seen := ViewOf(s.disk, s.frames)[id];
            && id in s.cv
            && match DirtyOf(s.frames, id)
               case Some(t) => id in Of(s.ws, t) && SameButLsn(seen, Of(s.ws, t)[id])
               case None => SameButLsn(seen, s.cv[id])
  {
    FreshInv();
    RunInv(Fresh, run);
    var s := After(Fresh, run);
    if id in s.frames { assert FrameOk(s.frames[id], id, s.phase, s.ws, s.disk); }
  }

  /** A finished transaction owns no frame: what it wrote is committed, or gone with its rollback. */
  lemma FinishedOwnsNothing(run: seq<Step>, t: TxnId)
    requires Possible(Fresh, run) && InPhase(After(Fresh, run), t, {Done, Aborted})
    ensures NoneDirty(After(Fresh, run), t)
  {
    hide IdsOk, LogOk, PhasesOk, RedoOk, DiskOk, MarkedOk, PendingOk, LatestOk, TraceOk, NoSteal;
    FreshInv();
    RunInv(Fresh, run);
    var s := After(Fresh, run);
    forall id | id in s.frames ensures DirtyOf(s.frames, id) != Some(t) {
      assert FrameOk(s.frames[id], id, s.phase, s.ws, s.disk);
    }
  }

  // ---- Commit and Rollback as runs ----

  lemma {:induction false} AfterJoin(s: Sys, a: seq<Step>, b: seq<Step>)
    requires Possible(s, a) && Possible(After(s, a), b)
    ensures Possible(s, a + b) && After(s, a + b) == After(After(s, a), b)
    decreases a
  {
    if a == [] {
      assert a + b == b;
    } else {
      assert (a + b)[0] == a[0] && (a + b)[1..] == a[1..] + b;
      AfterJoin(Apply(s, a[0]), a[1..], b);
    }
  }

  lemma OneStep(s: Sys, a: Step)
    requires Enabled(s, a)
    ensures Possible(s, [a]) && After(s, [a]) == Apply(s, a)
  {
    assert [a][1..] == [];
    assert Possible(Apply(s, a), []);
  }

  function DirtyBy(frames: Frames, t: TxnId): set<PageId> {
    set id | id in frames && Flushable(frames[id], {t})
  }

  lemma FlushedOne(disk: Disk, frames: Frames, t: TxnId, id: PageId)
    requires id in DirtyBy(frames, t)
    ensures var disk', frames' := disk[id := frames[id].page], frames[id := Cleaned(frames[id])];
            && FlushedDisk(disk', frames', {t}) == FlushedDisk(disk, frames, {t})
            && FlushedFrames(frames', {t}) == FlushedFrames(frames, {t})
            && DirtyBy(frames', t) == DirtyBy(frames, t) - {id}
  {}

  lemma NothingToFlush(disk: Disk, frames: Frames, t: TxnId)
    requires DirtyBy(frames, t) == {}
    ensures FlushedFrames(frames, {t}) == frames && FlushedDisk(disk, frames, {t}) == disk
  {
    forall id | id in frames ensures !Flushable(frames[id], {t}) { assert id !in DirtyBy(frames, t); }
  }

  lemma WriteBackStep(s: Sys, t: TxnId, id: PageId)
    requires s.up && InPhase(s, t, {Durable}) && id in DirtyBy(s.frames, t)
    ensures Enabled(s, WriteBack(t, id))
    ensures var a := Apply(s, WriteBack(t, id));
            a == s.(disk := s.disk[id := s.frames[id].page], frames := s.frames[id := Cleaned(s.frames[id])], ws := a.ws)
  {}

  /** Writing back, one by one, the pages of a transaction whose COMMIT record is durable. */
  lemma {:induction false} WriteBackAll(s: Sys, t: TxnId) returns (run: seq<Step>)
    requires s.up && InPhase(s, t, {Durable})
    ensures Possible(s, run)
    ensures var s' := After(s, run);
            && s' == s.(disk := FlushedDisk(s.disk, s.frames, {t}), frames := FlushedFrames(s.frames, {t}), ws := s'.ws)
    decreases |DirtyBy(s.frames, t)|
  {
    hide DirtyBy, FlushedDisk, FlushedFrames, Enabled, Apply, InPhase;
    if DirtyBy(s.frames, t) == {} {
      run := [];
      NothingToFlush(s.disk, s.frames, t);
    } else {
      var id :| id in DirtyBy(s.frames, t);
      WriteBackStep(s, t, id);
      var a := Apply(s, WriteBack(t, id));
      DirtyFrame(s.frames, t, id);
      FlushedOne(s.disk, s.frames, t, id);
      OneStep(s, WriteBack(t, id));
      SamePhase(s, a, t, {Durable});
      var rest := WriteBackAll(a, t);
      AfterJoin(s, [WriteBack(t, id)], rest);
      run := [WriteBack(t, id)] + rest;
    }
  }

  lemma DirtyFrame(frames: Frames, t: TxnId, id: PageId)
    requires id in DirtyBy(frames, t)
    ensures id in frames && Flushable(frames[id], {t})
  {}

  lemma SamePhase(s: Sys, a: Sys, t: TxnId, ps: set<Phase>)
    requires InPhase(s, t, ps) && a.phase == s.phase
    ensures InPhase(a, t, ps)
  {}

  /** The versions differ at most on pages with a waiting change of the transaction. */
  ghost predicate SameButOf(cv: Disk, cv': Disk, frames: Frames, t: TxnId) {
    cv'.Keys == cv.Keys && forall id | id in cv && DirtyOf(frames, id) != Some(t) :: cv'[id] == cv[id]
  }

  /** A commit changes the committed version of the transaction's own pages only. */
  lemma CommitVersions(s: Sys, t: TxnId)
    requires Inv(s) && s.up && InPhase(s, t, {Active})
    ensures SameButOf(Flushed(s).cv, Flushed(Apply(s, AppendCommit(t))).cv, s.frames, t)
    ensures SamePages(Recovered(s.log + s.buf, s.disk), Flushed(s).cv)
  {
    hide Inv, Recovered, SamePages;
    FlushInv(s);
    StateRestores(Flushed(s));
  }

  lemma CommitIsRun(s: Sys, t: TxnId) returns (run: seq<Step>)
    requires s.up && InPhase(s, t, {Active})
    ensures Possible(s, run)
    ensures var s' := After(s, run);
            && s'.log == s.log + (s.buf + [Rec(s.nextLsn, t, 0, OpCommit, None)]) && s'.buf == [] && s'.nextLsn == s.nextLsn + 1
            && s'.disk == FlushedDisk(s.disk, s.frames, {t}) && s'.frames == FlushedFrames(s.frames, {t})
            && InPhase(s', t, {Done}) && s'.up && s'.root == s.root && s'.cv == Flushed(Apply(s, AppendCommit(t))).cv
  {
    var a := Apply(s, AppendCommit(t));
    var b := Apply(a, FlushLog);
    OneStep(s, AppendCommit(t));
    OneStep(a, FlushLog);
    AfterJoin(s, [AppendCommit(t)], [FlushLog]);
    var back := WriteBackAll(b, t);
    AfterJoin(s, [AppendCommit(t)] + [FlushLog], back);
    var c := After(b, back);
    forall id | id in c.frames ensures DirtyOf(c.frames, id) != Some(t) {}
    OneStep(c, EndCommit(t));
    AfterJoin(s, [AppendCommit(t)] + [FlushLog] + back, [EndCommit(t)]);
    run := [AppendCommit(t)] + [FlushLog] + back + [EndCommit(t)];
  }

  /** Recover, page by page and in any order, is a run of the machine: it ends, with every page redone. */
  lemma RecoverIsRun(s: Sys, todo: set<PageId>) returns (run: seq<Step>)
    requires !s.up && todo <= s.disk.Keys
    requires forall id | id in s.disk && id !in todo && Redo(s.log, id).Some? :: s.disk[id] == Redo(s.log, id).value
    ensures Possible(s, run) && After(s, run) == s.(disk := Recovered(s.log, s.disk), up := true)
    decreases todo
  {
    hide Redo, Possible, After;
    if todo == {} {
      run := [EndRecovery];
      OneStep(s, EndRecovery);
      assert s.disk == Recovered(s.log, s.disk);
    } else {
      var id :| id in todo;
      if Redo(s.log, id).Some? {
        var a := Apply(s, RecoverPage(id));
        OneStep(s, RecoverPage(id));
        var more := RecoverIsRun(a, todo - {id});
        AfterJoin(s, [RecoverPage(id)], more);
        run := [RecoverPage(id)] + more;
        assert Recovered(a.log, a.disk) == Recovered(s.log, s.disk);
      } else {
        run := RecoverIsRun(s, todo - {id});
      }
    }
  }

  /** No page of the transaction is pinned, so DiscardTxn will not refuse. */
  ghost predicate NonePinned(frames: Frames, t: TxnId) {
    forall id | id in DirtyBy(frames, t) :: frames[id].pin == 0
  }

  lemma DiscardedOne(disk: Disk, frames: Frames, t: TxnId, id: PageId)
    requires id in DirtyBy(frames, t) && frames.Keys <= disk.Keys && NonePinned(frames, t)
    ensures var frames' := frames[id := Cleaned(frames[id]).(page := disk[id])];
            && frames'.Keys == frames.Keys && NonePinned(frames', t)
            && DiscardedFrames(disk, frames', t) == DiscardedFrames(disk, frames, t)
            && DirtyBy(frames', t) == DirtyBy(frames, t) - {id}
  {
    var frames' := frames[id := Cleaned(frames[id]).(page := disk[id])];
    assert frames'.Keys == frames.Keys;
    assert DirtyBy(frames', t) == DirtyBy(frames, t) - {id};
  }

  lemma NothingToDiscard(disk: Disk, frames: Frames, t: TxnId)
    requires DirtyBy(frames, t) == {} && frames.Keys <= disk.Keys
    ensures DiscardedFrames(disk, frames, t) == frames
  {
    forall id | id in frames ensures !Flushable(frames[id], {t}) { assert id !in DirtyBy(frames, t); }
  }

  lemma ReloadStep(s: Sys, t: TxnId, id: PageId)
    requires s.up && InPhase(s, t, {Aborting}) && id in DirtyBy(s.frames, t) && id in s.disk && NonePinned(s.frames, t)
    ensures Enabled(s, Reload(t, id))
    ensures var a := Apply(s, Reload(t, id));
            a == s.(frames := s.frames[id := Cleaned(s.frames[id]).(page := s.disk[id])], ws := a.ws)
  {}

  lemma {:induction false} ReloadAll(s: Sys, t: TxnId) returns (run: seq<Step>)
    requires s.up && InPhase(s, t, {Aborting}) && s.frames.Keys <= s.disk.Keys && NonePinned(s.frames, t)
    ensures Possible(s, run)
    ensures var s' := After(s, run); s' == s.(frames := DiscardedFrames(s.disk, s.frames, t), ws := s'.ws)
    decreases |DirtyBy(s.frames, t)|
  {
    hide DirtyBy, DiscardedFrames, NonePinned, Enabled, Apply, InPhase;
    if DirtyBy(s.frames, t) == {} {
      run := [];
      NothingToDiscard(s.disk, s.frames, t);
    } else {
      var id :| id in DirtyBy(s.frames, t);
      DirtyFrame(s.frames, t, id);
      ReloadStep(s, t, id);
      var a := Apply(s, Reload(t, id));
      DiscardedOne(s.disk, s.frames, t, id);
      OneStep(s, Reload(t, id));
      SamePhase(s, a, t, {Aborting});
      var rest := ReloadAll(a, t);
      AfterJoin(s, [Reload(t, id)], rest);
      run := [Reload(t, id)] + rest;
    }
  }

  /** What Rollback does, when none of the transaction's pages is pinned, is a run of the machine. */
  lemma RollbackIsRun(s: Sys, t: TxnId) returns (run: seq<Step>)
    requires s.up && InPhase(s, t, {Active}) && s.frames.Keys <= s.disk.Keys && NonePinned(s.frames, t)
    ensures Possible(s, run)
    ensures var s' := After(s, run);
            && s'.log == s.log && s'.buf == s.buf + [Rec(s.nextLsn, t, 0, OpAbort, None)] && s'.nextLsn == s.nextLsn + 1
            && s'.disk == s.disk && s'.frames == DiscardedFrames(s.disk, s.frames, t)
            && s'.cv == s.cv && InPhase(s', t, {Aborted}) && s'.up && s'.root == s.root
  {
    var a := Apply(s, BeginRollback(t));
    OneStep(s, BeginRollback(t));
    var back := ReloadAll(a, t);
    AfterJoin(s, [BeginRollback(t)], back);
    var c := After(a, back);
    forall id | id in c.frames ensures DirtyOf(c.frames, id) != Some(t) {}
    OneStep(c, EndRollback(t));
    AfterJoin(s, [BeginRollback(t)] + back, [EndRollback(t)]);
    run := [BeginRollback(t)] + back + [EndRollback(t)];
  }

  /** Rollback restores exactly the pages the transaction dirtied, to their last committed version. */
  lemma RollbackRestores(run: seq<Step>, t: TxnId, id: PageId)
    requires Possible(Fresh, run) && var s := After(Fresh, run); s.up && InPhase(s, t, {Active}) && id in s.disk
    ensures var s := After(Fresh, run);
            && s.frames.Keys <= s.disk.Keys && id in s.cv
            && var frames' := DiscardedFrames(s.disk, s.frames, t);
            && (DirtyOf(s.frames, id) == Some(t) ==> SameButLsn(ViewOf(s.disk, frames')[id], s.cv[id]))
            && (DirtyOf(s.frames, id) != Some(t) ==> ViewOf(s.disk, frames')[id] == ViewOf(s.disk, s.frames)[id])
  {
    hide LogOk, PhasesOk, RedoOk, MarkedOk, PendingOk, LatestOk, TraceOk, NoSteal;
    FreshInv();
    RunInv(Fresh, run);
  }

  // ---- The tree after a crash ----

  lemma {:induction false} MatchButLsn(a: Disk, b: Disk, t: T.Tree, nxt: PageId)
    requires T.Match(a, t, nxt)
    requires forall id | id in a :: id in b && SameButLsn(a[id], b[id])
    ensures T.Match(b, t, nxt)
    decreases t
  {
    if t.Node? {
      forall i | 0 <= i <= |t.seps| ensures T.Match(b, T.Kid(t, i), T.After(t, i, nxt)) {
        MatchButLsn(a, b, T.Kid(t, i), T.After(t, i, nxt));
      }
    }
  }

  /** The page id that the last SetRoot of a run wrote. */
  function LastRoot(run: seq<Step>, root: PageId): PageId {
    if run == [] then root
    else if run[|run| - 1].SetRoot? then run[|run| - 1].id
    else LastRoot(run[..|run| - 1], root)
  }

  lemma RootStep(s: Sys, a: Step)
    requires Enabled(s, a)
    ensures Apply(s, a).root == if a.SetRoot? then a.id else s.root
  {}

  lemma {:induction false} RootOf(s: Sys, run: seq<Step>)
    requires Possible(s, run)
    ensures After(s, run).root == LastRoot(run, s.root)
    decreases run
  {
    hide Enabled, Apply;
    if run != [] {
      RootStep(s, run[0]);
      RootOf(Apply(s, run[0]), run[1..]);
      LastRootFront(run, s.root);
    }
  }

  lemma {:induction false} LastRootFront(run: seq<Step>, root: PageId)
    requires run != []
    ensures LastRoot(run, root) == LastRoot(run[1..], if run[0].SetRoot? then run[0].id else root)
  {
    var n := |run| - 1;
    if n > 0 {
      assert run[1..][..n - 1] == run[..n][1..] && run[1..][n - 1] == run[n];
      if !run[n].SetRoot? { LastRootFront(run[..n], root); }
    }
  }

  /**
    If the committed pages represent a tree, the pages after crash and recovery represent the same
    tree. The root pointer is not part of that: it is what the last SetRoot wrote, committed or not.
   */
  lemma TreeSurvivesCrash(run: seq<Step>, t: T.Tree)
    requires Possible(Fresh, run) && T.Match(After(Fresh, run).cv, t, NO_PAGE)
    ensures var s := After(Fresh, run);
            T.Match(Recovered(s.log, s.disk), t, NO_PAGE) && s.root == LastRoot(run, Fresh.root)
  {
    RecoveryRestores(run);
    RootOf(Fresh, run);
    var s := After(Fresh, run);
    MatchButLsn(s.cv, Recovered(s.log, s.disk), t, NO_PAGE);
  }
}
