/**
  Transactions over the buffer pool and the log as a state machine whose steps interleave freely:
  finishPage, fetch, unpin and evict, the stages of commit and rollback, log flushes, crashes at any
  point, and the page-by-page writes of recovery (txn/txn.go, storage/buffer/buffer.go,
  storage/wal/wal.go, storage/btree/recovery.go).
 */
module Machine {
  import opened Types
  import opened Pages
  import opened Storage
  import opened Recovery

  /** Durable means that the COMMIT record is in the log file while pages may still be unwritten. */
  datatype Phase = Active | Committing | Durable | Done | Aborting | Aborted

  /**
    `root` is the root page id in the file header, written at once and never undone. The last three
    fields say what the system promises: the page as it was allocated, its last committed version, and
    each transaction's writes that are only in the pool. No step of the code depends on them.
   */
  datatype Sys = Sys(
    disk: Disk, log: seq<Rec>, buf: seq<Rec>, nextLsn: nat, frames: Frames, phase: map<TxnId, Phase>, up: bool, root: PageId,
    born: Disk, cv: Disk, ws: map<TxnId, Disk>)

  const Fresh := Sys(map[], [], [], 0, map[], map[], true, NO_PAGE, map[], map[], map[])

  datatype Step =
    | Begin(t: TxnId)
    | Allocate(p: Page)
    | SetRoot(id: PageId)
    | Fetch(id: PageId)
    | Unpin(id: PageId)
    | Evict(id: PageId)
    | Write(t: TxnId, p: Page, op: Operation)
    | AppendCommit(t: TxnId)
    | FlushLog
    | WriteBack(t: TxnId, id: PageId)
    | EndCommit(t: TxnId)
    | BeginRollback(t: TxnId)
    | Reload(t: TxnId, id: PageId)
    | EndRollback(t: TxnId)
    | Crash
    | RecoverPage(id: PageId)
    | EndRecovery

  function AllRecs(s: Sys): seq<Rec> { s.log + s.buf }

  predicate InPhase(s: Sys, t: TxnId, ps: set<Phase>) { Has(s.phase, t, ps) }

  /** No other transaction's change is waiting in the frame of the page. */
  predicate Exclusive(s: Sys, t: TxnId, id: PageId) {
    DirtyOf(s.frames, id) == None || DirtyOf(s.frames, id) == Some(t)
  }

  ghost predicate NoneDirty(s: Sys, t: TxnId) {
    forall id :: id in s.frames ==> DirtyOf(s.frames, id) != Some(t)
  }

  /** When a step can happen; `Exclusive` is the hypothesis that no page has two writers in flight. */
  ghost predicate Enabled(s: Sys, a: Step) {
    match a
    case Begin(t) => s.up && t !in s.phase && forall i | 0 <= i < |AllRecs(s)| :: AllRecs(s)[i].txn != t
    case Allocate(p) => s.up && p.id !in s.disk
    case SetRoot(_) => s.up
    case Fetch(id) => s.up && id in s.disk
    case Unpin(id) => s.up && PinOf(s.frames, id) > 0
    case Evict(id) => s.up && id in s.frames && Evictable(s.frames[id])
    case Write(t, p, op) => CanWrite(s, t, p, op) && Exclusive(s, t, p.id)
    case AppendCommit(t) => s.up && InPhase(s, t, {Active})
    case FlushLog => s.up
    case WriteBack(t, id) => s.up && InPhase(s, t, {Durable}) && DirtyOf(s.frames, id) == Some(t)
    case EndCommit(t) => s.up && InPhase(s, t, {Durable}) && NoneDirty(s, t)
    case BeginRollback(t) => s.up && InPhase(s, t, {Active})
    case Reload(t, id) => s.up && InPhase(s, t, {Aborting}) && DirtyOf(s.frames, id) == Some(t) && PinOf(s.frames, id) == 0
    case EndRollback(t) => s.up && InPhase(s, t, {Aborting}) && NoneDirty(s, t)
    case Crash => true
    case RecoverPage(id) => !s.up && id in s.disk && Redo(s.log, id).Some?
    case EndRecovery => !s.up && forall id | id in s.disk && Redo(s.log, id).Some? :: s.disk[id] == Redo(s.log, id).value
  }

  predicate CanWrite(s: Sys, t: TxnId, p: Page, op: Operation) {
    s.up && InPhase(s, t, {Active}) && PinOf(s.frames, p.id) > 0 && op !in {OpCommit, OpAbort}
  }

  function Appended(s: Sys, t: TxnId, id: PageId, op: Operation, redo: Option<Page>): Sys {
    s.(buf := s.buf + [Rec(s.nextLsn, t, id, op, redo)], nextLsn := s.nextLsn + 1)
  }

  /** The transaction whose COMMIT record a log flush would make durable and which wrote the page. */
  predicate Commits(s: Sys, id: PageId) {
    DirtyIn(s.frames, s.phase, id, {Committing})
  }

  function Unsaved(s: Sys, t: TxnId): Disk { Of(s.ws, t) }

  function Flushed(s: Sys): Sys {
    s.(log := s.log + s.buf, buf := [],
       phase := map t | t in s.phase :: if s.phase[t] == Committing then Durable else s.phase[t],
       cv := map id | id in s.cv ::
         if Commits(s, id) && id in Unsaved(s, DirtyOf(s.frames, id).value) then Unsaved(s, DirtyOf(s.frames, id).value)[id]
         else s.cv[id])
  }

  ghost function Apply(s: Sys, a: Step): Sys
    requires Enabled(s, a)
  {
    match a
    case Begin(t) => s.(phase := s.phase[t := Active], ws := s.ws[t := map[]])
    case Allocate(p) => s.(disk := s.disk[p.id := p], born := s.born[p.id := p], cv := s.cv[p.id := p])
    case SetRoot(id) => s.(root := id)
    case Fetch(id) =>
      s.(frames := s.frames[id := if id in s.frames then Pinned(s.frames[id]) else Frame(s.disk[id], 1, false, 0)])
    case Unpin(id) => s.(frames := s.frames[id := Unpinned(s.frames[id], false, 0)])
    case Evict(id) => s.(frames := s.frames - {id})
    case Write(t, p, op) => Written(s, t, p, op)
    case AppendCommit(t) => Appended(s, t, 0, OpCommit, None).(phase := s.phase[t := Committing])
    case FlushLog => Flushed(s)
    case WriteBack(t, id) =>
      s.(disk := s.disk[id := s.frames[id].page], frames := s.frames[id := Cleaned(s.frames[id])],
         ws := s.ws[t := Unsaved(s, t) - {id}])
    case EndCommit(t) => s.(phase := s.phase[t := Done])
    case BeginRollback(t) => Appended(s, t, 0, OpAbort, None).(phase := s.phase[t := Aborting])
    case Reload(t, id) =>
      s.(frames := s.frames[id := Cleaned(s.frames[id]).(page := if id in s.disk then s.disk[id] else s.frames[id].page)],
         ws := s.ws[t := Unsaved(s, t) - {id}])
    case EndRollback(t) => s.(phase := s.phase[t := Aborted])
    case Crash =>
      s.(buf := [], frames := map[], phase := map[], ws := map[], up := false,
         nextLsn := if s.log == [] then 0 else s.log[|s.log| - 1].lsn + 1)
    case RecoverPage(id) => s.(disk := s.disk[id := Redo(s.log, id).value])
    case EndRecovery => s.(up := true)
  }

  /** finishPage: the record carries the page as it is before its LSN is stamped. */
  function Written(s: Sys, t: TxnId, p: Page, op: Operation): Sys
    requires CanWrite(s, t, p, op)
  {
    var f := s.frames[p.id].(page := p.(lsn := s.nextLsn));
    Appended(s, t, p.id, op, Some(p)).(
      frames := s.frames[p.id := Unpinned(f, true, t)],
      ws := s.ws[t := Unsaved(s, t)[p.id := p]])
  }

  // ---- The invariant ----

  type Phases = map<TxnId, Phase>

  predicate Has(phase: Phases, t: TxnId, ps: set<Phase>) { t in phase && phase[t] in ps }

  function Of(ws: map<TxnId, Disk>, t: TxnId): Disk {
    if t in ws then ws[t] else map[]
  }

  ghost predicate IdsOk(disk: Disk, born: Disk, cv: Disk, frames: Frames, phase: Phases, ws: map<TxnId, Disk>) {
    && disk.Keys == cv.Keys == born.Keys && frames.Keys <= disk.Keys && ws.Keys == phase.Keys
    && Filed(disk) && forall id | id in frames :: frames[id].page.id == id
  }

  ghost predicate LogOk(recs: seq<Rec>, nextLsn: nat, disk: Disk) {
    && Increasing(recs) && ImagesOk(recs, disk)
    && forall i | 0 <= i < |recs| :: recs[i].lsn < nextLsn
  }

  /** COMMIT records say exactly who is committing or committed. */
  ghost predicate PhasesOk(log: seq<Rec>, buf: seq<Rec>, phase: Phases) {
    && (forall t | Has(phase, t, {Active, Aborting, Aborted}) :: t !in Committed(log))
    && (forall t | Has(phase, t, {Committing}) :: t in Committed(buf) && t !in Committed(log))
    && (forall t | Has(phase, t, {Durable, Done}) :: t in Committed(log))
    && (forall t | t in Committed(buf) :: Has(phase, t, {Committing}))
    && (forall i | 0 <= i < |buf| :: Has(phase, buf[i].txn, {Active, Committing, Aborting, Aborted}))
  }

  /** Redo gives the last committed version; a page without a committed record has it on disk. */
  ghost predicate RedoOk(log: seq<Rec>, disk: Disk, cv: Disk) {
    forall id | id in cv && id in disk ::
      SameButLsn(match Redo(log, id) case Some(p) => p case None => disk[id], cv[id])
  }

  predicate DirtyIn(frames: Frames, phase: Phases, id: PageId, ps: set<Phase>) {
    DirtyOf(frames, id).Some? && Has(phase, DirtyOf(frames, id).value, ps)
  }

  /** While running, a page on disk is its last committed version unless a commit is still writing it. */
  ghost predicate DiskOk(up: bool, frames: Frames, phase: Phases, disk: Disk, cv: Disk) {
    up ==> forall id | id in disk && id in cv :: DirtyIn(frames, phase, id, {Durable}) || SameButLsn(disk[id], cv[id])
  }

  ghost predicate FrameOk(f: Frame, id: PageId, phase: Phases, ws: map<TxnId, Disk>, disk: Disk) {
    if f.dirty then
      && Has(phase, f.txn, {Active, Committing, Durable, Aborting})
      && id in Of(ws, f.txn) && SameButLsn(f.page, Of(ws, f.txn)[id])
    else id in disk && f.page == disk[id]
  }

  /** A clean frame equals its page on disk, a dirty one its writer's version. */
  ghost predicate ContentsOk(frames: Frames, phase: Phases, ws: map<TxnId, Disk>, disk: Disk) {
    forall id | id in frames :: FrameOk(frames[id], id, phase, ws, disk)
  }

  /** The unsaved writes of a transaction are in frames marked with it. */
  ghost predicate MarkedOk(ws: map<TxnId, Disk>, frames: Frames) {
    forall t, id | t in ws && id in ws[t] :: DirtyOf(frames, id) == Some(t)
  }

  /** Unsaved writes of a committed transaction are the last committed versions. */
  ghost predicate PendingOk(ws: map<TxnId, Disk>, phase: Phases, cv: Disk) {
    forall t, id | t in ws && id in ws[t] && Has(phase, t, {Durable}) :: id in cv && SameButLsn(ws[t][id], cv[id])
  }

  ghost predicate LastIs(recs: seq<Rec>, id: PageId, t: TxnId, p: Page) {
    LastOf(recs, id).Some? && LastOf(recs, id).value.txn == t && LastOf(recs, id).value.redo == Some(p)
  }

  /** The unsaved writes of a transaction in flight are the last ones logged for their pages. */
  ghost predicate LatestOk(ws: map<TxnId, Disk>, phase: Phases, recs: seq<Rec>) {
    forall t, id | t in ws && id in ws[t] && Has(phase, t, {Active, Committing, Aborting}) :: LastIs(recs, id, t, ws[t][id])
  }

  /** A record that a later one of the same transaction, or of a committed one, replaces. */
  ghost predicate Replaced(recs: seq<Rec>, i: nat)
    requires i < |recs|
  {
    exists j :: i < j < |recs| && PageWrite(recs[j], recs[i].page) && (recs[j].txn == recs[i].txn || recs[j].txn in Committed(recs))
  }

  /** A record that changes nothing if its transaction commits. */
  ghost predicate Moot(recs: seq<Rec>, i: nat, cv: Disk)
    requires i < |recs|
  {
    || Replaced(recs, i)
    || (recs[i].page in cv && recs[i].redo.Some? && SameButLsn(recs[i].redo.value, cv[recs[i].page]))
  }

  /** What a transaction in flight has logged is among its unsaved writes, or makes no difference. */
  ghost predicate TraceOk(recs: seq<Rec>, phase: Phases, ws: map<TxnId, Disk>, cv: Disk) {
    forall i | 0 <= i < |recs| && PageWrite(recs[i], recs[i].page) && Has(phase, recs[i].txn, {Active, Committing}) ::
      recs[i].page in Of(ws, recs[i].txn) || Moot(recs, i, cv)
  }

  ghost predicate DownOk(s: Sys) {
    !s.up ==> s.buf == [] && s.frames == map[] && s.phase == map[] && s.ws == map[]
  }

  ghost predicate CommittedImage(log: seq<Rec>, i: nat, id: PageId, p: Page)
    requires i < |log|
  {
    PageWrite(log[i], id) && log[i].txn in Committed(log) && log[i].redo.Some? && SameButLsn(log[i].redo.value, p)
  }

  ghost predicate Saved(log: seq<Rec>, born: Disk, id: PageId, p: Page) {
    || (id in born && SameButLsn(p, born[id]))
    || exists i :: 0 <= i < |log| && CommittedImage(log, i, id, p)
  }

  /**
    No-Steal and log-before-data: a page on disk is as allocated, or as some durable record says of
    a transaction whose COMMIT record is durable too.
   */
  ghost predicate NoSteal(log: seq<Rec>, born: Disk, disk: Disk) {
    forall id | id in disk :: Saved(log, born, id, disk[id])
  }

  ghost predicate Inv(s: Sys) {
    && IdsOk(s.disk, s.born, s.cv, s.frames, s.phase, s.ws)
    && LogOk(s.log + s.buf, s.nextLsn, s.disk)
    && PhasesOk(s.log, s.buf, s.phase)
    && RedoOk(s.log, s.disk, s.cv)
    && DiskOk(s.up, s.frames, s.phase, s.disk, s.cv)
    && ContentsOk(s.frames, s.phase, s.ws, s.disk)
    && MarkedOk(s.ws, s.frames) && PendingOk(s.ws, s.phase, s.cv)
    && LatestOk(s.ws, s.phase, s.log + s.buf)
    && TraceOk(s.log + s.buf, s.phase, s.ws, s.cv)
    && DownOk(s) && NoSteal(s.log, s.born, s.disk)
  }
}
