/** Log, buffer pool and disk as one machine whose steps are the atomic actions of btree.go,
    buffer_manager.go, wal.go and recovery.go. A crash may fall between any two steps. */
module Engine {
  import opened Bytes
  import opened Cells
  import opened MvccKeys
  import opened Log
  import opened Redo

  /** The exclusive page latch; `touched` records that its holder has changed the page. */
  datatype Latch = Unlatched | Held(touched: bool)

  datatype Frame = Frame(page: Page, dirty: bool, pins: nat, recLsn: Lsn, latch: Latch) {
    predicate Touched() {
      latch.Held? && latch.touched
    }
  }

  /** `last` is the transaction manager's table of last LSNs; `chk` is the LSN stored in
      checkpoint.meta, 0 when there is no such file. The pool and `last` are volatile. */
  datatype State = State(log: seq<Record>, disk: seq<Page>, pool: map<PageId, Frame>,
                         last: map<nat, Lsn>, chk: Lsn)

  datatype Step =
    | Allocate(body: Body)
    | Fetch(pid: PageId)
    | Release(pid: PageId)
    | FetchForWrite(pid: PageId)
    | Upsert(pid: PageId, deleted: bool, key: Bytes, value: Bytes)
    | WriteImage(pid: PageId, body: Body)
    | Compensate(pid: PageId, txn: nat, erase: bool, key: Bytes, value: Bytes, prev: Lsn)
    | Unpin(pid: PageId, dirty: bool)
    | Evict(pid: PageId)
    | Flush(pid: PageId)
    | CommitTxn(txn: nat)
    | AbortTxn(txn: nat)
    | TakeCheckpoint
    | PublishCheckpoint(index: nat)
    | CrashAndRedo

  const INIT: State := State([], [], map[], map[], 0)

  /** The page as every client sees it: the frame if resident, the disk page otherwise. */
  function View(s: State, pid: PageId): Body
    requires pid < |s.disk|
  {
    if pid in s.pool then s.pool[pid].page.body else s.disk[pid].body
  }

  /** BufferManager.GetDirtyPageTable */
  function DirtyTable(pool: map<PageId, Frame>): map<PageId, Lsn> {
    map pid | pid in pool && pool[pid].dirty :: pool[pid].recLsn
  }

  function LastLsn(s: State, txn: nat): Lsn {
    if txn in s.last then s.last[txn] else 0
  }

  /** Number of the record at which analysis starts. */
  function StartIndex(log: seq<Record>, chk: Lsn): (i: nat)
    ensures i <= |log|
    ensures i < |log| ==> log[i].lsn == chk || i == 0
  {
    if log == [] then 0
    else if log[|log| - 1].lsn == chk then |log| - 1
    else
      var i := StartIndex(log[..|log| - 1], chk);
      if i < |log| - 1 then i else 0
  }

  // ---- Steps ----

  function Append(s: State, txn: nat, page: PageId, prev: Lsn, p: Payload): State {
    s.(log := s.log + [Record(End(s.log), txn, page, prev, p)])
  }

  function SetFrame(s: State, pid: PageId, f: Frame): State {
    s.(pool := s.pool[pid := f])
  }

  /** getFrame: pin a resident frame or load the page from disk. */
  function DoFetch(s: State, pid: PageId): State
    requires pid < |s.disk|
  {
    if pid in s.pool then SetFrame(s, pid, s.pool[pid].(pins := s.pool[pid].pins + 1))
    else SetFrame(s, pid, Frame(s.disk[pid], false, 1, 0, Unlatched))
  }

  /** The latch is taken and a clean page is backed up by a full-page record. */
  function DoLatch(s: State, pid: PageId): State
    requires pid in s.pool
  {
    var f := s.pool[pid];
    if f.dirty then SetFrame(s, pid, f.(latch := Held(false)))
    else
      SetFrame(Append(s, 0, pid, 0, FullPage(f.page)), pid,
               f.(page := f.page.(lsn := End(s.log)), recLsn := End(s.log), latch := Held(false)))
  }

  /** Change the latched page: log the record, store the new body with the record's LSN. */
  function DoChange(s: State, pid: PageId, txn: nat, prev: Lsn, p: Payload, body: Body): State
    requires pid in s.pool
  {
    SetFrame(Append(s, txn, pid, prev, p), pid,
             s.pool[pid].(page := Page(End(s.log), body), latch := Held(true)))
  }

  function Upserted(b: Body, deleted: bool, key: Bytes, value: Bytes): Body
    requires b.Leaf?
  {
    Leaf(SortCells(Rewrite(b.cells, key, Some(CellFor(deleted, key, value)))))
  }

  /** Undo of an insert erases the cell; undo of a delete stores a live cell. */
  function UndoCell(erase: bool, key: Bytes, value: Bytes): Option<Cell> {
    if erase then None else Some(Cell(0, key, value))
  }

  /** Pool after analysis and redo on the disk image that survived. */
  function Recovered(s: State): map<PageId, Frame> {
    var dpt := Dpt(s.log, StartIndex(s.log, s.chk));
    map pid | pid in dpt && pid < |s.disk| ::
      var p := FastRedo(s.disk[pid], pid, s.log, dpt);
      Frame(p, p.lsn != s.disk[pid].lsn, 0, 0, Unlatched)
  }

  predicate Enabled(s: State, step: Step) {
    match step
    case Allocate(body) => body.Leaf? ==> body.cells == []
    case Fetch(pid) => pid < |s.disk|
    case Release(pid) => pid in s.pool && s.pool[pid].pins > if s.pool[pid].latch.Held? then 1 else 0
    case FetchForWrite(pid) => pid < |s.disk| && (pid in s.pool ==> s.pool[pid].latch.Unlatched?)
    case Upsert(pid, deleted, key, value) =>
      && pid in s.pool && s.pool[pid].latch.Held? && s.pool[pid].page.body.Leaf?
      && Fits(Rewrite(s.pool[pid].page.body.cells, key, Some(CellFor(deleted, key, value))))
      && (deleted ==> value == [])
    case WriteImage(pid, body) =>
      && pid in s.pool && s.pool[pid].latch.Held?
      && (body.Leaf? ==> UniqueKeys(body.cells) && Fits(body.cells))
    case Compensate(pid, txn, erase, key, value, prev) =>
      && pid in s.pool && s.pool[pid].latch.Held?
      && (prev == 0 || exists i :: 0 <= i < |s.log| && s.log[i].lsn == prev && s.log[i].txn == txn)
    case Unpin(pid, dirty) =>
      && pid in s.pool && s.pool[pid].latch.Held? && s.pool[pid].pins > 0
      && (s.pool[pid].latch.touched ==> dirty)
    case Evict(pid) => pid in s.pool && s.pool[pid].pins == 0
    case Flush(pid) => pid in s.pool && s.pool[pid].dirty && pid < |s.disk|
    case CommitTxn(_) => true
    case AbortTxn(_) => true
    // No writer is between changing a page and marking its frame dirty.
    case TakeCheckpoint => forall pid :: pid in s.pool && s.pool[pid].Touched() ==> s.pool[pid].dirty
    case PublishCheckpoint(i) => i < |s.log| && s.log[i].payload.Checkpoint?
    case CrashAndRedo => true
  }

  function Next(s: State, step: Step): State
    requires Enabled(s, step)
  {
    match step
    case Allocate(body) => s.(disk := s.disk + [Page(0, body)])
    case Fetch(pid) => DoFetch(s, pid)
    case Release(pid) => SetFrame(s, pid, s.pool[pid].(pins := s.pool[pid].pins - 1))
    case FetchForWrite(pid) => DoLatch(DoFetch(s, pid), pid)
    case Upsert(pid, deleted, key, value) =>
      var txn := Owner(key);
      var s' := DoChange(s, pid, txn, LastLsn(s, txn), Write(deleted, key, value),
                         Upserted(s.pool[pid].page.body, deleted, key, value));
      s'.(last := s.last[txn := End(s.log)])
    case WriteImage(pid, body) =>
      DoChange(s, pid, 0, 0, FullPage(Page(s.pool[pid].page.lsn, body)), body)
    case Compensate(pid, txn, erase, key, value, prev) =>
      DoChange(s, pid, txn, prev, Clr(key, value),
               RedoUpsert(s.pool[pid].page.body, key, UndoCell(erase, key, value)))
    case Unpin(pid, dirty) =>
      var f := s.pool[pid];
      SetFrame(s, pid, f.(pins := f.pins - 1, dirty := f.dirty || dirty, latch := Unlatched))
    case Evict(pid) =>
      var s' := if s.pool[pid].dirty && pid < |s.disk| then s.(disk := s.disk[pid := s.pool[pid].page]) else s;
      s'.(pool := s.pool - {pid})
    case Flush(pid) =>
      SetFrame(s.(disk := s.disk[pid := s.pool[pid].page]), pid, s.pool[pid].(dirty := false, recLsn := 0))
    case CommitTxn(txn) =>
      Append(s, txn, 0, LastLsn(s, txn), Commit).(last := s.last[txn := End(s.log)])
    case AbortTxn(txn) => Append(s, txn, 0, 0, Abort)
    case TakeCheckpoint => Append(s, 0, 0, 0, Checkpoint(DirtyTable(s.pool)))
    case PublishCheckpoint(i) => s.(chk := s.log[i].lsn)
    case CrashAndRedo => State(s.log, s.disk, Recovered(s), map[], s.chk)
  }

  // ---- Runs ----

  predicate Runs(s: State, steps: seq<Step>)
    decreases |steps|
  {
    steps == [] || (Enabled(s, steps[0]) && Runs(Next(s, steps[0]), steps[1..]))
  }

  function Final(s: State, steps: seq<Step>): State
    requires Runs(s, steps)
    decreases |steps|
  {
    if steps == [] then s else Final(Next(s, steps[0]), steps[1..])
  }
}
