/** Runs from the empty state on which whole recovery, undo included, gets a page wrong. */
module CrashRuns {
  import opened Bytes
  import opened Cells
  import opened MvccKeys
  import opened Log
  import opened Redo
  import opened Undo
  import opened Recovery
  import opened Engine
  import opened EngineInvariant
  import opened Durability
  import opened Atomicity
  import opened CrashLimits

  // ---- Recovery without losers ----

  /** Every transaction in range has ended, so there are no losers. */
  lemma {:induction false} NoLosers(s: State)
    requires forall i: nat, t: nat :: t != 0 ==> !LeftOpen(s.log, StartIndex(s.log, s.chk), t, i)
    ensures Losers(s) == {}
  {
    forall t: nat ensures t !in Losers(s) {
      LosersExactly(s.log, StartIndex(s.log, s.chk), t);
    }
  }

  // ---- A write is stored ----

  /** The backup record of the new page 0. */
  const BACKUP: Record := Record(FIRST_LSN, 0, 0, 0, FullPage(Page(0, Leaf([]))))

  const NEW_DISK: seq<Page> := [Page(0, Leaf([]))]

  function Written(key: Bytes, value: Bytes): Record {
    Record(End([BACKUP]), Owner(key), 0, 0, Write(false, key, value))
  }

  function Stored(key: Bytes, value: Bytes): Cell {
    Cell(0, key, value)
  }

  /** The only frame of the pool: dirty since the backup record. */
  function DirtyFrame(lsn: Lsn, cells: seq<Cell>, pins: nat, latch: Latch): map<PageId, Frame> {
    map[0 := Frame(Page(lsn, Leaf(cells)), true, pins, FIRST_LSN, latch)]
  }

  function StoreRun(key: Bytes, value: Bytes): seq<Step> {
    [Allocate(Leaf([]))] + [FetchForWrite(0)] + [Upsert(0, false, key, value)] + [Unpin(0, true)]
  }

  function StoredState(key: Bytes, value: Bytes): State {
    var w := Written(key, value);
    State([BACKUP, w], NEW_DISK, DirtyFrame(w.lsn, [Stored(key, value)], 0, Unlatched), map[Owner(key) := w.lsn], 0)
  }

  lemma {:induction false} FetchReached()
    ensures var steps := [Allocate(Leaf([]))] + [FetchForWrite(0)];
      && Runs(INIT, steps)
      && Final(INIT, steps) == State([BACKUP], NEW_DISK,
           map[0 := Frame(Page(FIRST_LSN, Leaf([])), false, 1, FIRST_LSN, Held(false))], map[], 0)
  {
    RunSnoc(INIT, [], Allocate(Leaf([])));
    assert [] + [Allocate(Leaf([]))] == [Allocate(Leaf([]))];
    RunSnoc(INIT, [Allocate(Leaf([]))], FetchForWrite(0));
  }

  lemma {:induction false} OneCell(c: Cell)
    ensures Rewrite([], c.key, Some(c)) == [c] && SortCells([c]) == [c]
    ensures RedoUpsert(Leaf([c]), c.key, None) == Leaf([])
  {
    NewCellRewritten([], c);
    SortedStays([c]);
    assert [c][..0] == [] && Swap([], c.key, None) == [];
    assert Rewrite([c], c.key, None) == [];
  }

  lemma {:induction false} StoreReached(key: Bytes, value: Bytes)
    requires Fits([Stored(key, value)])
    ensures Runs(INIT, StoreRun(key, value)) && Final(INIT, StoreRun(key, value)) == StoredState(key, value)
  {
    var steps := [Allocate(Leaf([]))] + [FetchForWrite(0)];
    var s := Final(INIT, steps);
    FetchReached();
    OneCell(Stored(key, value));
    RunSnoc(INIT, steps, Upsert(0, false, key, value));
    RunSnoc(INIT, steps + [Upsert(0, false, key, value)], Unpin(0, true));
    assert Final(INIT, StoreRun(key, value)).log == [BACKUP] + [Written(key, value)];
  }

  // ---- and rolled back ----

  function Compensation(key: Bytes, value: Bytes): Record {
    Record(End([BACKUP, Written(key, value)]), Owner(key), 0, 0, Clr(key, value))
  }

  /** What Rollback does: fetch the page, erase the cell, log the compensation, unpin, log the abort. */
  function RollbackSteps(key: Bytes, value: Bytes): seq<Step> {
    [FetchForWrite(0)] + [Compensate(0, Owner(key), true, key, value, 0)] + [Unpin(0, true)] + [AbortTxn(Owner(key))]
  }

  function RolledBackLog(key: Bytes, value: Bytes): seq<Record> {
    var log := [BACKUP, Written(key, value), Compensation(key, value)];
    log + [Record(End(log), Owner(key), 0, 0, Abort)]
  }

  function RolledBackState(key: Bytes, value: Bytes): State {
    State(RolledBackLog(key, value), NEW_DISK, DirtyFrame(Compensation(key, value).lsn, [], 0, Unlatched),
          map[Owner(key) := Written(key, value).lsn], 0)
  }

  lemma {:induction false} RollbackReached(key: Bytes, value: Bytes)
    requires Fits([Stored(key, value)])
    ensures var s := StoredState(key, value);
      Runs(s, RollbackSteps(key, value)) && Final(s, RollbackSteps(key, value)) == RolledBackState(key, value)
  {
    var s, undo := StoredState(key, value), Compensate(0, Owner(key), true, key, value, 0);
    ErasedReached(key, value);
    RunSnoc(s, [FetchForWrite(0)] + [undo], Unpin(0, true));
    RunSnoc(s, [FetchForWrite(0)] + [undo] + [Unpin(0, true)], AbortTxn(Owner(key)));
    assert Final(s, RollbackSteps(key, value)).log == RolledBackLog(key, value);
  }

  lemma {:induction false} ErasedReached(key: Bytes, value: Bytes)
    requires Fits([Stored(key, value)])
    ensures var s, undo := StoredState(key, value), Compensate(0, Owner(key), true, key, value, 0);
      && Runs(s, [FetchForWrite(0)] + [undo])
      && Final(s, [FetchForWrite(0)] + [undo]) ==
         State(s.log + [Compensation(key, value)], s.disk, DirtyFrame(Compensation(key, value).lsn, [], 1, Held(true)),
               s.last, 0)
  {
    var s, undo := StoredState(key, value), Compensate(0, Owner(key), true, key, value, 0);
    OneCell(Stored(key, value));
    RunSnoc(s, [], FetchForWrite(0));
    assert [] + [FetchForWrite(0)] == [FetchForWrite(0)];
    RunSnoc(s, [FetchForWrite(0)], undo);
  }

  lemma {:induction false} RolledBackReached(key: Bytes, value: Bytes)
    requires Fits([Stored(key, value)])
    ensures var steps := StoreRun(key, value) + RollbackSteps(key, value); var s := RolledBackState(key, value);
      && Runs(INIT, steps) && Final(INIT, steps) == s && Inv(s)
      && ReplayBody(s, 0) == Leaf([Stored(key, value)])
  {
    var s0, s := StoredState(key, value), RolledBackState(key, value);
    StoreReached(key, value);
    RollbackReached(key, value);
    RunsConcat(INIT, StoreRun(key, value), RollbackSteps(key, value));
    ReachableInv(StoreRun(key, value));
    ReachableInv(StoreRun(key, value) + RollbackSteps(key, value));
    CrashForgets(s0, s, 0);
    assert PageOk(s, 0);
    CrashKeepsPage(s, 0);
    OnlyThisCell(ReplayBody(s, 0), Stored(key, value));
  }

  /** The transaction has rolled back and its abort is logged. After a crash and whole recovery its
      write is there again, and nothing will undo it. */
  lemma {:induction false} RolledBackWriteReturns(key: Bytes, value: Bytes)
    requires Fits([Stored(key, value)])
    ensures Runs(INIT, StoreRun(key, value) + RollbackSteps(key, value))
    ensures var s := Final(INIT, StoreRun(key, value) + RollbackSteps(key, value));
      |s.disk| == 1 && View(s, 0) == Leaf([]) && After(s, 0) == Leaf([Stored(key, value)])
  {
    var s := RolledBackState(key, value);
    RolledBackReached(key, value);
    assert PageOk(s, 0);
    CrashKeepsPage(s, 0);
    assert s.log[3].payload.Abort? && s.log[3].txn == Owner(key);
    NoLosers(s);
    NothingToUndo(s, 0);
  }

  // ---- A later committed write ----

  /** Another transaction stores a cell in the page and commits. */
  function CommitSteps(key: Bytes, value: Bytes): seq<Step> {
    [FetchForWrite(0)] + [Upsert(0, false, key, value)] + [Unpin(0, true)] + [CommitTxn(Owner(key))]
  }

  lemma {:induction false} CommitReached(s: State, key: Bytes, value: Bytes)
    requires |s.disk| == 1 && 0 in s.pool && s.pool == DirtyFrame(s.pool[0].page.lsn, [], 0, Unlatched)
    requires Owner(key) !in s.last
    requires Fits([Stored(key, value)])
    ensures Runs(s, CommitSteps(key, value))
    ensures var s' := Final(s, CommitSteps(key, value));
      CommitsAfter(s, s', key, value) && View(s', 0) == Leaf([Stored(key, value)])
  {
    OneCell(Stored(key, value));
    RunSnoc(s, [], FetchForWrite(0));
    assert [] + [FetchForWrite(0)] == [FetchForWrite(0)];
    RunSnoc(s, [FetchForWrite(0)], Upsert(0, false, key, value));
    RunSnoc(s, [FetchForWrite(0)] + [Upsert(0, false, key, value)], Unpin(0, true));
    RunSnoc(s, [FetchForWrite(0)] + [Upsert(0, false, key, value)] + [Unpin(0, true)], CommitTxn(Owner(key)));
  }

  lemma {:induction false} OnlyMember(cells: seq<Cell>, c: Cell)
    requires UniqueKeys(cells) && CellSet(cells) == CellSet([c])
    ensures cells == [c]
  {
    assert c in CellSet([c]) && c in cells;
    forall i | 0 <= i < |cells| ensures cells[i] == c {
      assert cells[i] in CellSet(cells);
    }
    assert |cells| > 1 ==> cells[0].key != cells[1].key;
  }

  lemma {:induction false} OnlyThisCell(b: Body, c: Cell)
    requires SameBody(b, Leaf([c]))
    ensures b == Leaf([c])
  {
    if b.Leaf? && UniqueKeys(b.cells) && CellSet(b.cells) == CellSet([c]) { OnlyMember(b.cells, c); }
  }

  /** Redo of a write to a page that has no room for it drops the cell. */
  lemma {:induction false} NoRoomForSecond(c1: Cell, c2: Cell)
    requires c1.key != c2.key && Fits([c1]) && !Fits([c1, c2])
    ensures RedoUpsert(Leaf([c1]), c2.key, Some(c2)) == Leaf([c1])
  {
    NewCellRewritten([c1], c2);
    assert [c1] + [c2] == [c1, c2] && [c1, c2][..1] == [c1];
    FillKeepsAllIffFits([c1]);
  }

  /** The replay of a log that ends with a write to page 0 and records about no page. */
  lemma {:induction false} ReplayWrite(p: Page, log: seq<Record>, w: Record, last: Record)
    requires WellFormed(log + [w]) && w.payload.Write? && w.page == 0 && last.payload.Commit? && p.lsn < End(log)
    ensures RedoFrom(p, 0, log + [w] + [last], 0).body ==
      RedoUpsert(RedoFrom(p, 0, log, 0).body, w.payload.key,
                 Some(CellFor(w.payload.deleted, w.payload.key, w.payload.value)))
  {
    RedoSnoc(p, 0, log + [w], last, 0);
    RedoSnoc(p, 0, log, w, 0);
    WellFormedPrefix(log + [w], |log|);
    assert (log + [w])[..|log|] == log && InOrder(log + [w], |log|);
    LsnsBelowEnd(log);
    RedoLsnBound(p, 0, log, 0, End(log));
  }

  /** The cell that comes back takes the room of a later one. From the empty state: a write is stored
      and rolled back; another transaction stores a cell that fits only without it, and commits. After
      a crash and whole recovery the page holds the rolled-back write, and the committed one is gone. */
  lemma {:induction false} CommittedWriteDropped(key1: Bytes, v1: Bytes, key2: Bytes, v2: Bytes)
    requires Owner(key1) != Owner(key2) && Fits([Stored(key1, v1)]) && Fits([Stored(key2, v2)])
    requires !Fits([Stored(key1, v1), Stored(key2, v2)])
    ensures var steps := StoreRun(key1, v1) + RollbackSteps(key1, v1) + CommitSteps(key2, v2);
      && Runs(INIT, steps) && |Final(INIT, steps).disk| == 1
      && View(Final(INIT, steps), 0) == Leaf([Stored(key2, v2)])
      && After(Final(INIT, steps), 0) == Leaf([Stored(key1, v1)])
  {
    var before := StoreRun(key1, v1) + RollbackSteps(key1, v1);
    var s1 := RolledBackState(key1, v1);
    RolledBackReached(key1, v1);
    CommitReached(s1, key2, v2);
    RunsConcat(INIT, before, CommitSteps(key2, v2));
    var s := Final(s1, CommitSteps(key2, v2));
    RunKeepsInv(s1, CommitSteps(key2, v2));
    DroppedInReplay(s1, s, Stored(key1, v1), key2, v2);
    AllEnded(s, key1, key2);
    NothingToUndo(s, 0);
  }

  /** The log of the run: the rolled-back write, then the committed one. */
  ghost predicate CommitsAfter(s1: State, s: State, key: Bytes, value: Bytes) {
    var w := Record(End(s1.log), Owner(key), 0, 0, Write(false, key, value));
    && s.disk == s1.disk && s.chk == s1.chk
    && s.log == s1.log + [w] + [Record(End(s1.log + [w]), Owner(key), 0, w.lsn, Commit)]
  }

  lemma {:induction false} DroppedInReplay(s1: State, s: State, c: Cell, key: Bytes, value: Bytes)
    requires Inv(s1) && Inv(s) && |s1.disk| == 1 && CommitsAfter(s1, s, key, value) && ReplayBody(s1, 0) == Leaf([c])
    requires c.key != key && Fits([c]) && !Fits([c, Stored(key, value)])
    ensures View(Next(s, CrashAndRedo), 0) == Leaf([c])
  {
    var w := Record(End(s1.log), Owner(key), 0, 0, Write(false, key, value));
    assert PageOk(s, 0) && PageOk(s1, 0);
    CrashKeepsPage(s, 0);
    AppendWellFormed(s1.log, w);
    ReplayWrite(s.disk[0], s1.log, w, s.log[|s1.log| + 1]);
    NoRoomForSecond(c, Stored(key, value));
  }

  lemma {:induction false} AllEnded(s: State, key1: Bytes, key2: Bytes)
    requires |s.log| == 6 && s.log[3].payload.Abort? && s.log[3].txn == Owner(key1)
    requires s.log[5].payload.Commit? && s.log[5].txn == Owner(key2)
    requires forall i :: 0 <= i < 4 ==> s.log[i].txn == 0 || s.log[i].txn == Owner(key1)
    requires s.log[4].txn == Owner(key2)
    requires Owner(key1) != Owner(key2)
    ensures Losers(s) == {}
  {
    NoLosers(s);
  }

  // ---- An open transaction behind a checkpoint ----

  function CheckpointSteps(): seq<Step> {
    [TakeCheckpoint] + [PublishCheckpoint(2)]
  }

  lemma {:induction false} CheckpointReached(key: Bytes, value: Bytes)
    ensures var s := StoredState(key, value);
      && Runs(s, CheckpointSteps())
      && var s' := Final(s, CheckpointSteps());
         && s'.disk == s.disk && s'.pool == s.pool && |s'.log| == 3 && s'.log[..2] == s.log && s'.chk == s'.log[2].lsn
         && s'.log[2].payload.Checkpoint? && s'.log[2].txn == 0
  {
    var s := StoredState(key, value);
    RunSnoc(s, [], TakeCheckpoint);
    assert [] + [TakeCheckpoint] == [TakeCheckpoint];
    RunSnoc(s, [TakeCheckpoint], PublishCheckpoint(2));
  }

  /** From the empty state: a transaction writes and stays open, a checkpoint is taken and published.
      After a crash and whole recovery the uncommitted write is still there. */
  lemma {:induction false} UncommittedSurvivesCheckpoint(key: Bytes, value: Bytes)
    requires Fits([Stored(key, value)]) && Owner(key) != 0
    ensures Runs(INIT, StoreRun(key, value) + CheckpointSteps())
    ensures var s := Final(INIT, StoreRun(key, value) + CheckpointSteps());
      |s.disk| == 1 && Open(s.log, Owner(key)) && After(s, 0) == Leaf([Stored(key, value)])
  {
    var steps := StoreRun(key, value) + CheckpointSteps();
    StoreReached(key, value);
    CheckpointReached(key, value);
    RunsConcat(INIT, StoreRun(key, value), CheckpointSteps());
    ReachableInv(steps);
    var s := Final(INIT, steps);
    assert s.log[..2][0] == BACKUP && s.log[..2][1] == Written(key, value);
    OpenBehindCheckpoint(s, key, value);
  }

  lemma {:induction false} OpenBehindCheckpoint(s: State, key: Bytes, value: Bytes)
    requires Inv(s) && |s.disk| == 1 && View(s, 0) == Leaf([Stored(key, value)]) && Owner(key) != 0
    requires |s.log| == 3 && s.log[0] == BACKUP && s.log[1] == Written(key, value)
    requires s.log[2].payload.Checkpoint? && s.log[2].txn == 0 && s.chk == s.log[2].lsn
    ensures Open(s.log, Owner(key)) && After(s, 0) == Leaf([Stored(key, value)])
  {
    assert LeftOpen(s.log, 0, Owner(key), 1);
    CrashKeepsView(s, key, value);
    assert StartIndex(s.log, s.chk) == 2;
    NoLosers(s);
    NothingToUndo(s, 0);
  }

  lemma {:induction false} CrashKeepsView(s: State, key: Bytes, value: Bytes)
    requires Inv(s) && |s.disk| == 1 && View(s, 0) == Leaf([Stored(key, value)])
    requires forall i :: 0 <= i < |s.log| ==> !s.log[i].payload.Clr?
    ensures View(Next(s, CrashAndRedo), 0) == Leaf([Stored(key, value)])
  {
    assert PageOk(s, 0) && ClrSafe(s.log, 0, s.disk[0].lsn);
    CrashKeepsPage(s, 0);
    OnlyThisCell(View(Next(s, CrashAndRedo), 0), Stored(key, value));
  }
}
