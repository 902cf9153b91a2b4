/** Checkpoints whose dirty-page table was read before their record was appended. Checkpoint()
    reads the table and appends the record in two steps; the machine's own TakeCheckpoint step does
    both at once. Here the table of an earlier state meets the log of a later one. */
module FuzzyCheckpoint {
  import opened Log
  import opened Redo
  import opened Engine
  import opened EngineInvariant

  /** Redo of the page may start at this LSN. */
  ghost predicate GoodStart(s: State, pid: PageId, start: Lsn) {
    && pid < |s.disk| && StartOk(s.log, pid, start)
    && RedoBody(s, pid, start) == ReplayBody(s, pid)
  }

  lemma {:induction false} AppendKeepsStart(s: State, s': State, r: Record, pid: PageId, start: Lsn)
    requires Inv(s) && Appended(s, s', r) && GoodStart(s, pid, start)
    ensures GoodStart(s', pid, start)
  {
    assert PageOk(s, pid);
    StartOkGrows(s, s', r, pid, start);
    if r.page == pid && OnPage(r) {
      AppendOwn(s, s', r, pid, start);
      AppendOwn(s, s', r, pid, 0);
    } else {
      ForeignRedo(s, s', r, pid, start);
      ForeignRedo(s, s', r, pid, 0);
    }
  }

  /** Writing the page back makes redo from anywhere the identity. */
  lemma {:induction false} WriteBackKeepsStart(s: State, s': State, pid: PageId, start: Lsn)
    requires Inv(s) && GoodStart(s, pid, start) && pid in s.pool && s.pool[pid].dirty
    requires s'.log == s.log && s'.disk == s.disk[pid := s.pool[pid].page]
    ensures GoodStart(s', pid, start)
  {
    assert PageOk(s, pid);
    LsnsBelowEnd(s.log);
    RedoCovered(s'.disk[pid], pid, s'.log, start);
    RedoCovered(s'.disk[pid], pid, s'.log, 0);
  }

  /** A recovery LSN stays good whatever happens to the page: it may be flushed, evicted and
      dirtied again. */
  lemma {:induction false} StepKeepsStart(s: State, step: Step, pid: PageId, start: Lsn)
    requires Inv(s) && Enabled(s, step) && GoodStart(s, pid, start)
    ensures GoodStart(Next(s, step), pid, start)
  {
    var s' := Next(s, step);
    if |s'.log| > |s.log| {
      AppendKeepsStart(s, s', s'.log[|s.log|], pid, start);
    } else if pid < |s'.disk| && s'.disk[pid] == s.disk[pid] {
      assert s'.log == s.log;
    } else {
      WriteBackKeepsStart(s, s', pid, start);
    }
  }

  lemma {:induction false} RunKeepsStart(s: State, steps: seq<Step>, pid: PageId, start: Lsn)
    requires Inv(s) && Runs(s, steps) && GoodStart(s, pid, start)
    ensures GoodStart(Final(s, steps), pid, start)
    decreases |steps|
  {
    if steps != [] {
      StepKeepsInv(s, steps[0]);
      StepKeepsStart(s, steps[0], pid, start);
      RunKeepsStart(Next(s, steps[0]), steps[1..], pid, start);
    }
  }

  /** The checkpoint of `s` with a given table, appended and published. */
  function Checkpointed(s: State, table: map<PageId, Lsn>): State {
    Append(s, 0, 0, 0, Checkpoint(table)).(chk := End(s.log))
  }

  lemma {:induction false} TableIsStart(s: State, table: map<PageId, Lsn>)
    requires WellFormed(s.log)
    ensures var s1 := Checkpointed(s, table); Dpt(s1.log, StartIndex(s1.log, s1.chk)) == table
  {
    var s1 := Checkpointed(s, table);
    assert StartIndex(s1.log, s1.chk) == |s.log|;
    DptSnoc(s.log, s1.log[|s.log|], |s.log|);
  }

  /** What a crash after the checkpoint leaves of a page: if the page was dirty when the table was
      read, everything logged up to the crash; otherwise what is on disk. */
  lemma {:induction false} StaleTableExactly(s0: State, steps: seq<Step>, pid: PageId)
    requires Inv(s0) && Runs(s0, steps) && pid < |Final(s0, steps).disk|
    ensures var s := Final(s0, steps);
      View(Next(Checkpointed(s, DirtyTable(s0.pool)), CrashAndRedo), pid) ==
        if pid in DirtyTable(s0.pool) then ReplayBody(s, pid) else s.disk[pid].body
  {
    var s, table := Final(s0, steps), DirtyTable(s0.pool);
    var s1 := Checkpointed(s, table);
    RunKeepsInv(s0, steps);
    TableIsStart(s, table);
    if pid in table {
      assert PageOk(s0, pid) && GoodStart(s0, pid, table[pid]);
      RunKeepsStart(s0, steps, pid, table[pid]);
      ForeignRedo(s, s1, s1.log[|s.log|], pid, table[pid]);
    }
  }

  /** The exact condition for losing nothing of a page: it was dirty when the table was read, or
      the disk already has what clients see when the record is appended. */
  lemma {:induction false} CheckpointSafeExactly(before: seq<Step>, between: seq<Step>, pid: PageId)
    requires Runs(INIT, before) && Runs(Final(INIT, before), between)
    requires var s := Final(Final(INIT, before), between);
      pid < |s.disk| && ClrSafe(s.log, pid, s.disk[pid].lsn)
    ensures var s0 := Final(INIT, before);
      var s := Final(s0, between);
      SameBody(View(Next(Checkpointed(s, DirtyTable(s0.pool)), CrashAndRedo), pid), View(s, pid)) <==>
      pid in DirtyTable(s0.pool) || SameBody(s.disk[pid].body, View(s, pid))
  {
    var s0 := Final(INIT, before);
    ReachableInv(before);
    RunKeepsInv(s0, between);
    StaleTableExactly(s0, between, pid);
    assert PageOk(Final(s0, between), pid);
  }

  /** Even if the table is read and appended at once: a page between its change and the unpin that
      marks its frame dirty falls back to the disk, all others are replayed. */
  lemma {:induction false} UnpinWindowLosesChange(s: State, pid: PageId)
    requires Inv(s) && pid in s.pool && pid < |s.disk|
    ensures View(Next(Checkpointed(s, DirtyTable(s.pool)), CrashAndRedo), pid) ==
      if s.pool[pid].Touched() && !s.pool[pid].dirty then s.disk[pid].body else ReplayBody(s, pid)
  {
    assert PageOk(s, pid);
    assert Final(s, []) == s;
    StaleTableExactly(s, [], pid);
  }

  /** A concrete run: the table is read while page 0 is clean; then the page is fetched, changed and
      unpinned dirty, all of it logged; the record is appended and published. After a crash the
      change is gone. */
  lemma {:induction false} LoggedChangeLost(old_: Body, new_: Body)
    requires old_.Other? && new_.Other? && old_ != new_
    ensures var s0 := Next(INIT, Allocate(old_));
      var change := [FetchForWrite(0)] + [WriteImage(0, new_)] + [Unpin(0, true)];
      && Runs(INIT, [Allocate(old_)]) && Runs(s0, change) && |Final(s0, change).disk| == 1
      && View(Final(s0, change), 0) == new_
      && View(Next(Checkpointed(Final(s0, change), DirtyTable(s0.pool)), CrashAndRedo), 0) == old_
  {
    var s0 := Next(INIT, Allocate(old_));
    RunSnoc(INIT, [], Allocate(old_));
    assert [] + [Allocate(old_)] == [Allocate(old_)];
    ReachableInv([Allocate(old_)]);
    RunSnoc(s0, [], FetchForWrite(0));
    assert [] + [FetchForWrite(0)] == [FetchForWrite(0)];
    RunSnoc(s0, [FetchForWrite(0)], WriteImage(0, new_));
    RunSnoc(s0, [FetchForWrite(0)] + [WriteImage(0, new_)], Unpin(0, true));
    StaleTableExactly(s0, [FetchForWrite(0)] + [WriteImage(0, new_)] + [Unpin(0, true)], 0);
  }
}
