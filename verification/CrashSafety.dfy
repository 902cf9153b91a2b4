/** Crash safety of every run: repeating history, redo with skip rules against plain replay,
    and the write-ahead rule. */
module CrashSafety {
  import opened Bytes
  import opened Cells
  import opened Log
  import opened Redo
  import opened Engine
  import opened EngineInvariant

  /** Repeating history: after any run, a crash followed by analysis and redo gives every page
      the contents its clients saw before the crash, provided no compensation of the page is
      waiting to be repeated. */
  lemma {:induction false} RepeatingHistory(steps: seq<Step>, pid: PageId)
    requires Runs(INIT, steps)
    requires var s := Final(INIT, steps); pid < |s.disk| && ClrSafe(s.log, pid, s.disk[pid].lsn)
    ensures var s := Final(INIT, steps);
      SameBody(View(Next(s, CrashAndRedo), pid), View(s, pid))
  {
    var s := Final(INIT, steps);
    ReachableInv(steps);
    assert PageOk(s, pid);
    CrashKeepsPage(s, pid);
  }

  /** Redo from MinLSN with the three skip rules equals replay of every record from byte 4,
      from whichever checkpoint analysis starts; no hypothesis on compensations is needed. */
  lemma {:induction false} FastRedoRefinesReplay(steps: seq<Step>, pid: PageId, from: nat)
    requires Runs(INIT, steps)
    requires var s := Final(INIT, steps); pid < |s.disk| && from <= |s.log| && IsStart(s.log, from)
    ensures var s := Final(INIT, steps);
      FastRedo(s.disk[pid], pid, s.log, Dpt(s.log, from)).body == RedoFrom(s.disk[pid], pid, s.log, 0).body
  {
    var s := Final(INIT, steps);
    ReachableInv(steps);
    assert PageOk(s, pid);
    assert FastOk(s, pid, from);
  }

  /** Write-ahead rule: a page on disk never carries an LSN the synced log does not have, and
      the record with that LSN can be read back. */
  lemma {:induction false} WriteAheadRule(steps: seq<Step>, pid: PageId)
    requires Runs(INIT, steps) && pid < |Final(INIT, steps).disk|
    ensures var s := Final(INIT, steps);
      s.disk[pid].lsn < End(s.log) &&
      (s.disk[pid].lsn != 0 ==> ReadRecord(s.log, s.disk[pid].lsn).Some?)
  {
    var s := Final(INIT, steps);
    ReachableInv(steps);
    assert PageOk(s, pid);
    if s.disk[pid].lsn != 0 {
      var i :| 0 <= i < |s.log| && s.log[i].lsn == s.disk[pid].lsn;
      ReadFinds(s.log, i);
    }
  }
}
