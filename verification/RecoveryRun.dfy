/** Undo as a run of the machine: what Recover and Rollback leave in log, pool and disk is a state that
    fetches, compensations, unpins, write-backs and abort records reach. So the invariant and all that
    follows from it holds after them, and crashes after recovery are crashes of the machine. */
module RecoveryRun {
  import opened Bytes
  import opened Cells
  import opened Log
  import opened Redo
  import opened Undo
  import opened Recovery
  import opened Engine
  import opened EngineInvariant
  import opened Durability
  import opened CrashLimits

  function PageOf(s: State, pid: PageId): Page
    requires pid < |s.disk|
  {
    if pid in s.pool then s.pool[pid].page else s.disk[pid]
  }

  /** The machine is between operations and shows this log, these pages and these dirty frames. */
  ghost predicate Stands(s: State, v: Volume) {
    && s.log == v.log && |s.disk| == |v.pages|
    && (forall pid :: 0 <= pid < |s.disk| ==> PageOf(s, pid) == v.pages[pid])
    && (forall pid :: pid in s.pool ==> s.pool[pid].latch.Unlatched?)
    && (forall pid :: pid in v.dirty <==> pid in s.pool && s.pool[pid].dirty)
  }

  /** The steps lead from `s` to a state that shows `v`. */
  ghost predicate Leads(s: State, steps: seq<Step>, v: Volume) {
    Runs(s, steps) && Stands(Final(s, steps), v) && Final(s, steps).chk == s.chk
  }

  lemma {:induction false} LeadsOn(s: State, a: seq<Step>, v: Volume, b: seq<Step>, v': Volume)
    requires Leads(s, a, v) && Leads(Final(s, a), b, v')
    ensures Leads(s, a + b, v')
  {
    RunsConcat(s, a, b);
  }

  /** Redo leaves the machine as CrashAndRedo does. */
  lemma {:induction false} RedoStands(s: State)
    ensures var s1 := Next(s, CrashAndRedo);
      && Stands(s1, AfterRedo(Volume(s.log, s.disk, {}), StartIndex(s.log, s.chk)))
      && s1.last == map[] && forall pid :: pid in s1.pool ==> s1.pool[pid].pins == 0 && s1.pool[pid].recLsn == 0
  {
  }

  /** Any dirty frames can be written back. */
  lemma {:induction false} WriteBack(s: State, v: Volume, written: set<PageId>) returns (steps: seq<Step>)
    requires Inv(s) && Stands(s, v) && written <= v.dirty
    ensures Leads(s, steps, v.(dirty := v.dirty - written))
    decreases |written|
  {
    if written == {} {
      steps := [];
      assert v.dirty - written == v.dirty;
    } else {
      var pid :| pid in written;
      var s1, v1 := Next(s, Flush(pid)), v.(dirty := v.dirty - {pid});
      StepKeepsInv(s, Flush(pid));
      var rest := WriteBack(s1, v1, written - {pid});
      assert v1.dirty - (written - {pid}) == v.dirty - written;
      steps := [Flush(pid)] + rest;
    }
  }

  /** Fetch for write, compensate, unpin. */
  function UndoSteps(r: Record): seq<Step>
    requires r.payload.Write?
  {
    var w := r.payload;
    [FetchForWrite(r.page), Compensate(r.page, r.txn, !w.deleted, w.key, w.value, r.prev), Unpin(r.page, true)]
  }

  ghost predicate PrevKnown(log: seq<Record>, r: Record) {
    r.prev == 0 || exists i :: 0 <= i < |log| && log[i].lsn == r.prev && log[i].txn == r.txn
  }

  lemma {:induction false} LatchedForUndo(s: State, v: Volume, pid: PageId)
    requires Stands(s, v) && pid < |v.pages|
    ensures Enabled(s, FetchForWrite(pid))
    ensures var s1 := Next(s, FetchForWrite(pid));
      && s1.log == (if pid in v.dirty then v.log else BackedUp(v, pid)) && s1.disk == s.disk
      && pid in s1.pool && s1.pool == s.pool[pid := s1.pool[pid]]
      && s1.pool[pid].page.body == v.pages[pid].body && s1.pool[pid].latch.Held? && s1.pool[pid].pins > 0
  {
  }

  lemma {:induction false} PrevStaysKnown(log: seq<Record>, log': seq<Record>, r: Record)
    requires PrevKnown(log, r) && log <= log'
    ensures PrevKnown(log', r)
  {
    if r.prev != 0 {
      var i :| 0 <= i < |log| && log[i].lsn == r.prev && log[i].txn == r.txn;
      assert log'[i] == log[i];
    }
  }

  lemma {:induction false} UndoStepsRun(s: State, v: Volume, r: Record, v': Volume)
    requires Stands(s, v) && WriteUndone(v, r, v') && PrevKnown(v.log, r)
    requires v'.dirty == v.dirty + {r.page}
    requires v'.log == Compensated(if r.page in v.dirty then v.log else BackedUp(v, r.page), r)
    ensures Leads(s, UndoSteps(r), v')
  {
    var steps := UndoSteps(r);
    LatchedForUndo(s, v, r.page);
    var s1 := Next(s, steps[0]);
    PrevStaysKnown(s.log, s1.log, r);
    var s2 := Next(s1, steps[1]);
    ChangedAndUnpinned(s, v, r, v', s1);
    ThreeSteps(s, steps[0], steps[1], steps[2]);
    assert steps == [steps[0], steps[1], steps[2]];
  }

  lemma {:induction false} ChangedAndUnpinned(s: State, v: Volume, r: Record, v': Volume, s1: State)
    requires Stands(s, v) && WriteUndone(v, r, v') && v'.dirty == v.dirty + {r.page}
    requires s1.disk == s.disk && r.page in s1.pool && s1.pool == s.pool[r.page := s1.pool[r.page]]
    requires s1.pool[r.page].page.body == v.pages[r.page].body && s1.pool[r.page].pins > 0
    requires v'.log == Compensated(s1.log, r) && Enabled(s1, UndoSteps(r)[1])
    ensures var s2 := Next(s1, UndoSteps(r)[1]);
      Enabled(s2, UndoSteps(r)[2]) && Stands(Next(s2, UndoSteps(r)[2]), v')
  {
    var s2 := Next(s1, UndoSteps(r)[1]);
    assert s2.log == v'.log && s2.pool[r.page].page == v'.pages[r.page];
  }

  lemma {:induction false} ThreeSteps(s: State, a: Step, b: Step, c: Step)
    requires Enabled(s, a) && Enabled(Next(s, a), b) && Enabled(Next(Next(s, a), b), c)
    ensures Runs(s, [a, b, c]) && Final(s, [a, b, c]) == Next(Next(Next(s, a), b), c)
  {
    RunSnoc(s, [], a);
    RunSnoc(s, [a], b);
    RunSnoc(s, [a, b], c);
    assert [] + [a] == [a] && [a] + [b] == [a, b] && [a, b] + [c] == [a, b, c];
  }

  /** UndoWrite is a run of the machine. */
  lemma {:induction false} UndoWriteRuns(s: State, v: Volume, r: Record, v': Volume) returns (steps: seq<Step>)
    requires Inv(s) && Stands(s, v) && WriteUndone(v, r, v') && PrevKnown(v.log, r)
    ensures Leads(s, steps, v')
  {
    var direct := v'.log == Compensated(v.log, r);
    var dirty := if direct && r.page in v.dirty then v'.dirty else v'.dirty - {r.page};
    var mid := v.(dirty := dirty);
    var a := WriteBack(s, v, v.dirty - dirty);
    assert v.dirty - (v.dirty - dirty) == dirty;
    RunKeepsInv(s, a);
    assert direct ==> v'.log != Compensated(BackedUp(v, r.page), r);
    UndoStepsRun(Final(s, a), mid, r, v');
    steps := a + UndoSteps(r);
    LeadsOn(s, a, mid, UndoSteps(r), v');
  }

  lemma {:induction false} AbortRuns(s: State, v: Volume, txn: nat)
    requires Stands(s, v)
    ensures Leads(s, [AbortTxn(txn)], WithAbort(v, txn))
  {
    var s1 := Next(s, AbortTxn(txn));
    assert Stands(s1, WithAbort(v, txn));
    assert [AbortTxn(txn)][1..] == [];
  }

  lemma {:induction false} PassedRuns(s: State, v: Volume, r: Record, v': Volume) returns (steps: seq<Step>)
    requires Inv(s) && Stands(s, v) && Passed(v, r, v') && PrevKnown(v.log, r)
    ensures Leads(s, steps, v') && v.log <= v'.log
  {
    if r.payload.Write? && r.page < |v.pages| {
      steps := UndoWriteRuns(s, v, r, v');
    } else {
      steps := [];
    }
  }

  lemma {:induction false} RoundRuns(s: State, v: Volume, r: Record, v': Volume, aborts: bool)
    returns (steps: seq<Step>)
    requires Inv(s) && Stands(s, v) && RoundDone(v, r, v', aborts) && PrevKnown(v.log, r)
    ensures Leads(s, steps, v') && v.log <= v'.log
  {
    if aborts && r.prev == 0 {
      var mid :| Passed(v, r, mid) && v' == WithAbort(mid, r.txn);
      var a := PassedRuns(s, v, r, mid);
      AbortRuns(Final(s, a), mid, r.txn);
      steps := a + [AbortTxn(r.txn)];
      LeadsOn(s, a, mid, [AbortTxn(r.txn)], v');
    } else {
      steps := PassedRuns(s, v, r, v');
    }
  }

  /** Undo of a list of records is a run of the machine. */
  lemma {:induction false} UndoRuns(s: State, v: Volume, rs: seq<Record>, v': Volume, aborts: bool)
    returns (steps: seq<Step>)
    requires Inv(s) && Stands(s, v) && UndoneInTurn(v, rs, v', aborts)
    requires forall r :: r in rs ==> PrevKnown(v.log, r)
    ensures Leads(s, steps, v') && v.log <= v'.log
    decreases |rs|
  {
    if rs == [] {
      steps := [];
    } else {
      var front, r := rs[..|rs| - 1], rs[|rs| - 1];
      var mid :| RoundDone(v, r, mid, aborts) && UndoneInTurn(mid, front, v', aborts);
      var a := RoundRuns(s, v, r, mid, aborts);
      RunKeepsInv(s, a);
      forall x | x in front ensures PrevKnown(mid.log, x) {
        assert x in rs;
        PrevStaysKnown(v.log, mid.log, x);
      }
      var b := UndoRuns(Final(s, a), mid, front, v', aborts);
      steps := a + b;
      LeadsOn(s, a, mid, b, v');
    }
  }

  lemma {:induction false} WorkPrevKnown(log: seq<Record>, att: map<nat, Lsn>)
    requires ChainsOk(log)
    ensures forall r :: r in UndoList(log, att, |log|) ==> PrevKnown(log, r)
  {
    UndoListMembers(log, att, |log|);
  }

  /** Whatever Recover leaves behind after a crash of the machine, a run of the machine leads there from
      the state that redo makes, and the invariant holds there. */
  lemma {:induction false} RecoverRuns(s: State, v': Volume) returns (steps: seq<Step>)
    requires Inv(s) && RecoveredTo(Volume(s.log, s.disk, {}), StartIndex(s.log, s.chk), v')
    ensures var s1 := Next(s, CrashAndRedo); Leads(s1, steps, v') && Inv(Final(s1, steps)) && s.log <= v'.log
  {
    var s1, from := Next(s, CrashAndRedo), StartIndex(s.log, s.chk);
    RedoStands(s);
    StepKeepsInv(s, CrashAndRedo);
    WorkPrevKnown(s.log, Att(s.log, from));
    steps := UndoRuns(s1, AfterRedo(Volume(s.log, s.disk, {}), from), Work(s), v', true);
    RunKeepsInv(s1, steps);
  }

  /** The same for a rollback in a running system that stands between operations. */
  lemma {:induction false} RollbackRuns(s: State, v: Volume, txn: nat, lsn: Lsn, mid: Volume) returns (steps: seq<Step>)
    requires Inv(s) && Stands(s, v)
    requires UndoneInTurn(v, UndoList(v.log, Chain(txn, lsn), |v.log|), mid, false)
    ensures Leads(s, steps, WithAbort(mid, txn)) && Inv(Final(s, steps))
  {
    WorkPrevKnown(s.log, Chain(txn, lsn));
    var a := UndoRuns(s, v, UndoList(v.log, Chain(txn, lsn), |v.log|), mid, false);
    AbortRuns(Final(s, a), mid, txn);
    steps := a + [AbortTxn(txn)];
    LeadsOn(s, a, mid, [AbortTxn(txn)], WithAbort(mid, txn));
    RunKeepsInv(s, steps);
  }

  // ---- The next crash ----

  lemma {:induction false} SameStart(log: seq<Record>, log': seq<Record>, chk: Lsn)
    requires WellFormed(log) && WellFormed(log') && log <= log'
    requires chk == 0 || exists i :: 0 <= i < |log| && log[i].payload.Checkpoint? && log[i].lsn == chk
    ensures StartIndex(log', chk) == StartIndex(log, chk)
  {
    StartIndexIsStart(log, chk);
    if chk != 0 { assert log'[StartIndex(log, chk)].lsn == chk; }
    var i := StartIndex(log, chk);
    assert chk != 0 ==> log'[i] == log[i];
    StartIndexIsStart(log', chk);
    var j := StartIndex(log', chk);
    if chk != 0 && i < j { LsnOrder(log', i, j); }
    if chk != 0 && j < i { LsnOrder(log', j, i); }
  }

  /** A second recovery finds no losers. It gives every page the contents the first one left, unless a
      compensation is waiting to be repeated; if since the first crash the page has only been compensated,
      it brings back what clients saw before the first crash, the losers' writes included. */
  lemma {:induction false} SecondRecovery(s: State, v': Volume, steps: seq<Step>, pid: PageId)
    requires Inv(s) && RecoveredTo(Volume(s.log, s.disk, {}), StartIndex(s.log, s.chk), v')
    requires Leads(Next(s, CrashAndRedo), steps, v') && pid < |s.disk| && pid < |v'.pages|
    ensures var s2 := Final(Next(s, CrashAndRedo), steps);
      && Losers(s2) == {}
      && (ClrSafe(s2.log, pid, s2.disk[pid].lsn) ==> SameBody(After(s2, pid), v'.pages[pid].body))
      && (ClrSafe(s.log, pid, s.disk[pid].lsn) && OnlyCompensated(Next(s, CrashAndRedo), s2, pid) ==>
            SameBody(After(s2, pid), View(s, pid)))
  {
    var s1 := Next(s, CrashAndRedo);
    var s2 := Final(s1, steps);
    StepKeepsInv(s, CrashAndRedo);
    RunKeepsInv(s1, steps);
    var _ := RecoverRuns(s, v');
    SameStart(s.log, s2.log, s.chk);
    NothingToUndo(s2, pid);
    assert PageOk(s2, pid);
    CrashKeepsPage(s2, pid);
    if ClrSafe(s.log, pid, s.disk[pid].lsn) && OnlyCompensated(s1, s2, pid) {
      CrashForgets(s1, s2, pid);
      assert PageOk(s, pid);
      CrashKeepsPage(s, pid);
    }
  }
}
