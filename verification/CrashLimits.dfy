/** Exactly where redo does not repeat history: it has no case for the contents of compensation
    records. Module CrashRuns has runs from the empty state, module FuzzyCheckpoint the checkpoints. */
module CrashLimits {
  import opened Bytes
  import opened Cells
  import opened Log
  import opened Redo
  import opened Engine
  import opened EngineInvariant

  // ---- Compensation records ----

  /** The compensation leaves the page as it is. */
  predicate NoEffect(b: Body, erase: bool, key: Bytes, value: Bytes) {
    b.Leaf? ==>
      if erase then !HasKey(b.cells, key)
      else Cell(0, key, value) in b.cells || (!HasKey(b.cells, key) && !Fits(b.cells + [Cell(0, key, value)]))
  }

  /** Redo has no case for the contents of a compensation record. Right after one, a crash restores
      the page exactly when the compensation had no effect on it. */
  lemma {:induction false} CompensationLostExactly(s: State, step: Step)
    requires Inv(s) && step.Compensate? && Enabled(s, step)
    requires step.pid < |s.disk| && ClrSafe(s.log, step.pid, s.disk[step.pid].lsn)
    ensures var s1, pid := Next(s, step), step.pid;
      SameBody(View(Next(s1, CrashAndRedo), pid), View(s1, pid)) <==>
      NoEffect(View(s, pid), step.erase, step.key, step.value)
  {
    var s1, pid, b := Next(s, step), step.pid, View(s, step.pid);
    StepForgets(s, step);
    assert PageOk(s, pid);
    if b.Other? {
      assert View(s1, pid) == b;
    } else if step.erase {
      ErasureSeen(View(Next(s1, CrashAndRedo), pid), b, step.key);
    } else {
      RestoringSeen(View(Next(s1, CrashAndRedo), pid), b, Cell(0, step.key, step.value));
    }
  }

  /** Between the two states nothing was logged for the page but compensations and backups of what it
      held at first, and it was not written back. */
  ghost predicate OnlyCompensated(s: State, s': State, pid: PageId) {
    && pid < |s.disk| && pid < |s'.disk| && s'.disk[pid] == s.disk[pid] && s.log <= s'.log
    && forall i :: |s.log| <= i < |s'.log| && s'.log[i].page == pid ==> KeepsBody(s'.log[i], View(s, pid))
  }

  /** Redo of the record leaves a page with these contents as it is. */
  predicate KeepsBody(r: Record, b: Body) {
    !r.payload.Write? && (r.payload.FullPage? ==> r.payload.image.body == b)
  }

  lemma {:induction false} RedoIgnores(p: Page, pid: PageId, log: seq<Record>, n: nat, start: Lsn, b: Body)
    requires n <= |log| && forall i :: n <= i < |log| && log[i].page == pid ==> KeepsBody(log[i], b)
    ensures var body := RedoFrom(p, pid, log, start).body; body == RedoFrom(p, pid, log[..n], start).body || body == b
    decreases |log|
  {
    if n < |log| {
      assert log[..|log| - 1][..n] == log[..n];
      RedoIgnores(p, pid, log[..|log| - 1], n, start, b);
    } else {
      assert log[..n] == log;
    }
  }

  /** However many compensations of the page are waiting to be repeated, a crash gives back the contents
      it had before the first of them. */
  lemma {:induction false} CrashForgets(s: State, s': State, pid: PageId)
    requires Inv(s) && Inv(s') && OnlyCompensated(s, s', pid) && ClrSafe(s.log, pid, s.disk[pid].lsn)
    ensures SameBody(View(Next(s', CrashAndRedo), pid), View(s, pid))
  {
    assert PageOk(s', pid);
    CrashKeepsPage(s', pid);
    ReplayForgets(s, s', pid);
  }

  /** So a rollback survives a crash exactly when it made no difference to the page: for every run and
      every continuation that only compensates the page. */
  lemma {:induction false} RollbackLostExactly(before: seq<Step>, rollback: seq<Step>, pid: PageId)
    requires Runs(INIT, before) && Runs(Final(INIT, before), rollback)
    requires var s := Final(INIT, before);
      OnlyCompensated(s, Final(s, rollback), pid) && ClrSafe(s.log, pid, s.disk[pid].lsn)
    ensures var s := Final(INIT, before);
      var s' := Final(s, rollback);
      SameBody(View(Next(s', CrashAndRedo), pid), View(s', pid)) <==> SameBody(View(s, pid), View(s', pid))
  {
    var s := Final(INIT, before);
    var s' := Final(s, rollback);
    ReachableInv(before);
    RunKeepsInv(s, rollback);
    CrashForgets(s, s', pid);
  }

  /** The compensation of one step. */
  lemma {:induction false} StepForgets(s: State, step: Step)
    requires Inv(s) && step.Compensate? && Enabled(s, step)
    requires step.pid < |s.disk| && ClrSafe(s.log, step.pid, s.disk[step.pid].lsn)
    ensures SameBody(View(Next(Next(s, step), CrashAndRedo), step.pid), View(s, step.pid))
  {
    StepKeepsInv(s, step);
    CrashForgets(s, Next(s, step), step.pid);
  }

  /** The cell that is not erased again takes room. A later write to the page, with the contents `b`
      from before the compensations: after a crash the page has exactly the cells it should have, those
      of `b` with the new one, if and only if they fit. */
  lemma {:induction false} LaterWriteKeptExactly(s: State, s': State, step: Step)
    requires Inv(s) && Inv(s') && step.Upsert? && Enabled(s', step)
    requires OnlyCompensated(s, s', step.pid) && ClrSafe(s.log, step.pid, s.disk[step.pid].lsn)
    requires View(s, step.pid).Leaf?
    ensures var all := Rewrite(View(s, step.pid).cells, step.key, Some(CellFor(step.deleted, step.key, step.value)));
      var after := View(Next(Next(s', step), CrashAndRedo), step.pid);
      after.Leaf? && (CellSet(after.cells) == CellSet(all) <==> Fits(all))
  {
    var pid, c := step.pid, CellFor(step.deleted, step.key, step.value);
    var a, b := ReplayBody(s', pid), View(s, pid);
    StepKeepsInv(s', step);
    ReplayForgets(s, s', pid);
    WriteReplayed(s', step);
    assert PageOk(Next(s', step), pid);
    CrashKeepsPage(Next(s', step), pid);
    RewrittenFits(a.cells, b.cells, c);
  }

  lemma {:induction false} ReplayForgets(s: State, s': State, pid: PageId)
    requires Inv(s) && OnlyCompensated(s, s', pid) && ClrSafe(s.log, pid, s.disk[pid].lsn)
    ensures SameBody(ReplayBody(s', pid), View(s, pid)) && Sound(ReplayBody(s', pid)) && Sound(View(s, pid))
  {
    assert PageOk(s, pid);
    assert s'.log[..|s.log|] == s.log;
    RedoIgnores(s.disk[pid], pid, s'.log, |s.log|, 0, View(s, pid));
    RedoSound(s.disk[pid], pid, s.log, 0);
  }

  lemma {:induction false} WriteReplayed(s: State, step: Step)
    requires Inv(s) && step.Upsert? && Enabled(s, step) && step.pid < |s.disk|
    ensures ReplayBody(Next(s, step), step.pid) ==
      RedoUpsert(ReplayBody(s, step.pid), step.key, Some(CellFor(step.deleted, step.key, step.value)))
  {
    var s1 := Next(s, step);
    assert PageOk(s, step.pid);
    assert Appended(s, s1, s1.log[|s.log|]);
    AppendOwn(s, s1, s1.log[|s.log|], step.pid, 0);
  }

  lemma {:induction false} RewrittenFits(xs: seq<Cell>, ys: seq<Cell>, c: Cell)
    requires UniqueKeys(xs) && UniqueKeys(ys) && CellSet(xs) == CellSet(ys)
    ensures var all := Rewrite(ys, c.key, Some(c));
      CellSet(Fill(Rewrite(xs, c.key, Some(c)))) == CellSet(all) <==> Fits(all)
  {
    var all := Rewrite(xs, c.key, Some(c));
    SameRewrite(xs, ys, c.key, c);
    FillKeepsAllIffFits(all);
    if !Fits(all) {
      var d := FillDrops(all);
      assert d in CellSet(all) && d !in CellSet(Fill(all));
    }
  }

  /** A page with the cell and the page without it differ exactly when the cell was there. */
  lemma {:induction false} ErasureSeen(a: Body, b: Body, key: Bytes)
    requires SameBody(a, b) && b.Leaf? && Sound(b)
    ensures SameBody(a, RedoUpsert(b, key, None)) <==> !HasKey(b.cells, key)
  {
    ErasedBody(b, key);
    ErasedSet(b.cells, key);
    assert CellSet(a.cells) == CellSet(b.cells);
  }

  lemma {:induction false} ErasedBody(b: Body, key: Bytes)
    requires b.Leaf? && Sound(b)
    ensures RedoUpsert(b, key, None) == Leaf(Rewrite(b.cells, key, None)) && Sound(RedoUpsert(b, key, None))
  {
    RewriteUnique(b.cells, key, None);
    ErasingFits(b.cells, key);
    FillKeepsAllIffFits(Rewrite(b.cells, key, None));
  }

  lemma {:induction false} ErasedSet(cells: seq<Cell>, key: Bytes)
    ensures CellSet(Rewrite(cells, key, None)) == CellSet(cells) <==> !HasKey(cells, key)
  {
    RewriteSet(cells, key, None);
    if HasKey(cells, key) {
      var c :| c in cells && c.key == key;
      assert c in CellSet(cells) && c !in CellSet(Rewrite(cells, key, None));
    } else {
      assert forall c :: c in cells ==> c.key != key;
    }
  }

  /** Erasing a cell never makes a page overflow. */
  lemma {:induction false} ErasingFits(cells: seq<Cell>, key: Bytes)
    ensures Space(Swap(cells, key, None)) <= Space(cells)
  {
    if cells != [] {
      var front := Swap(cells[..|cells| - 1], key, None);
      ErasingFits(cells[..|cells| - 1], key);
      var more := front + [cells[|cells| - 1]];
      assert more[..|more| - 1] == front;
    }
  }

  /** A page and the page with the restored cell differ exactly when the cell was not there already
      and was not dropped for lack of room. */
  lemma {:induction false} RestoringSeen(a: Body, b: Body, c: Cell)
    requires SameBody(a, b) && b.Leaf? && Sound(b)
    ensures SameBody(a, RedoUpsert(b, c.key, Some(c))) <==>
      c in b.cells || (!HasKey(b.cells, c.key) && !Fits(b.cells + [c]))
  {
    RedoUpsertSound(b, c.key, Some(c));
    RestoredSet(b.cells, c);
    SameAsSets(a, b, RedoUpsert(b, c.key, Some(c)));
  }

  lemma {:induction false} SameAsSets(a: Body, b: Body, x: Body)
    requires SameBody(a, b) && b.Leaf? && Sound(b) && x.Leaf? && Sound(x)
    ensures SameBody(a, x) <==> CellSet(x.cells) == CellSet(b.cells)
  {
  }

  lemma {:induction false} RestoredSet(cells: seq<Cell>, c: Cell)
    requires UniqueKeys(cells) && Fits(cells)
    ensures CellSet(Fill(Rewrite(cells, c.key, Some(c)))) == CellSet(cells) <==>
      c in cells || (!HasKey(cells, c.key) && !Fits(cells + [c]))
  {
    if c in cells {
      SameCellRewritten(cells, c);
      FillKeepsAllIffFits(cells);
    } else if d :| d in cells && d.key == c.key {
      ReplacedIsGone(cells, c, d);
    } else {
      NewCellRewritten(cells, c);
      AppendedIfRoom(cells, c);
    }
  }

  lemma {:induction false} ReplacedIsGone(cells: seq<Cell>, c: Cell, d: Cell)
    requires d in cells && d.key == c.key && d != c
    ensures CellSet(Fill(Rewrite(cells, c.key, Some(c)))) != CellSet(cells)
  {
    var all := Rewrite(cells, c.key, Some(c));
    RewriteSet(cells, c.key, Some(c));
    FillSubset(all);
    assert d !in CellSet(all);
    assert d in CellSet(cells) && d !in CellSet(Fill(all));
  }

  lemma {:induction false} AppendedIfRoom(cells: seq<Cell>, c: Cell)
    requires Fits(cells) && c !in cells
    ensures CellSet(Fill(cells + [c])) == CellSet(cells) <==> !Fits(cells + [c])
  {
    FillKeepsAllIffFits(cells);
    FillKeepsAllIffFits(cells + [c]);
    assert (cells + [c])[..|cells|] == cells;
    assert c in CellSet(cells + [c]) && c !in CellSet(cells);
  }
}
