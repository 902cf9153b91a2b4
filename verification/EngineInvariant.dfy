/** What every step of the machine keeps, and the recovery theorems that follow for every run. */
module EngineInvariant {
  import opened Bytes
  import opened Cells
  import opened MvccKeys
  import opened Log
  import opened Redo
  import opened Engine

  /** Redo of the disk image from `start`, and plain replay of the whole log. */
  ghost function RedoBody(s: State, pid: PageId, start: Lsn): Body
    requires pid < |s.disk|
  {
    RedoFrom(s.disk[pid], pid, s.log, start).body
  }

  ghost function ReplayBody(s: State, pid: PageId): Body
    requires pid < |s.disk|
  {
    RedoBody(s, pid, 0)
  }

  /** `start` is 0 or the LSN of a record of this page. */
  ghost predicate StartOk(log: seq<Record>, pid: PageId, start: Lsn) {
    start == 0 || exists i :: 0 <= i < |log| && log[i].lsn == start && log[i].page == pid && OnPage(log[i])
  }

  /** No compensation of this page would have to be repeated: each one is either on disk
      or superseded by a later full-page record. */
  ghost predicate ClrSafe(log: seq<Record>, pid: PageId, diskLsn: Lsn) {
    forall i :: 0 <= i < |log| && log[i].payload.Clr? && log[i].page == pid && log[i].lsn > diskLsn ==>
      exists j :: i < j < |log| && log[j].payload.FullPage? && log[j].page == pid
  }

  /** The LSN of a page names a record of the log, or the page was never logged. */
  ghost predicate LsnKnown(log: seq<Record>, lsn: Lsn) {
    lsn == 0 || exists i :: 0 <= i < |log| && log[i].lsn == lsn
  }

  /** Record numbers at which analysis may start. */
  predicate IsStart(log: seq<Record>, from: nat) {
    from == 0 || (from < |log| && log[from].payload.Checkpoint?)
  }

  /** Redo with the dirty page table found from `from` agrees with plain replay. */
  ghost predicate FastOk(s: State, pid: PageId, from: nat)
    requires pid < |s.disk|
  {
    var dpt := Dpt(s.log, from);
    if pid in dpt then
      StartOk(s.log, pid, dpt[pid]) && RedoBody(s, pid, dpt[pid]) == ReplayBody(s, pid)
    else
      s.disk[pid].body == ReplayBody(s, pid)
  }

  ghost predicate FrameOk(s: State, pid: PageId, f: Frame)
    requires pid < |s.disk|
  {
    && Sound(f.page.body) && f.page.lsn < End(s.log) && LsnKnown(s.log, f.page.lsn)
    && (f.latch.Held? ==> f.pins > 0)
    && (f.dirty || f.latch.Held? ==>
          && Covers(f.page.lsn, pid, s.log)
          && StartOk(s.log, pid, f.recLsn)
          && RedoBody(s, pid, f.recLsn) == ReplayBody(s, pid))
    && (!f.dirty && !f.Touched() ==> f.page.body == s.disk[pid].body)
  }

  predicate Clean(s: State, pid: PageId) {
    pid in s.pool ==> !s.pool[pid].dirty && !s.pool[pid].Touched()
  }

  ghost predicate PageOk(s: State, pid: PageId)
    requires pid < |s.disk|
  {
    && Sound(s.disk[pid].body) && s.disk[pid].lsn < End(s.log) && LsnKnown(s.log, s.disk[pid].lsn)
    && (pid in s.pool ==> FrameOk(s, pid, s.pool[pid]))
    && (Clean(s, pid) ==> ReplayBody(s, pid) == s.disk[pid].body)
    && (ClrSafe(s.log, pid, s.disk[pid].lsn) ==> SameBody(ReplayBody(s, pid), View(s, pid)))
    && (forall from :: 0 <= from <= |s.log| && IsStart(s.log, from) ==> FastOk(s, pid, from))
  }

  /** A write is logged under the transaction of its key, and a tombstone has no value. */
  ghost predicate WritesOk(log: seq<Record>) {
    forall i :: 0 <= i < |log| && log[i].payload.Write? ==> WriteOk(log[i])
  }

  predicate WriteOk(r: Record) {
    r.payload.Write? ==> r.txn == Owner(r.payload.key) && (r.payload.deleted ==> r.payload.value == [])
  }

  ghost predicate LastOk(s: State) {
    forall t :: t in s.last ==>
      exists j :: 0 <= j < |s.log| && s.log[j].lsn == s.last[t] && s.log[j].txn == t
  }

  /** The record is a checkpoint whose table lists the page. */
  predicate NamesPage(r: Record, pid: PageId) {
    r.payload.Checkpoint? && pid in r.payload.dirtyPages
  }

  ghost predicate LogOk(s: State) {
    && WellFormed(s.log) && SoundImages(s.log) && ChainsOk(s.log) && WritesOk(s.log) && LastOk(s)
    && (forall i :: 0 <= i < |s.log| && OnPage(s.log[i]) ==> s.log[i].page < |s.disk|)
    && (forall i, pid: PageId :: 0 <= i < |s.log| && NamesPage(s.log[i], pid) ==> pid < |s.disk|)
    && (s.chk == 0 || exists i :: 0 <= i < |s.log| && s.log[i].payload.Checkpoint? && s.log[i].lsn == s.chk)
  }

  ghost predicate Inv(s: State) {
    && LogOk(s)
    && (forall pid :: pid in s.pool ==> pid < |s.disk|)
    && (forall pid :: 0 <= pid < |s.disk| ==> PageOk(s, pid))
  }

  // ---- Appending a record ----

  /** `s'` is `s` with one more record; pool and tables may differ. */
  ghost predicate Appended(s: State, s': State, r: Record) {
    s'.log == s.log + [r] && s'.disk == s.disk && r.lsn == End(s.log)
  }

  lemma {:induction false} AppendedFacts(s: State, s': State, r: Record)
    requires WellFormed(s.log) && Appended(s, s', r)
    ensures WellFormed(s'.log)
    ensures s'.log[|s.log|] == r && forall i :: 0 <= i < |s.log| ==> s'.log[i] == s.log[i]
    ensures forall i :: 0 <= i < |s.log| ==> 0 < s.log[i].lsn < r.lsn
    ensures r.lsn < End(s'.log)
  {
    LsnsBelowEnd(s.log);
    AppendWellFormed(s.log, r);
    LsnsBelowEnd(s'.log);
  }

  lemma {:induction false} LsnKnownGrows(s: State, s': State, r: Record, lsn: Lsn)
    requires Appended(s, s', r) && (LsnKnown(s.log, lsn) || lsn == r.lsn)
    ensures LsnKnown(s'.log, lsn)
  {
    if LsnKnown(s.log, lsn) && lsn != 0 {
      var i :| 0 <= i < |s.log| && s.log[i].lsn == lsn;
      assert s'.log[i].lsn == lsn;
    } else {
      assert s'.log[|s.log|] == r;
    }
  }

  lemma {:induction false} StartOkGrows(s: State, s': State, r: Record, pid: PageId, start: Lsn)
    requires WellFormed(s.log) && Appended(s, s', r) && StartOk(s.log, pid, start)
    ensures StartOk(s'.log, pid, start) && start <= r.lsn
  {
    AppendedFacts(s, s', r);
  }

  lemma {:induction false} ForeignRedo(s: State, s': State, r: Record, pid: PageId, start: Lsn)
    requires pid < |s.disk| && Appended(s, s', r) && (r.page != pid || !OnPage(r))
    ensures RedoBody(s', pid, start) == RedoBody(s, pid, start)
  {
    RedoSnoc(s.disk[pid], pid, s.log, r, start);
  }

  lemma {:induction false} ForeignFast(s: State, s': State, r: Record, pid: PageId, from: nat)
    requires WellFormed(s.log) && pid < |s.disk| && PageOk(s, pid)
    requires Appended(s, s', r) && (r.page != pid || !OnPage(r)) && !r.payload.Checkpoint?
    requires from <= |s'.log| && IsStart(s'.log, from)
    ensures FastOk(s', pid, from)
  {
    AppendedFacts(s, s', r);
    assert from <= |s.log| && IsStart(s.log, from);
    assert FastOk(s, pid, from);
    DptSnoc(s.log, r, from);
    var dpt := Dpt(s.log, from);
    ForeignRedo(s, s', r, pid, 0);
    if pid in dpt {
      ForeignRedo(s, s', r, pid, dpt[pid]);
      StartOkGrows(s, s', r, pid, dpt[pid]);
    }
  }

  lemma {:induction false} ForeignClrSafe(s: State, s': State, r: Record, pid: PageId)
    requires WellFormed(s.log) && Appended(s, s', r) && (r.page != pid || !OnPage(r))
    ensures forall d :: ClrSafe(s'.log, pid, d) ==> ClrSafe(s.log, pid, d)
    ensures forall d :: Covers(d, pid, s.log) ==> Covers(d, pid, s'.log)
  {
    AppendedFacts(s, s', r);
    forall d, i | ClrSafe(s'.log, pid, d) &&
      0 <= i < |s.log| && s.log[i].payload.Clr? && s.log[i].page == pid && s.log[i].lsn > d
      ensures exists j :: i < j < |s.log| && s.log[j].payload.FullPage? && s.log[j].page == pid
    {
      assert s'.log[i] == s.log[i];
      var j :| i < j < |s'.log| && s'.log[j].payload.FullPage? && s'.log[j].page == pid;
      assert j < |s.log| && s.log[j] == s'.log[j];
    }
  }

  /** A record that is not about `pid` leaves everything about `pid` as it was. */
  lemma {:induction false} AppendForeign(s: State, s': State, r: Record, pid: PageId)
    requires WellFormed(s.log) && pid < |s.disk| && PageOk(s, pid)
    requires Appended(s, s', r) && (r.page != pid || !OnPage(r))
    requires (pid in s'.pool) == (pid in s.pool) && (pid in s.pool ==> s'.pool[pid] == s.pool[pid])
    requires r.payload.Checkpoint? ==>
      forall from :: 0 <= from <= |s'.log| && IsStart(s'.log, from) ==> FastOk(s', pid, from)
    ensures PageOk(s', pid)
  {
    AppendedFacts(s, s', r);
    ForeignRedo(s, s', r, pid, 0);
    ForeignClrSafe(s, s', r, pid);
    LsnKnownGrows(s, s', r, s.disk[pid].lsn);
    if pid in s.pool { LsnKnownGrows(s, s', r, s.pool[pid].page.lsn); }
    if pid in s.pool && (s.pool[pid].dirty || s.pool[pid].latch.Held?) {
      ForeignRedo(s, s', r, pid, s.pool[pid].recLsn);
      StartOkGrows(s, s', r, pid, s.pool[pid].recLsn);
    }
    if !r.payload.Checkpoint? {
      forall from | 0 <= from <= |s'.log| && IsStart(s'.log, from) ensures FastOk(s', pid, from) {
        ForeignFast(s, s', r, pid, from);
      }
    }
  }

  /** A record about `pid`: redo from any start in range applies it last. */
  lemma {:induction false} AppendOwn(s: State, s': State, r: Record, pid: PageId, start: Lsn)
    requires WellFormed(s.log) && pid < |s.disk| && s.disk[pid].lsn < End(s.log)
    requires Appended(s, s', r) && r.page == pid && start <= r.lsn
    ensures RedoFrom(s'.disk[pid], pid, s'.log, start) == Apply(RedoFrom(s.disk[pid], pid, s.log, start), r)
    ensures r.lsn > 0
  {
    AppendedFacts(s, s', r);
    LsnsBelowEnd(s.log);
    RedoLsnBound(s.disk[pid], pid, s.log, start, End(s.log));
    RedoSnoc(s.disk[pid], pid, s.log, r, start);
  }

  /** Body that redo gives the page for its own record. */
  ghost function Redone(b: Body, r: Record): Body {
    Apply(Page(0, b), r).body
  }

  /** Fast redo and plain replay keep agreeing when a record about `pid` is appended. */
  lemma {:induction false} OwnFast(s: State, s': State, r: Record, pid: PageId, from: nat)
    requires WellFormed(s.log) && pid < |s.disk| && PageOk(s, pid)
    requires Appended(s, s', r) && r.page == pid && OnPage(r)
    requires from <= |s'.log| && IsStart(s'.log, from)
    ensures FastOk(s', pid, from)
  {
    AppendedFacts(s, s', r);
    assert from <= |s.log| && IsStart(s.log, from);
    assert FastOk(s, pid, from);
    DptSnoc(s.log, r, from);
    var dpt := Dpt(s.log, from);
    if pid in dpt {
      OwnInTable(s, s', r, pid, dpt[pid]);
    } else {
      OwnFirst(s, s', r, pid);
    }
  }

  lemma {:induction false} OwnInTable(s: State, s': State, r: Record, pid: PageId, start: Lsn)
    requires WellFormed(s.log) && pid < |s.disk| && s.disk[pid].lsn < End(s.log)
    requires Appended(s, s', r) && r.page == pid && StartOk(s.log, pid, start)
    requires RedoBody(s, pid, start) == ReplayBody(s, pid)
    ensures StartOk(s'.log, pid, start) && RedoBody(s', pid, start) == ReplayBody(s', pid)
  {
    StartOkGrows(s, s', r, pid, start);
    AppendOwn(s, s', r, pid, 0);
    AppendOwn(s, s', r, pid, start);
  }

  /** The record is the first of its page in range. */
  lemma {:induction false} OwnFirst(s: State, s': State, r: Record, pid: PageId)
    requires WellFormed(s.log) && pid < |s.disk| && s.disk[pid].lsn < End(s.log)
    requires Appended(s, s', r) && r.page == pid && OnPage(r) && s.disk[pid].body == ReplayBody(s, pid)
    ensures StartOk(s'.log, pid, r.lsn) && RedoBody(s', pid, r.lsn) == ReplayBody(s', pid)
  {
    AppendedFacts(s, s', r);
    AppendOwn(s, s', r, pid, 0);
    AppendOwn(s, s', r, pid, r.lsn);
    RedoNothing(s.disk[pid], pid, s.log, r.lsn);
    assert s'.log[|s.log|] == r;
  }

  lemma {:induction false} ClrUnsafe(s: State, s': State, r: Record, pid: PageId)
    requires WellFormed(s.log) && pid < |s.disk| && s.disk[pid].lsn < End(s.log)
    requires Appended(s, s', r) && r.page == pid && r.payload.Clr?
    ensures !ClrSafe(s'.log, pid, s.disk[pid].lsn)
  {
    AppendedFacts(s, s', r);
    var i := |s.log|;
    assert s'.log[i].payload.Clr? && s'.log[i].page == pid && s'.log[i].lsn > s.disk[pid].lsn;
  }

  /** A latched page changes together with its record. */
  lemma {:induction false} ChangeKeepsPage(s: State, s': State, r: Record, pid: PageId, body: Body)
    requires WellFormed(s.log) && pid < |s.disk| && PageOk(s, pid)
    requires pid in s.pool && s.pool[pid].latch.Held?
    requires Appended(s, s', r) && r.page == pid && OnPage(r)
    requires pid in s'.pool && s'.pool[pid] == s.pool[pid].(page := Page(r.lsn, body), latch := Held(true))
    requires Sound(body)
    requires !r.payload.Clr? && ClrSafe(s'.log, pid, s.disk[pid].lsn) ==>
             SameBody(Redone(ReplayBody(s, pid), r), body)
    ensures PageOk(s', pid)
  {
    AppendedFacts(s, s', r);
    var f := s.pool[pid];
    AppendOwn(s, s', r, pid, 0);
    StartOkGrows(s, s', r, pid, f.recLsn);
    AppendOwn(s, s', r, pid, f.recLsn);
    LsnKnownGrows(s, s', r, s.disk[pid].lsn);
    LsnKnownGrows(s, s', r, r.lsn);
    if r.payload.Clr? {
      ClrUnsafe(s, s', r, pid);
    }
    forall from | 0 <= from <= |s'.log| && IsStart(s'.log, from) ensures FastOk(s', pid, from) {
      OwnFast(s, s', r, pid, from);
    }
  }

  lemma {:induction false} LogOkAppend(s: State, s': State, r: Record)
    requires LogOk(s) && Appended(s, s', r) && s'.chk == s.chk
    requires (OnPage(r) ==> r.page < |s.disk|) && WriteOk(r)
    requires r.payload.FullPage? ==> Sound(r.payload.image.body)
    requires r.payload.Checkpoint? ==> forall pid :: pid in r.payload.dirtyPages ==> pid < |s.disk|
    requires r.prev == 0 || exists j :: 0 <= j < |s.log| && s.log[j].lsn == r.prev && s.log[j].txn == r.txn
    requires s'.last == s.last || s'.last == s.last[r.txn := r.lsn]
    ensures LogOk(s')
  {
    AppendedFacts(s, s', r);
    forall i | 0 <= i < |s'.log| && s'.log[i].prev != 0
      ensures exists j :: 0 <= j < i && s'.log[j].lsn == s'.log[i].prev && s'.log[j].txn == s'.log[i].txn
    {
      if i < |s.log| {
        assert s.log[i] == s'.log[i];
        var j :| 0 <= j < i && s.log[j].lsn == s.log[i].prev && s.log[j].txn == s.log[i].txn;
        assert s'.log[j] == s.log[j];
      } else {
        var j :| 0 <= j < |s.log| && s.log[j].lsn == r.prev && s.log[j].txn == r.txn;
        assert s'.log[j] == s.log[j];
      }
    }
    forall t | t in s'.last
      ensures exists j :: 0 <= j < |s'.log| && s'.log[j].lsn == s'.last[t] && s'.log[j].txn == t
    {
      if t in s.last && s'.last[t] == s.last[t] {
        var j :| 0 <= j < |s.log| && s.log[j].lsn == s.last[t] && s.log[j].txn == t;
        assert s'.log[j] == s.log[j];
      } else {
        assert s'.log[|s.log|] == r;
      }
    }
    assert s.chk == 0 || exists i :: 0 <= i < |s'.log| && s'.log[i].payload.Checkpoint? && s'.log[i].lsn == s.chk;
  }

  lemma {:induction false} LastLsnOk(s: State, txn: nat)
    requires LogOk(s)
    ensures LastLsn(s, txn) == 0 ||
      exists j :: 0 <= j < |s.log| && s.log[j].lsn == LastLsn(s, txn) && s.log[j].txn == txn
  {
  }

  // ---- Steps that leave log and disk alone ----

  lemma {:induction false} PoolOnly(s: State, s': State, pid: PageId)
    requires pid < |s.disk| && PageOk(s, pid) && s'.log == s.log && s'.disk == s.disk
    requires pid in s'.pool ==> FrameOk(s', pid, s'.pool[pid])
    requires View(s', pid) == View(s, pid)
    requires Clean(s', pid) ==> Clean(s, pid)
    ensures PageOk(s', pid)
  {
    assert ReplayBody(s', pid) == ReplayBody(s, pid);
    forall from | 0 <= from <= |s'.log| && IsStart(s'.log, from) ensures FastOk(s', pid, from) {
      assert FastOk(s, pid, from);
    }
  }

  lemma {:induction false} FetchKeepsInv(s: State, pid: PageId)
    requires Inv(s) && pid < |s.disk|
    ensures Inv(DoFetch(s, pid))
  {
    var s' := DoFetch(s, pid);
    forall q | 0 <= q < |s'.disk| ensures PageOk(s', q) {
      assert PageOk(s, q);
      PoolOnly(s, s', q);
    }
    assert LogOk(s');
  }

  lemma {:induction false} FrameStepKeepsInv(s: State, step: Step)
    requires Inv(s) && Enabled(s, step) && (step.Release? || step.Unpin?)
    ensures Inv(Next(s, step))
  {
    var s' := Next(s, step);
    forall q | 0 <= q < |s'.disk| ensures PageOk(s', q) {
      assert PageOk(s, q);
      PoolOnly(s, s', q);
    }
    assert LogOk(s');
  }

  // ---- Fetch for write ----

  /** A clean frame agrees with the disk page, so its backup record is redone to the same body. */
  lemma {:induction false} BackupKeepsPage(s: State, s': State, r: Record, pid: PageId)
    requires WellFormed(s.log) && pid < |s.disk| && PageOk(s, pid)
    requires pid in s.pool && s.pool[pid].latch.Unlatched? && s.pool[pid].pins > 0 && !s.pool[pid].dirty
    requires s' == DoLatch(s, pid) && r == Record(End(s.log), 0, pid, 0, FullPage(s.pool[pid].page))
    ensures PageOk(s', pid)
  {
    AppendedFacts(s, s', r);
    AppendOwn(s, s', r, pid, 0);
    AppendOwn(s, s', r, pid, r.lsn);
    LsnKnownGrows(s, s', r, s.disk[pid].lsn);
    LsnKnownGrows(s, s', r, r.lsn);
    forall from | 0 <= from <= |s'.log| && IsStart(s'.log, from) ensures FastOk(s', pid, from) {
      OwnFast(s, s', r, pid, from);
    }
  }

  lemma {:induction false} LatchKeepsPage(s: State, pid: PageId)
    requires WellFormed(s.log) && pid < |s.disk| && PageOk(s, pid)
    requires pid in s.pool && s.pool[pid].latch.Unlatched? && s.pool[pid].pins > 0
    ensures PageOk(DoLatch(s, pid), pid)
  {
    if s.pool[pid].dirty {
      PoolOnly(s, DoLatch(s, pid), pid);
    } else {
      BackupKeepsPage(s, DoLatch(s, pid), Record(End(s.log), 0, pid, 0, FullPage(s.pool[pid].page)), pid);
    }
  }

  lemma {:induction false} LatchKeepsInv(s: State, pid: PageId)
    requires Inv(s) && pid in s.pool && s.pool[pid].latch.Unlatched? && s.pool[pid].pins > 0
    ensures Inv(DoLatch(s, pid))
  {
    var s', f := DoLatch(s, pid), s.pool[pid];
    assert PageOk(s, pid);
    var r := Record(End(s.log), 0, pid, 0, FullPage(f.page));
    if !f.dirty { LogOkAppend(s, s', r); } else { assert LogOk(s'); }
    forall q | 0 <= q < |s'.disk| ensures PageOk(s', q) {
      assert PageOk(s, q);
      if q == pid {
        LatchKeepsPage(s, pid);
      } else if f.dirty {
        PoolOnly(s, s', q);
      } else {
        AppendForeign(s, s', r, q);
      }
    }
  }

  // ---- Changes under the latch ----

  lemma {:induction false} ChangeKeepsInv(s: State, s': State, pid: PageId, r: Record, body: Body)
    requires Inv(s) && pid in s.pool && s.pool[pid].latch.Held? && Sound(body)
    requires Appended(s, s', r) && r.page == pid && OnPage(r) && s'.chk == s.chk
    requires (r.payload.FullPage? ==> r.payload.image.body == body) && WriteOk(r)
    requires s'.pool == s.pool[pid := s.pool[pid].(page := Page(r.lsn, body), latch := Held(true))]
    requires s'.last == s.last || s'.last == s.last[r.txn := r.lsn]
    requires r.prev == 0 || exists j :: 0 <= j < |s.log| && s.log[j].lsn == r.prev && s.log[j].txn == r.txn
    requires r.payload.Write? && SameBody(ReplayBody(s, pid), View(s, pid)) ==>
             SameBody(Redone(ReplayBody(s, pid), r), body)
    ensures Inv(s')
  {
    LogOkAppend(s, s', r);
    forall q | 0 <= q < |s'.disk| ensures PageOk(s', q) {
      assert PageOk(s, q);
      if q == pid {
        if r.payload.Write? && ClrSafe(s'.log, pid, s.disk[pid].lsn) {
          WriteClrSafe(s, s', r, pid, s.disk[pid].lsn);
        }
        ChangeKeepsPage(s, s', r, pid, body);
      } else {
        AppendForeign(s, s', r, q);
      }
    }
  }

  lemma {:induction false} WriteClrSafe(s: State, s': State, r: Record, pid: PageId, d: Lsn)
    requires WellFormed(s.log) && Appended(s, s', r) && r.payload.Write? && ClrSafe(s'.log, pid, d)
    ensures ClrSafe(s.log, pid, d)
  {
    AppendedFacts(s, s', r);
    forall i | 0 <= i < |s.log| && s.log[i].payload.Clr? && s.log[i].page == pid && s.log[i].lsn > d
      ensures exists j :: i < j < |s.log| && s.log[j].payload.FullPage? && s.log[j].page == pid
    {
      assert s'.log[i] == s.log[i];
      var j :| i < j < |s'.log| && s'.log[j].payload.FullPage? && s'.log[j].page == pid;
      assert j < |s.log| && s.log[j] == s'.log[j];
    }
  }

  lemma {:induction false} UpsertKeepsInv(s: State, step: Step)
    requires Inv(s) && Enabled(s, step) && step.Upsert?
    ensures Inv(Next(s, step))
  {
    var Upsert(pid, deleted, key, value) := step;
    var s', b := Next(s, step), s.pool[pid].page.body;
    var txn, c := Owner(key), CellFor(deleted, key, value);
    var r := Record(End(s.log), txn, pid, LastLsn(s, txn), Write(deleted, key, value));
    assert PageOk(s, pid);
    RedoSound(s.disk[pid], pid, s.log, 0);
    SameAfterWrite(b, b, key, c);
    if SameBody(ReplayBody(s, pid), View(s, pid)) {
      SameAfterWrite(ReplayBody(s, pid), b, key, c);
    }
    LastLsnOk(s, txn);
    ChangeKeepsInv(s, s', pid, r, Upserted(b, deleted, key, value));
  }

  lemma {:induction false} WriteImageKeepsInv(s: State, step: Step)
    requires Inv(s) && Enabled(s, step) && step.WriteImage?
    ensures Inv(Next(s, step))
  {
    var WriteImage(pid, body) := step;
    var r := Record(End(s.log), 0, pid, 0, FullPage(Page(s.pool[pid].page.lsn, body)));
    ChangeKeepsInv(s, Next(s, step), pid, r, body);
  }

  lemma {:induction false} CompensateKeepsInv(s: State, step: Step)
    requires Inv(s) && Enabled(s, step) && step.Compensate?
    ensures Inv(Next(s, step))
  {
    var Compensate(pid, txn, erase, key, value, prev) := step;
    var b := s.pool[pid].page.body;
    var r := Record(End(s.log), txn, pid, prev, Clr(key, value));
    assert PageOk(s, pid);
    RedoUpsertSound(b, key, UndoCell(erase, key, value));
    ChangeKeepsInv(s, Next(s, step), pid, r, RedoUpsert(b, key, UndoCell(erase, key, value)));
  }

  // ---- Writing a page back ----

  /** A page written with an LSN that covers its records is a fixed point of redo. */
  lemma {:induction false} WriteBackKeepsPage(s: State, s': State, pid: PageId)
    requires WellFormed(s.log) && pid < |s.disk| && PageOk(s, pid)
    requires pid in s.pool && s.pool[pid].dirty
    requires s'.log == s.log && s'.disk == s.disk[pid := s.pool[pid].page]
    requires pid in s'.pool ==> s'.pool[pid] == s.pool[pid].(dirty := false, recLsn := 0)
    ensures PageOk(s', pid)
  {
    LsnsBelowEnd(s.log);
    forall start ensures RedoBody(s', pid, start) == s.pool[pid].page.body {
      RedoCovered(s'.disk[pid], pid, s'.log, start);
    }
    forall from | 0 <= from <= |s'.log| && IsStart(s'.log, from) ensures FastOk(s', pid, from) {
      assert FastOk(s, pid, from);
    }
  }

  lemma {:induction false} WriteBackKeepsInv(s: State, step: Step)
    requires Inv(s) && Enabled(s, step) && (step.Evict? || step.Flush?)
    ensures Inv(Next(s, step))
  {
    var s', pid := Next(s, step), step.pid;
    assert PageOk(s, pid);
    forall q | 0 <= q < |s'.disk| ensures PageOk(s', q) {
      assert PageOk(s, q);
      if q == pid && s.pool[pid].dirty {
        WriteBackKeepsPage(s, s', pid);
      } else {
        OtherDisk(s, s', q);
      }
    }
    assert LogOk(s');
  }

  /** Only other pages of the disk changed; this page may have lost a clean frame. */
  lemma {:induction false} OtherDisk(s: State, s': State, pid: PageId)
    requires pid < |s.disk| && PageOk(s, pid) && s'.log == s.log
    requires pid < |s'.disk| && s'.disk[pid] == s.disk[pid]
    requires pid in s'.pool ==> pid in s.pool && s'.pool[pid] == s.pool[pid]
    requires pid in s.pool && pid !in s'.pool ==> Clean(s, pid)
    ensures PageOk(s', pid)
  {
    assert ReplayBody(s', pid) == ReplayBody(s, pid);
    if pid in s'.pool {
      assert RedoBody(s', pid, s.pool[pid].recLsn) == RedoBody(s, pid, s.pool[pid].recLsn);
    }
    forall from | 0 <= from <= |s'.log| && IsStart(s'.log, from) ensures FastOk(s', pid, from) {
      assert FastOk(s, pid, from);
    }
  }

  // ---- Allocation ----

  lemma {:induction false} DptKeys(log: seq<Record>, from: nat, bound: nat)
    requires forall i :: 0 <= i < |log| && OnPage(log[i]) ==> log[i].page < bound
    requires forall i, pid: PageId :: 0 <= i < |log| && NamesPage(log[i], pid) ==> pid < bound
    ensures forall pid :: pid in Dpt(log, from) ==> pid < bound
    decreases |log|
  {
    if |log| > from {
      var front := log[..|log| - 1];
      assert forall i :: 0 <= i < |front| ==> front[i] == log[i];
      DptKeys(front, from, bound);
      var r := log[|log| - 1];
      assert r.payload.Checkpoint? ==> forall pid :: pid in r.payload.dirtyPages ==> NamesPage(r, pid);
    }
  }

  lemma {:induction false} AllocateKeepsInv(s: State, step: Step)
    requires Inv(s) && Enabled(s, step) && step.Allocate?
    ensures Inv(Next(s, step))
  {
    var s' := Next(s, step);
    LsnsBelowEnd(s.log);
    forall q | 0 <= q < |s'.disk| ensures PageOk(s', q) {
      if q < |s.disk| {
        assert PageOk(s, q);
        OtherDisk(s, s', q);
      } else {
        forall start ensures RedoBody(s', q, start) == s'.disk[q].body {
          RedoCovered(s'.disk[q], q, s'.log, start);
        }
        forall from | 0 <= from <= |s'.log| && IsStart(s'.log, from) ensures FastOk(s', q, from) {
          DptKeys(s.log, from, |s.disk|);
        }
      }
    }
    assert LogOk(s');
  }

  // ---- Records about no page ----

  lemma {:induction false} EndOfTxnKeepsInv(s: State, step: Step)
    requires Inv(s) && Enabled(s, step) && (step.CommitTxn? || step.AbortTxn?)
    ensures Inv(Next(s, step))
  {
    var s' := Next(s, step);
    LastLsnOk(s, step.txn);
    var r := s'.log[|s.log|];
    LogOkAppend(s, s', r);
    forall q | 0 <= q < |s'.disk| ensures PageOk(s', q) {
      assert PageOk(s, q);
      AppendForeign(s, s', r, q);
    }
  }

  lemma {:induction false} CheckpointFast(s: State, s': State, r: Record, pid: PageId, from: nat)
    requires WellFormed(s.log) && pid < |s.disk| && PageOk(s, pid)
    requires Appended(s, s', r) && r.payload == Checkpoint(DirtyTable(s.pool)) && !OnPage(r)
    requires pid in s.pool && s.pool[pid].Touched() ==> s.pool[pid].dirty
    requires from <= |s'.log| && IsStart(s'.log, from)
    ensures FastOk(s', pid, from)
  {
    AppendedFacts(s, s', r);
    DptSnoc(s.log, r, from);
    var dirty := DirtyTable(s.pool);
    ForeignRedo(s, s', r, pid, 0);
    if pid in dirty {
      ForeignRedo(s, s', r, pid, dirty[pid]);
      StartOkGrows(s, s', r, pid, dirty[pid]);
    } else {
      assert Clean(s, pid);
      if from < |s.log| || from == 0 {
        assert IsStart(s.log, from) && FastOk(s, pid, from);
        var dpt := Dpt(s.log, from);
        if pid in dpt {
          ForeignRedo(s, s', r, pid, dpt[pid]);
          StartOkGrows(s, s', r, pid, dpt[pid]);
        }
      }
    }
  }

  lemma {:induction false} CheckpointKeepsInv(s: State)
    requires Inv(s) && Enabled(s, TakeCheckpoint)
    ensures Inv(Next(s, TakeCheckpoint))
  {
    var s' := Next(s, TakeCheckpoint);
    var r := s'.log[|s.log|];
    LogOkAppend(s, s', r);
    forall q | 0 <= q < |s'.disk| ensures PageOk(s', q) {
      assert PageOk(s, q);
      forall from | 0 <= from <= |s'.log| && IsStart(s'.log, from) ensures FastOk(s', q, from) {
        CheckpointFast(s, s', r, q, from);
      }
      AppendForeign(s, s', r, q);
    }
  }

  lemma {:induction false} PublishKeepsInv(s: State, step: Step)
    requires Inv(s) && Enabled(s, step) && step.PublishCheckpoint?
    ensures Inv(Next(s, step))
  {
    var s' := Next(s, step);
    forall q | 0 <= q < |s'.disk| ensures PageOk(s', q) {
      assert PageOk(s, q);
      OtherDisk(s, s', q);
    }
    assert LogOk(s');
  }

  // ---- Crash and redo ----

  lemma {:induction false} StartIndexIsStart(log: seq<Record>, chk: Lsn)
    requires WellFormed(log)
    requires chk == 0 || exists i :: 0 <= i < |log| && log[i].payload.Checkpoint? && log[i].lsn == chk
    ensures IsStart(log, StartIndex(log, chk))
    ensures chk != 0 ==> StartIndex(log, chk) < |log| && log[StartIndex(log, chk)].lsn == chk
    ensures chk == 0 ==> StartIndex(log, chk) == 0
  {
    LsnsBelowEnd(log);
    if log != [] {
      var front := log[..|log| - 1];
      WellFormedPrefix(log, |log| - 1);
      assert forall k :: 0 <= k < |front| ==> front[k] == log[k];
      if log[|log| - 1].lsn == chk {
        var i :| 0 <= i < |log| && log[i].payload.Checkpoint? && log[i].lsn == chk;
        if i < |log| - 1 { LsnOrder(log, i, |log| - 1); }
      } else {
        if chk != 0 {
          var i :| 0 <= i < |log| && log[i].payload.Checkpoint? && log[i].lsn == chk;
          assert front[i] == log[i];
        }
        StartIndexIsStart(front, chk);
      }
    }
  }

  /** After redo from a proper start the page's LSN covers all its records. */
  lemma {:induction false} RedoneCovers(p: Page, pid: PageId, log: seq<Record>, start: Lsn)
    requires WellFormed(log) && StartOk(log, pid, start)
    ensures Covers(RedoFrom(p, pid, log, start).lsn, pid, log)
  {
    LsnsBelowEnd(log);
    RedoReaches(p, pid, log, start);
  }

  /** After redo the page is clean and equal to the disk, or dirty with an LSN that covers
      all its records. */
  lemma {:induction false} RedoneFrameOk(s: State, s': State, pid: PageId, start: Lsn)
    requires WellFormed(s.log) && SoundImages(s.log) && pid < |s.disk| && PageOk(s, pid)
    requires s'.log == s.log && s'.disk == s.disk && StartOk(s.log, pid, start)
    ensures var p := RedoFrom(s.disk[pid], pid, s.log, start);
      FrameOk(s', pid, Frame(p, p.lsn != s.disk[pid].lsn, 0, 0, Unlatched))
  {
    LsnsBelowEnd(s.log);
    RedoSound(s.disk[pid], pid, s.log, start);
    RedoLsnBound(s.disk[pid], pid, s.log, start, End(s.log));
    RedoLsnKnown(s.disk[pid], pid, s.log, start, s.log);
    RedoneCovers(s.disk[pid], pid, s.log, start);
    if RedoFrom(s.disk[pid], pid, s.log, start).lsn == s.disk[pid].lsn {
      RedoUnchanged(s.disk[pid], pid, s.log, start);
    }
  }

  lemma {:induction false} RedoLsnKnown(p: Page, pid: PageId, log: seq<Record>, start: Lsn, all: seq<Record>)
    requires LsnKnown(all, p.lsn) && forall i :: 0 <= i < |log| ==> log[i] in all
    ensures LsnKnown(all, RedoFrom(p, pid, log, start).lsn)
  {
    if log != [] {
      RedoLsnKnown(p, pid, log[..|log| - 1], start, all);
      assert log[|log| - 1] in all;
    }
  }

  /** If redo leaves the LSN alone it leaves the page alone. */
  lemma {:induction false} RedoUnchanged(p: Page, pid: PageId, log: seq<Record>, start: Lsn)
    requires forall i :: 0 <= i < |log| ==> 0 < log[i].lsn
    requires RedoFrom(p, pid, log, start).lsn == p.lsn
    ensures RedoFrom(p, pid, log, start) == p
  {
    if log != [] {
      RedoReaches(p, pid, log[..|log| - 1], start);
      RedoUnchanged(p, pid, log[..|log| - 1], start);
    }
  }

  lemma {:induction false} CrashKeepsPage(s: State, pid: PageId)
    requires LogOk(s) && pid < |s.disk| && PageOk(s, pid)
    ensures var s' := Next(s, CrashAndRedo);
      PageOk(s', pid) && View(s', pid) == ReplayBody(s, pid)
  {
    var s' := Next(s, CrashAndRedo);
    var from := StartIndex(s.log, s.chk);
    StartIndexIsStart(s.log, s.chk);
    assert FastOk(s, pid, from);
    if pid in Dpt(s.log, from) { RedoneFrameOk(s, s', pid, Dpt(s.log, from)[pid]); }
    assert ReplayBody(s', pid) == ReplayBody(s, pid);
    forall k | 0 <= k <= |s'.log| && IsStart(s'.log, k) ensures FastOk(s', pid, k) {
      assert FastOk(s, pid, k);
    }
  }

  lemma {:induction false} CrashKeepsInv(s: State)
    requires Inv(s)
    ensures Inv(Next(s, CrashAndRedo))
  {
    var s' := Next(s, CrashAndRedo);
    forall q | 0 <= q < |s'.disk| ensures PageOk(s', q) {
      assert PageOk(s, q);
      CrashKeepsPage(s, q);
    }
    assert LogOk(s');
  }

  // ---- Runs ----

  /** Every step keeps the invariant. */
  lemma {:induction false} StepKeepsInv(s: State, step: Step)
    requires Inv(s) && Enabled(s, step)
    ensures Inv(Next(s, step))
  {
    match step
    case Allocate(_) => AllocateKeepsInv(s, step);
    case Fetch(pid) => FetchKeepsInv(s, pid);
    case Release(_) => FrameStepKeepsInv(s, step);
    case FetchForWrite(pid) => FetchKeepsInv(s, pid); LatchKeepsInv(DoFetch(s, pid), pid);
    case Upsert(_, _, _, _) => UpsertKeepsInv(s, step);
    case WriteImage(_, _) => WriteImageKeepsInv(s, step);
    case Compensate(_, _, _, _, _, _) => CompensateKeepsInv(s, step);
    case Unpin(_, _) => FrameStepKeepsInv(s, step);
    case Evict(_) => WriteBackKeepsInv(s, step);
    case Flush(_) => WriteBackKeepsInv(s, step);
    case CommitTxn(_) => EndOfTxnKeepsInv(s, step);
    case AbortTxn(_) => EndOfTxnKeepsInv(s, step);
    case TakeCheckpoint => CheckpointKeepsInv(s);
    case PublishCheckpoint(_) => PublishKeepsInv(s, step);
    case CrashAndRedo => CrashKeepsInv(s);
  }

  lemma {:induction false} RunKeepsInv(s: State, steps: seq<Step>)
    requires Inv(s) && Runs(s, steps)
    ensures Inv(Final(s, steps))
    decreases |steps|
  {
    if steps != [] {
      StepKeepsInv(s, steps[0]);
      RunKeepsInv(Next(s, steps[0]), steps[1..]);
    }
  }

  lemma {:induction false} ReachableInv(steps: seq<Step>)
    requires Runs(INIT, steps)
    ensures Inv(Final(INIT, steps))
  {
    RunKeepsInv(INIT, steps);
  }

  lemma {:induction false} RunSnoc(s: State, steps: seq<Step>, x: Step)
    requires Runs(s, steps) && Enabled(Final(s, steps), x)
    ensures Runs(s, steps + [x]) && Final(s, steps + [x]) == Next(Final(s, steps), x)
    decreases |steps|
  {
    if steps == [] {
      assert steps + [x] == [x];
    } else {
      RunSnoc(Next(s, steps[0]), steps[1..], x);
      assert (steps + [x])[1..] == steps[1..] + [x];
    }
  }

  lemma {:induction false} RunsConcat(s: State, a: seq<Step>, b: seq<Step>)
    requires Runs(s, a) && Runs(Final(s, a), b)
    ensures Runs(s, a + b) && Final(s, a + b) == Final(Final(s, a), b)
    decreases |b|
  {
    if b == [] {
      assert a + b == a;
    } else {
      RunSnoc(s, a, b[0]);
      RunsConcat(s, a + [b[0]], b[1..]);
      assert a + [b[0]] + b[1..] == a + b;
    }
  }
}
