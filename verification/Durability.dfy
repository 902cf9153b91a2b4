/** Recovery as a whole, for every run of the machine: what survives a crash and what does not. */
module Durability {
  import opened Bytes
  import opened Cells
  import opened MvccKeys
  import opened Log
  import opened Redo
  import opened Undo
  import opened Recovery
  import opened Engine
  import opened EngineInvariant

  predicate Ends(r: Record) {
    r.payload.Commit? || r.payload.Abort?
  }

  /** Record number `i` is the last one the transaction logged, and does not end it. */
  ghost predicate LeftOpen(log: seq<Record>, from: nat, txn: nat, i: nat) {
    && from <= i < |log| && log[i].txn == txn && !Ends(log[i])
    && forall j :: i < j < |log| ==> log[j].txn != txn
  }

  /** The losers that analysis finds are exactly the transactions whose last record at or
      after the start of analysis is neither commit nor abort. */
  lemma {:induction false} LosersExactly(log: seq<Record>, from: nat, txn: nat)
    ensures txn in Att(log, from) <==> txn != 0 && exists i: nat :: LeftOpen(log, from, txn, i)
    ensures forall i: nat :: txn != 0 && LeftOpen(log, from, txn, i) ==> Att(log, from)[txn] == log[i].lsn
    decreases |log|
  {
    if |log| > from {
      var front, last := log[..|log| - 1], log[|log| - 1];
      LosersExactly(front, from, txn);
      if last.txn == txn {
        if !Ends(last) { assert LeftOpen(log, from, txn, |log| - 1); }
        assert forall i: nat :: LeftOpen(log, from, txn, i) ==> i == |log| - 1;
      } else {
        assert forall i: nat :: LeftOpen(log, from, txn, i) <==> LeftOpen(front, from, txn, i);
      }
    }
  }

  /** Record number `i` is the last checkpoint in range whose table lists the page. */
  ghost predicate LastListed(log: seq<Record>, from: nat, pid: PageId, i: nat) {
    from <= i < |log| && NamesPage(log[i], pid) && forall j :: i < j < |log| ==> !NamesPage(log[j], pid)
  }

  predicate IsFor(r: Record, pid: PageId) {
    OnPage(r) && r.page == pid
  }

  /** Record number `i` is the first one in range that is for the page. */
  ghost predicate FirstFor(log: seq<Record>, from: nat, pid: PageId, i: nat) {
    from <= i < |log| && IsFor(log[i], pid) && forall j :: from <= j < i ==> !IsFor(log[j], pid)
  }

  /** The dirty page table that analysis finds: a page is in it if and only if some record in range is
      for it or lists it. Its recovery LSN is that of the last checkpoint that lists it, or else the
      LSN of the first record for it. */
  lemma {:induction false} DirtyPagesExactly(log: seq<Record>, from: nat, pid: PageId)
    ensures pid in Dpt(log, from) <==>
      (exists i: nat :: LastListed(log, from, pid, i)) || exists i: nat :: FirstFor(log, from, pid, i)
    ensures forall i: nat :: LastListed(log, from, pid, i) ==> Dpt(log, from)[pid] == log[i].payload.dirtyPages[pid]
    ensures (forall i: nat :: !LastListed(log, from, pid, i)) ==>
      forall i: nat :: FirstFor(log, from, pid, i) ==> Dpt(log, from)[pid] == log[i].lsn
    decreases |log|
  {
    if |log| > from {
      var front := log[..|log| - 1];
      DirtyPagesExactly(front, from, pid);
      FirstForGrows(log, from, pid);
      LastListedGrows(log, from, pid);
      DirtyPagesStep(log, from, pid);
      var n := |log| - 1;
      if NamesPage(log[n], pid) {
        assert LastListed(log, from, pid, n);
      } else if i: nat :| LastListed(front, from, pid, i) {
        assert LastListed(log, from, pid, i);
      }
      if i: nat :| FirstFor(front, from, pid, i) {
        assert FirstFor(log, from, pid, i);
      } else if IsFor(log[n], pid) {
        assert FirstFor(log, from, pid, n);
      }
    }
  }

  /** The step of the table, for one page. */
  lemma {:induction false} DirtyPagesStep(log: seq<Record>, from: nat, pid: PageId)
    requires |log| > from
    ensures var dpt, r := Dpt(log[..|log| - 1], from), log[|log| - 1];
      && (pid in Dpt(log, from) <==> pid in dpt || IsFor(r, pid) || NamesPage(r, pid))
      && (NamesPage(r, pid) ==> Dpt(log, from)[pid] == r.payload.dirtyPages[pid])
      && (!NamesPage(r, pid) && pid in dpt ==> Dpt(log, from)[pid] == dpt[pid])
      && (!NamesPage(r, pid) && pid !in dpt && IsFor(r, pid) ==> Dpt(log, from)[pid] == r.lsn)
  {
  }

  lemma {:induction false} LastListedGrows(log: seq<Record>, from: nat, pid: PageId)
    requires |log| > from
    ensures var front, n := log[..|log| - 1], |log| - 1;
      forall i: nat :: LastListed(log, from, pid, i) <==>
        if NamesPage(log[n], pid) then i == n else LastListed(front, from, pid, i)
  {
  }

  lemma {:induction false} FirstForGrows(log: seq<Record>, from: nat, pid: PageId)
    requires |log| > from
    ensures var front, n := log[..|log| - 1], |log| - 1;
      forall i: nat :: FirstFor(log, from, pid, i) <==>
        FirstFor(front, from, pid, i) ||
        (i == n && IsFor(log[n], pid) && forall j: nat :: !FirstFor(front, from, pid, j))
  {
    var front, n := log[..|log| - 1], |log| - 1;
    forall i: nat | i < n ensures FirstFor(log, from, pid, i) <==> FirstFor(front, from, pid, i) {
      assert forall j :: from <= j <= i ==> log[j] == front[j];
    }
    if (forall j: nat :: !FirstFor(front, from, pid, j)) {
      NoneFor(front, from, pid, n);
    }
    assert forall j: nat :: FirstFor(front, from, pid, j) ==> IsFor(log[j], pid) && from <= j < n;
  }

  lemma {:induction false} NoneFor(log: seq<Record>, from: nat, pid: PageId, n: nat)
    requires n <= |log| && forall j: nat :: !FirstFor(log, from, pid, j)
    ensures forall j :: from <= j < n ==> !IsFor(log[j], pid)
  {
    if n > from {
      NoneFor(log, from, pid, n - 1);
      assert !FirstFor(log, from, pid, n - 1);
    }
  }

  /** A checkpoint stores no transaction table: a transaction that logged nothing since it is
      never undone, committed or not. */
  lemma {:induction false} CheckpointHidesOpenTransaction(log: seq<Record>, from: nat, txn: nat)
    requires forall i :: from <= i < |log| ==> log[i].txn != txn
    ensures txn !in Att(log, from)
  {
    LosersExactly(log, from, txn);
  }

  // ---- The list of records to undo ----

  lemma {:induction false} UndoListMembers(log: seq<Record>, att: map<nat, Lsn>, n: nat)
    requires n <= |log|
    ensures forall r :: r in UndoList(log, att, n) ==> r in log && r.txn in att
  {
    if n > 0 { UndoListMembers(log, att, n - 1); }
  }

  /** In every reachable state recovery can run: its page table starts at record boundaries
      and names existing pages only. */
  lemma {:induction false} RecoveryCanRun(s: State)
    requires Inv(s)
    ensures var from := StartIndex(s.log, s.chk);
      && from <= |s.log| && IsStart(s.log, from)
      && (if s.chk == 0 then from == 0 else from < |s.log| && s.log[from].lsn == s.chk)
      && StartsOk(s.log, Dpt(s.log, from))
      && forall pid :: pid in Dpt(s.log, from) ==> pid < |s.disk|
  {
    var from := StartIndex(s.log, s.chk);
    StartIndexIsStart(s.log, s.chk);
    DptKeys(s.log, from, |s.disk|);
    forall pid | pid in Dpt(s.log, from)
      ensures Dpt(s.log, from)[pid] == 0 || exists i :: 0 <= i < |s.log| && s.log[i].lsn == Dpt(s.log, from)[pid]
    {
      assert PageOk(s, pid) && FastOk(s, pid, from);
    }
  }

  /** No compensation of any page is waiting to be repeated. */
  ghost predicate AllClrSafe(s: State) {
    forall pid :: 0 <= pid < |s.disk| ==> ClrSafe(s.log, pid, s.disk[pid].lsn)
  }

  ghost function Work(s: State): seq<Record> {
    UndoList(s.log, Att(s.log, StartIndex(s.log, s.chk)), |s.log|)
  }

  ghost function Losers(s: State): set<nat> {
    Att(s.log, StartIndex(s.log, s.chk)).Keys
  }

  ghost function Views(s: State): seq<Body> {
    seq(|s.disk|, pid requires 0 <= pid < |s.disk| => View(s, pid))
  }

  lemma {:induction false} RedoneIsView(s: State, pid: PageId)
    requires Inv(s) && pid < |s.disk| && ClrSafe(s.log, pid, s.disk[pid].lsn)
    ensures var b := RedoneBodies(s.log, s.disk, StartIndex(s.log, s.chk))[pid];
      Sound(b) && Sound(View(s, pid)) && SameBody(b, View(s, pid))
  {
    var from := StartIndex(s.log, s.chk);
    RecoveryCanRun(s);
    assert PageOk(s, pid) && FastOk(s, pid, from);
    if pid in Dpt(s.log, from) { RedoSound(s.disk[pid], pid, s.log, Dpt(s.log, from)[pid]); }
  }

  /** Nothing is undone that no transaction owns: recovery undoes a write only if its key was built for
      a transaction other than 0. */
  lemma {:induction false} OnlyBuiltKeysUndone(s: State, r: Record)
    requires Inv(s) && r in Work(s) && r.payload.Write?
    ensures IsBuilt(r.payload.key) && Owner(r.payload.key) != 0 && Owner(r.payload.key) in Losers(s)
  {
    var from := StartIndex(s.log, s.chk);
    UndoListMembers(s.log, Att(s.log, from), |s.log|);
    NobodyIsActive(s.log, from);
    assert r in s.log && WriteOk(r);
    ExtractExactly(r.payload.key);
  }

  /** What recovery makes of a page: analysis, redo and undo. */
  ghost function After(s: State, pid: PageId): Body
    requires pid < |s.disk|
  {
    RecoveredBodies(s.log, s.disk, StartIndex(s.log, s.chk))[pid]
  }

  /** The page ends as the cells clients saw that do not belong to a loser. */
  ghost predicate LosersGone(s: State, pid: PageId)
    requires pid < |s.disk| && View(s, pid).Leaf?
  {
    && After(s, pid).Leaf?
    && CellSet(After(s, pid).cells) == set c | c in View(s, pid).cells && Owner(c.key) !in Losers(s)
  }

  /** Atomicity and durability of every run whose losers' writes are still on the pages they were logged
      for: after a crash, recovery leaves in a leaf exactly the cells that do not belong to a loser, if
      and only if each loser's cell in it was logged and first written by a Set. */
  lemma {:induction false} RecoveryLeavesNonLosers(steps: seq<Step>, pid: PageId)
    requires Runs(INIT, steps)
    requires var s := Final(INIT, steps);
      && AllClrSafe(s) && InPlace(Work(s), Views(s))
      && pid < |s.disk| && View(s, pid).Leaf?
    ensures var s := Final(INIT, steps);
      LosersGone(s, pid) <==> SetFirst(Work(s), pid, View(s, pid).cells, Losers(s))
  {
    ReachableInv(steps);
    RecoveredLeaf(Final(INIT, steps), pid);
  }

  lemma {:induction false} RecoveredLeaf(s: State, pid: PageId)
    requires Inv(s) && AllClrSafe(s) && InPlace(Work(s), Views(s))
    requires pid < |s.disk| && View(s, pid).Leaf?
    ensures LosersGone(s, pid) <==> SetFirst(Work(s), pid, View(s, pid).cells, Losers(s))
    ensures After(s, pid).Leaf?
  {
    RedoneReady(s);
    SameCells(RedoneBy(s)[pid], View(s, pid));
    LosersErasedIff(RedoneBy(s), Work(s), Losers(s), pid);
    SameMembersAlike(RedoneBy(s)[pid].cells, View(s, pid).cells, Work(s), Losers(s), pid);
  }

  /** A cell that belongs to no loser is in the leaf after recovery if and only if it was there before,
      whatever the losers wrote. That holds in particular for every key that is not a built one. */
  lemma {:induction false} OthersUntouched(s: State, pid: PageId, c: Cell)
    requires Inv(s) && AllClrSafe(s) && InPlace(Work(s), Views(s))
    requires pid < |s.disk| && View(s, pid).Leaf? && (Owner(c.key) !in Losers(s) || !IsBuilt(c.key))
    ensures After(s, pid).Leaf? && (c in After(s, pid).cells <==> c in View(s, pid).cells)
  {
    NobodyIsActive(s.log, StartIndex(s.log, s.chk));
    ExtractExactly(c.key);
    RedoneReady(s);
    SameCells(RedoneBy(s)[pid], View(s, pid));
    UndoAllExact(RedoneBy(s), RedoneBy(s), Work(s), Losers(s), pid);
    KeepMembers(RedoneBy(s)[pid].cells, Losers(s));
    KeepMembers(After(s, pid).cells, Losers(s));
  }

  lemma {:induction false} SameMembersAlike(xs: seq<Cell>, ys: seq<Cell>, rs: seq<Record>, losers: set<nat>,
        pid: PageId)
    requires forall c :: c in xs <==> c in ys
    ensures (set c | c in xs && Owner(c.key) !in losers) == set c | c in ys && Owner(c.key) !in losers
    ensures SetFirst(rs, pid, xs, losers) <==> SetFirst(rs, pid, ys, losers)
  {
  }

  /** Page contents after redo. */
  ghost function RedoneBy(s: State): seq<Body> {
    RedoneBodies(s.log, s.disk, StartIndex(s.log, s.chk))
  }

  /** After redo the pages are ready for undo: they hold what clients saw, and the losers' writes are on
      the pages they were logged for. */
  lemma {:induction false} RedoneReady(s: State)
    requires Inv(s) && AllClrSafe(s) && InPlace(Work(s), Views(s))
    ensures forall p :: 0 <= p < |s.disk| ==> Sound(RedoneBy(s)[p]) && SameBody(RedoneBy(s)[p], View(s, p))
    ensures InPlace(Work(s), RedoneBy(s))
    ensures forall r :: r in Work(s) && r.payload.Write? ==> Owner(r.payload.key) in Losers(s)
  {
    var bodies, rs := RedoneBy(s), Work(s);
    UndoListMembers(s.log, Att(s.log, StartIndex(s.log, s.chk)), |s.log|);
    forall p | 0 <= p < |bodies| ensures Sound(bodies[p]) && SameBody(bodies[p], View(s, p)) {
      RedoneIsView(s, p);
    }
    forall r | r in rs && r.payload.Write?
      ensures && r.page < |bodies| && bodies[r.page].Leaf? && HasKey(bodies[r.page].cells, r.payload.key)
              && (r.payload.deleted ==> r.payload.value == []) && Owner(r.payload.key) in Losers(s)
    {
      assert r in s.log;
      assert Views(s)[r.page] == View(s, r.page);
      SameCells(bodies[r.page], View(s, r.page));
    }
  }

  lemma {:induction false} SameCells(a: Body, b: Body)
    requires SameBody(a, b) && b.Leaf?
    ensures a.Leaf? && forall c :: c in a.cells <==> c in b.cells
  {
    assert forall c :: c in a.cells <==> c in CellSet(a.cells);
    assert forall c :: c in b.cells <==> c in CellSet(b.cells);
  }

  lemma {:induction false} RedoneIsCrashView(s: State, pid: PageId)
    requires pid < |s.disk|
    ensures RedoneBy(s)[pid] == View(Next(s, CrashAndRedo), pid)
  {
  }

  /** Without losers recovery is redo alone. */
  lemma {:induction false} NothingToUndo(s: State, pid: PageId)
    requires pid < |s.disk| && Losers(s) == {}
    ensures After(s, pid) == View(Next(s, CrashAndRedo), pid)
  {
    var att := Att(s.log, StartIndex(s.log, s.chk));
    assert |att| == |att.Keys| == 0;
    NothingLeft(s.log, att, |s.log|);
    RedoneIsCrashView(s, pid);
  }
}
