/** Atomicity and durability in terms of runs: for every run without splits and rollbacks, crashes
    included, recovery leaves exactly the cells of the transactions that are not losers. */
module Atomicity {
  import opened Bytes
  import opened Cells
  import opened MvccKeys
  import opened Log
  import opened Redo
  import opened Undo
  import opened Recovery
  import opened Engine
  import opened EngineInvariant
  import opened BufferPool
  import opened Durability

  // ---- The runs ----

  /** A transaction that the last-LSN table has forgotten does not go on: it has no records but
      aborts. The table is lost in a crash, so no transaction continues across one. */
  ghost predicate MayLog(s: State, t: nat) {
    t == 0 || t in s.last || forall i :: 0 <= i < |s.log| && s.log[i].txn == t ==> s.log[i].payload.Abort?
  }

  /** No rollback, no split of a leaf, no transaction that continues across a crash. */
  ghost predicate Plain(s: State, step: Step) {
    match step
    case Compensate(_, _, _, _, _, _) => false
    case WriteImage(pid, body) => body.Other? && pid in s.pool && s.pool[pid].page.body.Other?
    case Upsert(_, _, key, _) => MayLog(s, Owner(key))
    case CommitTxn(t) => MayLog(s, t)
    case _ => true
  }

  ghost predicate PlainRuns(s: State, steps: seq<Step>)
    ensures PlainRuns(s, steps) ==> Runs(s, steps)
    decreases |steps|
  {
    steps == [] || (Enabled(s, steps[0]) && Plain(s, steps[0]) && PlainRuns(Next(s, steps[0]), steps[1..]))
  }

  // ---- Keys of a leaf are the keys logged for it ----

  ghost predicate LoggedOn(log: seq<Record>, pid: PageId, key: Bytes) {
    exists i :: 0 <= i < |log| && Writes(log[i], pid, key)
  }

  ghost predicate Holds(b: Body, key: Bytes) {
    b.Leaf? && HasKey(b.cells, key)
  }

  ghost predicate KeysLogged(s: State, pid: PageId)
    requires pid < |s.disk|
  {
    forall key :: Holds(View(s, pid), key) <==> LoggedOn(s.log, pid, key)
  }

  ghost predicate NoClr(log: seq<Record>) {
    forall i :: 0 <= i < |log| ==> !log[i].payload.Clr?
  }

  ghost predicate KeysInv(s: State) {
    NoClr(s.log) && forall pid :: 0 <= pid < |s.disk| ==> KeysLogged(s, pid)
  }

  lemma {:induction false} LoggedSnoc(log: seq<Record>, r: Record)
    ensures forall pid, key :: LoggedOn(log + [r], pid, key) <==> LoggedOn(log, pid, key) || Writes(r, pid, key)
  {
    var log' := log + [r];
    forall pid, key | LoggedOn(log, pid, key) ensures LoggedOn(log', pid, key) {
      var i :| 0 <= i < |log| && Writes(log[i], pid, key);
      assert log'[i] == log[i];
    }
    forall pid, key | Writes(r, pid, key) ensures LoggedOn(log', pid, key) {
      assert log'[|log|] == r;
    }
  }

  lemma {:induction false} SameKeys(a: Body, b: Body)
    requires SameBody(a, b)
    ensures forall key :: Holds(a, key) <==> Holds(b, key)
  {
    if a.Leaf? && b.Leaf? {
      assert forall c :: c in a.cells <==> c in CellSet(a.cells);
      assert forall c :: c in b.cells <==> c in CellSet(b.cells);
    }
  }

  lemma {:induction false} UpsertedKeys(b: Body, deleted: bool, key: Bytes, value: Bytes)
    requires b.Leaf? && Sound(b)
    ensures forall k :: Holds(Upserted(b, deleted, key, value), k) <==> Holds(b, k) || k == key
  {
    var c := CellFor(deleted, key, value);
    RewrittenMembers(b.cells, c);
    var cells := SortCells(Rewrite(b.cells, key, Some(c)));
    assert c in cells;
    forall k | Holds(b, k) && k != key ensures Holds(Upserted(b, deleted, key, value), k) {
      var x :| x in b.cells && x.key == k;
      assert x in cells;
    }
  }

  lemma {:induction false} RewrittenMembers(cells: seq<Cell>, c: Cell)
    requires UniqueKeys(cells)
    ensures forall x :: x in SortCells(Rewrite(cells, c.key, Some(c))) <==> x == c || (x in cells && x.key != c.key)
  {
    RewriteUnique(cells, c.key, Some(c));
    RewriteSet(cells, c.key, Some(c));
    SortedCopy(Rewrite(cells, c.key, Some(c)));
    MembersOfSet(SortCells(Rewrite(cells, c.key, Some(c))), (set x | x in cells && x.key != c.key) + {c});
  }

  lemma {:induction false} MembersOfSet(cells: seq<Cell>, members: set<Cell>)
    requires CellSet(cells) == members
    ensures forall x :: x in cells <==> x in members
  {
    assert forall x :: x in cells <==> x in CellSet(cells);
  }

  lemma {:induction false} UpsertKeepsKeys(s: State, step: Step)
    requires Inv(s) && KeysInv(s) && step.Upsert? && Enabled(s, step)
    ensures KeysInv(Next(s, step))
  {
    var s', r := Next(s, step), Next(s, step).log[|s.log|];
    assert PageOk(s, step.pid);
    UpsertedKeys(View(s, step.pid), step.deleted, step.key, step.value);
    LoggedSnoc(s.log, r);
    forall pid | 0 <= pid < |s'.disk| ensures KeysLogged(s', pid) {
      assert KeysLogged(s, pid);
    }
  }

  lemma {:induction false} CrashKeepsKeys(s: State)
    requires Inv(s) && KeysInv(s)
    ensures KeysInv(Next(s, CrashAndRedo))
  {
    var s' := Next(s, CrashAndRedo);
    forall pid | 0 <= pid < |s'.disk| ensures KeysLogged(s', pid) {
      assert PageOk(s, pid) && KeysLogged(s, pid) && ClrSafe(s.log, pid, s.disk[pid].lsn);
      CrashKeepsPage(s, pid);
      SameKeys(View(s', pid), View(s, pid));
    }
  }

  /** What a page holds and what is logged for it stays the same. */
  lemma {:induction false} SameKeysLogged(s: State, s': State, pid: PageId)
    requires pid < |s.disk| && pid < |s'.disk| && KeysLogged(s, pid) && View(s', pid) == View(s, pid)
    requires s'.log == s.log || (|s'.log| == |s.log| + 1 && s'.log == s.log + [s'.log[|s.log|]] &&
                                 !s'.log[|s.log|].payload.Write?)
    ensures KeysLogged(s', pid)
  {
    if s'.log != s.log { LoggedSnoc(s.log, s'.log[|s.log|]); }
  }

  lemma {:induction false} PoolKeepsKeys(s: State, step: Step)
    requires Inv(s) && KeysInv(s) && Enabled(s, step) && PoolStep(step)
    ensures KeysInv(Next(s, step))
  {
    var s' := Next(s, step);
    PoolStepKeepsViews(s, step);
    forall pid | 0 <= pid < |s'.disk| ensures KeysLogged(s', pid) {
      SameKeysLogged(s, s', pid);
    }
  }

  lemma {:induction false} AllocateKeepsKeys(s: State, step: Step)
    requires Inv(s) && KeysInv(s) && Enabled(s, step) && step.Allocate?
    ensures KeysInv(Next(s, step))
  {
    var s' := Next(s, step);
    forall pid | 0 <= pid < |s'.disk| ensures KeysLogged(s', pid) {
      if pid < |s.disk| {
        SameKeysLogged(s, s', pid);
      } else {
        assert forall key :: !LoggedOn(s.log, pid, key);
      }
    }
  }

  lemma {:induction false} ImageKeepsKeys(s: State, step: Step)
    requires Inv(s) && KeysInv(s) && Enabled(s, step) && Plain(s, step) && step.WriteImage?
    ensures KeysInv(Next(s, step))
  {
    var s' := Next(s, step);
    LoggedSnoc(s.log, s'.log[|s.log|]);
    forall pid | 0 <= pid < |s'.disk| ensures KeysLogged(s', pid) {
      assert KeysLogged(s, pid);
    }
  }

  /** Ends of transactions and checkpoints. */
  lemma {:induction false} MarkKeepsKeys(s: State, step: Step)
    requires Inv(s) && KeysInv(s) && Enabled(s, step)
    requires step.CommitTxn? || step.AbortTxn? || step.TakeCheckpoint? || step.PublishCheckpoint?
    ensures KeysInv(Next(s, step))
  {
    var s' := Next(s, step);
    forall pid | 0 <= pid < |s'.disk| ensures KeysLogged(s', pid) {
      SameKeysLogged(s, s', pid);
    }
  }

  // ---- Chains are complete ----

  predicate Links(r: Record, t: nat) {
    r.txn == t && !r.payload.Abort?
  }

  /** Every earlier record of the transaction is on the chain of the later one. */
  ghost predicate ChainsComplete(log: seq<Record>) {
    forall i, k :: 0 <= i <= k < |log| && log[i].txn != 0 && Links(log[i], log[k].txn) && Links(log[k], log[k].txn) ==>
      InChain(log, log[k].lsn, log[i].lsn)
  }

  /** The record is the transaction's last but for aborts. */
  ghost predicate IsLast(log: seq<Record>, t: nat, k: nat) {
    k < |log| && Links(log[k], t) && forall j :: k < j < |log| ==> !Links(log[j], t)
  }

  ghost predicate LastExact(s: State) {
    forall t :: t in s.last && t != 0 ==> exists k: nat :: IsLast(s.log, t, k) && s.log[k].lsn == s.last[t]
  }

  ghost predicate ChainInv(s: State) {
    ChainsComplete(s.log) && LastExact(s)
  }

  lemma {:induction false} InChainGrows(log: seq<Record>, r: Record, l: Lsn, x: Lsn)
    requires r.lsn > l && InChain(log, l, x)
    ensures InChain(log + [r], l, x)
    decreases l
  {
    if l != x {
      var log' := log + [r];
      assert log'[..|log|] == log;
      assert ReadRecord(log', l) == ReadRecord(log, l);
      InChainGrows(log, r, ReadRecord(log, l).value.prev, x);
    }
  }

  /** A record whose PrevLSN names the transaction's last record completes the chain. */
  lemma {:induction false} ChainSnoc(log: seq<Record>, r: Record, i: nat)
    requires WellFormed(log) && ChainsComplete(log) && r.lsn == End(log) && r.txn != 0
    requires i < |log| && Links(log[i], r.txn)
    requires exists k: nat :: IsLast(log, r.txn, k) && log[k].lsn == r.prev
    ensures InChain(log + [r], r.lsn, log[i].lsn)
  {
    var k: nat :| IsLast(log, r.txn, k) && log[k].lsn == r.prev;
    LsnsBelowEnd(log);
    assert i <= k && InChain(log, log[k].lsn, log[i].lsn);
    InChainGrows(log, r, r.prev, log[i].lsn);
    assert ReadRecord(log + [r], r.lsn) == Some(r);
  }

  /** A new record keeps chains complete if it is no link, or links to the last one. */
  lemma {:induction false} AppendKeepsChains(log: seq<Record>, r: Record)
    requires WellFormed(log) && ChainsComplete(log) && r.lsn == End(log)
    requires r.txn == 0 || r.payload.Abort?
      || (forall i :: 0 <= i < |log| ==> !Links(log[i], r.txn))
      || exists k: nat :: IsLast(log, r.txn, k) && log[k].lsn == r.prev
    ensures ChainsComplete(log + [r])
  {
    var log' := log + [r];
    LsnsBelowEnd(log);
    forall i, k | 0 <= i <= k < |log'| && log'[i].txn != 0 && Links(log'[i], log'[k].txn) && Links(log'[k], log'[k].txn)
      ensures InChain(log', log'[k].lsn, log'[i].lsn)
    {
      if k < |log| {
        assert log'[i] == log[i] && log'[k] == log[k];
        assert InChain(log, log[k].lsn, log[i].lsn);
        InChainGrows(log, r, log[k].lsn, log[i].lsn);
      } else if i < |log| {
        assert log'[i] == log[i];
        ChainSnoc(log, r, i);
      }
    }
  }

  lemma {:induction false} LastGrows(log: seq<Record>, r: Record, t: nat, k: nat)
    requires IsLast(log, t, k) && !Links(r, t)
    ensures IsLast(log + [r], t, k)
  {
  }

  lemma {:induction false} LogStepKeepsChains(s: State, s': State, r: Record)
    requires Inv(s) && ChainInv(s) && s'.log == s.log + [r] && r.lsn == End(s.log)
    requires r.txn == 0 || r.payload.Abort? || (MayLog(s, r.txn) && r.prev == LastLsn(s, r.txn))
    requires if r.payload.Write? || r.payload.Commit? then s'.last == s.last[r.txn := r.lsn] else s'.last == s.last
    requires r.txn == 0 || r.payload.Write? || r.payload.Commit? || r.payload.Abort?
    ensures ChainInv(s')
  {
    AppendKeepsChains(s.log, r);
    forall t | t in s'.last && t != 0 ensures exists k: nat :: IsLast(s'.log, t, k) && s'.log[k].lsn == s'.last[t] {
      if Links(r, t) {
        assert IsLast(s'.log, t, |s.log|);
      } else {
        var k: nat :| IsLast(s.log, t, k) && s.log[k].lsn == s.last[t];
        LastGrows(s.log, r, t, k);
      }
    }
  }

  lemma {:induction false} StepKeepsChains(s: State, step: Step)
    requires Inv(s) && ChainInv(s) && Enabled(s, step) && Plain(s, step)
    ensures ChainInv(Next(s, step))
  {
    var s' := Next(s, step);
    if |s'.log| > |s.log| { LogStepKeepsChains(s, s', s'.log[|s.log|]); }
  }

  // ---- Whole runs ----

  ghost predicate RunInv(s: State) {
    Inv(s) && KeysInv(s) && ChainInv(s)
  }

  lemma {:induction false} StepKeepsRunInv(s: State, step: Step)
    requires RunInv(s) && Enabled(s, step) && Plain(s, step)
    ensures RunInv(Next(s, step))
  {
    StepKeepsInv(s, step);
    StepKeepsChains(s, step);
    if step.Upsert? {
      UpsertKeepsKeys(s, step);
    } else if step.CrashAndRedo? {
      CrashKeepsKeys(s);
    } else if PoolStep(step) {
      PoolKeepsKeys(s, step);
    } else if step.Allocate? {
      AllocateKeepsKeys(s, step);
    } else if step.WriteImage? {
      ImageKeepsKeys(s, step);
    } else {
      MarkKeepsKeys(s, step);
    }
  }

  lemma {:induction false} RunKeepsRunInv(s: State, steps: seq<Step>)
    requires RunInv(s) && PlainRuns(s, steps)
    ensures RunInv(Final(s, steps))
    decreases |steps|
  {
    if steps != [] {
      StepKeepsRunInv(s, steps[0]);
      RunKeepsRunInv(Next(s, steps[0]), steps[1..]);
    }
  }

  // ---- What recovery needs ----

  /** All records of a loser are on its chain. */
  lemma {:induction false} LoserWork(s: State, i: nat)
    requires Inv(s) && ChainsComplete(s.log) && i < |s.log| && s.log[i].txn in Losers(s) && !s.log[i].payload.Abort?
    ensures s.log[i] in Work(s)
  {
    var from, t := StartIndex(s.log, s.chk), s.log[i].txn;
    LosersExactly(s.log, from, t);
    var k: nat :| LeftOpen(s.log, from, t, k);
    assert i <= k && InChain(s.log, s.log[k].lsn, s.log[i].lsn);
    UndoListExact(s.log, Att(s.log, from), |s.log|);
  }

  lemma {:induction false} WorkInPlace(s: State)
    requires Inv(s) && KeysInv(s)
    ensures AllClrSafe(s) && InPlace(Work(s), Views(s))
  {
    UndoListMembers(s.log, Att(s.log, StartIndex(s.log, s.chk)), |s.log|);
    forall r | r in Work(s) && r.payload.Write?
      ensures && r.page < |Views(s)| && Views(s)[r.page].Leaf? && HasKey(Views(s)[r.page].cells, r.payload.key)
              && (r.payload.deleted ==> r.payload.value == [])
    {
      var i :| 0 <= i < |s.log| && s.log[i] == r;
      assert KeysLogged(s, r.page) && Writes(s.log[i], r.page, r.payload.key);
      assert LoggedOn(s.log, r.page, r.payload.key);
    }
  }

  /** On the page the transactions write each key first by Set: a Delete has an earlier Set of it. */
  ghost predicate SetsFirst(log: seq<Record>, txns: set<nat>, pid: PageId) {
    forall i :: 0 <= i < |log| && log[i].txn in txns && log[i].page == pid && IsDelete(log[i]) ==>
      HasEarlierSet(log, i)
  }

  predicate IsDelete(r: Record) {
    r.payload.Write? && r.payload.deleted
  }

  predicate HasEarlierSet(log: seq<Record>, i: nat)
    requires i < |log| && log[i].payload.Write?
  {
    exists j :: 0 <= j < i && Writes(log[j], log[i].page, log[i].payload.key) && !log[j].payload.deleted
  }

  lemma {:induction false} FirstIsFirst(rs: seq<Record>, pid: PageId, key: Bytes, r: Record)
    requires r in rs && Writes(r, pid, key) && forall i, j :: 0 <= i < j < |rs| ==> rs[i].lsn < rs[j].lsn
    ensures FirstWrite(rs, pid, key).Some? && FirstWrite(rs, pid, key).value.lsn <= r.lsn
    decreases |rs|
  {
    if !Writes(rs[0], pid, key) {
      assert rs == [rs[0]] + rs[1..];
      FirstIsFirst(rs[1..], pid, key, r);
    }
  }

  lemma {:induction false} LosersSetFirst(s: State, pid: PageId)
    requires RunInv(s) && SetsFirst(s.log, Losers(s), pid) && pid < |s.disk| && View(s, pid).Leaf?
    ensures SetFirst(Work(s), pid, View(s, pid).cells, Losers(s))
  {
    forall c | c in View(s, pid).cells && Owner(c.key) in Losers(s)
      ensures FirstWrite(Work(s), pid, c.key).Some? && !FirstWrite(Work(s), pid, c.key).value.payload.deleted
    {
      assert KeysLogged(s, pid) && Holds(View(s, pid), c.key);
      var i :| 0 <= i < |s.log| && Writes(s.log[i], pid, c.key);
      var k := FirstLogged(s, pid, c.key, i);
    }
  }

  /** The first write to a loser's key in the list of work is the first one in the log. */
  lemma {:induction false} FirstLogged(s: State, pid: PageId, key: Bytes, i: nat) returns (k: nat)
    requires Inv(s) && ChainsComplete(s.log) && Owner(key) in Losers(s) && i < |s.log| && Writes(s.log[i], pid, key)
    ensures k <= i && FirstWrite(Work(s), pid, key) == Some(s.log[k])
    ensures forall j :: 0 <= j < k ==> !Writes(s.log[j], pid, key)
  {
    UndoListExact(s.log, Att(s.log, StartIndex(s.log, s.chk)), |s.log|);
    LoserWork(s, i);
    FirstIsFirst(Work(s), pid, key, s.log[i]);
    var w := FirstWrite(Work(s), pid, key).value;
    k :| 0 <= k < |s.log| && s.log[k] == w;
    if i < k { LsnOrder(s.log, i, k); }
    forall j | 0 <= j < k ensures !Writes(s.log[j], pid, key) {
      if Writes(s.log[j], pid, key) {
        LoserWork(s, j);
        FirstIsFirst(Work(s), pid, key, s.log[j]);
        LsnOrder(s.log, j, k);
      }
    }
  }

  /** The two ways to say that losers set first agree: in the log of the page, and in the cells the
      page holds. */
  lemma {:induction false} SetsFirstAgrees(s: State, pid: PageId)
    requires RunInv(s) && pid < |s.disk| && View(s, pid).Leaf?
    ensures SetsFirst(s.log, Losers(s), pid) <==> SetFirst(Work(s), pid, View(s, pid).cells, Losers(s))
  {
    if SetsFirst(s.log, Losers(s), pid) {
      LosersSetFirst(s, pid);
    } else {
      var i :| 0 <= i < |s.log| && s.log[i].txn in Losers(s) && s.log[i].page == pid && IsDelete(s.log[i]) &&
               !HasEarlierSet(s.log, i);
      var key := s.log[i].payload.key;
      assert LoggedOn(s.log, pid, key) && KeysLogged(s, pid) && Holds(View(s, pid), key);
      var c :| c in View(s, pid).cells && c.key == key;
      var k := FirstLogged(s, pid, key, i);
    }
  }

  // ---- The theorems ----

  /** Atomicity and durability, exactly. For every run from the empty state in which no leaf is split,
      nothing is compensated and no transaction continues across a crash, with evictions, checkpoints
      and crashes anywhere: after a crash, recovery leaves in a leaf exactly the cells clients saw that
      do not belong to a loser, if and only if every Delete a loser logged for the page has an earlier
      Set of its key. A crash at which recovery undid a write is not part of such a run. */
  lemma {:induction false} RecoveryOfPlainRuns(steps: seq<Step>, pid: PageId)
    requires PlainRuns(INIT, steps)
    requires var s := Final(INIT, steps); pid < |s.disk| && View(s, pid).Leaf?
    ensures var s := Final(INIT, steps); LosersGone(s, pid) <==> SetsFirst(s.log, Losers(s), pid)
  {
    RunKeepsRunInv(INIT, steps);
    var s := Final(INIT, steps);
    WorkInPlace(s);
    SetsFirstAgrees(s, pid);
    RecoveredLeaf(s, pid);
  }

  /** On the same runs: a write to a key that is not a built one, or to a key of a transaction that is
      not a loser, is never undone. */
  lemma {:induction false} OthersSurvive(steps: seq<Step>, pid: PageId, c: Cell)
    requires PlainRuns(INIT, steps)
    requires var s := Final(INIT, steps);
      pid < |s.disk| && View(s, pid).Leaf? && (Owner(c.key) !in Losers(s) || !IsBuilt(c.key))
    ensures var s := Final(INIT, steps);
      After(s, pid).Leaf? && (c in After(s, pid).cells <==> c in View(s, pid).cells)
  {
    RunKeepsRunInv(INIT, steps);
    WorkInPlace(Final(INIT, steps));
    OthersUntouched(Final(INIT, steps), pid, c);
  }

  /** The transaction has logged something and not ended. */
  ghost predicate Open(log: seq<Record>, t: nat) {
    t != 0 && exists i: nat :: LeftOpen(log, 0, t, i)
  }

  ghost predicate LoggedSince(log: seq<Record>, from: nat, t: nat) {
    exists i :: from <= i < |log| && log[i].txn == t
  }

  lemma {:induction false} LoserIffLoggedSince(log: seq<Record>, from: nat, t: nat)
    ensures t in Att(log, from) <==> Open(log, t) && LoggedSince(log, from, t)
  {
    LosersExactly(log, from, t);
    if i: nat :| LeftOpen(log, from, t, i) { assert LeftOpen(log, 0, t, i); }
    if Open(log, t) && LoggedSince(log, from, t) {
      var j: nat :| LeftOpen(log, 0, t, j);
      assert LeftOpen(log, from, t, j);
    }
  }

  /** A checkpoint stores no transaction table. On such runs, where losers set first, what recovery
      leaves is exactly what the transactions that are not open wrote, if and only if every open owner
      of a cell in the leaf has logged something since the checkpoint. */
  lemma {:induction false} OnlyEndedSurvive(steps: seq<Step>, pid: PageId)
    requires PlainRuns(INIT, steps)
    requires var s := Final(INIT, steps);
      pid < |s.disk| && View(s, pid).Leaf? && SetsFirst(s.log, Losers(s), pid)
    ensures var s := Final(INIT, steps);
      && After(s, pid).Leaf?
      && ((CellSet(After(s, pid).cells) == set c | c in View(s, pid).cells && !Open(s.log, Owner(c.key))) <==>
          forall c :: c in View(s, pid).cells && Open(s.log, Owner(c.key)) ==>
            LoggedSince(s.log, StartIndex(s.log, s.chk), Owner(c.key)))
  {
    RecoveryOfPlainRuns(steps, pid);
    var s := Final(INIT, steps);
    var from, cells := StartIndex(s.log, s.chk), View(s, pid).cells;
    forall t: nat ensures t in Losers(s) <==> Open(s.log, t) && LoggedSince(s.log, from, t) {
      LoserIffLoggedSince(s.log, from, t);
    }
    if c :| c in cells && Open(s.log, Owner(c.key)) && !LoggedSince(s.log, from, Owner(c.key)) {
      assert c in CellSet(After(s, pid).cells);
    }
  }
}
