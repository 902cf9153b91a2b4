/** The buffer manager (buffer_manager.go) as an object. Each call is a run of machine steps, so
    what holds of every run holds of every program over the pool; and over every run the pool
    refines a plain map of pages. */
module BufferPool {
  import opened Cells
  import opened MvccKeys
  import opened Log
  import opened Redo
  import opened Engine
  import opened EngineInvariant

  // ---- The pool refines a plain page map ----

  ghost predicate SameViews(s: State, s': State) {
    |s'.disk| == |s.disk| && forall q :: 0 <= q < |s.disk| ==> View(s', q) == View(s, q)
  }

  predicate PoolStep(step: Step) {
    step.Fetch? || step.Release? || step.FetchForWrite? || step.Unpin? || step.Evict? || step.Flush?
  }

  /** Moving pages between disk and pool, pinning, latching and backing up a page into the log do
      not change what any page holds. */
  lemma {:induction false} PoolStepKeepsViews(s: State, step: Step)
    requires Inv(s) && Enabled(s, step) && PoolStep(step)
    ensures SameViews(s, Next(s, step))
  {
    var s' := Next(s, step);
    forall q | 0 <= q < |s.disk| ensures |s'.disk| == |s.disk| && View(s', q) == View(s, q) {
      assert PageOk(s, q);
    }
  }

  /** A store without pool, log or disk: one body per page, changed by the writers alone. */
  function PlainStep(m: seq<Body>, step: Step): seq<Body> {
    match step
    case Allocate(body) => m + [body]
    case Upsert(pid, deleted, key, value) =>
      if pid < |m| && m[pid].Leaf? then m[pid := Upserted(m[pid], deleted, key, value)] else m
    case WriteImage(pid, body) => if pid < |m| then m[pid := body] else m
    case Compensate(pid, _, erase, key, value, _) =>
      if pid < |m| then m[pid := RedoUpsert(m[pid], key, UndoCell(erase, key, value))] else m
    case _ => m
  }

  function PlainRun(m: seq<Body>, steps: seq<Step>): seq<Body>
    decreases |steps|
  {
    if steps == [] then m else PlainRun(PlainStep(m, steps[0]), steps[1..])
  }

  ghost predicate Agrees(s: State, m: seq<Body>) {
    |m| == |s.disk| && forall q :: 0 <= q < |m| ==> m[q] == View(s, q)
  }

  lemma {:induction false} StepAgrees(s: State, m: seq<Body>, step: Step)
    requires Inv(s) && Agrees(s, m) && Enabled(s, step) && !step.CrashAndRedo?
    ensures Agrees(Next(s, step), PlainStep(m, step))
  {
    if PoolStep(step) {
      PoolStepKeepsViews(s, step);
    } else if step.Upsert? || step.WriteImage? || step.Compensate? {
      ChangeAgrees(s, m, step);
    }
  }

  /** A writer changes the frame and the plain store in the same way. */
  lemma {:induction false} ChangeAgrees(s: State, m: seq<Body>, step: Step)
    requires Inv(s) && Agrees(s, m) && Enabled(s, step) && (step.Upsert? || step.WriteImage? || step.Compensate?)
    ensures Agrees(Next(s, step), PlainStep(m, step))
  {
    assert step.pid < |s.disk| && m[step.pid] == s.pool[step.pid].page.body;
  }

  /** An upsert leaves its leaf in strict key order, with the new cell in place of what the key had and all
      other cells; it logs one record that continues the chain of the key's transaction, and touches no
      other page. */
  lemma {:induction false} UpsertExactly(s: State, step: Step)
    requires Inv(s) && step.Upsert? && Enabled(s, step)
    ensures var s', pid, txn := Next(s, step), step.pid, Owner(step.key);
      && s'.log == s.log + [Record(s'.pool[pid].page.lsn, txn, pid, if txn in s.last then s.last[txn] else 0,
                                   Write(step.deleted, step.key, step.value))]
      && WellFormed(s'.log) && s'.last == s.last[txn := s'.pool[pid].page.lsn] && s'.disk == s.disk
      && (forall q :: q in s.pool && q != pid ==> q in s'.pool && s'.pool[q] == s.pool[q])
    ensures var s', pid := Next(s, step), step.pid;
      && pid < |s.disk| && View(s', pid).Leaf? && Sorted(View(s', pid).cells)
      && CellSet(View(s', pid).cells) ==
         (set c | c in View(s, pid).cells && c.key != step.key) + {CellFor(step.deleted, step.key, step.value)}
  {
    var cells, c := View(s, step.pid).cells, CellFor(step.deleted, step.key, step.value);
    assert PageOk(s, step.pid);
    StepKeepsInv(s, step);
    RewriteUnique(cells, step.key, Some(c));
    RewriteSet(cells, step.key, Some(c));
    SortCorrect(Rewrite(cells, step.key, Some(c)));
  }

  lemma {:induction false} RunAgrees(s: State, m: seq<Body>, steps: seq<Step>)
    requires Inv(s) && Agrees(s, m) && Runs(s, steps) && forall x :: x in steps ==> !x.CrashAndRedo?
    ensures Agrees(Final(s, steps), PlainRun(m, steps))
    decreases |steps|
  {
    if steps != [] {
      StepAgrees(s, m, steps[0]);
      StepKeepsInv(s, steps[0]);
      RunAgrees(Next(s, steps[0]), PlainStep(m, steps[0]), steps[1..]);
    }
  }

  /** Over every run without a crash, pool over disk shows exactly the plain store. */
  lemma {:induction false} PoolRefinesPageMap(steps: seq<Step>)
    requires Runs(INIT, steps) && forall x :: x in steps ==> !x.CrashAndRedo?
    ensures Agrees(Final(INIT, steps), PlainRun([], steps))
  {
    RunAgrees(INIT, [], steps);
  }

  // ---- Crashes after a crash ----

  lemma {:induction false} PoolRunKeepsViews(s: State, steps: seq<Step>)
    requires Inv(s) && Runs(s, steps) && forall x :: x in steps ==> PoolStep(x)
    ensures Inv(Final(s, steps)) && SameViews(s, Final(s, steps))
    decreases |steps|
  {
    if steps != [] {
      PoolStepKeepsViews(s, steps[0]);
      StepKeepsInv(s, steps[0]);
      PoolRunKeepsViews(Next(s, steps[0]), steps[1..]);
    }
  }

  /** Redo can be interrupted: after any run and a crash, let any of the redone pages be evicted,
      flushed or fetched again, and crash once more. Every page still has the contents its clients
      saw before the first crash. */
  lemma {:induction false} RedoRestartable(steps: seq<Step>, more: seq<Step>, pid: PageId)
    requires Runs(INIT, steps) && Runs(Next(Final(INIT, steps), CrashAndRedo), more)
    requires forall x :: x in more ==> PoolStep(x)
    requires var s := Final(INIT, steps); pid < |s.disk| && ClrSafe(s.log, pid, s.disk[pid].lsn)
    requires var s2 := Final(Next(Final(INIT, steps), CrashAndRedo), more);
      pid < |s2.disk| && ClrSafe(s2.log, pid, s2.disk[pid].lsn)
    ensures var s2 := Final(Next(Final(INIT, steps), CrashAndRedo), more);
      SameBody(View(Next(s2, CrashAndRedo), pid), View(Final(INIT, steps), pid))
  {
    var s := Final(INIT, steps);
    var s1 := Next(s, CrashAndRedo);
    var s2 := Final(s1, more);
    ReachableInv(steps);
    StepKeepsInv(s, CrashAndRedo);
    PoolRunKeepsViews(s1, more);
    assert PageOk(s, pid) && PageOk(s2, pid);
    CrashKeepsPage(s, pid);
    CrashKeepsPage(s2, pid);
  }

  /** The disk when redo is interrupted: of each page, a prefix of the log has been redone, as far as
      the loop had come when the page was last written back. */
  ghost predicate Interrupted(s: State, s': State, dpt: map<PageId, Lsn>) {
    && s'.log == s.log && s'.chk == s.chk && |s'.disk| == |s.disk|
    && forall pid :: 0 <= pid < |s.disk| ==>
         exists k :: 0 <= k <= |s.log| && s'.disk[pid] == FastRedo(s.disk[pid], pid, s.log[..k], dpt)
  }

  /** A crash at any point of the redo loop, with pages evicted at any points of it, is harmless: the
      next recovery gives every page the contents that undisturbed redo gives it. */
  lemma {:induction false} RedoInterrupted(s: State, s': State, pid: PageId)
    requires Inv(s) && Interrupted(s, s', Dpt(s.log, StartIndex(s.log, s.chk))) && pid < |s.disk|
    ensures View(Next(s', CrashAndRedo), pid) == View(Next(s, CrashAndRedo), pid)
  {
    var dpt := Dpt(s.log, StartIndex(s.log, s.chk));
    var k :| 0 <= k <= |s.log| && s'.disk[pid] == FastRedo(s.disk[pid], pid, s.log[..k], dpt);
    if pid in dpt {
      LsnsBelowEnd(s.log);
      RedoTwice(s.disk[pid], pid, s.log, k, dpt[pid]);
    }
  }

  // ---- Runs that grow ----

  ghost predicate Reached(steps: seq<Step>, s: State) {
    Runs(INIT, steps) && Final(INIT, steps) == s
  }

  lemma {:induction false} Extend(steps: seq<Step>, s: State, x: Step)
    requires Reached(steps, s) && Enabled(s, x)
    ensures Reached(steps + [x], Next(s, x)) && Inv(s)
    ensures PoolStep(x) ==> SameViews(s, Next(s, x))
  {
    RunSnoc(INIT, steps, x);
    ReachableInv(steps);
    if PoolStep(x) { PoolStepKeepsViews(s, x); }
  }

  // ---- The object ----

  predicate AllPinned(table: map<PageId, Frame>) {
    forall p :: p in table ==> table[p].pins > 0
  }

  function Pins(table: map<PageId, Frame>, pid: PageId): nat {
    if pid in table then table[pid].pins else 0
  }

  /** Fetches of the page less its unpins since the last crash. */
  function Balance(steps: seq<Step>, pid: PageId): int {
    if steps == [] then 0
    else if steps[|steps| - 1].CrashAndRedo? then 0
    else Balance(steps[..|steps| - 1], pid) + PinChange(steps[|steps| - 1], pid)
  }

  /** The pool counts every user: over every run a page has as many pins as fetches since the last crash
      that were not unpinned yet, through any evictions and reloads. */
  lemma {:induction false} PinsBalance(steps: seq<Step>, pid: PageId)
    requires Runs(INIT, steps)
    ensures Pins(Final(INIT, steps).pool, pid) == Balance(steps, pid)
    decreases |steps|
  {
    if steps != [] {
      var front, x := steps[..|steps| - 1], steps[|steps| - 1];
      assert front + [x] == steps;
      RunsFront(INIT, front, x);
      PinsBalance(front, pid);
      BalanceSnoc(front, x, pid);
    }
  }

  lemma {:induction false} BalanceSnoc(front: seq<Step>, x: Step, pid: PageId)
    requires Runs(INIT, front) && Enabled(Final(INIT, front), x)
    ensures Runs(INIT, front + [x])
    ensures Pins(Final(INIT, front + [x]).pool, pid) ==
      if x.CrashAndRedo? then 0 else Pins(Final(INIT, front).pool, pid) + PinChange(x, pid)
  {
    RunSnoc(INIT, front, x);
    if !x.CrashAndRedo? { StepBalance(Final(INIT, front), x, pid); }
  }

  /** What one step adds to the pins of a page. */
  function PinChange(x: Step, pid: PageId): int {
    if x == Fetch(pid) || x == FetchForWrite(pid) then 1
    else if x == Release(pid) || (x.Unpin? && x.pid == pid) then -1
    else 0
  }

  lemma {:induction false} StepBalance(s: State, x: Step, pid: PageId)
    requires Enabled(s, x) && !x.CrashAndRedo?
    ensures Pins(Next(s, x).pool, pid) == Pins(s.pool, pid) + PinChange(x, pid)
  {
  }

  lemma {:induction false} RunsFront(s: State, steps: seq<Step>, x: Step)
    requires Runs(s, steps + [x])
    ensures Runs(s, steps) && Enabled(Final(s, steps), x)
    decreases |steps|
  {
    if steps == [] {
      assert steps + [x] == [x];
    } else {
      assert (steps + [x])[1..] == steps[1..] + [x];
      RunsFront(Next(s, steps[0]), steps[1..], x);
    }
  }

  /** If a frame is needed and some frame is unpinned, one such frame has been evicted. */
  ghost predicate MadeRoom(s: State, s': State, needed: bool) {
    if needed && !AllPinned(s.pool)
    then exists v :: v in s.pool && s.pool[v].pins == 0 && s' == Next(s, Evict(v))
    else s' == s
  }

  /** Frames in use are still there, with the contents they had. */
  ghost predicate PinnedStay(table: map<PageId, Frame>, table': map<PageId, Frame>) {
    forall p :: p in table && table[p].pins > 0 ==>
      p in table' && table'[p].page.body == table[p].page.body && table'[p].pins >= table[p].pins
  }

  lemma {:induction false} CardUpdate(table: map<PageId, Frame>, p: PageId, f: Frame)
    ensures |table[p := f]| == if p in table then |table| else |table| + 1
  {
    assert table[p := f].Keys == table.Keys + {p};
    assert |table.Keys| == |table| && |table[p := f].Keys| == |table[p := f]|;
  }

  lemma {:induction false} CardRemove(table: map<PageId, Frame>, p: PageId)
    requires p in table
    ensures |table - {p}| == |table| - 1
  {
    assert (table - {p}).Keys == table.Keys - {p};
    assert |table.Keys| == |table| && |(table - {p}).Keys| == |table - {p}|;
  }

  /** The page has one more pin; otherwise its frame is as it was, or clean and as the disk has it. No
      other frame has changed. */
  ghost predicate FetchedForRead(s: State, s': State, pid: PageId) {
    && pid in s'.pool && s'.pool[pid].pins == Pins(s.pool, pid) + 1
    && (forall q :: q in s'.pool && q != pid ==> q in s.pool && s'.pool[q] == s.pool[q])
    && var f := s'.pool[pid];
       if pid in s.pool
       then f.page == s.pool[pid].page && f.dirty == s.pool[pid].dirty && f.recLsn == s.pool[pid].recLsn &&
            f.latch == s.pool[pid].latch && s'.disk == s.disk && s'.pool.Keys == s.pool.Keys
       else pid < |s.disk| && f.page == s.disk[pid] && !f.dirty && f.latch.Unlatched?
  }

  lemma {:induction false} ForReadExactly(s: State, mid: State, pid: PageId, maxSize: nat)
    requires MadeRoom(s, mid, pid !in s.pool && |s.pool| >= maxSize) && Enabled(mid, Fetch(pid))
    ensures FetchedForRead(s, Next(mid, Fetch(pid)), pid)
  {
  }

  /** The page has one more pin and is latched; no other frame has changed. A dirty page is as it was. A
      clean one has been backed up by a full-page record, whose LSN is now its LSN and recovery LSN. */
  ghost predicate FetchedForWrite(s: State, s': State, pid: PageId) {
    && pid in s'.pool && s'.pool[pid].latch == Held(false) && s'.pool[pid].pins == Pins(s.pool, pid) + 1
    && (forall q :: q in s'.pool && q != pid ==> q in s.pool && s'.pool[q] == s.pool[q])
    && (pid !in s.pool ==> pid < |s.disk|)
    && var page := if pid in s.pool then s.pool[pid].page else s.disk[pid];
       if pid in s.pool && s.pool[pid].dirty
       then s'.log == s.log && s'.pool[pid].page == page && s'.pool[pid].dirty &&
            s'.pool[pid].recLsn == s.pool[pid].recLsn
       else s'.log == s.log + [Record(End(s.log), 0, pid, 0, FullPage(page))] && !s'.pool[pid].dirty &&
            s'.pool[pid].page == Page(End(s.log), page.body) && s'.pool[pid].recLsn == End(s.log)
  }

  lemma {:induction false} ForWriteExactly(s: State, mid: State, pid: PageId, maxSize: nat)
    requires MadeRoom(s, mid, pid !in s.pool && |s.pool| >= maxSize) && Enabled(mid, FetchForWrite(pid))
    ensures FetchedForWrite(s, Next(mid, FetchForWrite(pid)), pid)
  {
  }

  /** A dirty frame became clean, and nothing else about it changed. */
  predicate FlushedFrame(f: Frame, f': Frame) {
    && !f'.dirty && f'.page == f.page && f'.pins == f.pins && f'.latch == f.latch
    && f'.recLsn == if f.dirty then 0 else f.recLsn
  }

  /** All frames but those of `rest` have been flushed. */
  ghost predicate FlushedBut(s: State, s': State, rest: set<PageId>) {
    && s'.pool.Keys == s.pool.Keys && |s'.disk| == |s.disk|
    && (forall p :: p in s.pool ==> if p in rest then s'.pool[p] == s.pool[p] else FlushedFrame(s.pool[p], s'.pool[p]))
    && forall q :: 0 <= q < |s.disk| ==>
         s'.disk[q] == if q in s.pool && s.pool[q].dirty && q !in rest then s.pool[q].page else s.disk[q]
  }

  datatype Fetched = Ready | PoolFull | NoSuchPage

  datatype Unpinned = Released | NotInPool | NotPinned

  class BufferManager {
    var disk: seq<Page>
    var pageTable: map<PageId, Frame>
    var log: seq<Record>
    const maxSize: nat
    ghost var last: map<nat, Lsn>
    ghost var chk: Lsn
    ghost var steps: seq<Step>

    ghost function Abs(): State
      reads this
    {
      State(log, disk, pageTable, last, chk)
    }

    /** The machine state is one that some run reaches, and the pool keeps to its size. */
    ghost predicate Valid()
      reads this
    {
      Reached(steps, Abs()) && |pageTable| <= maxSize
    }

    constructor (maxSize: nat)
      ensures Valid() && this.maxSize == maxSize && steps == [] && disk == []
    {
      this.maxSize := maxSize;
      disk, pageTable, log := [], map[], [];
      last, chk, steps := map[], 0, [];
    }

    /** firstFind: some unpinned frame. */
    method FirstFind() returns (victim: PageId, found: bool)
      ensures found ==> victim in pageTable && pageTable[victim].pins == 0
      ensures !found ==> AllPinned(pageTable)
    {
      var rest := pageTable.Keys;
      while rest != {}
        invariant rest <= pageTable.Keys
        invariant forall p :: p in pageTable && p !in rest ==> pageTable[p].pins > 0
        decreases rest
      {
        var p :| p in rest;
        if pageTable[p].pins == 0 { return p, true; }
        rest := rest - {p};
      }
      return 0, false;
    }

    /** evict: an unpinned frame is written back if dirty and dropped; it fails only when every
        frame is pinned, and then changes nothing. */
    method EvictFrame() returns (ok: bool, ghost victim: PageId)
      requires Valid()
      modifies this
      ensures Valid() && SameViews(old(Abs()), Abs()) && log == old(log)
      ensures ok == !AllPinned(old(pageTable))
      ensures !ok ==> Abs() == old(Abs()) && steps == old(steps)
      ensures ok ==>
        && victim in old(pageTable) && victim < |old(disk)| && old(pageTable)[victim].pins == 0
        && pageTable == old(pageTable) - {victim} && |pageTable| == |old(pageTable)| - 1
        && disk == (if old(pageTable)[victim].dirty
                    then old(disk)[victim := old(pageTable)[victim].page] else old(disk))
        && Abs() == Next(old(Abs()), Evict(victim))
      ensures PinnedStay(old(pageTable), pageTable)
    {
      var v, found := FirstFind();
      victim := v;
      if !found { return false, victim; }
      InPool(steps, Abs());
      ghost var s := Abs();
      Extend(steps, s, Evict(v));
      CardRemove(pageTable, v);
      if pageTable[v].dirty { disk := disk[v := pageTable[v].page]; }
      pageTable := pageTable - {v};
      steps := steps + [Evict(v)];
      assert Abs() == Next(s, Evict(v));
      return true, victim;
    }

    /** getFrame: pin the frame of a page, loading it first if needed and making room if the pool
        is full. `mid` is the state after making room. */
    method GetFrame(pid: PageId) returns (r: Fetched, ghost mid: State)
      requires Valid()
      modifies this
      ensures Reached(steps, mid) && SameViews(old(Abs()), mid) && |pageTable| <= maxSize && mid.log == old(log)
      ensures if r.Ready? then pid < |mid.disk| && Abs() == DoFetch(mid, pid) else Abs() == mid
      ensures MadeRoom(old(Abs()), mid, pid !in old(pageTable) && |old(pageTable)| >= maxSize)
      ensures pid in mid.pool <==> pid in old(pageTable)
      ensures pid !in old(pageTable) && pid < |old(disk)| ==> mid.disk[pid] == old(disk)[pid]
      ensures r.PoolFull? <==> pid !in old(pageTable) && |old(pageTable)| >= maxSize && AllPinned(old(pageTable))
      ensures r.NoSuchPage? <==> !r.PoolFull? && pid !in old(pageTable) && pid >= |old(disk)|
      ensures PinnedStay(old(pageTable), pageTable)
    {
      mid := Abs();
      InPool(steps, mid);
      if pid in pageTable {
        CardUpdate(pageTable, pid, pageTable[pid].(pins := pageTable[pid].pins + 1));
        pageTable := pageTable[pid := pageTable[pid].(pins := pageTable[pid].pins + 1)];
        return Ready, mid;
      }
      if |pageTable| >= maxSize {
        var ok, victim := EvictFrame();
        if !ok { return PoolFull, mid; }
        mid := Abs();
      }
      if pid >= |disk| { return NoSuchPage, mid; }
      CardUpdate(pageTable, pid, Frame(disk[pid], false, 1, 0, Unlatched));
      pageTable := pageTable[pid := Frame(disk[pid], false, 1, 0, Unlatched)];
      return Ready, mid;
    }

    /** FetchPageForRead: one pin more on the page's frame, which otherwise stays as it was or shows the
        disk. `mid` is the state after making room. */
    method FetchPageForRead(pid: PageId) returns (r: Fetched, ghost mid: State)
      requires Valid()
      modifies this
      ensures Valid() && SameViews(old(Abs()), Abs()) && PinnedStay(old(pageTable), pageTable)
      ensures MadeRoom(old(Abs()), mid, pid !in old(pageTable) && |old(pageTable)| >= maxSize)
      ensures if r.Ready? then Enabled(mid, Fetch(pid)) && Abs() == Next(mid, Fetch(pid)) else Abs() == mid
      ensures log == old(log) && (r.Ready? ==> FetchedForRead(old(Abs()), Abs(), pid))
      ensures r.PoolFull? <==> pid !in old(pageTable) && |old(pageTable)| >= maxSize && AllPinned(old(pageTable))
      ensures r.NoSuchPage? <==> !r.PoolFull? && pid !in old(pageTable) && pid >= |old(disk)|
    {
      r, mid := GetFrame(pid);
      if r.Ready? {
        Extend(steps, mid, Fetch(pid));
        ForReadExactly(old(Abs()), mid, pid, maxSize);
        steps := steps + [Fetch(pid)];
      }
    }

    /** FetchPageForWrite: a page that is clean when its latch is taken is first backed up by a
        full-page record, whose LSN becomes page LSN and recovery LSN. A caller waits for the
        latch, so it is free when the call goes on. */
    method FetchPageForWrite(pid: PageId) returns (r: Fetched, ghost mid: State)
      requires Valid() && (pid in pageTable ==> pageTable[pid].latch.Unlatched?)
      modifies this
      ensures Valid() && SameViews(old(Abs()), Abs()) && PinnedStay(old(pageTable), pageTable)
      ensures MadeRoom(old(Abs()), mid, pid !in old(pageTable) && |old(pageTable)| >= maxSize)
      ensures if r.Ready? then Enabled(mid, FetchForWrite(pid)) && Abs() == Next(mid, FetchForWrite(pid))
              else Abs() == mid
      ensures r.Ready? ==> FetchedForWrite(old(Abs()), Abs(), pid)
      ensures !r.Ready? ==> log == old(log)
      ensures r.PoolFull? <==> pid !in old(pageTable) && |old(pageTable)| >= maxSize && AllPinned(old(pageTable))
      ensures r.NoSuchPage? <==> !r.PoolFull? && pid !in old(pageTable) && pid >= |old(disk)|
    {
      r, mid := GetFrame(pid);
      if r.Ready? {
        LatchFrame(pid, mid);
        ForWriteExactly(old(Abs()), mid, pid, maxSize);
      }
    }

    /** The latch is taken; a clean page is backed up. */
    method LatchFrame(pid: PageId, ghost mid: State)
      requires Reached(steps, mid) && Enabled(mid, FetchForWrite(pid))
      requires Abs() == DoFetch(mid, pid) && |pageTable| <= maxSize
      modifies this
      ensures Valid() && SameViews(mid, Abs()) && Abs() == Next(mid, FetchForWrite(pid))
      ensures pid in old(pageTable) && pid in pageTable && pageTable == old(pageTable)[pid := pageTable[pid]]
      ensures pageTable[pid].page.body == old(pageTable)[pid].page.body
      ensures pageTable[pid].pins == old(pageTable)[pid].pins
    {
      Extend(steps, mid, FetchForWrite(pid));
      var f := pageTable[pid];
      if !f.dirty {
        var lsn := End(log);
        log := log + [Record(lsn, 0, pid, 0, FullPage(f.page))];
        f := f.(page := f.page.(lsn := lsn), recLsn := lsn);
      }
      CardUpdate(pageTable, pid, f.(latch := Held(false)));
      pageTable := pageTable[pid := f.(latch := Held(false))];
      steps := steps + [FetchForWrite(pid)];
      assert Abs() == Next(mid, FetchForWrite(pid));
    }

    /** UnpinPage. A writer holds the latch and unpins dirty if it changed the page; a reader
        has a pin of its own. */
    method UnpinPage(pid: PageId, isDirty: bool, isWrite: bool) returns (r: Unpinned)
      requires Valid()
      requires pid in pageTable && pageTable[pid].pins > 0 ==>
        if isWrite then pageTable[pid].latch.Held? && (pageTable[pid].latch.touched ==> isDirty)
        else !isDirty && (pageTable[pid].latch.Held? ==> pageTable[pid].pins > 1)
      modifies this
      ensures Valid() && SameViews(old(Abs()), Abs()) && disk == old(disk) && log == old(log)
      ensures r.NotInPool? <==> pid !in old(pageTable)
      ensures r.NotPinned? <==> pid in old(pageTable) && old(pageTable)[pid].pins == 0
      ensures !r.Released? ==> Abs() == old(Abs())
      ensures r.Released? ==>
        && pageTable.Keys == old(pageTable).Keys && pageTable[pid].pins == old(pageTable)[pid].pins - 1
        && (forall q :: q in pageTable && q != pid ==> pageTable[q] == old(pageTable)[q])
        && pageTable[pid].dirty == (old(pageTable)[pid].dirty || isDirty)
        && pageTable[pid].page == old(pageTable)[pid].page && pageTable[pid].recLsn == old(pageTable)[pid].recLsn
        && pageTable[pid].latch == if isWrite then Unlatched else old(pageTable)[pid].latch
    {
      if pid !in pageTable { return NotInPool; }
      var f := pageTable[pid];
      if f.pins == 0 { return NotPinned; }
      ghost var s, x := Abs(), if isWrite then Unpin(pid, isDirty) else Release(pid);
      Extend(steps, s, x);
      f := f.(pins := f.pins - 1);
      if isDirty { f := f.(dirty := true); }
      if isWrite { f := f.(latch := Unlatched); }
      CardUpdate(pageTable, pid, f);
      pageTable := pageTable[pid := f];
      steps := steps + [x];
      assert Abs() == Next(s, x);
      return Released;
    }

    /** FlushAll: afterwards nothing is dirty and the disk alone shows what the pool over the disk
        showed before, except for pages a writer is still changing. */
    method FlushAll()
      requires Valid()
      modifies this
      ensures Valid() && SameViews(old(Abs()), Abs()) && log == old(log)
      ensures pageTable.Keys == old(pageTable).Keys
      ensures forall p :: p in pageTable ==> FlushedFrame(old(pageTable)[p], pageTable[p])
      ensures |disk| == |old(disk)| && forall q :: 0 <= q < |disk| ==>
        disk[q] == if q in old(pageTable) && old(pageTable)[q].dirty then old(pageTable)[q].page else old(disk)[q]
      ensures |disk| == |old(disk)| && forall q :: 0 <= q < |disk| && !(q in pageTable && pageTable[q].Touched()) ==>
        disk[q].body == View(old(Abs()), q)
    {
      ghost var s0 := Abs();
      var rest := pageTable.Keys;
      while rest != {}
        invariant Valid() && SameViews(s0, Abs()) && log == s0.log
        invariant rest <= pageTable.Keys && pageTable.Keys == s0.pool.Keys
        invariant FlushedBut(s0, Abs(), rest)
        decreases rest
      {
        var p :| p in rest;
        if pageTable[p].dirty { FlushFrame(p); }
        rest := rest - {p};
      }
      CleanPoolOnDisk(steps, Abs());
    }

    method FlushFrame(p: PageId)
      requires Valid() && p in pageTable && pageTable[p].dirty
      modifies this
      ensures Valid() && SameViews(old(Abs()), Abs()) && log == old(log)
      ensures pageTable == old(pageTable)[p := old(pageTable)[p].(dirty := false, recLsn := 0)]
      ensures p < |old(disk)| && disk == old(disk)[p := old(pageTable)[p].page]
    {
      ghost var s := Abs();
      InPool(steps, s);
      Extend(steps, s, Flush(p));
      disk := disk[p := pageTable[p].page];
      CardUpdate(pageTable, p, pageTable[p].(dirty := false, recLsn := 0));
      pageTable := pageTable[p := pageTable[p].(dirty := false, recLsn := 0)];
      steps := steps + [Flush(p)];
      assert Abs() == Next(s, Flush(p));
    }

    /** GetDirtyPageTable */
    method GetDirtyPageTable() returns (dpt: map<PageId, Lsn>)
      ensures dpt == DirtyTable(pageTable)
      ensures forall p :: p in dpt <==> p in pageTable && pageTable[p].dirty
      ensures forall p :: p in dpt ==> dpt[p] == pageTable[p].recLsn
    {
      dpt := map[];
      var rest := pageTable.Keys;
      while rest != {}
        invariant rest <= pageTable.Keys
        invariant forall p :: p in dpt <==> p in pageTable && p !in rest && pageTable[p].dirty
        invariant forall p :: p in dpt ==> dpt[p] == pageTable[p].recLsn
        decreases rest
      {
        var p :| p in rest;
        if pageTable[p].dirty { dpt := dpt[p := pageTable[p].recLsn]; }
        rest := rest - {p};
      }
    }

    /** Pager.AllocatePage: a new page at the end of the file. */
    method AllocatePage(body: Body) returns (pid: PageId)
      requires Valid() && (body.Leaf? ==> body.cells == [])
      modifies this
      ensures Valid() && pid == |old(disk)| && disk == old(disk) + [Page(0, body)]
      ensures pageTable == old(pageTable) && log == old(log)
      ensures forall q :: 0 <= q < pid ==> View(Abs(), q) == View(old(Abs()), q)
    {
      ghost var s := Abs();
      Extend(steps, s, Allocate(body));
      pid := |disk|;
      disk := disk + [Page(0, body)];
      steps := steps + [Allocate(body)];
    }

    /** A writer logs the after-image of the page it has latched and stores it (splits). */
    method StoreImage(pid: PageId, body: Body)
      requires Valid() && pid in pageTable && pageTable[pid].latch.Held?
      requires body.Leaf? ==> UniqueKeys(body.cells) && Fits(body.cells)
      modifies this
      ensures Valid() && disk == old(disk) && |disk| > pid && View(Abs(), pid) == body
      ensures forall q :: 0 <= q < |disk| && q != pid ==> View(Abs(), q) == View(old(Abs()), q)
      ensures pid in pageTable && pageTable == old(pageTable)[pid := pageTable[pid]]
      ensures pageTable[pid] == old(pageTable)[pid].(page := Page(End(old(log)), body), latch := Held(true))
      ensures log == old(log) + [Record(End(old(log)), 0, pid, 0, FullPage(Page(old(pageTable)[pid].page.lsn, body)))]
    {
      ghost var s := Abs();
      InPool(steps, s);
      Extend(steps, s, WriteImage(pid, body));
      var lsn := End(log);
      log := log + [Record(lsn, 0, pid, 0, FullPage(Page(pageTable[pid].page.lsn, body)))];
      CardUpdate(pageTable, pid, pageTable[pid].(page := Page(lsn, body), latch := Held(true)));
      pageTable := pageTable[pid := pageTable[pid].(page := Page(lsn, body), latch := Held(true))];
      steps := steps + [WriteImage(pid, body)];
      assert Abs() == Next(s, WriteImage(pid, body));
    }

    /** The part of BTree.Checkpoint that writes the log. The result is a state of the machine if no
        writer is between changing a page and unpinning it; module FuzzyCheckpoint has the rest. */
    method WriteCheckpoint() returns (lsn: Lsn)
      requires Valid()
      modifies this
      ensures disk == old(disk) && pageTable == old(pageTable) && lsn == End(old(log))
      ensures log == old(log) + [Record(lsn, 0, 0, 0, Checkpoint(DirtyTable(pageTable)))]
      ensures Enabled(old(Abs()), TakeCheckpoint) ==> Valid()
    {
      ghost var s := Abs();
      var dpt := GetDirtyPageTable();
      lsn := End(log);
      log := log + [Record(lsn, 0, 0, 0, Checkpoint(dpt))];
      if Enabled(s, TakeCheckpoint) {
        Extend(steps, s, TakeCheckpoint);
        steps := steps + [TakeCheckpoint];
        assert Abs() == Next(s, TakeCheckpoint);
      }
    }
  }

  lemma {:induction false} InPool(steps: seq<Step>, s: State)
    requires Reached(steps, s)
    ensures forall p :: p in s.pool ==> p < |s.disk|
  {
    ReachableInv(steps);
  }

  /** Pages that are neither dirty nor being changed are on disk as the pool shows them. */
  lemma {:induction false} CleanPoolOnDisk(steps: seq<Step>, s: State)
    requires Reached(steps, s)
    ensures forall q :: 0 <= q < |s.disk| && !(q in s.pool && (s.pool[q].dirty || s.pool[q].Touched())) ==>
      s.disk[q].body == View(s, q)
  {
    ReachableInv(steps);
    forall q | 0 <= q < |s.disk| && !(q in s.pool && (s.pool[q].dirty || s.pool[q].Touched()))
      ensures s.disk[q].body == View(s, q)
    {
      assert PageOk(s, q);
    }
  }
}
