/** BTree.Recover: the three loops of recovery.go, proved against the functions of Redo and
    Undo. Pages are the pool-over-disk view of the buffer manager. */
module Recovery {
  import opened Bytes
  import opened Cells
  import opened MvccKeys
  import opened Log
  import opened Redo
  import opened Undo
  import opened Folding

  // ---- Undo chains ----

  /** `x` is on the PrevLSN chain that starts at `l`. */
  predicate InChain(log: seq<Record>, l: Lsn, x: Lsn)
    decreases l
  {
    l != 0 && (l == x || (var r := ReadRecord(log, l); r.Some? && r.value.prev < l && InChain(log, r.value.prev, x)))
  }

  /** The record is on the chain of an active transaction. */
  predicate ToUndo(log: seq<Record>, att: map<nat, Lsn>, r: Record) {
    r.txn in att && InChain(log, att[r.txn], r.lsn)
  }

  /** All records on chains of active transactions among the first `n`, in log order. */
  function UndoList(log: seq<Record>, att: map<nat, Lsn>, n: nat): seq<Record>
    requires n <= |log|
  {
    if n == 0 then []
    else UndoList(log, att, n - 1) + if ToUndo(log, att, log[n - 1]) then [log[n - 1]] else []
  }

  /** The list of work holds exactly the records on chains of active transactions, each once and
      in strictly increasing LSN order; undo takes it from the back. */
  lemma {:induction false} UndoListExact(log: seq<Record>, att: map<nat, Lsn>, n: nat)
    requires WellFormed(log) && n <= |log|
    ensures var work := UndoList(log, att, n);
      && (forall r :: r in work <==> ToUndo(log, att, r) && exists k :: 0 <= k < n && log[k] == r)
      && (forall i, j :: 0 <= i < j < |work| ==> work[i].lsn < work[j].lsn)
  {
    UndoListHolds(log, att, n);
    if n > 0 {
      UndoListExact(log, att, n - 1);
      UndoListHolds(log, att, n - 1);
      forall r | r in UndoList(log, att, n - 1) ensures r.lsn < log[n - 1].lsn {
        var k :| 0 <= k < n - 1 && log[k] == r;
        LsnOrder(log, k, n - 1);
      }
    }
  }

  lemma {:induction false} UndoListHolds(log: seq<Record>, att: map<nat, Lsn>, n: nat)
    requires n <= |log|
    ensures forall r :: r in UndoList(log, att, n) <==> ToUndo(log, att, r) && exists k :: 0 <= k < n && log[k] == r
  {
    if n > 0 { UndoListHolds(log, att, n - 1); }
  }

  /** Each entry names a record of its transaction. */
  ghost predicate AttOk(log: seq<Record>, att: map<nat, Lsn>) {
    forall t :: t in att ==> exists i :: 0 <= i < |log| && log[i].lsn == att[t] && log[i].txn == t
  }

  /** The table after the record with the largest LSN has been undone. */
  function Advance(att: map<nat, Lsn>, r: Record): map<nat, Lsn> {
    if r.prev == 0 then att - {r.txn} else att[r.txn := r.prev]
  }

  lemma {:induction false} ChainBelow(log: seq<Record>, l: Lsn, x: Lsn)
    requires InChain(log, l, x)
    ensures 0 < x <= l
    decreases l
  {
    if l != x { ChainBelow(log, ReadRecord(log, l).value.prev, x); }
  }

  lemma {:induction false} NoneToUndo(log: seq<Record>, att: map<nat, Lsn>, lo: nat, n: nat)
    requires lo <= n <= |log|
    requires forall j :: lo <= j < n ==> !ToUndo(log, att, log[j])
    ensures UndoList(log, att, n) == UndoList(log, att, lo)
    decreases n
  {
    if lo < n { NoneToUndo(log, att, lo, n - 1); }
  }

  lemma {:induction false} SameToUndo(log: seq<Record>, att: map<nat, Lsn>, att': map<nat, Lsn>, n: nat)
    requires n <= |log|
    requires forall j :: 0 <= j < n ==> (ToUndo(log, att, log[j]) <==> ToUndo(log, att', log[j]))
    ensures UndoList(log, att, n) == UndoList(log, att', n)
  {
    if n > 0 { SameToUndo(log, att, att', n - 1); }
  }

  /** Record number `i` carries the largest LSN of the table. */
  ghost predicate IsMax(log: seq<Record>, att: map<nat, Lsn>, i: nat) {
    && i < |log| && log[i].txn in att && att[log[i].txn] == log[i].lsn
    && forall t :: t in att ==> att[t] <= log[i].lsn
  }

  lemma {:induction false} PrevBelow(log: seq<Record>, i: nat)
    requires WellFormed(log) && ChainsOk(log) && i < |log|
    ensures log[i].prev < log[i].lsn && log[i].lsn > 0
    ensures log[i].prev != 0 ==> exists k :: 0 <= k < |log| && log[k].lsn == log[i].prev && log[k].txn == log[i].txn
  {
    LsnsBelowEnd(log);
    if log[i].prev != 0 {
      var j :| 0 <= j < i && log[j].lsn == log[i].prev && log[j].txn == log[i].txn;
      LsnOrder(log, j, i);
    }
  }

  /** Entries of different transactions name different records. */
  lemma {:induction false} OtherEntryBelow(log: seq<Record>, att: map<nat, Lsn>, i: nat, t: nat)
    requires WellFormed(log) && AttOk(log, att) && IsMax(log, att, i) && t in att && t != log[i].txn
    ensures att[t] < log[i].lsn
  {
    var k :| 0 <= k < |log| && log[k].lsn == att[t] && log[k].txn == t;
    if k < i { LsnOrder(log, k, i); } else { LsnOrder(log, i, k); }
  }

  lemma {:induction false} AdvanceOk(log: seq<Record>, att: map<nat, Lsn>, i: nat)
    requires WellFormed(log) && ChainsOk(log) && AttOk(log, att) && IsMax(log, att, i)
    ensures AttOk(log, Advance(att, log[i]))
    ensures forall t :: t in Advance(att, log[i]) ==> Advance(att, log[i])[t] < log[i].lsn
    ensures log[i].prev < log[i].lsn && log[i].lsn > 0
  {
    var att' := Advance(att, log[i]);
    PrevBelow(log, i);
    forall t | t in att' ensures att'[t] < log[i].lsn {
      if t != log[i].txn { OtherEntryBelow(log, att, i, t); }
    }
    forall t | t in att' ensures exists k :: 0 <= k < |log| && log[k].lsn == att'[t] && log[k].txn == t {
      assert t != log[i].txn ==> att'[t] == att[t];
    }
  }

  lemma {:induction false} AboveTable(log: seq<Record>, att: map<nat, Lsn>, r: Record)
    requires forall t :: t in att ==> att[t] < r.lsn
    ensures !ToUndo(log, att, r)
  {
    if ToUndo(log, att, r) { ChainBelow(log, att[r.txn], r.lsn); }
  }

  lemma {:induction false} ChainStep(log: seq<Record>, i: nat, x: Lsn)
    requires WellFormed(log) && i < |log| && log[i].prev < log[i].lsn && x != log[i].lsn
    ensures InChain(log, log[i].lsn, x) <==> InChain(log, log[i].prev, x)
  {
    ReadFinds(log, i);
  }

  lemma {:induction false} BelowMax(log: seq<Record>, att: map<nat, Lsn>, i: nat, j: nat)
    requires WellFormed(log) && IsMax(log, att, i) && log[i].prev < log[i].lsn && j < i
    ensures ToUndo(log, att, log[j]) <==> ToUndo(log, Advance(att, log[i]), log[j])
  {
    LsnOrder(log, j, i);
    ChainStep(log, i, log[j].lsn);
  }

  /** One round of the loop takes exactly the last record off the list of work. */
  lemma {:induction false} UndoListStep(log: seq<Record>, att: map<nat, Lsn>, i: nat)
    requires WellFormed(log) && ChainsOk(log) && AttOk(log, att) && IsMax(log, att, i)
    ensures UndoList(log, att, |log|) == UndoList(log, Advance(att, log[i]), |log|) + [log[i]]
  {
    var att' := Advance(att, log[i]);
    AdvanceOk(log, att, i);
    forall j | i < j < |log| ensures !ToUndo(log, att, log[j]) {
      LsnOrder(log, i, j);
      AboveTable(log, att, log[j]);
    }
    NoneToUndo(log, att, i + 1, |log|);
    forall j | i <= j < |log| ensures !ToUndo(log, att', log[j]) {
      if i < j { LsnOrder(log, i, j); }
      AboveTable(log, att', log[j]);
    }
    NoneToUndo(log, att', i, |log|);
    forall j | 0 <= j < i ensures ToUndo(log, att, log[j]) <==> ToUndo(log, att', log[j]) {
      BelowMax(log, att, i, j);
    }
    SameToUndo(log, att, att', i);
  }

  /** Analysis only ever enters LSNs of the transaction's own records. */
  lemma {:induction false} AnalysisAttOk(log: seq<Record>, from: nat)
    ensures AttOk(log, Att(log, from))
  {
    AttOkUpTo(log, |log|, from);
    assert log[..|log|] == log;
  }

  lemma {:induction false} AttOkUpTo(log: seq<Record>, n: nat, from: nat)
    requires n <= |log|
    ensures AttOk(log, Att(log[..n], from))
  {
    if n > from {
      assert log[..n][..n - 1] == log[..n - 1];
      AttOkUpTo(log, n - 1, from);
    }
  }

  function Bodies(pages: seq<Page>): seq<Body> {
    seq(|pages|, i requires 0 <= i < |pages| => pages[i].body)
  }

  function CountWrites(rs: seq<Record>, pages: nat): nat {
    if rs == [] then 0
    else CountWrites(rs[..|rs| - 1], pages) +
         if rs[|rs| - 1].payload.Write? && rs[|rs| - 1].page < pages then 1 else 0
  }

  /** Where the loop stands when it has `i` records behind it. */
  function LsnAt(log: seq<Record>, i: nat): Lsn
    requires i <= |log|
  {
    if i < |log| then log[i].lsn else End(log)
  }

  /** What ReadRecord finds there. */
  function RecordAt(log: seq<Record>, i: nat): Option<Record> {
    if i < |log| then Some(log[i]) else None
  }

  lemma {:induction false} ReadAt(log: seq<Record>, i: nat)
    requires WellFormed(log) && i <= |log|
    ensures ReadRecord(log, LsnAt(log, i)) == RecordAt(log, i)
  {
    ReadFinds(log, i);
  }

  lemma {:induction false} FirstLsn(log: seq<Record>)
    requires WellFormed(log)
    ensures LsnAt(log, 0) == FIRST_LSN
  {
    if log != [] { assert InOrder(log, 0); }
  }

  lemma {:induction false} LsnAtStep(log: seq<Record>, i: nat)
    requires WellFormed(log) && i < |log|
    ensures LsnAt(log, i + 1) == log[i].lsn + Size(log[i].payload)
  {
    assert log[..i + 1][i] == log[i];
    assert i + 1 < |log| ==> InOrder(log, i + 1);
    assert i + 1 == |log| ==> log[..i + 1] == log;
  }

  lemma {:induction false} AnalysisStep(log: seq<Record>, i: nat, from: nat)
    requires from <= i < |log|
    ensures Dpt(log[..i + 1], from) == DptStep(Dpt(log[..i], from), log[i])
    ensures Att(log[..i + 1], from) == AttStep(Att(log[..i], from), log[i])
  {
    assert log[..i + 1][..i] == log[..i];
  }

  /** The tables after `i` records, folded. */
  ghost predicate TablesAt(log: seq<Record>, from: nat, i: nat, dpt: map<PageId, Lsn>, att: map<nat, Lsn>)
    requires i <= |log|
  {
    forall n: nat :: Unfold(n) ==> dpt == Dpt(log[..i], from) && att == Att(log[..i], from)
  }

  lemma {:induction false} TablesStart(log: seq<Record>, from: nat)
    requires from <= |log|
    ensures TablesAt(log, from, from, map[], map[])
  {
  }

  lemma {:induction false} TablesNext(log: seq<Record>, from: nat, i: nat, dpt: map<PageId, Lsn>, att: map<nat, Lsn>)
    requires from <= i < |log| && TablesAt(log, from, i, dpt, att)
    ensures TablesAt(log, from, i + 1, DptStep(dpt, log[i]), AttStep(att, log[i]))
  {
    assert Unfold(0);
    AnalysisStep(log, i, from);
  }

  lemma {:induction false} TablesEnd(log: seq<Record>, from: nat, dpt: map<PageId, Lsn>, att: map<nat, Lsn>)
    requires TablesAt(log, from, |log|, dpt, att)
    ensures dpt == Dpt(log, from) && att == Att(log, from)
  {
    assert Unfold(0);
    assert log[..|log|] == log;
  }

  lemma {:induction false} RedoStep(p: Page, pid: PageId, log: seq<Record>, i: nat, dpt: map<PageId, Lsn>)
    requires i < |log|
    ensures FastRedo(p, pid, log[..i + 1], dpt) ==
      var q := FastRedo(p, pid, log[..i], dpt);
      if log[i].page == pid && InRange(log[i], dpt) then RedoOne(q, log[i]) else q
  {
    assert log[..i + 1] == log[..i] + [log[i]];
    if pid in dpt { RedoSnoc(p, pid, log[..i], log[i], dpt[pid]); }
  }

  /** Redo has come to record number `n`; no page has lost an LSN. */
  ghost predicate RedoneUpTo(before: seq<Page>, after: seq<Page>, log: seq<Record>, n: nat, dpt: map<PageId, Lsn>)
    requires n <= |log|
  {
    && |after| == |before|
    && (forall pid :: 0 <= pid < |before| ==> after[pid] == FastRedo(before[pid], pid, log[..n], dpt))
    && forall pid :: 0 <= pid < |before| ==> before[pid].lsn <= after[pid].lsn
  }

  /** All records in range among the first `n` are for existing pages. */
  predicate PagesExist(log: seq<Record>, n: nat, dpt: map<PageId, Lsn>, pages: nat)
    requires n <= |log|
  {
    forall i :: 0 <= i < n && InRange(log[i], dpt) ==> log[i].page < pages
  }

  /** Redo stops at record number `n`, for a page that does not exist. */
  ghost predicate StoppedAt(v: Volume, v': Volume, n: nat, dpt: map<PageId, Lsn>) {
    && n < |v.log| && InRange(v.log[n], dpt) && v.log[n].page >= |v.pages|
    && RedoneUpTo(v.pages, v'.pages, v.log, n, dpt)
  }

  /** Where the redo loop stands, folded. */
  ghost predicate RedoAt(v: Volume, v': Volume, n: nat, dpt: map<PageId, Lsn>)
    requires n <= |v.log|
  {
    forall u: nat :: Unfold(u) ==>
      && RedoneUpTo(v.pages, v'.pages, v.log, n, dpt) && PagesExist(v.log, n, dpt, |v.pages|)
      && v'.dirty == v.dirty + Changed(v.pages, v'.pages)
  }

  lemma {:induction false} RedoStart(v: Volume, k: nat, dpt: map<PageId, Lsn>)
    requires k <= |v.log| && forall i, pid :: 0 <= i < k && pid in dpt ==> v.log[i].lsn < dpt[pid]
    ensures RedoAt(v, v, k, dpt)
  {
    forall pid | 0 <= pid < |v.pages| ensures v.pages[pid] == FastRedo(v.pages[pid], pid, v.log[..k], dpt) {
      if pid in dpt { RedoNothing(v.pages[pid], pid, v.log[..k], dpt[pid]); }
    }
  }

  lemma {:induction false} RedoNext(v: Volume, mid: Volume, v': Volume, i: nat, dpt: map<PageId, Lsn>)
    requires i < |v.log| && v.log[i].lsn > 0 && RedoAt(v, mid, i, dpt)
    requires var r := v.log[i];
      if InRange(r, dpt)
      then r.page < |mid.pages| == |v.pages| && v'.pages == mid.pages[r.page := RedoOne(mid.pages[r.page], r)] &&
           v'.dirty == if mid.pages[r.page].lsn < r.lsn then mid.dirty + {r.page} else mid.dirty
      else v' == mid
    ensures RedoAt(v, v', i + 1, dpt)
  {
    assert Unfold(0);
    forall pid | 0 <= pid < |v.pages| ensures v'.pages[pid] == FastRedo(v.pages[pid], pid, v.log[..i + 1], dpt) {
      RedoStep(v.pages[pid], pid, v.log, i, dpt);
    }
  }

  lemma {:induction false} RedoEnd(v: Volume, v': Volume, n: nat, dpt: map<PageId, Lsn>)
    requires n <= |v.log| && RedoAt(v, v', n, dpt)
    ensures RedoneUpTo(v.pages, v'.pages, v.log, n, dpt) && PagesExist(v.log, n, dpt, |v.pages|)
    ensures v'.dirty == v.dirty + Changed(v.pages, v'.pages)
  {
    assert Unfold(0);
  }

  /** Skip rules 1 and 2 do not apply. */
  predicate InRange(r: Record, dpt: map<PageId, Lsn>) {
    r.page in dpt && r.lsn >= dpt[r.page]
  }

  /** redoUpsertOnPage: extraction with swap or erase, then the refill of the wiped page. */
  method RedoUpsertOnPage(cells: seq<Cell>, key: Bytes, new_: Option<Cell>) returns (page: seq<Cell>)
    ensures page == Fill(Rewrite(cells, key, new_))
  {
    var kept := ExtractCells(cells, key, new_);
    page := RefillPage(kept);
  }

  /** Page.Insert of each cell in turn into the wiped page, errors ignored. */
  method RefillPage(cells: seq<Cell>) returns (page: seq<Cell>)
    ensures page == Fill(cells)
  {
    page := [];
    for i := 0 to |cells|
      invariant page == Fill(cells[..i])
    {
      assert cells[..i + 1][..i] == cells[..i];
      if Fits(page + [cells[i]]) { page := page + [cells[i]]; }
    }
    assert cells[..|cells|] == cells;
  }

  /** The extraction loop. */
  method ExtractCells(cells: seq<Cell>, key: Bytes, new_: Option<Cell>) returns (kept: seq<Cell>)
    ensures kept == Rewrite(cells, key, new_)
  {
    var keyExists := false;
    kept := [];
    for i := 0 to |cells|
      invariant kept == Swap(cells[..i], key, new_)
      invariant keyExists == HasKey(cells[..i], key)
    {
      assert cells[..i + 1][..i] == cells[..i];
      assert cells[..i + 1] == cells[..i] + [cells[i]];
      if cells[i].key == key {
        keyExists := true;
        if new_.Some? { kept := kept + [new_.value]; }
      } else {
        kept := kept + [cells[i]];
      }
    }
    assert cells[..|cells|] == cells;
    if !keyExists && new_.Some? { kept := kept + [new_.value]; }
  }

  // ---- What undo leaves in log, pages and pool ----

  /** The log, the pages as the pool over the disk shows them, and the pages whose frames are dirty. */
  datatype Volume = Volume(log: seq<Record>, pages: seq<Page>, dirty: set<PageId>)

  /** The full-page record that backs a clean page up before it is changed. */
  function BackedUp(v: Volume, pid: PageId): seq<Record>
    requires pid < |v.pages|
  {
    v.log + [Record(End(v.log), 0, pid, 0, FullPage(v.pages[pid]))]
  }

  /** The compensation record of an undone write: it points past the write to the record before it. */
  function Compensated(log: seq<Record>, r: Record): seq<Record>
    requires r.payload.Write?
  {
    log + [Record(End(log), r.txn, r.page, r.prev, Clr(r.payload.key, r.payload.value))]
  }

  function WithAbort(v: Volume, txn: nat): Volume {
    v.(log := v.log + [Record(End(v.log), txn, 0, 0, Abort)])
  }

  /** The write of `r` has been undone: its page was backed up unless its frame was dirty, holds the
      inverse, carries the LSN of the compensation record and is dirty. No other page changes, and no
      other frame becomes dirty; some may have been written back meanwhile. */
  ghost predicate WriteUndone(v: Volume, r: Record, v': Volume) {
    && r.payload.Write? && r.page < |v.pages|
    && (v'.log == Compensated(BackedUp(v, r.page), r) || (r.page in v.dirty && v'.log == Compensated(v.log, r)))
    && v'.pages == v.pages[r.page := Page(v'.log[|v'.log| - 1].lsn,
                           RedoUpsert(v.pages[r.page].body, r.payload.key, UndoCellOf(r.payload)))]
    && r.page in v'.dirty && v'.dirty <= v.dirty + {r.page}
  }

  /** Writes to existing pages are undone, other records are passed over. */
  ghost predicate Passed(v: Volume, r: Record, v': Volume) {
    if r.payload.Write? && r.page < |v.pages| then WriteUndone(v, r, v') else v' == v
  }

  /** One round of undo: a transaction whose chain ends here gets its abort record, if `aborts`. */
  ghost predicate RoundDone(v: Volume, r: Record, v': Volume, aborts: bool) {
    if aborts && r.prev == 0 then exists mid :: Passed(v, r, mid) && v' == WithAbort(mid, r.txn) else Passed(v, r, v')
  }

  lemma {:induction false} RoundEnds(v: Volume, r: Record, mid: Volume, v': Volume)
    requires Passed(v, r, mid) && v' == if r.prev == 0 then WithAbort(mid, r.txn) else mid
    ensures RoundDone(v, r, v', true)
  {
  }

  /** The records, given in log order, have been undone one after the other, newest first. */
  ghost predicate UndoneInTurn(v: Volume, rs: seq<Record>, v': Volume, aborts: bool)
    decreases |rs|
  {
    if rs == [] then v' == v
    else
      var front, r := rs[..|rs| - 1], rs[|rs| - 1];
      exists mid :: RoundDone(v, r, mid, aborts) && UndoneInTurn(mid, front, v', aborts)
  }

  /** Seen from the page contents, undo in turn is UndoAll. */
  lemma {:induction false} UndoneBodies(v: Volume, rs: seq<Record>, v': Volume, aborts: bool)
    requires UndoneInTurn(v, rs, v', aborts)
    ensures Bodies(v'.pages) == UndoAll(Bodies(v.pages), rs) && |v'.pages| == |v.pages|
    decreases |rs|
  {
    if rs != [] {
      var front, r := rs[..|rs| - 1], rs[|rs| - 1];
      var mid :| RoundDone(v, r, mid, aborts) && UndoneInTurn(mid, front, v', aborts);
      RoundBodies(v, r, mid, aborts);
      UndoneBodies(mid, front, v', aborts);
    }
  }

  lemma {:induction false} RoundBodies(v: Volume, r: Record, v': Volume, aborts: bool)
    requires RoundDone(v, r, v', aborts)
    ensures Bodies(v'.pages) == UndoRecord(Bodies(v.pages), r) && |v'.pages| == |v.pages|
  {
    var mid :| Passed(v, r, mid) && v'.pages == mid.pages;
    if r.payload.Write? && r.page < |v.pages| {
      assert Bodies(mid.pages) == UndoRecord(Bodies(v.pages), r);
    }
  }

  /** What is left to do at `v` completes what was to be done at `v0`. */
  ghost predicate Onward(v0: Volume, rs0: seq<Record>, v: Volume, rs: seq<Record>, aborts: bool) {
    forall w :: UndoneInTurn(v, rs, w, aborts) ==> UndoneInTurn(v0, rs0, w, aborts)
  }

  lemma {:induction false} OnwardStep(v0: Volume, rs0: seq<Record>, v: Volume, v': Volume, rest: seq<Record>, r: Record,
        aborts: bool)
    requires Onward(v0, rs0, v, rest + [r], aborts) && RoundDone(v, r, v', aborts)
    ensures Onward(v0, rs0, v', rest, aborts)
  {
    assert (rest + [r])[..|rest|] == rest;
    forall w | UndoneInTurn(v', rest, w, aborts) ensures UndoneInTurn(v0, rs0, w, aborts) {
      assert UndoneInTurn(v, rest + [r], w, aborts);
    }
  }

  /** Rounds of undo add no transaction to the table that analysis makes of the log, and take away those
      whose chain has ended. */
  lemma {:induction false} PassedAtt(v: Volume, r: Record, v': Volume, from: nat)
    requires Passed(v, r, v') && from <= |v.log|
    ensures Att(v'.log, from).Keys <= Att(v.log, from).Keys + {r.txn} && |v.log| <= |v'.log|
  {
    if r.payload.Write? && r.page < |v.pages| {
      AttSnoc(v.log, Record(End(v.log), 0, r.page, 0, FullPage(v.pages[r.page])), from);
      AttSnoc(v.log, Compensated(v.log, r)[|v.log|], from);
      var log1 := BackedUp(v, r.page);
      AttSnoc(log1, Compensated(log1, r)[|log1|], from);
    }
  }

  lemma {:induction false} AttSnoc(log: seq<Record>, r: Record, from: nat)
    requires from <= |log|
    ensures Att(log + [r], from) == AttStep(Att(log, from), r)
  {
    assert (log + [r])[..|log|] == log;
  }

  lemma {:induction false} NobodyIsActive(log: seq<Record>, from: nat)
    ensures 0 !in Att(log, from)
    decreases |log|
  {
    if |log| > from { NobodyIsActive(log[..|log| - 1], from); }
  }

  lemma {:induction false} RoundAtt(v: Volume, r: Record, v': Volume, att: map<nat, Lsn>, from: nat)
    requires RoundDone(v, r, v', true) && from <= |v.log| && r.txn in att
    requires Att(v.log, from).Keys <= att.Keys
    ensures Att(v'.log, from).Keys <= Advance(att, r).Keys && |v.log| <= |v'.log|
  {
    NobodyIsActive(v'.log, from);
    if r.prev == 0 {
      var mid :| Passed(v, r, mid) && v' == WithAbort(mid, r.txn);
      PassedAtt(v, r, mid, from);
      AttSnoc(mid.log, Record(End(mid.log), r.txn, 0, 0, Abort), from);
    } else {
      PassedAtt(v, r, v', from);
    }
  }

  class RecoveryManager {
    var log: seq<Record>
    var pages: seq<Page>
    var dirty: set<PageId>

    ghost function Now(): Volume
      reads this
    {
      Volume(log, pages, dirty)
    }

    constructor (log: seq<Record>, pages: seq<Page>)
      ensures this.log == log && this.pages == pages && dirty == {}
    {
      this.log, this.pages, dirty := log, pages, {};
    }

    method Append(txn: nat, page: PageId, prev: Lsn, p: Payload) returns (lsn: Lsn)
      requires WellFormed(log)
      modifies this`log
      ensures lsn == End(old(log)) && log == old(log) + [Record(lsn, txn, page, prev, p)]
      ensures WellFormed(log)
    {
      lsn := End(log);
      AppendWellFormed(log, Record(lsn, txn, page, prev, p));
      log := log + [Record(lsn, txn, page, prev, p)];
    }

    /** What analysis does with one record. */
    method AnalyzeRecord(r: Record, dpt0: map<PageId, Lsn>, att0: map<nat, Lsn>)
      returns (dpt: map<PageId, Lsn>, att: map<nat, Lsn>)
      ensures dpt == DptStep(dpt0, r) && att == AttStep(att0, r)
    {
      dpt, att := dpt0, att0;
      if r.payload.Checkpoint? {
        dpt := dpt + r.payload.dirtyPages;
      } else if OnPage(r) && r.page !in dpt {
        dpt := dpt[r.page := r.lsn];
      }
      if r.txn != 0 {
        if r.payload.Commit? || r.payload.Abort? {
          att := att - {r.txn};
        } else {
          att := att[r.txn := r.lsn];
        }
      }
    }

    /** Analysis: one scan from the checkpoint (or byte 4) to the end of the log. */
    method Analyze(chk: Lsn, ghost from: nat) returns (dpt: map<PageId, Lsn>, att: map<nat, Lsn>, lsn: Lsn)
      requires WellFormed(log) && from <= |log|
      requires if chk == 0 then from == 0 else from < |log| && log[from].lsn == chk
      ensures dpt == Dpt(log, from) && att == Att(log, from) && lsn == End(log)
    {
      dpt, att, lsn := map[], map[], chk;
      if lsn == 0 { lsn := FIRST_LSN; }
      FirstLsn(log);
      ghost var i := from;
      ReadAt(log, i);
      TablesStart(log, from);
      var rec := ReadRecord(log, lsn);
      while rec.Some?
        invariant from <= i <= |log| && lsn == LsnAt(log, i) && rec == RecordAt(log, i)
        invariant TablesAt(log, from, i, dpt, att)
        decreases |log| - i
      {
        var r := rec.value;
        TablesNext(log, from, i, dpt, att);
        dpt, att := AnalyzeRecord(r, dpt, att);
        LsnAtStep(log, i);
        lsn, i := lsn + Size(r.payload), i + 1;
        ReadAt(log, i);
        rec := ReadRecord(log, lsn);
      }
      TablesEnd(log, from, dpt, att);
    }

    /** MinLSN: the smallest recovery LSN of the table. */
    method MinLsn(dpt: map<PageId, Lsn>, eof: Lsn, chk: Lsn) returns (m: Lsn)
      ensures dpt == map[] ==> m == chk
      ensures dpt != map[] ==> m == eof || exists pid :: pid in dpt && dpt[pid] == m
      ensures forall pid :: pid in dpt ==> m <= dpt[pid]
    {
      m := eof;
      var rest := dpt.Keys;
      while rest != {}
        invariant rest <= dpt.Keys
        invariant m == eof || exists pid :: pid in dpt && dpt[pid] == m
        invariant forall pid :: pid in dpt && pid !in rest ==> m <= dpt[pid]
        decreases rest
      {
        var pid :| pid in rest;
        if dpt[pid] < m { m := dpt[pid]; }
        rest := rest - {pid};
      }
      if |dpt| == 0 { m := chk; }
    }

    /** Redo of one record that is in range: skip rule 3, then apply. */
    method RedoRecord(r: Record)
      requires r.page < |pages|
      modifies this`pages, this`dirty
      ensures pages == old(pages)[r.page := RedoOne(old(pages)[r.page], r)]
      ensures dirty == if r.lsn == 0 || old(pages)[r.page].lsn < r.lsn then old(dirty) + {r.page} else old(dirty)
    {
      var p := pages[r.page];
      if p.lsn >= r.lsn && r.lsn != 0 { return; }
      var body := p.body;
      if r.payload.FullPage? {
        body := r.payload.image.body;
      } else if r.payload.Write? && body.Leaf? {
        var w := r.payload;
        var cells := RedoUpsertOnPage(body.cells, w.key, Some(CellFor(w.deleted, w.key, w.value)));
        body := Leaf(cells);
      }
      pages := pages[r.page := Page(r.lsn, body)];
      dirty := dirty + {r.page};
    }

    /** Redo: repeat history from record number `k`, the first one at or after MinLSN. */
    method RedoPhase(dpt: map<PageId, Lsn>, minLsn: Lsn, ghost k: nat) returns (ok: bool)
      requires WellFormed(log) && k <= |log|
      requires (if minLsn == 0 then FIRST_LSN else minLsn) == LsnAt(log, k)
      requires forall i, pid :: 0 <= i < k && pid in dpt ==> log[i].lsn < dpt[pid]
      modifies this`pages, this`dirty
      ensures ok <==> PagesExist(log, |log|, dpt, |pages|)
      ensures ok ==> RedoneUpTo(old(pages), pages, log, |log|, dpt)
      ensures !ok ==> exists n: nat :: StoppedAt(old(Now()), Now(), n, dpt)
      ensures |pages| == |old(pages)| && dirty == old(dirty) + Changed(old(pages), pages)
    {
      var lsn := minLsn;
      LsnsBelowEnd(log);
      if lsn == 0 { lsn := FIRST_LSN; }
      ghost var i, v := k, Now();
      ReadAt(log, i);
      RedoStart(v, k, dpt);
      var rec := ReadRecord(log, lsn);
      while rec.Some?
        invariant k <= i <= |log| && lsn == LsnAt(log, i) && rec == RecordAt(log, i)
        invariant |pages| == |v.pages| && RedoAt(v, Now(), i, dpt)
        decreases |log| - i
      {
        var r := rec.value;
        ghost var before := Now();
        if InRange(r, dpt) {
          if r.page >= |pages| {
            RedoEnd(v, Now(), i, dpt);
            assert StoppedAt(v, Now(), i, dpt);
            return false;
          }
          RedoRecord(r);
        }
        RedoNext(v, before, Now(), i, dpt);
        LsnAtStep(log, i);
        lsn, i := lsn + Size(r.payload), i + 1;
        ReadAt(log, i);
        rec := ReadRecord(log, lsn);
      }
      RedoEnd(v, Now(), i, dpt);
      ok := true;
    }

    /** The inner loop that picks the active transaction with the largest LSN. */
    method PickMax(att: map<nat, Lsn>) returns (maxTxn: nat, maxLsn: Lsn)
      ensures forall t :: t in att ==> att[t] <= maxLsn
      ensures maxLsn == 0 || (maxTxn in att && att[maxTxn] == maxLsn)
    {
      maxTxn, maxLsn := 0, 0;
      var rest := att.Keys;
      while rest != {}
        invariant rest <= att.Keys
        invariant forall t :: t in att && t !in rest ==> att[t] <= maxLsn
        invariant maxLsn == 0 || (maxTxn in att && att[maxTxn] == maxLsn)
        decreases rest
      {
        var t :| t in rest;
        if att[t] > maxLsn { maxTxn, maxLsn := t, att[t]; }
        rest := rest - {t};
      }
    }

    /** Fetch for write, apply the inverse, write the compensation record. The frames of `written` have
        been written back since the last fetch; a page that is clean is backed up first. */
    method UndoWrite(r: Record, written: set<PageId>)
      requires WellFormed(log) && r.payload.Write? && r.page < |pages|
      modifies this
      ensures WellFormed(log) && old(log) <= log && |pages| == |old(pages)|
      ensures WriteUndone(old(Now()), r, Now()) && dirty == old(dirty) - written + {r.page}
      ensures log == Compensated(if r.page in old(dirty) - written then old(log) else BackedUp(old(Now()), r.page), r)
    {
      dirty := dirty - written;
      if r.page !in dirty {
        var _ := Append(0, r.page, 0, FullPage(pages[r.page]));
      }
      var body := pages[r.page].body;
      if body.Leaf? {
        var cells := RedoUpsertOnPage(body.cells, r.payload.key, UndoCellOf(r.payload));
        body := Leaf(cells);
      }
      var lsn := Append(r.txn, r.page, r.prev, Clr(r.payload.key, r.payload.value));
      pages := pages[r.page := Page(lsn, body)];
      dirty := dirty + {r.page};
    }

    /** What both undo loops do with one record; the pool may have written back any frames before it. */
    method UndoOne(r: Record) returns (undone: nat)
      requires WellFormed(log)
      modifies this
      ensures WellFormed(log) && old(log) <= log && |pages| == |old(pages)|
      ensures Passed(old(Now()), r, Now())
      ensures undone == if r.payload.Write? && r.page < |pages| then 1 else 0
    {
      undone := 0;
      if r.payload.Write? && r.page < |pages| {
        var written: set<PageId> := *;
        UndoWrite(r, written);
        undone := 1;
      }
    }

    /** One round of the undo loop: the record with the largest LSN. */
    method UndoRound(att: map<nat, Lsn>, ghost log0: seq<Record>)
      returns (att': map<nat, Lsn>, undone: nat, ghost i: nat)
      requires WellFormed(log) && WellFormed(log0) && log0 <= log
      requires ChainsOk(log0) && AttOk(log0, att) && |att| > 0
      modifies this
      ensures WellFormed(log) && old(log) <= log && |pages| == |old(pages)|
      ensures IsMax(log0, att, i) && att' == Advance(att, log0[i])
      ensures undone == if log0[i].payload.Write? && log0[i].page < |pages| then 1 else 0
      ensures RoundDone(old(Now()), log0[i], Now(), true)
      ensures log0[i].prev == 0 ==> |log| > |old(log)| && EndsWithAbort(log, log0[i].txn)
    {
      var maxTxn, maxLsn := PickMax(att);
      i := NewestRecord(log, log0, att, maxTxn, maxLsn);
      var r := ReadRecord(log, maxLsn).value;
      ghost var before := Now();
      undone := UndoOne(r);
      ghost var mid := Now();
      if r.prev == 0 {
        var _ := Append(maxTxn, 0, 0, Abort);
        att' := att - {maxTxn};
      } else {
        att' := att[maxTxn := r.prev];
      }
      RoundEnds(before, r, mid, Now());
    }

    /** Undo: largest LSN first until no transaction is active. Every record on a loser's chain
        is undone exactly once, in strictly decreasing LSN order; each loser gets its abort record, and
        an analysis of the resulting log finds no loser. */
    method UndoPhase(att0: map<nat, Lsn>, ghost from: nat) returns (undoCount: nat)
      requires WellFormed(log) && ChainsOk(log) && AttOk(log, att0)
      requires from <= |log| && Att(log, from).Keys <= att0.Keys
      modifies this
      ensures WellFormed(log) && old(log) <= log && |pages| == |old(pages)|
      ensures UndoneInTurn(old(Now()), UndoList(old(log), att0, |old(log)|), Now(), true)
      ensures Bodies(pages) == UndoAll(old(Bodies(pages)), UndoList(old(log), att0, |old(log)|))
      ensures undoCount == CountWrites(UndoList(old(log), att0, |old(log)|), |pages|)
      ensures Att(log, from) == map[] && forall t :: t in att0 ==> Aborted(log, |old(log)|, t)
    {
      ghost var log0, v0 := log, Now();
      ghost var work := UndoList(log0, att0, |log0|);
      var att: map<nat, Lsn> := att0;
      undoCount := 0;
      ghost var bound := End(log);
      LsnsBelowEnd(log);
      while |att| > 0
        invariant WellFormed(log) && log0 <= log && AttOk(log0, att) && |pages| == |old(pages)|
        invariant forall t :: t in att ==> att[t] < bound
        invariant undoCount + CountWrites(UndoList(log0, att, |log0|), |pages|) == CountWrites(work, |pages|)
        invariant Onward(v0, work, Now(), UndoList(log0, att, |log0|), true)
        invariant Att(log, from).Keys <= att.Keys
        invariant forall t :: t in att0.Keys - att.Keys ==> Aborted(log, |log0|, t)
        decreases bound
      {
        ghost var before := Now();
        var att', undone, i := UndoRound(att, log0);
        AdvanceOk(log0, att, i);
        UndoListStep(log0, att, i);
        CountSnoc(UndoList(log0, att', |log0|), log0[i], |pages|);
        OnwardStep(v0, work, before, Now(), UndoList(log0, att', |log0|), log0[i], true);
        RoundAtt(before, log0[i], Now(), att, from);
        AbortsGrow(before.log, log, |log0|, att0.Keys - att.Keys, att0.Keys - att'.Keys, log0[i]);
        undoCount := undoCount + undone;
        bound := log0[i].lsn;
        att := att';
      }
      NothingLeft(log0, att, |log0|);
      UndoneBodies(v0, work, Now(), true);
    }

    /** BTree.Rollback: walk the PrevLSN chain from the transaction's last record, then log the abort. */
    method Rollback(txn: nat, lastLsn: Lsn)
      requires WellFormed(log) && ChainsOk(log) && AttOk(log, Chain(txn, lastLsn))
      modifies this
      ensures WellFormed(log) && old(log) <= log && |pages| == |old(pages)|
      ensures exists mid ::
        && UndoneInTurn(old(Now()), UndoList(old(log), Chain(txn, lastLsn), |old(log)|), mid, false)
        && Now() == WithAbort(mid, txn)
      ensures Bodies(pages) == UndoAll(old(Bodies(pages)), UndoList(old(log), Chain(txn, lastLsn), |old(log)|))
    {
      ghost var log0, v0 := log, Now();
      ghost var work := UndoList(log0, Chain(txn, lastLsn), |log0|);
      var lsn := lastLsn;
      while lsn != 0
        invariant WellFormed(log) && log0 <= log && |pages| == |old(pages)| && AttOk(log0, Chain(txn, lsn))
        invariant Onward(v0, work, Now(), UndoList(log0, Chain(txn, lsn), |log0|), false)
        decreases lsn
      {
        ghost var before := Now();
        ghost var i := ChainRound(log0, txn, lsn);
        assert log[i] == log0[i];
        ReadFinds(log, i);
        var r := ReadRecord(log, lsn).value;
        var _ := UndoOne(r);
        OnwardStep(v0, work, before, Now(), UndoList(log0, Chain(txn, r.prev), |log0|), r, false);
        lsn := r.prev;
      }
      NothingLeft(log0, Chain(txn, lsn), |log0|);
      ghost var mid := Now();
      UndoneBodies(v0, work, mid, false);
      var _ := Append(txn, 0, 0, Abort);
      assert Now() == WithAbort(mid, txn);
    }

    /** Recovery as a whole. */
    method Recover(chk: Lsn, ghost from: nat) returns (ok: bool)
      requires WellFormed(log) && ChainsOk(log) && from <= |log|
      requires if chk == 0 then from == 0 else from < |log| && log[from].lsn == chk
      requires StartsOk(log, Dpt(log, from))
      modifies this
      ensures |pages| == |old(pages)|
      ensures ok <==> PagesExist(old(log), |old(log)|, Dpt(old(log), from), |pages|)
      ensures !ok ==> log == old(log)
      ensures ok ==> WellFormed(log) && old(log) <= log
      ensures ok ==> Bodies(pages) == RecoveredBodies(old(log), old(pages), from)
      ensures ok ==> RecoveredTo(old(Now()), from, Now())
    {
      var dpt, att, eof := Analyze(chk, from);
      var minLsn := MinLsn(dpt, eof, chk);
      ghost var k := StartOfRedo(log, dpt, minLsn, chk, from);
      ok := RedoPhase(dpt, minLsn, k);
      if !ok { return; }
      RedoDone(old(Now()), Now(), from);
      AnalysisAttOk(log, from);
      var _ := UndoPhase(att, from);
    }
  }

  /** Pages whose LSN is another one. */
  ghost function Changed(before: seq<Page>, after: seq<Page>): set<PageId> {
    set pid | 0 <= pid < |before| && pid < |after| && before[pid].lsn != after[pid].lsn
  }

  /** Log, pages and dirty frames when redo is done. */
  ghost function AfterRedo(v: Volume, from: nat): Volume {
    var pages := seq(|v.pages|, i requires 0 <= i < |v.pages| => FastRedo(v.pages[i], i, v.log, Dpt(v.log, from)));
    Volume(v.log, pages, v.dirty + Changed(v.pages, pages))
  }

  lemma {:induction false} RedoDone(v: Volume, v': Volume, from: nat)
    requires v'.log == v.log && RedoneUpTo(v.pages, v'.pages, v.log, |v.log|, Dpt(v.log, from))
    requires v'.dirty == v.dirty + Changed(v.pages, v'.pages)
    ensures v' == AfterRedo(v, from) && Bodies(v'.pages) == RedoneBodies(v.log, v.pages, from)
  {
    assert v.log[..|v.log|] == v.log;
    assert v'.pages == AfterRedo(v, from).pages;
  }

  /** Recovery has run: after redo the losers' chains were undone in turn, one compensation record for
      each write and one abort record for each loser, and analysis of the new log finds no loser. */
  ghost predicate RecoveredTo(v: Volume, from: nat, v': Volume) {
    && UndoneInTurn(AfterRedo(v, from), UndoList(v.log, Att(v.log, from), |v.log|), v', true)
    && Att(v'.log, from) == map[]
    && forall t :: t in Att(v.log, from) ==> Aborted(v'.log, |v.log|, t)
  }

  function RedoneBodies(log: seq<Record>, disk: seq<Page>, from: nat): seq<Body> {
    seq(|disk|, i requires 0 <= i < |disk| => FastRedo(disk[i], i, log, Dpt(log, from)).body)
  }

  /** Page contents after analysis, redo and undo. */
  function RecoveredBodies(log: seq<Record>, disk: seq<Page>, from: nat): seq<Body> {
    UndoAll(RedoneBodies(log, disk, from), UndoList(log, Att(log, from), |log|))
  }

  /** Recovery LSNs are 0 or name a record. */
  ghost predicate StartsOk(log: seq<Record>, dpt: map<PageId, Lsn>) {
    forall pid :: pid in dpt ==> dpt[pid] == 0 || exists i :: 0 <= i < |log| && log[i].lsn == dpt[pid]
  }

  /** The one-entry table that stands for a single chain. */
  function Chain(txn: nat, lsn: Lsn): map<nat, Lsn> {
    if lsn == 0 then map[] else map[txn := lsn]
  }

  /** One step along a chain takes its newest record off the list of work. */
  lemma {:induction false} ChainRound(log: seq<Record>, txn: nat, lsn: Lsn) returns (i: nat)
    requires WellFormed(log) && ChainsOk(log) && lsn != 0 && AttOk(log, Chain(txn, lsn))
    ensures i < |log| && log[i].lsn == lsn && log[i].prev < lsn && AttOk(log, Chain(txn, log[i].prev))
    ensures UndoList(log, Chain(txn, lsn), |log|) == UndoList(log, Chain(txn, log[i].prev), |log|) + [log[i]]
  {
    var att := Chain(txn, lsn);
    assert txn in att;
    i :| 0 <= i < |log| && log[i].lsn == att[txn] && log[i].txn == txn;
    AdvanceOk(log, att, i);
    UndoListStep(log, att, i);
    assert Advance(att, log[i]) == Chain(txn, log[i].prev);
  }

  /** An abort record for the transaction was written at or after record number `n`. */
  ghost predicate Aborted(log: seq<Record>, n: nat, txn: nat) {
    exists i :: n <= i < |log| && log[i].payload.Abort? && log[i].txn == txn
  }

  lemma {:induction false} AbortsGrow(log: seq<Record>, log': seq<Record>, n: nat, done: set<nat>, done': set<nat>,
        r: Record)
    requires log <= log' && n <= |log| && forall t :: t in done ==> Aborted(log, n, t)
    requires done' <= if r.prev == 0 then done + {r.txn} else done
    requires r.prev == 0 ==> |log'| > |log| && EndsWithAbort(log', r.txn)
    ensures forall t :: t in done' ==> Aborted(log', n, t)
  {
    forall t | t in done' ensures Aborted(log', n, t) {
      if t in done {
        AbortedGrows(log, log', n, t);
      } else {
        assert log'[|log'| - 1].txn == t;
      }
    }
  }

  lemma {:induction false} CountSnoc(rest: seq<Record>, r: Record, n: nat)
    ensures CountWrites(rest + [r], n) == CountWrites(rest, n) + if r.payload.Write? && r.page < n then 1 else 0
  {
    assert (rest + [r])[..|rest|] == rest;
  }

  predicate EndsWithAbort(log: seq<Record>, txn: nat) {
    log != [] && log[|log| - 1].payload.Abort? && log[|log| - 1].txn == txn
  }

  lemma {:induction false} AbortedGrows(log: seq<Record>, log': seq<Record>, n: nat, txn: nat)
    requires log <= log' && Aborted(log, n, txn)
    ensures Aborted(log', n, txn)
  {
    var i :| n <= i < |log| && log[i].payload.Abort? && log[i].txn == txn;
    assert log'[i] == log[i];
  }

  lemma {:induction false} SomeLsnPositive(log: seq<Record>, att: map<nat, Lsn>)
    requires WellFormed(log) && AttOk(log, att) && |att| > 0
    ensures exists t :: t in att && att[t] > 0
  {
    assert att.Keys != {};
    var t :| t in att.Keys;
    LsnsBelowEnd(log);
  }

  /** The picked LSN is that of the newest record to undo. */
  lemma {:induction false} NewestRecord(log: seq<Record>, log0: seq<Record>, att: map<nat, Lsn>, t: nat, lsn: Lsn)
    returns (i: nat)
    requires WellFormed(log) && WellFormed(log0) && log0 <= log && AttOk(log0, att) && |att| > 0
    requires (forall u :: u in att ==> att[u] <= lsn) && (lsn == 0 || (t in att && att[t] == lsn))
    ensures IsMax(log0, att, i) && log0[i].txn == t && ReadRecord(log, lsn) == Some(log0[i])
  {
    SomeLsnPositive(log0, att);
    i :| 0 <= i < |log0| && log0[i].lsn == att[t] && log0[i].txn == t;
    assert log[i] == log0[i];
    ReadFinds(log, i);
  }

  lemma {:induction false} NothingLeft(log: seq<Record>, att: map<nat, Lsn>, n: nat)
    requires n <= |log| && |att| == 0
    ensures UndoList(log, att, n) == []
  {
    assert att == map[];
    if n > 0 { NothingLeft(log, att, n - 1); }
  }

  /** Number of the first record that redo reads; earlier ones are below every recovery LSN. */
  lemma {:induction false} StartOfRedo(log: seq<Record>, dpt: map<PageId, Lsn>, minLsn: Lsn, chk: Lsn,
        from: nat) returns (k: nat)
    requires WellFormed(log) && from <= |log|
    requires if chk == 0 then from == 0 else from < |log| && log[from].lsn == chk
    requires dpt == map[] ==> minLsn == chk
    requires dpt != map[] ==> minLsn == End(log) || exists pid :: pid in dpt && dpt[pid] == minLsn
    requires forall pid :: pid in dpt ==> minLsn <= dpt[pid]
    requires StartsOk(log, dpt)
    ensures k <= |log| && (if minLsn == 0 then FIRST_LSN else minLsn) == LsnAt(log, k)
    ensures forall i, pid :: 0 <= i < k && pid in dpt ==> log[i].lsn < dpt[pid]
  {
    LsnsBelowEnd(log);
    FirstLsn(log);
    if minLsn == 0 {
      k := 0;
    } else {
      assert exists i :: 0 <= i < |log| && log[i].lsn == minLsn by {
        if dpt != map[] {
          var pid :| pid in dpt;
          assert minLsn <= dpt[pid] < End(log);
        }
      }
      k :| 0 <= k < |log| && log[k].lsn == minLsn;
      forall i | 0 <= i < k ensures log[i].lsn < minLsn { LsnOrder(log, i, k); }
    }
  }
}
