/** Analysis and redo as functions of the log and the disk image (recovery.go). */
module Redo {
  import opened Bytes
  import opened Cells
  import opened Log

  // ---- One page ----

  /** Page contents that a slotted page can really hold. */
  ghost predicate Sound(b: Body) {
    b.Leaf? ==> UniqueKeys(b.cells) && Fits(b.cells)
  }

  /** Same contents: leaves are compared as sets of cells, because redo does not keep the
      slot order of the original page. */
  ghost predicate SameBody(a: Body, b: Body) {
    a == b || (a.Leaf? && b.Leaf? && Sound(a) && Sound(b) && CellSet(a.cells) == CellSet(b.cells))
  }

  /** redoUpsertOnPage: rewrite the list, wipe the page, re-insert ignoring errors. */
  function RedoUpsert(b: Body, key: Bytes, new_: Option<Cell>): Body {
    if b.Leaf? then Leaf(Fill(Rewrite(b.cells, key, new_))) else b
  }

  /** Redo of one record on its page, once no skip rule applies. */
  function Apply(p: Page, r: Record): Page {
    match r.payload
    case FullPage(image) => Page(r.lsn, image.body)
    case Write(deleted, key, value) => Page(r.lsn, RedoUpsert(p.body, key, Some(CellFor(deleted, key, value))))
    case _ => Page(r.lsn, p.body)
  }

  /** Skip rule 3: the page already carries the record. */
  function RedoOne(p: Page, r: Record): Page {
    if p.lsn >= r.lsn && r.lsn != 0 then p else Apply(p, r)
  }

  /** Redo of page `pid` over the whole log, skipping records below `start` (skip rule 2).
      With start 0 this is the plain replay of every record from byte 4. */
  function RedoFrom(p: Page, pid: PageId, log: seq<Record>, start: Lsn): Page {
    if log == [] then p
    else
      var q, r := RedoFrom(p, pid, log[..|log| - 1], start), log[|log| - 1];
      if r.page == pid && r.lsn >= start then RedoOne(q, r) else q
  }

  // ---- Analysis ----

  /** One step of the analysis loop on the dirty page table. */
  function DptStep(dpt: map<PageId, Lsn>, r: Record): map<PageId, Lsn> {
    if r.payload.Checkpoint? then dpt + r.payload.dirtyPages
    else if OnPage(r) && r.page !in dpt then dpt[r.page := r.lsn]
    else dpt
  }

  /** The dirty page table after scanning the log from record number `from`. */
  function Dpt(log: seq<Record>, from: nat): map<PageId, Lsn>
    decreases |log|
  {
    if |log| <= from then map[] else DptStep(Dpt(log[..|log| - 1], from), log[|log| - 1])
  }

  /** One step of the analysis loop on the active transaction table. */
  function AttStep(att: map<nat, Lsn>, r: Record): map<nat, Lsn> {
    if r.txn == 0 then att
    else if r.payload.Commit? || r.payload.Abort? then att - {r.txn}
    else att[r.txn := r.lsn]
  }

  function Att(log: seq<Record>, from: nat): map<nat, Lsn>
    decreases |log|
  {
    if |log| <= from then map[] else AttStep(Att(log[..|log| - 1], from), log[|log| - 1])
  }

  /** Page `pid` after the redo phase, all three skip rules included. */
  function FastRedo(p: Page, pid: PageId, log: seq<Record>, dpt: map<PageId, Lsn>): Page {
    if pid in dpt then RedoFrom(p, pid, log, dpt[pid]) else p
  }

  // ---- Lemmas about redo of one page ----

  lemma {:induction false} FillUnique(cells: seq<Cell>)
    requires UniqueKeys(cells)
    ensures UniqueKeys(Fill(cells))
  {
    if cells != [] {
      UniqueFront(cells);
      FillUnique(cells[..|cells| - 1]);
      FillSubset(cells[..|cells| - 1]);
      UniqueSnoc(Fill(cells[..|cells| - 1]), cells[|cells| - 1]);
    }
  }

  lemma {:induction false} RedoUpsertSound(b: Body, key: Bytes, new_: Option<Cell>)
    requires Sound(b) && (new_.Some? ==> new_.value.key == key)
    ensures Sound(RedoUpsert(b, key, new_))
  {
    if b.Leaf? {
      RewriteUnique(b.cells, key, new_);
      FillUnique(Rewrite(b.cells, key, new_));
    }
  }

  ghost predicate SoundImages(log: seq<Record>) {
    forall i :: 0 <= i < |log| && log[i].payload.FullPage? ==> Sound(log[i].payload.image.body)
  }

  lemma {:induction false} RedoSound(p: Page, pid: PageId, log: seq<Record>, start: Lsn)
    requires Sound(p.body) && SoundImages(log)
    ensures Sound(RedoFrom(p, pid, log, start).body)
  {
    if log != [] {
      var r := log[|log| - 1];
      var q := RedoFrom(p, pid, log[..|log| - 1], start);
      RedoSound(p, pid, log[..|log| - 1], start);
      if r.payload.Write? {
        RedoUpsertSound(q.body, r.payload.key, Some(CellFor(r.payload.deleted, r.payload.key, r.payload.value)));
      }
    }
  }

  /** Redo never invents an LSN at or past the end of the log. */
  lemma {:induction false} RedoLsnBound(p: Page, pid: PageId, log: seq<Record>, start: Lsn, bound: Lsn)
    requires p.lsn < bound && forall i :: 0 <= i < |log| ==> 0 < log[i].lsn < bound
    ensures p.lsn <= RedoFrom(p, pid, log, start).lsn < bound
  {
    if log != [] { RedoLsnBound(p, pid, log[..|log| - 1], start, bound); }
  }

  /** All of the page's own records lie at or below `lsn`. */
  ghost predicate Covers(lsn: Lsn, pid: PageId, log: seq<Record>) {
    forall i :: 0 <= i < |log| && log[i].page == pid && OnPage(log[i]) ==> log[i].lsn <= lsn
  }

  /** A page whose LSN covers its records is not changed by redo. */
  lemma {:induction false} RedoCovered(p: Page, pid: PageId, log: seq<Record>, start: Lsn)
    requires Covers(p.lsn, pid, log) && forall i :: 0 <= i < |log| ==> 0 < log[i].lsn
    ensures RedoFrom(p, pid, log, start).body == p.body
    ensures RedoFrom(p, pid, log, start).lsn >= p.lsn
  {
    if log != [] { RedoCovered(p, pid, log[..|log| - 1], start); }
  }

  /** After redo the page's LSN covers every record that was in range. */
  lemma {:induction false} RedoReaches(p: Page, pid: PageId, log: seq<Record>, start: Lsn)
    requires forall i :: 0 <= i < |log| ==> 0 < log[i].lsn
    ensures p.lsn <= RedoFrom(p, pid, log, start).lsn
    ensures forall i :: 0 <= i < |log| && log[i].page == pid && log[i].lsn >= start ==>
      log[i].lsn <= RedoFrom(p, pid, log, start).lsn
  {
    if log != [] { RedoReaches(p, pid, log[..|log| - 1], start); }
  }

  /** A log whose records are all out of range or on other pages leaves the page alone. */
  lemma {:induction false} RedoNothing(p: Page, pid: PageId, log: seq<Record>, start: Lsn)
    requires forall i :: 0 <= i < |log| ==> log[i].page != pid || log[i].lsn < start
    ensures RedoFrom(p, pid, log, start) == p
  {
    if log != [] { RedoNothing(p, pid, log[..|log| - 1], start); }
  }

  lemma {:induction false} RedoSnoc(p: Page, pid: PageId, log: seq<Record>, r: Record, start: Lsn)
    ensures RedoFrom(p, pid, log + [r], start) ==
      var q := RedoFrom(p, pid, log, start);
      if r.page == pid && r.lsn >= start then RedoOne(q, r) else q
  {
    assert (log + [r])[..|log|] == log;
  }

  /** Redoing a prefix of the log a second time changes nothing. */
  lemma {:induction false} RedoTwice(p: Page, pid: PageId, log: seq<Record>, k: nat, start: Lsn)
    requires k <= |log| && forall i :: 0 <= i < |log| ==> 0 < log[i].lsn
    ensures RedoFrom(RedoFrom(p, pid, log[..k], start), pid, log, start) == RedoFrom(p, pid, log, start)
    decreases |log|
  {
    if k == |log| {
      assert log[..k] == log;
      RedoReaches(p, pid, log, start);
      RedoSkipped(RedoFrom(p, pid, log, start), pid, log, start);
    } else {
      var front := log[..|log| - 1];
      assert front[..k] == log[..k];
      RedoTwice(p, pid, front, k, start);
    }
  }

  /** A page whose LSN has reached every record in range is left alone. */
  lemma {:induction false} RedoSkipped(p: Page, pid: PageId, log: seq<Record>, start: Lsn)
    requires forall i :: 0 <= i < |log| ==> 0 < log[i].lsn
    requires forall i :: 0 <= i < |log| && log[i].page == pid && log[i].lsn >= start ==> log[i].lsn <= p.lsn
    ensures RedoFrom(p, pid, log, start) == p
  {
    if log != [] { RedoSkipped(p, pid, log[..|log| - 1], start); }
  }

  lemma {:induction false} DptSnoc(log: seq<Record>, r: Record, from: nat)
    requires from <= |log|
    ensures Dpt(log + [r], from) == DptStep(Dpt(log, from), r)
  {
    assert (log + [r])[..|log|] == log;
  }

  /** Two pages with the same contents, one of which takes a write without overflowing,
      have the same contents after the write: the other one has room too. */
  lemma {:induction false} SameAfterWrite(a: Body, b: Body, key: Bytes, c: Cell)
    requires SameBody(a, b) && Sound(a) && Sound(b) && b.Leaf? && c.key == key
    requires Fits(Rewrite(b.cells, key, Some(c)))
    ensures SameBody(RedoUpsert(a, key, Some(c)), Leaf(SortCells(Rewrite(b.cells, key, Some(c)))))
    ensures Sound(Leaf(SortCells(Rewrite(b.cells, key, Some(c)))))
  {
    var xs, ys := Rewrite(a.cells, key, Some(c)), Rewrite(b.cells, key, Some(c));
    SameRewrite(a.cells, b.cells, key, c);
    FillKeepsAllIffFits(xs);
    SortedCopy(ys);
  }

  lemma {:induction false} SameRewrite(xs: seq<Cell>, ys: seq<Cell>, key: Bytes, c: Cell)
    requires UniqueKeys(xs) && UniqueKeys(ys) && CellSet(xs) == CellSet(ys) && c.key == key
    ensures var xs', ys' := Rewrite(xs, key, Some(c)), Rewrite(ys, key, Some(c));
      UniqueKeys(xs') && UniqueKeys(ys') && CellSet(xs') == CellSet(ys') && Space(xs') == Space(ys')
  {
    RewriteUnique(xs, key, Some(c));
    RewriteUnique(ys, key, Some(c));
    RewriteSet(xs, key, Some(c));
    RewriteSet(ys, key, Some(c));
    assert (set x | x in xs && x.key != key) == (set x | x in ys && x.key != key) by {
      assert forall x :: x in xs <==> x in CellSet(xs);
      assert forall x :: x in ys <==> x in CellSet(ys);
    }
    SpaceOfSet(Rewrite(xs, key, Some(c)), Rewrite(ys, key, Some(c)));
  }

  lemma {:induction false} SortedCopy(cells: seq<Cell>)
    requires UniqueKeys(cells)
    ensures UniqueKeys(SortCells(cells)) && CellSet(SortCells(cells)) == CellSet(cells)
    ensures Space(SortCells(cells)) == Space(cells)
  {
    SortCorrect(cells);
    SortedIsUnique(SortCells(cells));
    SpaceOfSet(SortCells(cells), cells);
  }
}
