/** Undo of logged writes on leaf pages: one step of Rollback and of the recovery undo loop,
    and what undoing a whole list of records, newest first, does to the leaves. */
module Undo {
  import opened Bytes
  import opened Cells
  import opened MvccKeys
  import opened Log
  import opened Redo

  /** What undo stores for a write: nothing for an insert, a live cell for a delete. */
  function UndoCellOf(w: Payload): Option<Cell>
    requires w.Write?
  {
    if w.deleted then Some(Cell(0, w.key, w.value)) else None
  }

  /** Undo of one record; records other than writes are passed over. */
  function UndoRecord(bodies: seq<Body>, r: Record): (r': seq<Body>)
    ensures |r'| == |bodies|
  {
    if r.payload.Write? && r.page < |bodies|
    then bodies[r.page := RedoUpsert(bodies[r.page], r.payload.key, UndoCellOf(r.payload))]
    else bodies
  }

  /** Undo of a list of records given in log order, newest first. */
  function UndoAll(bodies: seq<Body>, rs: seq<Record>): (r': seq<Body>)
    ensures |r'| == |bodies|
    decreases |rs|
  {
    if rs == [] then bodies else UndoAll(UndoRecord(bodies, rs[|rs| - 1]), rs[..|rs| - 1])
  }

  predicate Writes(r: Record, pid: PageId, key: Bytes) {
    r.payload.Write? && r.page == pid && r.payload.key == key
  }

  /** The oldest write to (page, key) in the list. */
  function FirstWrite(rs: seq<Record>, pid: PageId, key: Bytes): (w: Option<Record>)
    ensures w.Some? ==> w.value in rs && Writes(w.value, pid, key)
    ensures w.None? ==> forall r :: r in rs ==> !Writes(r, pid, key)
  {
    if rs == [] then None
    else if Writes(rs[0], pid, key) then Some(rs[0])
    else FirstWrite(rs[1..], pid, key)
  }

  lemma {:induction false} FirstWriteSnoc(rs: seq<Record>, r: Record, pid: PageId, key: Bytes)
    ensures FirstWrite(rs + [r], pid, key) ==
      if FirstWrite(rs, pid, key).Some? then FirstWrite(rs, pid, key)
      else if Writes(r, pid, key) then Some(r) else None
  {
    if rs == [] {
      assert rs + [r] == [r];
    } else {
      assert (rs + [r])[1..] == rs[1..] + [r];
      FirstWriteSnoc(rs[1..], r, pid, key);
    }
  }

  /** The cells of a leaf that do not belong to the given transactions, in slot order. */
  function Keep(cells: seq<Cell>, losers: set<nat>): seq<Cell> {
    if cells == [] then []
    else
      var front, c := Keep(cells[..|cells| - 1], losers), cells[|cells| - 1];
      if Owner(c.key) in losers then front else front + [c]
  }

  lemma {:induction false} KeepMembers(cells: seq<Cell>, losers: set<nat>)
    ensures forall c :: c in Keep(cells, losers) <==> c in cells && Owner(c.key) !in losers
  {
    if cells != [] {
      KeepMembers(cells[..|cells| - 1], losers);
      assert cells == cells[..|cells| - 1] + [cells[|cells| - 1]];
    }
  }

  lemma {:induction false} KeepSnoc(cells: seq<Cell>, c: Cell, losers: set<nat>)
    ensures Keep(cells + [c], losers) ==
      if Owner(c.key) in losers then Keep(cells, losers) else Keep(cells, losers) + [c]
  {
    assert (cells + [c])[..|cells|] == cells;
  }

  /** Swapping a loser's cell does not disturb the others, not even their order. */
  lemma {:induction false} KeepSwap(cells: seq<Cell>, key: Bytes, new_: Option<Cell>, losers: set<nat>)
    requires Owner(key) in losers && (new_.Some? ==> new_.value.key == key)
    ensures Keep(Swap(cells, key, new_), losers) == Keep(cells, losers)
  {
    if cells != [] {
      var front, c := cells[..|cells| - 1], cells[|cells| - 1];
      KeepSwap(front, key, new_, losers);
      var done := Swap(front, key, new_);
      if c.key != key {
        KeepSnoc(done, c, losers);
      } else if new_.Some? {
        KeepSnoc(done, new_.value, losers);
      }
    }
  }

  // ---- Undo never runs out of room ----

  /** Every cell has a counterpart with the same key that is at least as large. */
  ghost predicate Dominated(cells: seq<Cell>, by_: seq<Cell>) {
    forall c :: c in cells ==> exists d :: d in by_ && d.key == c.key && d.Size() >= c.Size()
  }

  lemma {:induction false} DominatedSpace(a: seq<Cell>, b: seq<Cell>)
    requires UniqueKeys(a) && UniqueKeys(b) && Dominated(a, b)
    ensures Space(a) <= Space(b)
    decreases |a|
  {
    if a != [] {
      var front, x := a[..|a| - 1], a[|a| - 1];
      UniqueFront(a);
      assert x in a;
      var d :| d in b && d.key == x.key && d.Size() >= x.Size();
      var j :| 0 <= j < |b| && b[j] == d;
      RemoveCell(b, j);
      WithoutSpace(b, j);
      forall c | c in front ensures exists e :: e in Without(b, j) && e.key == c.key && e.Size() >= c.Size() {
        assert c in a && c.key != x.key;
      }
      DominatedSpace(front, Without(b, j));
    }
  }

  /** The undone leaf holds a subset of the original keys, in cells no larger. */
  ghost predicate Shrunk(b: Body, orig: Body) {
    b == orig || (b.Leaf? && orig.Leaf? && UniqueKeys(b.cells) && Dominated(b.cells, orig.cells))
  }

  /** Each write of the list is on the page it was logged for, and tombstones are empty. */
  ghost predicate InPlace(rs: seq<Record>, bodies: seq<Body>) {
    forall r :: r in rs && r.payload.Write? ==>
      && r.page < |bodies| && bodies[r.page].Leaf?
      && HasKey(bodies[r.page].cells, r.payload.key)
      && (r.payload.deleted ==> r.payload.value == [])
  }

  lemma {:induction false} UndoKeepsShrunk(b: Body, orig: Body, w: Payload)
    requires w.Write? && Sound(orig) && Sound(b) && Shrunk(b, orig) && b.Leaf? && orig.Leaf?
    requires HasKey(orig.cells, w.key) && (w.deleted ==> w.value == [])
    ensures var b' := RedoUpsert(b, w.key, UndoCellOf(w));
      Shrunk(b', orig) && Sound(b') && b' == Leaf(Rewrite(b.cells, w.key, UndoCellOf(w)))
  {
    var cells := Rewrite(b.cells, w.key, UndoCellOf(w));
    RewriteUnique(b.cells, w.key, UndoCellOf(w));
    StillDominated(b.cells, orig.cells, w);
    DominatedSpace(cells, orig.cells);
    FillKeepsAllIffFits(cells);
  }

  lemma {:induction false} StillDominated(cells: seq<Cell>, orig: seq<Cell>, w: Payload)
    requires w.Write? && Dominated(cells, orig) && HasKey(orig, w.key) && (w.deleted ==> w.value == [])
    ensures Dominated(Rewrite(cells, w.key, UndoCellOf(w)), orig)
  {
    var cells' := Rewrite(cells, w.key, UndoCellOf(w));
    RewriteSet(cells, w.key, UndoCellOf(w));
    forall c | c in cells' ensures exists d :: d in orig && d.key == c.key && d.Size() >= c.Size() {
      assert c in CellSet(cells');
      if c !in cells {
        var d :| d in orig && d.key == w.key;
        assert d.Size() >= c.Size();
      }
    }
  }

  // ---- Exactness ----

  /** What undo makes of one key of a page, given the oldest undone write to it. */
  ghost predicate Undone(before: seq<Cell>, after: seq<Cell>, key: Bytes, first: Option<Record>) {
    match first
    case None => forall c: Cell :: c.key == key ==> (c in after <==> c in before)
    case Some(w) => w.payload.Write? &&
                    if w.payload.deleted then Cell(0, key, []) in after else !HasKey(after, key)
  }

  ghost predicate AllShrunk(bodies: seq<Body>, orig: seq<Body>) {
    && |bodies| == |orig|
    && forall p :: 0 <= p < |orig| ==> Sound(orig[p]) && Sound(bodies[p]) && Shrunk(bodies[p], orig[p])
  }

  lemma {:induction false} ShrunkUpdate(bodies: seq<Body>, orig: seq<Body>, p: nat, b: Body)
    requires AllShrunk(bodies, orig) && p < |orig| && Sound(b) && Shrunk(b, orig[p])
    ensures AllShrunk(bodies[p := b], orig)
  {
  }

  lemma {:induction false} UndoStepShrunk(bodies: seq<Body>, orig: seq<Body>, r: Record)
    requires AllShrunk(bodies, orig) && r.payload.Write? && r.page < |orig|
    requires orig[r.page].Leaf? && bodies[r.page].Leaf? && HasKey(orig[r.page].cells, r.payload.key)
    requires r.payload.deleted ==> r.payload.value == []
    ensures AllShrunk(UndoRecord(bodies, r), orig)
    ensures UndoRecord(bodies, r) ==
      bodies[r.page := Leaf(Rewrite(bodies[r.page].cells, r.payload.key, UndoCellOf(r.payload)))]
  {
    UndoKeepsShrunk(bodies[r.page], orig[r.page], r.payload);
    var b := RedoUpsert(bodies[r.page], r.payload.key, UndoCellOf(r.payload));
    ShrunkUpdate(bodies, orig, r.page, b);
  }

  /** One undo step seen from one page. */
  lemma {:induction false} UndoStepExact(bodies: seq<Body>, orig: seq<Body>, r: Record, losers: set<nat>, pid: PageId)
    requires AllShrunk(bodies, orig) && pid < |orig| && orig[pid].Leaf? && bodies[pid].Leaf?
    requires InPlace([r], orig) && (r.payload.Write? ==> Owner(r.payload.key) in losers)
    ensures var after := UndoRecord(bodies, r);
      && AllShrunk(after, orig) && after[pid].Leaf?
      && Keep(after[pid].cells, losers) == Keep(bodies[pid].cells, losers)
      && forall key :: Undone(bodies[pid].cells, after[pid].cells, key, if Writes(r, pid, key) then Some(r) else None)
  {
    if r.payload.Write? {
      assert r in [r];
      assert Shrunk(bodies[r.page], orig[r.page]);
      UndoStepShrunk(bodies, orig, r);
      KeepRewrite(bodies[r.page].cells, r.payload.key, UndoCellOf(r.payload), losers);
    }
    forall key
      ensures Undone(bodies[pid].cells, UndoRecord(bodies, r)[pid].cells, key,
                     if Writes(r, pid, key) then Some(r) else None)
    {
      UndoneKey(bodies[pid], UndoRecord(bodies, r)[pid], r, pid, key);
    }
  }

  lemma {:induction false} UndoneSnoc(before: seq<Cell>, mid: seq<Cell>, after: seq<Cell>, key: Bytes,
        front: seq<Record>, r: Record, pid: PageId)
    requires Undone(before, mid, key, if Writes(r, pid, key) then Some(r) else None)
    requires Undone(mid, after, key, FirstWrite(front, pid, key))
    ensures Undone(before, after, key, FirstWrite(front + [r], pid, key))
  {
    FirstWriteSnoc(front, r, pid, key);
  }

  lemma {:induction false} InPlaceParts(front: seq<Record>, r: Record, orig: seq<Body>)
    requires InPlace(front + [r], orig)
    ensures InPlace(front, orig) && InPlace([r], orig) && r in front + [r]
  {
    assert forall x :: x in front || x == r ==> x in front + [r];
  }

  /** Undoing a list of writes of the losers:
      a key disappears from its page exactly when the oldest of its writes was an insert, and
      is otherwise left as a live empty cell; keys that were not written stay as they were;
      the cells of all other transactions keep bytes and order. */
  lemma {:induction false} UndoAllExact(bodies: seq<Body>, orig: seq<Body>, rs: seq<Record>, losers: set<nat>,
        pid: PageId)
    requires AllShrunk(bodies, orig) && pid < |orig| && orig[pid].Leaf? && bodies[pid].Leaf?
    requires InPlace(rs, orig)
    requires forall r :: r in rs && r.payload.Write? ==> Owner(r.payload.key) in losers
    ensures var done := UndoAll(bodies, rs)[pid];
      && done.Leaf? && UniqueKeys(done.cells)
      && Keep(done.cells, losers) == Keep(bodies[pid].cells, losers)
      && (forall key :: Undone(bodies[pid].cells, done.cells, key, FirstWrite(rs, pid, key)))
    decreases |rs|
  {
    if rs == [] {
      assert Sound(bodies[pid]);
    } else {
      var front, r := rs[..|rs| - 1], rs[|rs| - 1];
      assert rs == front + [r];
      InPlaceParts(front, r, orig);
      var bodies1 := UndoRecord(bodies, r);
      UndoStepExact(bodies, orig, r, losers, pid);
      UndoAllExact(bodies1, orig, front, losers, pid);
      var done := UndoAll(bodies1, front)[pid];
      forall key ensures Undone(bodies[pid].cells, done.cells, key, FirstWrite(rs, pid, key)) {
        UndoneSnoc(bodies[pid].cells, bodies1[pid].cells, done.cells, key, front, r, pid);
      }
    }
  }

  lemma {:induction false} KeepRewrite(cells: seq<Cell>, key: Bytes, new_: Option<Cell>, losers: set<nat>)
    requires Owner(key) in losers && (new_.Some? ==> new_.value.key == key)
    ensures Keep(Rewrite(cells, key, new_), losers) == Keep(cells, losers)
  {
    KeepSwap(cells, key, new_, losers);
    if new_.Some? { KeepSnoc(Swap(cells, key, new_), new_.value, losers); }
  }

  /** One undo step seen from one key. */
  lemma {:induction false} UndoneKey(b: Body, b1: Body, r: Record, pid: PageId, key: Bytes)
    requires b.Leaf? && b1.Leaf?
    requires if r.payload.Write? && r.page == pid
             then b1.cells == Rewrite(b.cells, r.payload.key, UndoCellOf(r.payload)) &&
                  (r.payload.deleted ==> r.payload.value == [])
             else b1 == b
    ensures Undone(b.cells, b1.cells, key, if Writes(r, pid, key) then Some(r) else None)
  {
    if r.payload.Write? && r.page == pid {
      var new_ := UndoCellOf(r.payload);
      RewriteSet(b.cells, r.payload.key, new_);
      assert forall c :: c in b1.cells <==> c in CellSet(b1.cells);
    }
  }

  /** Rollback of one transaction: its cell for a key is erased exactly when its first logged
      write to the key was a Set, whatever followed; all other cells keep bytes and order. */
  lemma {:induction false} RollbackErasesExactly(bodies: seq<Body>, rs: seq<Record>, txn: nat, pid: PageId, key: Bytes)
    requires pid < |bodies| && bodies[pid].Leaf?
    requires forall p :: 0 <= p < |bodies| ==> Sound(bodies[p])
    requires InPlace(rs, bodies) && forall r :: r in rs && r.payload.Write? ==> Owner(r.payload.key) == txn
    requires FirstWrite(rs, pid, key).Some?
    ensures var after := UndoAll(bodies, rs)[pid];
      && after.Leaf? && Keep(after.cells, {txn}) == Keep(bodies[pid].cells, {txn})
      && (HasKey(after.cells, key) <==> FirstWrite(rs, pid, key).value.payload.deleted)
  {
    UndoAllExact(bodies, bodies, rs, {txn}, pid);
    assert Undone(bodies[pid].cells, UndoAll(bodies, rs)[pid].cells, key, FirstWrite(rs, pid, key));
  }

  lemma {:induction false} KeepEverything(cells: seq<Cell>, losers: set<nat>)
    requires forall c :: c in cells ==> Owner(c.key) !in losers
    ensures Keep(cells, losers) == cells
  {
    if cells != [] {
      assert cells == cells[..|cells| - 1] + [cells[|cells| - 1]];
      KeepEverything(cells[..|cells| - 1], losers);
    }
  }

  /** Every cell of a loser on the page was logged, and first by an insert. */
  ghost predicate SetFirst(rs: seq<Record>, pid: PageId, cells: seq<Cell>, losers: set<nat>) {
    forall c :: c in cells && Owner(c.key) in losers ==>
      FirstWrite(rs, pid, c.key).Some? && !FirstWrite(rs, pid, c.key).value.payload.deleted
  }

  lemma {:induction false} LoserKeyGone(bodies: seq<Body>, rs: seq<Record>, losers: set<nat>, pid: PageId, key: Bytes)
    requires pid < |bodies| && bodies[pid].Leaf? && UndoAll(bodies, rs)[pid].Leaf?
    requires InPlace(rs, bodies) && Owner(key) in losers
    requires SetFirst(rs, pid, bodies[pid].cells, losers)
    requires Undone(bodies[pid].cells, UndoAll(bodies, rs)[pid].cells, key, FirstWrite(rs, pid, key))
    ensures !HasKey(UndoAll(bodies, rs)[pid].cells, key)
  {
    var cells := bodies[pid].cells;
    if FirstWrite(rs, pid, key).Some? {
      assert HasKey(cells, key);
    } else {
      assert !HasKey(cells, key);
    }
  }

  /** With set-first losers, undo leaves exactly the cells of the others, in order. */
  lemma {:induction false} UndoErasesLosers(bodies: seq<Body>, rs: seq<Record>, losers: set<nat>, pid: PageId)
    requires pid < |bodies| && bodies[pid].Leaf?
    requires forall p :: 0 <= p < |bodies| ==> Sound(bodies[p])
    requires InPlace(rs, bodies)
    requires forall r :: r in rs && r.payload.Write? ==> Owner(r.payload.key) in losers
    requires SetFirst(rs, pid, bodies[pid].cells, losers)
    ensures UndoAll(bodies, rs)[pid] == Leaf(Keep(bodies[pid].cells, losers))
  {
    UndoAllExact(bodies, bodies, rs, losers, pid);
    var done, cells := UndoAll(bodies, rs)[pid].cells, bodies[pid].cells;
    forall c | c in done ensures Owner(c.key) !in losers {
      if Owner(c.key) in losers { LoserKeyGone(bodies, rs, losers, pid, c.key); }
    }
    KeepEverything(done, losers);
  }

  /** A loser's cell that was not logged, or first by a Delete, leaves a cell of the loser behind. */
  lemma {:induction false} LoserCellStays(bodies: seq<Body>, rs: seq<Record>, losers: set<nat>, pid: PageId)
    returns (d: Cell)
    requires pid < |bodies| && bodies[pid].Leaf? && forall p :: 0 <= p < |bodies| ==> Sound(bodies[p])
    requires InPlace(rs, bodies) && forall r :: r in rs && r.payload.Write? ==> Owner(r.payload.key) in losers
    requires !SetFirst(rs, pid, bodies[pid].cells, losers)
    ensures UndoAll(bodies, rs)[pid].Leaf? && d in UndoAll(bodies, rs)[pid].cells && Owner(d.key) in losers
  {
    var c :| c in bodies[pid].cells && Owner(c.key) in losers &&
             !(FirstWrite(rs, pid, c.key).Some? && !FirstWrite(rs, pid, c.key).value.payload.deleted);
    UndoAllExact(bodies, bodies, rs, losers, pid);
    assert Undone(bodies[pid].cells, UndoAll(bodies, rs)[pid].cells, c.key, FirstWrite(rs, pid, c.key));
    d := if FirstWrite(rs, pid, c.key).Some? then Cell(0, c.key, []) else c;
  }

  /** Undo leaves exactly the cells of the others, if and only if each loser's cell was first set. */
  lemma {:induction false} LosersErasedIff(bodies: seq<Body>, rs: seq<Record>, losers: set<nat>, pid: PageId)
    requires pid < |bodies| && bodies[pid].Leaf? && forall p :: 0 <= p < |bodies| ==> Sound(bodies[p])
    requires InPlace(rs, bodies) && forall r :: r in rs && r.payload.Write? ==> Owner(r.payload.key) in losers
    ensures var after := UndoAll(bodies, rs)[pid];
      && after.Leaf?
      && ((CellSet(after.cells) == set c | c in bodies[pid].cells && Owner(c.key) !in losers) <==>
          SetFirst(rs, pid, bodies[pid].cells, losers))
  {
    if SetFirst(rs, pid, bodies[pid].cells, losers) {
      UndoErasesLosers(bodies, rs, losers, pid);
      KeepMembers(bodies[pid].cells, losers);
    } else {
      var d := LoserCellStays(bodies, rs, losers, pid);
      assert d in CellSet(UndoAll(bodies, rs)[pid].cells);
    }
  }
}
