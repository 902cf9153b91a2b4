/** Why only set-first transactions may roll back in a clean run. Undo of a Delete stores a live
    empty cell; if the Delete was the transaction's first write to the key, the cell stays. */
module DeleteFirst {
  import opened Bytes
  import opened Cells
  import opened MvccKeys
  import opened Log
  import opened Redo
  import opened Undo
  import opened IdealStore
  import opened Mvcc
  import opened MvccRefinement
  import opened History

  /** The transaction is running and its first write to the key was a Delete. */
  ghost predicate DeletedFirst(db: Db, t: TxnId, u: Bytes) {
    var first := FirstWrite(ChainOf(db, t), 0, BuildMvccKey(u, t));
    RunningIn(db, t) && first.Some? && first.value.payload.Write? && first.value.payload.deleted
  }

  function Ghost(u: Bytes, t: TxnId): Cell {
    Cell(0, BuildMvccKey(u, t), [])
  }

  // ---- The leaf after the rollback ----

  /** The cells of the transaction stand where they sort, or behind all others. */
  ghost predicate Placed(cells: seq<Cell>, t: nat) {
    forall i, j :: 0 <= i < j < |cells| && Tx(cells[i]) == t && Tx(cells[j]) != t ==> Less(cells[i].key, cells[j].key)
  }

  lemma {:induction false} PlacedSnoc(cells: seq<Cell>, c: Cell, t: nat)
    requires Placed(cells, t) && (Tx(c) == t || forall x :: x in cells && Tx(x) == t ==> Less(x.key, c.key))
    ensures Placed(cells + [c], t)
  {
  }

  lemma {:induction false} SwapPlaced(cells: seq<Cell>, key: Bytes, new_: Option<Cell>, t: nat)
    requires Placed(cells, t) && Owner(key) == t && (new_.Some? ==> new_.value.key == key)
    ensures Placed(Swap(cells, key, new_), t)
  {
    if cells != [] {
      var front, c := cells[..|cells| - 1], cells[|cells| - 1];
      SwapPlaced(front, key, new_, t);
      SwapMembers(front, key, new_);
      if c.key != key {
        forall x | x in Swap(front, key, new_) && Tx(x) == t && Tx(c) != t ensures Less(x.key, c.key) {
          var d :| d in front && d.key == x.key;
          var i :| 0 <= i < |front| && front[i] == d;
          assert cells[i] == d && cells[|cells| - 1] == c;
        }
        PlacedSnoc(Swap(front, key, new_), c, t);
      } else if new_.Some? {
        PlacedSnoc(Swap(front, key, new_), new_.value, t);
      }
    }
  }

  lemma {:induction false} RewritePlaced(cells: seq<Cell>, key: Bytes, new_: Option<Cell>, t: nat)
    requires Placed(cells, t) && Owner(key) == t && (new_.Some? ==> new_.value.key == key)
    ensures Placed(Rewrite(cells, key, new_), t)
  {
    SwapPlaced(cells, key, new_, t);
    if new_.Some? { PlacedSnoc(Swap(cells, key, new_), new_.value, t); }
  }

  lemma {:induction false} UndoPlaced(body: Body, orig: Body, rs: seq<Record>, t: nat)
    requires AllShrunk([body], [orig]) && body.Leaf? && orig.Leaf? && InPlace(rs, [orig]) && Placed(body.cells, t)
    requires forall r :: r in rs ==> r.payload.Write? && Owner(r.payload.key) == t
    ensures var done := UndoAll([body], rs)[0];
      done.Leaf? && Sound(done) && Placed(done.cells, t)
    decreases |rs|
  {
    if rs == [] {
      assert Sound([body][0]);
    } else {
      var front, r := rs[..|rs| - 1], rs[|rs| - 1];
      assert rs == front + [r];
      InPlaceParts(front, r, [orig]);
      assert r in [r] && r in rs && forall x :: x in front ==> x in rs;
      UndoStepShrunk([body], [orig], r);
      RewritePlaced(body.cells, r.payload.key, UndoCellOf(r.payload), t);
      var next := UndoRecord([body], r);
      assert next == [next[0]];
      UndoPlaced(next[0], orig, front, t);
    }
  }

  /** The leaf after the rollback, as far as the key is concerned: the ghost is there, everything else
      is an older committed version, and the ghost stands behind it or at the end of the leaf. */
  ghost predicate Haunted(leaf: seq<Cell>, next: nat, t: TxnId, u: Bytes) {
    && Sound(Leaf(leaf)) && Placed(leaf, t) && Ghost(u, t) in leaf
    && (forall c :: c in leaf ==> VersionCell(c, next))
    && (forall c :: c in leaf && User(c) == u && c != Ghost(u, t) ==> Tx(c) < t)
  }

  lemma {:induction false} RolledBackKeys(db: Db, t: TxnId, c: Cell)
    requires VersionLeaf(db.leaf, db.next) && ChainOk(db, t) && c in RolledBackDb(db, t).leaf
    ensures VersionCell(c, db.next) && (Tx(c) != t ==> c in db.leaf)
  {
    var leaf', first := RolledBackDb(db, t).leaf, FirstWrite(ChainOf(db, t), 0, c.key);
    SortedIsUnique(db.leaf);
    UndoAllExact([Leaf(db.leaf)], [Leaf(db.leaf)], ChainOf(db, t), {t as nat}, 0);
    assert Undo.Undone(db.leaf, leaf', c.key, first);
    KeepMembers(leaf', {t as nat});
    KeepMembers(db.leaf, {t as nat});
    if first.Some? {
      SameKeySameCell(leaf', c, Cell(0, c.key, []));
      var d :| d in db.leaf && d.key == c.key;
    }
  }

  lemma {:induction false} OlderThanWriter(db: Db, s: Store, w: nat, t: nat, u: Bytes, c: Cell, d: Cell)
    requires Rel(db, s, w) && RunningIn(db, t) && c in db.leaf && d in db.leaf && User(c) == u && User(d) == u
    requires Tx(c) == t && Tx(d) != t
    ensures Tx(d) < t
  {
    RunningAgrees(db, s, w, t);
    assert s.Has(u, Tx(c)) && s.Has(u, Tx(d));
    OlderInStore(s, u, t, Tx(d));
  }

  lemma {:induction false} OlderInStore(s: Store, u: Bytes, t: nat, t': nat)
    requires Inv(s) && IsRunning(s, t) && s.Has(u, t) && s.Has(u, t') && t' != t
    ensures t' < t
  {
  }

  lemma {:induction false} RollbackHaunts(db: Db, s: Store, w: nat, t: TxnId, u: Bytes)
    requires Rel(db, s, w) && DeletedFirst(db, t, u)
    ensures Haunted(RolledBackDb(db, t).leaf, db.next, t, u)
  {
    var leaf' := RolledBackDb(db, t).leaf;
    GhostLeft(db, t, u);
    forall c | c in leaf' ensures VersionCell(c, db.next) {
      assert ChainOk(db, t);
      RolledBackKeys(db, t, c);
    }
    forall c | c in leaf' && User(c) == u && c != Ghost(u, t) ensures Tx(c) < t {
      OthersOlder(db, s, w, t, u, c);
    }
  }

  lemma {:induction false} GhostLeft(db: Db, t: TxnId, u: Bytes)
    requires VersionLeaf(db.leaf, db.next) && ChainsRun(db) && DeletedFirst(db, t, u)
    ensures var leaf' := RolledBackDb(db, t).leaf;
      Sound(Leaf(leaf')) && Placed(leaf', t) && Ghost(u, t) in leaf'
  {
    var key, chain := BuildMvccKey(u, t), ChainOf(db, t);
    ExtractInvertsBuild(u, t);
    assert ChainOk(db, t);
    SortedIsUnique(db.leaf);
    UndoAllExact([Leaf(db.leaf)], [Leaf(db.leaf)], chain, {t as nat}, 0);
    assert Undo.Undone(db.leaf, RolledBackDb(db, t).leaf, key, FirstWrite(chain, 0, key));
    UndoPlaced(Leaf(db.leaf), Leaf(db.leaf), chain, t);
  }

  lemma {:induction false} OthersOlder(db: Db, s: Store, w: nat, t: TxnId, u: Bytes, c: Cell)
    requires Rel(db, s, w) && DeletedFirst(db, t, u)
    requires c in RolledBackDb(db, t).leaf && User(c) == u && c != Ghost(u, t)
    ensures Tx(c) < t
  {
    ExtractInvertsBuild(u, t);
    assert ChainOk(db, t);
    GhostLeft(db, t, u);
    RolledBackKeys(db, t, c);
    var own :| own in db.leaf && own.key == BuildMvccKey(u, t);
    if Tx(c) == t {
      SameKeySameCell(RolledBackDb(db, t).leaf, c, Ghost(u, t));
    } else {
      OlderThanWriter(db, s, w, t, u, own, c);
    }
  }

  lemma {:induction false} SameKeySameCell(cells: seq<Cell>, c: Cell, d: Cell)
    requires UniqueKeys(cells) && c in cells && d in cells && c.key == d.key
    ensures c == d
  {
  }

  // ---- The vacuum after it ----

  /** Vacuum does not drop the ghost: it is live, and the next slot holds no version of its key. */
  lemma {:induction false} GhostNotDropped(leaf: seq<Cell>, next: nat, t: TxnId, u: Bytes, i: nat, m: nat)
    requires Haunted(leaf, next, t, u) && NulFree(u) && i < |leaf| && leaf[i] == Ghost(u, t)
    ensures !Dropped(leaf, i, m)
  {
    ExtractInvertsBuild(u, t);
    if i + 1 < |leaf| && User(leaf[i + 1]) == u {
      var d := leaf[i + 1];
      assert d in leaf && d.key != leaf[i].key;
      CellOrder(leaf[i], d, next);
      LessIrreflexive(u);
    }
  }

  lemma {:induction false} GhostKept(leaf: seq<Cell>, next: nat, t: TxnId, u: Bytes, m: nat)
    requires Haunted(leaf, next, t, u) && NulFree(u)
    ensures Ghost(u, t) in Fill(Kept(leaf, m, |leaf|))
  {
    var i :| 0 <= i < |leaf| && leaf[i] == Ghost(u, t);
    GhostNotDropped(leaf, next, t, u, i, m);
    KeptMembers(leaf, m, |leaf|);
    KeptFits(leaf, m);
  }

  lemma {:induction false} KeptFits(leaf: seq<Cell>, m: nat)
    requires Fits(leaf)
    ensures Fill(Kept(leaf, m, |leaf|)) == Kept(leaf, m, |leaf|)
  {
    KeptSpace(leaf, m, |leaf|);
    assert leaf[..|leaf|] == leaf;
    FillKeepsAllIffFits(Kept(leaf, m, |leaf|));
  }

  lemma {:induction false} GhostIsBest(leaf: seq<Cell>, kept: seq<Cell>, next: nat, t: TxnId, u: Bytes, r: TxnId,
        table: map<nat, Status>)
    requires Haunted(leaf, next, t, u) && Ghost(u, t) in kept && (forall c :: c in kept ==> c in leaf)
    requires NulFree(u) && t < r && StatusOf(table, t) == Committed
    ensures Answer(FindBest(kept, BuildMvccKey(u, r), table)) == Value([])
  {
    var key, g := BuildMvccKey(u, r), Ghost(u, t);
    ExtractInvertsBuild(u, t);
    ExtractInvertsBuild(u, r);
    FindBestCorrect(kept, key, table);
    var best := FindBest(kept, key, table);
    assert Visible(g.key, key, table) && best.Some?;
    if best.value != g {
      KeyOrderEmbedding(u, Tx(best.value), u, t);
      LessAsymmetric(best.value.key, g.key);
    }
  }

  lemma {:induction false} HauntedVacuum(db1: Db, next: nat, t: TxnId, u: Bytes, r: TxnId, m: nat)
    requires Haunted(db1.leaf, next, t, u) && NulFree(u) && t < r
    requires t in db1.status && db1.status[t] == RolledBack
    ensures var db2 := VacuumDb(db1, m);
      && Ghost(u, t) in db2.leaf
      && (t < m ==> GetNow(db2, u, r) == Value([]))
      && (t < m && Sorted(db1.leaf) ==> forall c :: c in db2.leaf && User(c) == u ==> c == Ghost(u, t))
  {
    var db2 := VacuumDb(db1, m);
    GhostKept(db1.leaf, next, t, u, m);
    KeptFits(db1.leaf, m);
    if t < m {
      KeptMembers(db1.leaf, m, |db1.leaf|);
      GhostIsBest(db1.leaf, db2.leaf, next, t, u, r, db2.status);
      if Sorted(db1.leaf) { OlderDropped(db1.leaf, next, t, u, m); }
    }
  }

  /** The pruned owner counts as committed. */
  lemma {:induction false} GhostSeenIffPruned(status: map<nat, Status>, t: TxnId, u: Bytes, r: TxnId, m: nat)
    requires t in status && status[t] == RolledBack && t < r
    ensures Visible(Ghost(u, t).key, BuildMvccKey(u, r), Pruned(status, m)) <==> t < m
  {
    ExtractInvertsBuild(u, t);
    ExtractInvertsBuild(u, r);
  }

  /** A transaction whose first write to a key was a Delete rolls back, and a vacuum follows. The
      ghost becomes visible exactly when the transaction is below every running one. Then every later
      reader is told the empty value, and if the leaf is still in order all committed versions of the
      key are gone. */
  lemma {:induction false} RolledBackDeleteErasesValue(db: Db, s: Store, w: nat, t: TxnId, u: Bytes, r: TxnId)
    requires Rel(db, s, w) && DeletedFirst(db, t, u) && NulFree(u) && t < r
    ensures var db1 := RolledBackDb(db, t); var m := MinActive(db1.status); var db2 := VacuumDb(db1, m);
      && Ghost(u, t) in db2.leaf
      && (Visible(Ghost(u, t).key, BuildMvccKey(u, r), db2.status) <==> t < m)
      && (t < m ==> GetNow(db2, u, r) == Value([]))
      && (t < m && Sorted(db1.leaf) ==> forall c :: c in db2.leaf && User(c) == u ==> c == Ghost(u, t))
  {
    var db1 := RolledBackDb(db, t);
    var m := MinActive(db1.status);
    RollbackHaunts(db, s, w, t, u);
    HauntedVacuum(db1, db.next, t, u, r, m);
    GhostSeenIffPruned(db1.status, t, u, r, m);
  }

  /** In a leaf in order the ghost makes every older version obsolete. */
  lemma {:induction false} OlderDropped(leaf: seq<Cell>, next: nat, t: TxnId, u: Bytes, m: nat)
    requires Haunted(leaf, next, t, u) && NulFree(u) && Sorted(leaf) && t < m
    ensures forall c :: c in Kept(leaf, m, |leaf|) && User(c) == u ==> c == Ghost(u, t)
  {
    KeptMembers(leaf, m, |leaf|);
    ExtractInvertsBuild(u, t);
    forall i | 0 <= i < |leaf| && User(leaf[i]) == u && leaf[i] != Ghost(u, t) ensures Dropped(leaf, i, m) {
      DroppedIsObsolete(leaf, next, i, m);
      assert Obsolete(leaf, leaf[i], m);
    }
  }

  /** The same after any clean run. */
  lemma {:induction false} RolledBackDeleteAfterRun(ops: seq<Op>, t: TxnId, u: Bytes, r: TxnId)
    requires CleanRun(EMPTY_DB, ops) && DeletedFirst(FinalDb(EMPTY_DB, ops), t, u) && NulFree(u) && t < r
    ensures var db1 := RolledBackDb(FinalDb(EMPTY_DB, ops), t);
      var m := MinActive(db1.status);
      var db2 := VacuumDb(db1, m);
      && (Visible(Ghost(u, t).key, BuildMvccKey(u, r), db2.status) <==> t < m)
      && (t < m ==> GetNow(db2, u, r) == Value([]))
      && (t < m && Sorted(db1.leaf) ==> forall c :: c in db2.leaf && User(c) == u ==> c == Ghost(u, t))
  {
    EmptyRelated();
    var w := FinalRelated(EMPTY_DB, EMPTY, 1, ops);
    RolledBackDeleteErasesValue(FinalDb(EMPTY_DB, ops), After(EMPTY, ops), w, t, u, r);
  }

  /** If the Delete is all the transaction wrote, its rollback keeps the leaf in order: the ghost
      takes the tombstone's slot. */
  lemma {:induction false} LoneDeleteKeepsOrder(db: Db, t: TxnId, u: Bytes)
    requires VersionLeaf(db.leaf, db.next) && ChainOk(db, t)
    requires ChainOf(db, t) == [Logged(t, true, BuildMvccKey(u, t), [])]
    ensures Sorted(RolledBackDb(db, t).leaf)
  {
    var r, key := ChainOf(db, t)[0], BuildMvccKey(u, t);
    assert r in ChainOf(db, t) && HasKey(db.leaf, key);
    SortedIsUnique(db.leaf);
    UndoStepShrunk([Leaf(db.leaf)], [Leaf(db.leaf)], r);
    SwapKeys(db.leaf, Ghost(u, t));
    assert [r][..0] == [] && UndoAll([Leaf(db.leaf)], [r]) == UndoRecord([Leaf(db.leaf)], r);
    assert UndoCellOf(r.payload) == Some(Ghost(u, t));
    assert Rewrite(db.leaf, key, Some(Ghost(u, t))) == Swap(db.leaf, key, Some(Ghost(u, t)));
    assert RolledBackDb(db, t).leaf == Swap(db.leaf, key, Some(Ghost(u, t)));
  }

  lemma {:induction false} SwapKeys(cells: seq<Cell>, c: Cell)
    ensures var cells' := Swap(cells, c.key, Some(c));
      |cells'| == |cells| && forall i :: 0 <= i < |cells| ==> cells'[i].key == cells[i].key
  {
    if cells != [] { SwapKeys(cells[..|cells| - 1], c); }
  }

  // ---- A concrete run ----

  function FirstCell(u: Bytes, v: Bytes): Cell {
    Cell(0, BuildMvccKey(u, 1), v)
  }

  function Tombstone(u: Bytes): Cell {
    Cell(KEY_DELETED_FLAG, BuildMvccKey(u, 2), [])
  }

  /** Transaction 1 stores a value and commits; transaction 2 deletes the key. */
  function StoreThenDelete(u: Bytes, v: Bytes): seq<Op> {
    [Begin(1)] + [Set(1, u, v)] + [Op.Commit(1)] + [Begin(2)] + [Delete(2, u)]
  }

  lemma {:induction false} Reach(ops: seq<Op>, db: Db, op: Op, db': Db)
    requires CleanRun(EMPTY_DB, ops) && FinalDb(EMPTY_DB, ops) == db && Clean(db, op) && StepDb(db, op).0 == db'
    ensures CleanRun(EMPTY_DB, ops + [op]) && FinalDb(EMPTY_DB, ops + [op]) == db'
  {
    CleanSnoc(EMPTY_DB, ops, op);
  }

  function ChainOf1(u: Bytes, v: Bytes): map<nat, seq<Record>> {
    map[1 := [Logged(1, false, BuildMvccKey(u, 1), v)]]
  }

  lemma {:induction false} SetStep(u: Bytes, v: Bytes)
    requires NulFree(u) && Fits([FirstCell(u, v)])
    ensures var db := Db([], map[1 := Running], map[], 2);
      && Clean(db, Set(1, u, v))
      && StepDb(db, Set(1, u, v)).0 == Db([FirstCell(u, v)], map[1 := Running], ChainOf1(u, v), 2)
  {
    var k, c := BuildMvccKey(u, 1), FirstCell(u, v);
    NewCellRewritten([], c);
    SortedStays([c]);
    assert !HasRival([], k, map[1 := Running]);
    var db := Db([], map[1 := Running], map[], 2);
    assert ChainOf(db, 1) + [Logged(1, false, k, v)] == [Logged(1, false, k, v)];
    assert db.chains[1 as nat := [Logged(1, false, k, v)]] == ChainOf1(u, v);
  }

  lemma {:induction false} StoredRun(u: Bytes, v: Bytes)
    requires NulFree(u) && Fits([FirstCell(u, v)])
    ensures var ops := [Begin(1)] + [Set(1, u, v)] + [Op.Commit(1)] + [Begin(2)];
      && CleanRun(EMPTY_DB, ops)
      && FinalDb(EMPTY_DB, ops) == Db([FirstCell(u, v)], map[1 := Committed, 2 := Running], ChainOf1(u, v), 3)
  {
    var leaf, chains := [FirstCell(u, v)], ChainOf1(u, v);
    var db1, db2 := Db([], map[1 := Running], map[], 2), Db(leaf, map[1 := Running], chains, 2);
    var db3 := Db(leaf, map[1 := Committed], chains, 2);
    Reach([], EMPTY_DB, Begin(1), db1);
    assert [] + [Begin(1)] == [Begin(1)];
    SetStep(u, v);
    Reach([Begin(1)], db1, Set(1, u, v), db2);
    assert map[1 := Running][1 as nat := Committed] == map[1 := Committed];
    Reach([Begin(1)] + [Set(1, u, v)], db2, Op.Commit(1), db3);
    assert map[1 := Committed][2 as nat := Running] == map[1 := Committed, 2 := Running];
    Reach([Begin(1)] + [Set(1, u, v)] + [Op.Commit(1)], db3, Begin(2),
          Db(leaf, map[1 := Committed, 2 := Running], chains, 3));
  }

  lemma {:induction false} NoRival(u: Bytes, v: Bytes, table: map<nat, Status>)
    requires StatusOf(table, 1) == Committed
    ensures !HasRival([FirstCell(u, v)], BuildMvccKey(u, 2), table)
  {
    ExtractInvertsBuild(u, 1);
    ExtractInvertsBuild(u, 2);
  }

  lemma {:induction false} DeleteStep(db: Db, u: Bytes, v: Bytes)
    requires NulFree(u) && Fits([FirstCell(u, v), Tombstone(u)]) && db.leaf == [FirstCell(u, v)]
    requires RunningIn(db, 2) && StatusOf(db.status, 1) == Committed && ChainOf(db, 2) == []
    ensures Clean(db, Delete(2, u))
    ensures var db' := StepDb(db, Delete(2, u)).0;
      && db'.leaf == [FirstCell(u, v), Tombstone(u)] && db'.status == db.status
      && ChainOf(db', 2) == [Logged(2, true, BuildMvccKey(u, 2), [])]
  {
    KeyOrderEmbedding(u, 1, u, 2);
    TwoCells(FirstCell(u, v), Tombstone(u));
    NoRival(u, v, db.status);
  }

  lemma {:induction false} DeletedRun(u: Bytes, v: Bytes) returns (db: Db)
    requires NulFree(u) && Fits([FirstCell(u, v)]) && Fits([FirstCell(u, v), Tombstone(u)])
    ensures CleanRun(EMPTY_DB, StoreThenDelete(u, v)) && FinalDb(EMPTY_DB, StoreThenDelete(u, v)) == db
    ensures db.leaf == [FirstCell(u, v), Tombstone(u)] && db.status == map[1 := Committed, 2 := Running]
    ensures ChainOf(db, 2) == [Logged(2, true, BuildMvccKey(u, 2), [])]
  {
    StoredRun(u, v);
    var before := Db([FirstCell(u, v)], map[1 := Committed, 2 := Running], ChainOf1(u, v), 3);
    DeleteStep(before, u, v);
    db := StepDb(before, Delete(2, u)).0;
    Reach([Begin(1)] + [Set(1, u, v)] + [Op.Commit(1)] + [Begin(2)], before, Delete(2, u), db);
  }

  /** From the empty state: transaction 1 stores a value and commits, transaction 2 deletes the key and
      rolls back, a vacuum follows. Every later transaction is told the empty value, and the committed
      one is nowhere in the leaf. */
  lemma {:induction false} CommittedValueLost(u: Bytes, v: Bytes, r: TxnId)
    requires NulFree(u) && Fits([FirstCell(u, v)]) && Fits([FirstCell(u, v), Tombstone(u)]) && r > 2
    ensures CleanRun(EMPTY_DB, StoreThenDelete(u, v))
    ensures var db := FinalDb(EMPTY_DB, StoreThenDelete(u, v)); var db1 := RolledBackDb(db, 2);
      var db2 := VacuumDb(db1, MinActive(db1.status));
      && GetNow(db, u, r) == Value(v) && GetNow(db2, u, r) == Value([])
      && forall c :: c in db2.leaf && User(c) == u ==> c == Ghost(u, 2)
  {
    var db := DeletedRun(u, v);
    BeforeRollback(u, v, r, db.status);
    LostIn(StoreThenDelete(u, v), db, u, r);
  }

  lemma {:induction false} LostIn(ops: seq<Op>, db: Db, u: Bytes, r: TxnId)
    requires CleanRun(EMPTY_DB, ops) && db == FinalDb(EMPTY_DB, ops) && NulFree(u) && r > 2
    requires db.status == map[1 := Committed, 2 := Running]
    requires ChainOf(db, 2) == [Logged(2, true, BuildMvccKey(u, 2), [])]
    ensures var db1 := RolledBackDb(db, 2); var db2 := VacuumDb(db1, MinActive(db1.status));
      GetNow(db2, u, r) == Value([]) && forall c :: c in db2.leaf && User(c) == u ==> c == Ghost(u, 2)
  {
    EmptyRelated();
    var w := FinalRelated(EMPTY_DB, EMPTY, 1, ops);
    assert ChainOk(db, 2);
    LoneDeleteKeepsOrder(db, 2, u);
    OneDelete(db, u);
    NobodyRuns(RolledBackDb(db, 2).status);
    RolledBackDeleteAfterRun(ops, 2, u, r);
  }

  lemma {:induction false} NobodyRuns(table: map<nat, Status>)
    requires forall t :: t in table ==> table[t] != Running
    ensures MinActive(table) == MAX_TXID
  {
  }

  lemma {:induction false} OneDelete(db: Db, u: Bytes)
    requires RunningIn(db, 2) && ChainOf(db, 2) == [Logged(2, true, BuildMvccKey(u, 2), [])]
    ensures DeletedFirst(db, 2, u)
  {
    assert Writes(ChainOf(db, 2)[0], 0, BuildMvccKey(u, 2));
  }

  lemma {:induction false} BeforeRollback(u: Bytes, v: Bytes, r: TxnId, table: map<nat, Status>)
    requires NulFree(u) && r > 2 && StatusOf(table, 1) == Committed && StatusOf(table, 2) == Running
    ensures Answer(FindBest([FirstCell(u, v), Tombstone(u)], BuildMvccKey(u, r), table)) == Value(v)
  {
    var cells, key := [FirstCell(u, v), Tombstone(u)], BuildMvccKey(u, r);
    ExtractInvertsBuild(u, 1);
    ExtractInvertsBuild(u, 2);
    ExtractInvertsBuild(u, r);
    FindBestCorrect(cells, key, table);
    assert FirstCell(u, v) in cells && Visible(FirstCell(u, v).key, key, table);
  }
}
