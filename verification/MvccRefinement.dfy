/** The engine with vacuum refines the ideal store without it, over every clean run. */
module MvccRefinement {
  import opened Bytes
  import opened Cells
  import opened MvccKeys
  import opened Log
  import opened Redo
  import opened Undo
  import Ideal = IdealStore
  import opened Mvcc

  type Store = Ideal.Store
  type Op = Ideal.Op
  type Response = Ideal.Response

  // ---- Version cells ----

  /** The cell stores a version of a NUL-free key by a transaction below `next`. */
  predicate VersionCell(c: Cell, next: nat) {
    && NulFree(User(c)) && Tx(c) < next && Tx(c) <= MAX_TXID
    && c.key == BuildMvccKey(User(c), Tx(c))
    && (c.flag == 0 || c.flag == KEY_DELETED_FLAG)
  }

  ghost predicate VersionLeaf(cells: seq<Cell>, next: nat) {
    Sorted(cells) && Fits(cells) && forall c :: c in cells ==> VersionCell(c, next)
  }

  function EntryOf(c: Cell): Ideal.Entry {
    Ideal.Entry(c.flag == KEY_DELETED_FLAG, c.value)
  }

  ghost predicate HasVersion(cells: seq<Cell>, u: Bytes, t: nat) {
    exists c :: c in cells && User(c) == u && Tx(c) == t
  }

  /** Keys sort by user key and then by transaction. */
  lemma {:induction false} CellOrder(a: Cell, b: Cell, next: nat)
    requires VersionCell(a, next) && VersionCell(b, next)
    ensures Less(a.key, b.key) <==> VersionLess(User(a), Tx(a), User(b), Tx(b))
  {
    KeyOrderEmbedding(User(a), Tx(a), User(b), Tx(b));
  }

  /** Different cells of a leaf are different versions. */
  lemma {:induction false} VersionsDistinct(cells: seq<Cell>, next: nat, a: Cell, b: Cell)
    requires VersionLeaf(cells, next) && a in cells && b in cells
    requires User(a) == User(b) && Tx(a) == Tx(b)
    ensures a == b
  {
    SortedIsUnique(cells);
  }

  // ---- Vacuum, seen as a set ----

  /** A version goes when a newer version of its key is older than every active transaction, or
      when it is itself such a tombstone. */
  ghost predicate Obsolete(cells: seq<Cell>, c: Cell, m: nat) {
    || (exists d :: d in cells && User(d) == User(c) && Tx(c) < Tx(d) < m)
    || (c.IsDeleted() && Tx(c) < m)
  }

  /** The test on the next slot is a test on all newer versions, because versions of a key are
      contiguous and ascending in a sorted leaf. */
  lemma {:induction false} DroppedIsObsolete(cells: seq<Cell>, next: nat, i: nat, m: nat)
    requires VersionLeaf(cells, next) && i < |cells|
    ensures Dropped(cells, i, m) <==> Obsolete(cells, cells[i], m)
  {
    var c := cells[i];
    if i + 1 < |cells| && User(c) == User(cells[i + 1]) {
      var d := cells[i + 1];
      CellOrder(c, d, next);
      LessIrreflexive(User(c));
      assert d in cells && Tx(c) < Tx(d);
    }
    forall e | e in cells && User(e) == User(c) && Tx(c) < Tx(e) < m
      ensures i + 1 < |cells| && User(c) == User(cells[i + 1]) && Tx(cells[i + 1]) < m
    {
      var j :| 0 <= j < |cells| && cells[j] == e;
      NextVersion(cells, next, i, j);
    }
  }

  lemma {:induction false} NextVersion(cells: seq<Cell>, next: nat, i: nat, j: nat)
    requires VersionLeaf(cells, next) && i < |cells| && j < |cells|
    requires User(cells[i]) == User(cells[j]) && Tx(cells[i]) < Tx(cells[j])
    ensures i < j && User(cells[i + 1]) == User(cells[i]) && Tx(cells[i + 1]) <= Tx(cells[j])
  {
    var c, e := cells[i], cells[j];
    CellOrder(c, e, next);
    LessAsymmetric(c.key, e.key);
    assert i < j;
    if i + 1 < j {
      var d := cells[i + 1];
      CellOrder(c, d, next);
      CellOrder(d, e, next);
      if Less(User(c), User(d)) { LessAsymmetric(User(c), User(d)); }
      LessIrreflexive(User(c));
    }
  }

  lemma {:induction false} KeptMembers(cells: seq<Cell>, m: nat, n: nat)
    requires n <= |cells|
    ensures forall c :: c in Kept(cells, m, n) <==> exists i :: 0 <= i < n && cells[i] == c && !Dropped(cells, i, m)
  {
    if n > 0 { KeptMembers(cells, m, n - 1); }
  }

  lemma {:induction false} KeptSpace(cells: seq<Cell>, m: nat, n: nat)
    requires n <= |cells|
    ensures Space(Kept(cells, m, n)) <= Space(cells[..n])
  {
    if n > 0 {
      KeptSpace(cells, m, n - 1);
      assert cells[..n][..n - 1] == cells[..n - 1];
      if Dropped(cells, n - 1, m) {
        assert Kept(cells, m, n) == Kept(cells, m, n - 1);
      } else {
        SpaceConcat(Kept(cells, m, n - 1), [cells[n - 1]]);
        assert Space([cells[n - 1]]) == SLOT_SIZE + cells[n - 1].Size();
      }
    }
  }

  lemma {:induction false} KeptSorted(cells: seq<Cell>, m: nat, n: nat)
    requires n <= |cells| && Sorted(cells)
    ensures Sorted(Kept(cells, m, n))
  {
    if n > 0 {
      KeptSorted(cells, m, n - 1);
      KeptMembers(cells, m, n - 1);
      SortedSnoc(Kept(cells, m, n - 1), cells[n - 1]);
    }
  }

  /** vacuumLeaf removes exactly the obsolete versions and keeps the leaf in order. */
  lemma {:induction false} VacuumRemovesObsolete(cells: seq<Cell>, next: nat, m: nat)
    requires VersionLeaf(cells, next)
    ensures var kept := Fill(Kept(cells, m, |cells|));
      VersionLeaf(kept, next) && forall c :: c in kept <==> c in cells && !Obsolete(cells, c, m)
  {
    var kept := Kept(cells, m, |cells|);
    KeptMembers(cells, m, |cells|);
    KeptSpace(cells, m, |cells|);
    KeptSorted(cells, m, |cells|);
    assert cells[..|cells|] == cells;
    FillKeepsAllIffFits(kept);
    forall i | 0 <= i < |cells| ensures Dropped(cells, i, m) <==> Obsolete(cells, cells[i], m) {
      DroppedIsObsolete(cells, next, i, m);
    }
    forall c ensures c in kept <==> c in cells && !Obsolete(cells, c, m) {
      if c in cells {
        var i :| 0 <= i < |cells| && cells[i] == c;
      }
    }
  }

  // ---- The relation ----

  /** Version `t` is the newest one below the watermark. */
  ghost predicate NewestBelow(s: Store, u: Bytes, w: nat, t: nat) {
    s.Has(u, t) && t < w && forall t': nat :: s.Has(u, t') && t' < w ==> t' <= t
  }

  /** Every stored cell is a version of the ideal store. */
  ghost predicate Faithful(cells: seq<Cell>, s: Store) {
    forall c :: c in cells ==> s.Has(User(c), Tx(c)) && s.versions[(User(c), Tx(c))] == EntryOf(c)
  }

  /** At and above the watermark nothing is missing. */
  ghost predicate CompleteAbove(cells: seq<Cell>, s: Store, w: nat) {
    forall u, t: nat :: s.Has(u, t) && t >= w ==> HasVersion(cells, u, t)
  }

  ghost predicate NoneBelow(cells: seq<Cell>, u: Bytes, w: nat) {
    forall c :: c in cells && User(c) == u ==> Tx(c) >= w
  }

  /** Below it, the newest version is there, or it was a tombstone and all of the key is gone. */
  ghost predicate BaseBelow(cells: seq<Cell>, s: Store, w: nat) {
    forall u, t: nat :: NewestBelow(s, u, w, t) ==>
      HasVersion(cells, u, t) || (s.versions[(u, t)].deleted && NoneBelow(cells, u, w))
  }

  /** The tables agree at and above the watermark; nobody runs below it. */
  ghost predicate TablesAgree(db: Db, s: Store, w: nat) {
    && (forall t: nat :: t in db.status ==> t < db.next)
    && (forall t: nat :: t >= w ==> (t in db.status <==> t in s.status))
    && (forall t: nat :: t >= w && t in db.status && t in s.status ==> db.status[t] == s.status[t])
    && (forall t: nat :: t < w && t in db.status ==> db.status[t] != Ideal.Running)
    && (forall t: nat :: t < w && t in s.status ==> s.status[t] != Ideal.Running)
    && (forall t: nat :: t < w && t in db.status && t in s.status ==> db.status[t] == s.status[t])
  }

  /** The undo chain of a running transaction accounts for its cells. */
  ghost predicate ChainOk(db: Db, t: nat) {
    && (forall r :: r in ChainOf(db, t) ==>
          && r.payload.Write? && r.page == 0 && Owner(r.payload.key) == t
          && HasKey(db.leaf, r.payload.key) && (r.payload.deleted ==> r.payload.value == []))
    && (forall c :: c in db.leaf && Tx(c) == t ==> FirstWrite(ChainOf(db, t), 0, c.key).Some?)
  }

  ghost predicate ChainsRun(db: Db) {
    && (forall t: nat :: RunningIn(db, t) ==> ChainOk(db, t))
    && (forall t: nat :: t >= db.next ==> t !in db.chains)
  }

  ghost predicate Rel(db: Db, s: Store, w: nat) {
    && Ideal.Inv(s) && db.next == s.next && w <= db.next
    && VersionLeaf(db.leaf, db.next) && Faithful(db.leaf, s)
    && CompleteAbove(db.leaf, s, w) && BaseBelow(db.leaf, s, w)
    && TablesAgree(db, s, w) && ChainsRun(db)
  }

  // ---- Reads and conflicts ----

  lemma {:induction false} StatusAgrees(db: Db, s: Store, w: nat, u: Bytes, t: nat)
    requires Rel(db, s, w) && s.Has(u, t)
    ensures Ideal.StatusOf(db.status, t) == Ideal.StatusOf(s.status, t)
  {
  }

  lemma {:induction false} VisibleIsSeen(db: Db, s: Store, w: nat, c: Cell, u: Bytes, r: TxnId)
    requires Rel(db, s, w) && c in db.leaf
    ensures Visible(c.key, BuildMvccKey(u, r), db.status) <==> User(c) == u && s.Sees(u, Tx(c), r)
  {
    ExtractInvertsBuild(u, r);
    if User(c) == u { StatusAgrees(db, s, w, u, Tx(c)); }
  }

  /** Some version below the watermark is the newest. */
  lemma {:induction false} NewestBelowExists(s: Store, u: Bytes, w: nat, t: nat)
    requires s.Has(u, t) && t < w
    ensures exists x: nat :: x >= t && NewestBelow(s, u, w, x)
    decreases w - t
  {
    if t': nat :| s.Has(u, t') && t < t' < w {
      NewestBelowExists(s, u, w, t');
    } else {
      assert NewestBelow(s, u, w, t);
    }
  }

  /** If the leaf shows some version of the key to `r`, the best cell is the ideal newest one. */
  lemma {:induction false} BestIsNewest(db: Db, s: Store, w: nat, u: Bytes, r: TxnId, best: Cell)
    requires Rel(db, s, w) && w <= r
    requires FindBest(db.leaf, BuildMvccKey(u, r), db.status) == Option.Some(best)
    ensures User(best) == u && s.Newest(u, Tx(best), r)
  {
    var key := BuildMvccKey(u, r);
    FindBestCorrect(db.leaf, key, db.status);
    VisibleIsSeen(db, s, w, best, u, r);
    forall t: nat | s.Sees(u, t, r) ensures t <= Tx(best) {
      if t >= w {
        StoredIsBelowBest(db, s, w, u, r, best, t);
      } else if Tx(best) < w {
        NewestBelowExists(s, u, w, t);
        var x: nat :| x >= t && NewestBelow(s, u, w, x);
        assert HasVersion(db.leaf, u, x);
        assert s.Sees(u, x, r);
        StoredIsBelowBest(db, s, w, u, r, best, x);
      }
    }
  }

  lemma {:induction false} StoredIsBelowBest(db: Db, s: Store, w: nat, u: Bytes, r: TxnId, best: Cell, t: nat)
    requires Rel(db, s, w) && s.Sees(u, t, r) && HasVersion(db.leaf, u, t)
    requires FindBest(db.leaf, BuildMvccKey(u, r), db.status) == Option.Some(best) && User(best) == u
    ensures t <= Tx(best)
  {
    var c :| c in db.leaf && User(c) == u && Tx(c) == t;
    FindBestCorrect(db.leaf, BuildMvccKey(u, r), db.status);
    VisibleIsSeen(db, s, w, c, u, r);
    CellOrder(c, best, db.next);
    LessIrreflexive(u);
  }

  /** FindLatest answers what the ideal store reads. */
  lemma {:induction false} GetRefines(db: Db, s: Store, w: nat, u: Bytes, r: TxnId)
    requires Rel(db, s, w) && w <= r
    ensures Answer(FindBest(db.leaf, BuildMvccKey(u, r), db.status)) == s.Read(u, r)
  {
    var key := BuildMvccKey(u, r);
    var best := FindBest(db.leaf, key, db.status);
    FindBestCorrect(db.leaf, key, db.status);
    if best.Some? {
      BestIsNewest(db, s, w, u, r, best.value);
      Ideal.ReadNewest(s, u, Tx(best.value), r);
    } else {
      forall t: nat | s.Newest(u, t, r) ensures s.versions[(u, t)].deleted {
        assert !HasVersion(db.leaf, u, t) by {
          if c :| c in db.leaf && User(c) == u && Tx(c) == t { VisibleIsSeen(db, s, w, c, u, r); }
        }
        assert NewestBelow(s, u, w, t) by {
          forall t': nat | s.Has(u, t') && t' < w ensures t' <= t {
            assert s.Sees(u, t', r);
          }
        }
      }
    }
  }

  /** The conflict test on the leaf gives the ideal verdict. */
  lemma {:induction false} ConflictRefines(db: Db, s: Store, w: nat, u: Bytes, t: TxnId)
    requires Rel(db, s, w) && w <= t
    ensures HasRival(db.leaf, BuildMvccKey(u, t), db.status) <==> s.Conflict(u, t)
  {
    var key := BuildMvccKey(u, t);
    ExtractInvertsBuild(u, t);
    if c :| c in db.leaf && RivalCell(c, key, db.status) {
      StatusAgrees(db, s, w, u, Tx(c));
      assert s.Rival(u, Tx(c), t);
    }
    if t': nat :| s.Rival(u, t', t) {
      StatusAgrees(db, s, w, u, t');
      assert t' >= w;
      var c :| c in db.leaf && User(c) == u && Tx(c) == t';
      assert RivalCell(c, key, db.status);
    }
  }

  // ---- Steps ----

  lemma {:induction false} ChainsAfterBegin(db: Db, db': Db, id: nat)
    requires ChainsRun(db) && db.next <= id && db'.next == id + 1 && db'.status == db.status[id := Ideal.Running]
    requires db'.chains == db.chains && db'.leaf == db.leaf && forall c :: c in db.leaf ==> Tx(c) < db.next
    ensures ChainsRun(db')
  {
    forall t: nat | RunningIn(db', t) ensures ChainOk(db', t) {
      if t != id { assert ChainOk(db, t); }
    }
  }

  lemma {:induction false} BeginRefines(db: Db, s: Store, w: nat, id: TxnId)
    requires Rel(db, s, w) && db.next <= id < MAX_TXID
    ensures Rel(StepDb(db, Ideal.Begin(id)).0, Ideal.Step(s, Ideal.Begin(id)).0, w)
  {
    var db', s' := StepDb(db, Ideal.Begin(id)).0, Ideal.Step(s, Ideal.Begin(id)).0;
    Ideal.StepKeepsInv(s, Ideal.Begin(id));
    ChainsAfterBegin(db, db', id);
    TablesAfterStatus(db, s, db', s', w, id, Ideal.Running);
    SameLeaf(db, s, db', s', w);
  }

  /** A transaction that ends takes at most its own cells with it. */
  lemma {:induction false} ChainsAfterEnd(db: Db, db': Db, t: nat, status: Ideal.Status)
    requires ChainsRun(db) && status != Ideal.Running
    requires db'.chains == db.chains && db'.next == db.next && db'.status == db.status[t := status]
    requires forall c :: c in db'.leaf ==> c in db.leaf
    requires forall c :: c in db.leaf && Tx(c) != t ==> c in db'.leaf
    ensures ChainsRun(db')
  {
    forall t': nat | RunningIn(db', t') ensures ChainOk(db', t') {
      assert ChainOk(db, t');
      assert ChainOf(db', t') == ChainOf(db, t');
      forall r | r in ChainOf(db', t') ensures HasKey(db'.leaf, r.payload.key) {
        assert HasKey(db.leaf, r.payload.key);
        var d :| d in db.leaf && d.key == r.payload.key;
        assert d in db'.leaf;
      }
    }
  }

  lemma {:induction false} TablesAfterStatus(db: Db, s: Store, db': Db, s': Store, w: nat, t: nat, status: Ideal.Status)
    requires TablesAgree(db, s, w) && w <= t < db'.next && db.next <= db'.next
    requires db'.status == db.status[t := status] && s'.status == s.status[t := status]
    ensures TablesAgree(db', s', w)
  {
  }

  lemma {:induction false} CommitRefines(db: Db, s: Store, w: nat, t: TxnId)
    requires Rel(db, s, w) && RunningIn(db, t)
    ensures Rel(StepDb(db, Ideal.Commit(t)).0, Ideal.Step(s, Ideal.Commit(t)).0, w)
  {
    var db', s' := StepDb(db, Ideal.Commit(t)).0, Ideal.Step(s, Ideal.Commit(t)).0;
    Ideal.StepKeepsInv(s, Ideal.Commit(t));
    ChainsAfterEnd(db, db', t, Ideal.Committed);
    TablesAfterStatus(db, s, db', s', w, t, Ideal.Committed);
    SameLeaf(db, s, db', s', w);
  }

  /** Steps that touch neither the leaf nor the versions. */
  lemma {:induction false} SameLeaf(db: Db, s: Store, db': Db, s': Store, w: nat)
    requires Rel(db, s, w)
    requires db'.leaf == db.leaf && s'.versions == s.versions && db.next <= db'.next
    ensures VersionLeaf(db'.leaf, db'.next) && Faithful(db'.leaf, s')
    ensures CompleteAbove(db'.leaf, s', w) && BaseBelow(db'.leaf, s', w)
  {
    assert forall u, t: nat :: s'.Has(u, t) <==> s.Has(u, t);
    forall u, t: nat | NewestBelow(s', u, w, t)
      ensures HasVersion(db'.leaf, u, t) || (s'.versions[(u, t)].deleted && NoneBelow(db'.leaf, u, w))
    {
      assert NewestBelow(s, u, w, t);
    }
  }

  // ---- Writes ----

  lemma {:induction false} KeyIsVersion(x: Cell, next: nat, u: Bytes, t: TxnId)
    requires VersionCell(x, next)
    ensures x.key == BuildMvccKey(u, t) <==> User(x) == u && Tx(x) == t
  {
    ExtractInvertsBuild(u, t);
  }

  lemma {:induction false} UpsertedLeaf(leaf: seq<Cell>, c: Cell)
    requires Sorted(leaf) && Fits(Rewrite(leaf, c.key, Option.Some(c)))
    ensures var leaf' := SortCells(Rewrite(leaf, c.key, Option.Some(c)));
      Sorted(leaf') && Fits(leaf') && forall x :: x in leaf' <==> x == c || (x in leaf && x.key != c.key)
  {
    var cells := Rewrite(leaf, c.key, Option.Some(c));
    SortedIsUnique(leaf);
    RewriteUnique(leaf, c.key, Option.Some(c));
    RewriteSet(leaf, c.key, Option.Some(c));
    SortCorrect(cells);
    SortedIsUnique(SortCells(cells));
    SpaceOfSet(SortCells(cells), cells);
    assert forall x :: x in SortCells(cells) <==> x in CellSet(SortCells(cells));
  }

  lemma {:induction false} WrittenLeaf(db: Db, t: TxnId, u: Bytes, deleted: bool, value: Bytes)
    requires VersionLeaf(db.leaf, db.next) && t < db.next && NulFree(u)
    requires Fits(Rewrite(db.leaf, BuildMvccKey(u, t), Option.Some(CellFor(deleted, BuildMvccKey(u, t), value))))
    ensures var key := BuildMvccKey(u, t); var c := CellFor(deleted, key, value);
      var leaf' := SortCells(Rewrite(db.leaf, key, Option.Some(c)));
      && VersionLeaf(leaf', db.next) && User(c) == u && Tx(c) == t
      && forall x :: x in leaf' <==> x == c || (x in db.leaf && !(User(x) == u && Tx(x) == t))
  {
    var c := CellFor(deleted, BuildMvccKey(u, t), value);
    ExtractInvertsBuild(u, t);
    UpsertedLeaf(db.leaf, c);
    WrittenMembers(db.leaf, SortCells(Rewrite(db.leaf, c.key, Option.Some(c))), db.next, c, u, t);
  }

  lemma {:induction false} WrittenMembers(leaf: seq<Cell>, leaf': seq<Cell>, next: nat, c: Cell, u: Bytes, t: TxnId)
    requires VersionLeaf(leaf, next) && Sorted(leaf') && Fits(leaf') && VersionCell(c, next)
    requires c.key == BuildMvccKey(u, t) && forall x :: x in leaf' <==> x == c || (x in leaf && x.key != c.key)
    ensures VersionLeaf(leaf', next)
    ensures forall x :: x in leaf' <==> x == c || (x in leaf && !(User(x) == u && Tx(x) == t))
  {
    forall x | x in leaf ensures x.key == c.key <==> User(x) == u && Tx(x) == t {
      KeyIsVersion(x, next, u, t);
    }
  }

  lemma {:induction false} WriteRefines(db: Db, s: Store, w: nat, t: TxnId, u: Bytes, deleted: bool, value: Bytes)
    requires Rel(db, s, w) && CleanWrite(db, t, u, deleted, value) && !s.Conflict(u, t)
    requires deleted ==> value == []
    requires Ideal.Inv(Ideal.Written(s, t, u, Ideal.Entry(deleted, value)).0)
    ensures Rel(WriteDb(db, t, u, deleted, value).0, Ideal.Written(s, t, u, Ideal.Entry(deleted, value)).0, w)
  {
    var db', s' := WriteDb(db, t, u, deleted, value).0, Ideal.Written(s, t, u, Ideal.Entry(deleted, value)).0;
    ConflictRefines(db, s, w, u, t);
    WrittenLeaf(db, t, u, deleted, value);
    assert t >= w;
    WriteVersions(db, s, w, t, u, Ideal.Entry(deleted, value), db'.leaf, CellFor(deleted, BuildMvccKey(u, t), value));
    WriteChains(db, db', t, u, deleted, value);
  }

  lemma {:induction false} WriteVersions(db: Db, s: Store, w: nat, t: nat, u: Bytes, e: Ideal.Entry, leaf': seq<Cell>,
        c: Cell)
    requires Rel(db, s, w) && t >= w && User(c) == u && Tx(c) == t && EntryOf(c) == e
    requires forall x :: x in leaf' <==> x == c || (x in db.leaf && !(User(x) == u && Tx(x) == t))
    ensures var s' := s.(versions := s.versions[(u, t) := e]);
      CompleteAbove(leaf', s', w) && BaseBelow(leaf', s', w) && Faithful(leaf', s')
  {
    var s' := s.(versions := s.versions[(u, t) := e]);
    assert forall v, x: nat :: s'.Has(v, x) <==> s.Has(v, x) || (v == u && x == t);
    forall v, x: nat | s'.Has(v, x) && x >= w ensures HasVersion(leaf', v, x) {
      if v == u && x == t {
        assert c in leaf';
      } else {
        var d :| d in db.leaf && User(d) == v && Tx(d) == x;
        assert d in leaf';
      }
    }
    forall v, x: nat | NewestBelow(s', v, w, x)
      ensures HasVersion(leaf', v, x) || (s'.versions[(v, x)].deleted && NoneBelow(leaf', v, w))
    {
      assert NewestBelow(s, v, w, x);
      if d :| d in db.leaf && User(d) == v && Tx(d) == x { assert d in leaf'; }
    }
  }

  lemma {:induction false} WriteChains(db: Db, db': Db, t: TxnId, u: Bytes, deleted: bool, value: Bytes)
    requires ChainsRun(db) && RunningIn(db, t) && t < db.next && (deleted ==> value == [])
    requires db' == WriteDb(db, t, u, deleted, value).0
    requires !HasRival(db.leaf, BuildMvccKey(u, t), db.status)
    requires var c := CellFor(deleted, BuildMvccKey(u, t), value);
      forall x :: x in db'.leaf <==> x == c || (x in db.leaf && !(User(x) == u && Tx(x) == t))
    requires forall x :: x in db.leaf ==> VersionCell(x, db.next)
    ensures ChainsRun(db')
  {
    var key := BuildMvccKey(u, t);
    var c := CellFor(deleted, key, value);
    ExtractInvertsBuild(u, t);
    assert c in db'.leaf;
    forall t': nat | RunningIn(db', t') ensures ChainOk(db', t') {
      assert ChainOk(db, t');
      var old_, new_ := ChainOf(db, t'), ChainOf(db', t');
      forall r | r in new_ ensures HasKey(db'.leaf, r.payload.key) && Owner(r.payload.key) == t' {
        if r in old_ {
          var d :| d in db.leaf && d.key == r.payload.key;
          assert d in db'.leaf || d.key == key;
        }
      }
      forall x | x in db'.leaf && Tx(x) == t' ensures FirstWrite(new_, 0, x.key).Some? {
        if t' == t { FirstWriteSnoc(old_, Logged(t, deleted, key, value), 0, x.key); }
      }
    }
  }

  // ---- Rollback ----

  lemma {:induction false} UndoneLeaf(db: Db, t: nat)
    requires VersionLeaf(db.leaf, db.next) && ChainOk(db, t) && MayRollback(db, t)
    ensures RolledBackDb(db, t).leaf == Keep(db.leaf, {t})
  {
    SortedIsUnique(db.leaf);
    UndoErasesLosers([Leaf(db.leaf)], ChainOf(db, t), {t}, 0);
  }

  lemma {:induction false} KeepShrinks(cells: seq<Cell>, losers: set<nat>)
    requires Sorted(cells)
    ensures Sorted(Keep(cells, losers)) && Space(Keep(cells, losers)) <= Space(cells)
  {
    if cells != [] {
      var front := cells[..|cells| - 1];
      KeepShrinks(front, losers);
      KeepMembers(front, losers);
      SortedSnoc(Keep(front, losers), cells[|cells| - 1]);
      SpaceConcat(Keep(front, losers), [cells[|cells| - 1]]);
      assert Space([cells[|cells| - 1]]) == SLOT_SIZE + cells[|cells| - 1].Size();
    }
  }

  lemma {:induction false} RolledBackLeaf(db: Db, t: nat)
    requires VersionLeaf(db.leaf, db.next) && ChainOk(db, t) && MayRollback(db, t)
    ensures var leaf' := RolledBackDb(db, t).leaf;
      VersionLeaf(leaf', db.next) && forall c :: c in leaf' <==> c in db.leaf && Tx(c) != t
  {
    UndoneLeaf(db, t);
    KeepShrinks(db.leaf, {t});
    KeepMembers(db.leaf, {t});
  }

  lemma {:induction false} RollbackVersions(db: Db, s: Store, w: nat, t: nat, leaf': seq<Cell>)
    requires Rel(db, s, w) && t >= w
    requires forall c :: c in leaf' <==> c in db.leaf && Tx(c) != t
    ensures CompleteAbove(leaf', Ideal.Undone(s, t), w) && BaseBelow(leaf', Ideal.Undone(s, t), w)
  {
    var s' := Ideal.Undone(s, t);
    assert forall u, x: nat :: s'.Has(u, x) <==> s.Has(u, x) && x != t;
    forall u, x: nat | s'.Has(u, x) && x >= w ensures HasVersion(leaf', u, x) {
      var d :| d in db.leaf && User(d) == u && Tx(d) == x;
      assert d in leaf';
    }
    forall u, x: nat | NewestBelow(s', u, w, x)
      ensures HasVersion(leaf', u, x) || (s'.versions[(u, x)].deleted && NoneBelow(leaf', u, w))
    {
      assert NewestBelow(s, u, w, x);
      if d :| d in db.leaf && User(d) == u && Tx(d) == x { assert d in leaf'; }
    }
  }

  lemma {:induction false} RollbackFaithful(leaf: seq<Cell>, s: Store, t: nat, leaf': seq<Cell>)
    requires Faithful(leaf, s) && forall c :: c in leaf' <==> c in leaf && Tx(c) != t
    ensures Faithful(leaf', Ideal.Undone(s, t))
  {
  }

  lemma {:induction false} RollbackRefines(db: Db, s: Store, w: nat, t: nat)
    requires Rel(db, s, w) && RunningIn(db, t) && MayRollback(db, t)
    requires Ideal.Inv(Ideal.Undone(s, t))
    ensures Rel(RolledBackDb(db, t), Ideal.Undone(s, t), w)
  {
    var db', s' := RolledBackDb(db, t), Ideal.Undone(s, t);
    assert ChainOk(db, t) && t >= w;
    RolledBackLeaf(db, t);
    RollbackVersions(db, s, w, t, db'.leaf);
    RollbackFaithful(db.leaf, s, t, db'.leaf);
    ChainsAfterEnd(db, db', t, Ideal.RolledBack);
    TablesAfterStatus(db, s, db', s', w, t, Ideal.RolledBack);
  }

  // ---- Vacuum ----

  /** The watermark moves up to the smallest running ID. */
  ghost function Watermark(db: Db): nat {
    var m: nat := MinActive(db.status);
    if m < db.next then m else db.next
  }

  lemma {:induction false} VacuumTables(db: Db, s: Store, w: nat)
    requires Rel(db, s, w)
    ensures var db' := StepDb(db, Ideal.Vacuum).0;
      TablesAgree(db', s, Watermark(db)) && w <= Watermark(db) <= db.next
  {
    var m: nat := MinActive(db.status);
    assert m in db.status && db.status[m] == Ideal.Running ==> w <= m;
    assert forall t: nat :: t in s.status && s.status[t] == Ideal.Running ==> t in db.status && m <= t;
  }

  lemma {:induction false} VacuumChains(db: Db, s: Store, w: nat, db': Db)
    requires Rel(db, s, w) && db' == StepDb(db, Ideal.Vacuum).0
    requires forall c :: c in db'.leaf <==> c in db.leaf && !Obsolete(db.leaf, c, MinActive(db.status))
    ensures ChainsRun(db')
  {
    var m: nat := MinActive(db.status);
    forall t: nat | RunningIn(db', t) ensures ChainOk(db', t) {
      assert RunningIn(db, t) && m <= t && ChainOk(db, t) && ChainOf(db', t) == ChainOf(db, t);
      forall r | r in ChainOf(db', t) ensures HasKey(db'.leaf, r.payload.key) {
        var d :| d in db.leaf && d.key == r.payload.key;
        assert Tx(d) == t && d in db'.leaf;
      }
    }
  }

  /** Dropping a tombstone never resurrects an older version. */
  lemma {:induction false} VacuumBase(db: Db, s: Store, w: nat, leaf': seq<Cell>, w': nat, m: nat, u: Bytes, t: nat)
    requires Rel(db, s, w) && w <= w' <= m
    requires forall c :: c in leaf' <==> c in db.leaf && !Obsolete(db.leaf, c, m)
    requires w' == m || w' == db.next
    requires NewestBelow(s, u, w', t)
    ensures HasVersion(leaf', u, t) || (s.versions[(u, t)].deleted && NoneBelow(leaf', u, w'))
  {
    if c :| c in db.leaf && User(c) == u && Tx(c) == t {
      assert Faithful(db.leaf, s);
      forall d | d in db.leaf && User(d) == u && Tx(d) < m ensures Tx(d) <= t {
        assert s.Has(u, Tx(d)) && Tx(d) < w';
      }
      if c in leaf' {
      } else {
        assert c.IsDeleted();
        forall d | d in leaf' && User(d) == u ensures Tx(d) >= w' {
          if Tx(d) < w' {
            VersionsDistinctUnless(db, c, d);
          }
        }
      }
    } else {
      assert !HasVersion(db.leaf, u, t);
      assert t < w;
      assert NewestBelow(s, u, w, t);
      forall d | d in leaf' && User(d) == u ensures Tx(d) >= w' {
        assert s.Has(u, Tx(d));
      }
    }
  }

  lemma {:induction false} VersionsDistinctUnless(db: Db, c: Cell, d: Cell)
    requires VersionLeaf(db.leaf, db.next) && c in db.leaf && d in db.leaf && User(c) == User(d)
    ensures c == d || Tx(c) != Tx(d)
  {
    if Tx(c) == Tx(d) { VersionsDistinct(db.leaf, db.next, c, d); }
  }

  lemma {:induction false} VacuumRefines(db: Db, s: Store, w: nat)
    requires Rel(db, s, w)
    ensures Rel(StepDb(db, Ideal.Vacuum).0, s, Watermark(db))
  {
    var db' := StepDb(db, Ideal.Vacuum).0;
    VacuumedLeaf(db);
    VacuumTables(db, s, w);
    VacuumChains(db, s, w, db');
    VacuumVersions(db, s, w, db'.leaf);
  }

  lemma {:induction false} VacuumedLeaf(db: Db)
    requires VersionLeaf(db.leaf, db.next)
    ensures var db' := StepDb(db, Ideal.Vacuum).0;
      && db'.next == db.next && VersionLeaf(db'.leaf, db.next)
      && forall c :: c in db'.leaf <==> c in db.leaf && !Obsolete(db.leaf, c, MinActive(db.status))
  {
    VacuumRemovesObsolete(db.leaf, db.next, MinActive(db.status));
  }

  lemma {:induction false} VacuumVersions(db: Db, s: Store, w: nat, leaf': seq<Cell>)
    requires Rel(db, s, w) && w <= Watermark(db)
    requires forall c :: c in leaf' <==> c in db.leaf && !Obsolete(db.leaf, c, MinActive(db.status))
    ensures CompleteAbove(leaf', s, Watermark(db)) && BaseBelow(leaf', s, Watermark(db)) && Faithful(leaf', s)
  {
    var m, w' := MinActive(db.status), Watermark(db);
    VacuumComplete(db, s, w, leaf', w', m);
    forall u, t: nat | NewestBelow(s, u, w', t)
      ensures HasVersion(leaf', u, t) || (s.versions[(u, t)].deleted && NoneBelow(leaf', u, w'))
    {
      VacuumBase(db, s, w, leaf', w', m, u, t);
    }
  }

  lemma {:induction false} VacuumComplete(db: Db, s: Store, w: nat, leaf': seq<Cell>, w': nat, m: nat)
    requires Rel(db, s, w) && w <= w' <= db.next && (w' == m || w' == db.next)
    requires forall c :: c in leaf' <==> c in db.leaf && !Obsolete(db.leaf, c, m)
    ensures CompleteAbove(leaf', s, w')
  {
    forall u, t: nat | s.Has(u, t) && t >= w' ensures HasVersion(leaf', u, t) {
      assert t >= w && t < db.next && t >= m;
      var c :| c in db.leaf && User(c) == u && Tx(c) == t;
      assert c in leaf';
    }
  }

  // ---- Whole runs ----

  lemma {:induction false} RunningAgrees(db: Db, s: Store, w: nat, t: nat)
    requires Rel(db, s, w) && RunningIn(db, t)
    ensures Ideal.IsRunning(s, t) && w <= t < db.next
  {
  }

  /** Each clean operation answers as the ideal store does and leads to related states. */
  lemma {:induction false} StepRefines(db: Db, s: Store, w: nat, op: Op) returns (w': nat)
    requires Rel(db, s, w) && Clean(db, op)
    ensures Ideal.Allowed(s, op)
    ensures StepDb(db, op).1 == Ideal.Step(s, op).1
    ensures Rel(StepDb(db, op).0, Ideal.Step(s, op).0, w')
  {
    w' := w;
    if !op.Begin? && !op.Vacuum? { RunningAgrees(db, s, w, op.t); }
    Ideal.StepKeepsInv(s, op);
    match op
    case Begin(id) => BeginRefines(db, s, w, id);
    case Set(t, u, v) =>
      ConflictRefines(db, s, w, u, t);
      if s.Conflict(u, t) { RollbackRefines(db, s, w, t); } else { WriteRefines(db, s, w, t, u, false, v); }
    case Delete(t, u) =>
      ConflictRefines(db, s, w, u, t);
      if s.Conflict(u, t) { RollbackRefines(db, s, w, t); } else { WriteRefines(db, s, w, t, u, true, []); }
    case Get(t, u) => GetRefines(db, s, w, u, t);
    case Commit(t) => CommitRefines(db, s, w, t);
    case Rollback(t) => RollbackRefines(db, s, w, t);
    case Vacuum => VacuumRefines(db, s, w); w' := Watermark(db);
  }

  lemma {:induction false} RunRefines(db: Db, s: Store, w: nat, ops: seq<Op>)
    requires Rel(db, s, w) && CleanRun(db, ops)
    ensures Ideal.AllowedRun(s, ops) && Responses(db, ops) == IdealResponses(s, ops)
    decreases |ops|
  {
    if ops != [] {
      var w' := StepRefines(db, s, w, ops[0]);
      RunRefines(StepDb(db, ops[0]).0, Ideal.Step(s, ops[0]).0, w', ops[1..]);
    }
  }

  lemma {:induction false} EmptyRelated()
    ensures Rel(EMPTY_DB, Ideal.EMPTY, 1)
  {
  }

  /** Every clean run of the engine, with vacuums and prunes anywhere in it, answers every
      operation exactly as the ideal store: reads, conflicts and rollbacks cannot tell that
      versions were dropped and tables pruned. */
  lemma {:induction false} EngineRefinesIdealStore(ops: seq<Op>)
    requires CleanRun(EMPTY_DB, ops)
    ensures Ideal.AllowedRun(Ideal.EMPTY, ops)
    ensures Responses(EMPTY_DB, ops) == IdealResponses(Ideal.EMPTY, ops)
  {
    EmptyRelated();
    RunRefines(EMPTY_DB, Ideal.EMPTY, 1, ops);
  }

  function NoVacuum(ops: seq<Op>): seq<Op> {
    if ops == [] then []
    else if ops[0].Vacuum? then NoVacuum(ops[1..]) else [ops[0]] + NoVacuum(ops[1..])
  }

  /** The responses to everything but the vacuums. */
  ghost function ClientResponses(db: Db, ops: seq<Op>): seq<Response>
    decreases |ops|
  {
    if ops == [] then []
    else (if ops[0].Vacuum? then [] else [StepDb(db, ops[0]).1]) + ClientResponses(StepDb(db, ops[0]).0, ops[1..])
  }

  /** Vacuum is invisible: what the clients of a clean run are told is what the ideal store
      tells them when the vacuums are left out of the run. */
  lemma {:induction false} VacuumInvisible(db: Db, s: Store, w: nat, ops: seq<Op>)
    requires Rel(db, s, w) && CleanRun(db, ops)
    ensures ClientResponses(db, ops) == IdealResponses(s, NoVacuum(ops))
    decreases |ops|
  {
    if ops != [] {
      var w' := StepRefines(db, s, w, ops[0]);
      VacuumInvisible(StepDb(db, ops[0]).0, Ideal.Step(s, ops[0]).0, w', ops[1..]);
      if !ops[0].Vacuum? {
        assert ([ops[0]] + NoVacuum(ops[1..]))[1..] == NoVacuum(ops[1..]);
      }
    }
  }

  /** Where a clean run ends. */
  ghost function FinalDb(db: Db, ops: seq<Op>): Db
    decreases |ops|
  {
    if ops == [] then db else FinalDb(StepDb(db, ops[0]).0, ops[1..])
  }

  lemma {:induction false} FinalRelated(db: Db, s: Store, w: nat, ops: seq<Op>) returns (w': nat)
    requires Rel(db, s, w) && CleanRun(db, ops)
    ensures Rel(FinalDb(db, ops), Ideal.After(s, ops), w')
    decreases |ops|
  {
    w' := w;
    if ops != [] {
      w' := StepRefines(db, s, w, ops[0]);
      w' := FinalRelated(StepDb(db, ops[0]).0, Ideal.Step(s, ops[0]).0, w', ops[1..]);
    }
  }

  lemma {:induction false} VacuumStepChangesNothing(db: Db, s: Store, w: nat, u: Bytes, r: TxnId)
    requires Rel(db, s, w) && (RunningIn(db, r) || r >= db.next)
    ensures var db' := StepDb(db, Ideal.Vacuum).0; var key := BuildMvccKey(u, r);
      && Answer(FindBest(db'.leaf, key, db'.status)) == Answer(FindBest(db.leaf, key, db.status))
      && (HasRival(db'.leaf, key, db'.status) <==> HasRival(db.leaf, key, db.status))
  {
    var db', w' := StepDb(db, Ideal.Vacuum).0, Watermark(db);
    VacuumRefines(db, s, w);
    if RunningIn(db, r) { RunningAgrees(db, s, w, r); }
    GetRefines(db, s, w, u, r);
    GetRefines(db', s, w', u, r);
    ConflictRefines(db, s, w, u, r);
    ConflictRefines(db', s, w', u, r);
  }

  /** After any clean run, a vacuum changes the answer to no Get and the verdict on no write, for
      every running transaction and every one that begins later. */
  lemma {:induction false} VacuumChangesNothing(ops: seq<Op>, u: Bytes, r: TxnId)
    requires CleanRun(EMPTY_DB, ops)
    requires var db := FinalDb(EMPTY_DB, ops); RunningIn(db, r) || r >= db.next
    ensures var db := FinalDb(EMPTY_DB, ops);
      var db' := StepDb(db, Ideal.Vacuum).0; var key := BuildMvccKey(u, r);
      && Answer(FindBest(db'.leaf, key, db'.status)) == Answer(FindBest(db.leaf, key, db.status))
      && (HasRival(db'.leaf, key, db'.status) <==> HasRival(db.leaf, key, db.status))
  {
    EmptyRelated();
    var w := FinalRelated(EMPTY_DB, Ideal.EMPTY, 1, ops);
    VacuumStepChangesNothing(FinalDb(EMPTY_DB, ops), Ideal.After(Ideal.EMPTY, ops), w, u, r);
  }

  /** First-updater-wins in the stored leaf after any clean run: a running writer's version is
      the newest of its key, and every other version of the key is committed. */
  lemma {:induction false} StoredFirstUpdaterWins(ops: seq<Op>, c: Cell, d: Cell)
    requires CleanRun(EMPTY_DB, ops)
    requires var db := FinalDb(EMPTY_DB, ops);
      c in db.leaf && d in db.leaf && c != d && User(c) == User(d) && RunningIn(db, Tx(c))
    ensures var db := FinalDb(EMPTY_DB, ops);
      Tx(d) < Tx(c) && Ideal.StatusOf(db.status, Tx(d)) == Ideal.Committed
  {
    EmptyRelated();
    var w := FinalRelated(EMPTY_DB, Ideal.EMPTY, 1, ops);
    var db, s := FinalDb(EMPTY_DB, ops), Ideal.After(Ideal.EMPTY, ops);
    VersionsDistinctUnless(db, c, d);
    StatusAgrees(db, s, w, User(c), Tx(c));
    StatusAgrees(db, s, w, User(d), Tx(d));
  }

  lemma {:induction false} CleanSnoc(db: Db, ops: seq<Op>, op: Op)
    requires CleanRun(db, ops) && Clean(FinalDb(db, ops), op)
    ensures CleanRun(db, ops + [op]) && FinalDb(db, ops + [op]) == StepDb(FinalDb(db, ops), op).0
    decreases |ops|
  {
    if ops == [] {
      assert ops + [op] == [op];
    } else {
      CleanSnoc(StepDb(db, ops[0]).0, ops[1..], op);
      assert (ops + [op])[1..] == ops[1..] + [op];
    }
  }
}
