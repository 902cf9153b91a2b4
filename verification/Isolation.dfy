/** Isolation of the engine over its clean runs: repeatable reads and lost updates, on the leaf and
    the tables themselves. */
module Isolation {
  import opened Bytes
  import opened Cells
  import opened MvccKeys
  import opened Undo
  import opened IdealStore
  import opened Mvcc
  import opened MvccRefinement
  import opened History

  // ---- Repeatable reads ----

  /** The transaction is running and none with a smaller ID is. */
  ghost predicate OldestIn(db: Db, r: nat) {
    RunningIn(db, r) && forall t: nat :: RunningIn(db, t) ==> r <= t
  }

  /** Whatever others do in a clean continuation, the transaction keeps reading the same. */
  ghost predicate RepeatableIn(db: Db, r: TxnId) {
    forall more, u :: CleanRun(db, more) && (forall op :: op in more ==> !ActsAs(op, r)) ==>
      GetNow(FinalDb(db, more), u, r) == GetNow(db, u, r)
  }

  lemma {:induction false} StaysRunningAll(db: Db, ops: seq<Op>, r: nat)
    requires RunningIn(db, r) && forall op :: op in ops ==> !ActsAs(op, r)
    ensures RunningIn(FinalDb(db, ops), r)
    decreases |ops|
  {
    if ops != [] {
      StaysRunning(db, ops[0], r);
      StaysRunningAll(StepDb(db, ops[0]).0, ops[1..], r);
    }
  }

  lemma {:induction false} OldestAgrees(db: Db, s: Store, w: nat, r: nat)
    requires Rel(db, s, w) && OldestIn(db, r)
    ensures Oldest(s, r)
  {
    RunningAgrees(db, s, w, r);
    forall t: nat | IsRunning(s, t) ensures r <= t {
      assert t >= w && RunningIn(db, t);
    }
  }

  lemma {:induction false} OldestIsRepeatable(db: Db, s: Store, w: nat, r: TxnId)
    requires Rel(db, s, w) && OldestIn(db, r)
    ensures RepeatableIn(db, r)
  {
    RunningAgrees(db, s, w, r);
    OldestAgrees(db, s, w, r);
    forall more, u | CleanRun(db, more) && forall op :: op in more ==> !ActsAs(op, r)
      ensures GetNow(FinalDb(db, more), u, r) == GetNow(db, u, r)
    {
      RunRefines(db, s, w, more);
      var w' := FinalRelated(db, s, w, more);
      StaysRunningAll(db, more, r);
      RunningAgrees(FinalDb(db, more), After(s, more), w', r);
      GetRefines(db, s, w, u, r);
      GetRefines(FinalDb(db, more), After(s, more), w', u, r);
      OldestReadsStably(s, r, more, u);
    }
  }

  // ---- A smaller transaction commits underneath ----

  function WriteOp(t: TxnId, u: Bytes, deleted: bool): Op {
    if deleted then Delete(t, u) else Set(t, u, [])
  }

  /** After the write and the commit every larger running transaction reads what was written. */
  lemma {:induction false} WriteThenCommit(db: Db, s: Store, w: nat, t: TxnId, u: Bytes, deleted: bool, r: TxnId)
    requires Rel(db, s, w) && CleanWrite(db, t, u, deleted, []) && RunningIn(db, r) && t < r
    requires !HasRival(db.leaf, BuildMvccKey(u, t), db.status)
    ensures var more := [WriteOp(t, u, deleted)] + [Op.Commit(t)];
      CleanRun(db, more) && GetNow(FinalDb(db, more), u, r) == Shown(Entry(deleted, []))
  {
    var op, commit := WriteOp(t, u, deleted), Op.Commit(t);
    RunningAgrees(db, s, w, t);
    ConflictRefines(db, s, w, u, t);
    var w2 := TwoStepsRefine(db, s, w, op, commit);
    var db2, s2 := StepDb(StepDb(db, op).0, commit).0, Step(Step(s, op).0, commit).0;
    RunningAgrees(db2, s2, w2, r);
    GetRefines(db2, s2, w2, u, r);
    NewestAfterCommit(s, t, u, Entry(deleted, []), r);
    ReadNewest(s2, u, t, r);
  }

  lemma {:induction false} TwoStepsRefine(db: Db, s: Store, w: nat, x: Op, y: Op) returns (w': nat)
    requires Rel(db, s, w) && Clean(db, x) && Clean(StepDb(db, x).0, y)
    ensures CleanRun(db, [x] + [y]) && FinalDb(db, [x] + [y]) == StepDb(StepDb(db, x).0, y).0
    ensures Rel(StepDb(StepDb(db, x).0, y).0, Step(Step(s, x).0, y).0, w')
  {
    var w1 := StepRefines(db, s, w, x);
    w' := StepRefines(StepDb(db, x).0, Step(s, x).0, w1, y);
    TwoSteps(db, x, y);
  }

  lemma {:induction false} TwoSteps(db: Db, x: Op, y: Op)
    requires Clean(db, x) && Clean(StepDb(db, x).0, y)
    ensures CleanRun(db, [x] + [y]) && FinalDb(db, [x] + [y]) == StepDb(StepDb(db, x).0, y).0
  {
    CleanSnoc(db, [], x);
    assert [] + [x] == [x];
    CleanSnoc(db, [x], y);
  }

  lemma {:induction false} NewestAfterCommit(s: Store, t: TxnId, u: Bytes, e: Entry, r: nat)
    requires Inv(s) && !s.Conflict(u, t) && IsRunning(s, t) && t < r && IsRunning(s, r)
    ensures var s2 := Step(Written(s, t, u, e).0, Op.Commit(t)).0;
      s2.Newest(u, t, r) && s2.versions[(u, t)] == e
  {
    var s2 := Step(Written(s, t, u, e).0, Op.Commit(t)).0;
    forall t': nat | s2.Sees(u, t', r) ensures t' <= t {
      assert !s.Rival(u, t', t);
      assert t' != t ==> s.Has(u, t');
    }
  }

  // ---- A key for the smaller transaction ----

  /** Space of the smallest version of a one-byte key, slot included. */
  const SMALLEST_VERSION: nat := 19

  predicate HasRoom(leaf: seq<Cell>) {
    HEADER_SIZE + Space(leaf) + SMALLEST_VERSION <= PAGE_SIZE
  }

  function UsersOf(leaf: seq<Cell>): set<Bytes> {
    if leaf == [] then {} else UsersOf(leaf[..|leaf| - 1]) + {User(leaf[|leaf| - 1])}
  }

  lemma {:induction false} UsersFacts(leaf: seq<Cell>, next: nat)
    requires forall c :: c in leaf ==> VersionCell(c, next)
    ensures |UsersOf(leaf)| <= |leaf| && 18 * |leaf| <= Space(leaf)
    ensures forall c :: c in leaf ==> User(c) in UsersOf(leaf)
  {
    if leaf != [] {
      var front, c := leaf[..|leaf| - 1], leaf[|leaf| - 1];
      assert leaf == front + [c];
      UsersFacts(front, next);
      assert c in leaf && |c.key| == |User(c)| + 9;
    }
  }

  lemma {:induction false} FreeAmong(users: set<Bytes>, n: nat) returns (u: Bytes)
    requires |users| < n < 256
    ensures |u| == 1 && 1 <= u[0] <= n && u !in users
    decreases n
  {
    if [n] in users {
      u := FreeAmong(users - {[n]}, n - 1);
    } else {
      u := [n];
    }
  }

  /** A leaf lacks some one-byte key: it cannot hold versions of all 255. */
  lemma {:induction false} FreeKey(leaf: seq<Cell>, next: nat) returns (u: Bytes)
    requires VersionLeaf(leaf, next)
    ensures |u| == 1 && NulFree(u) && forall c :: c in leaf ==> User(c) != u
  {
    UsersFacts(leaf, next);
    u := FreeAmong(UsersOf(leaf), 255);
  }

  /** With room in the leaf, a smaller running transaction can change what a larger one reads. */
  lemma {:induction false} RoomToChange(db: Db, s: Store, w: nat, t: TxnId, r: TxnId)
    requires Rel(db, s, w) && RunningIn(db, t) && RunningIn(db, r) && t < r && HasRoom(db.leaf)
    ensures !RepeatableIn(db, r)
  {
    var u := FreeKey(db.leaf, db.next);
    var key, rkey := BuildMvccKey(u, t), BuildMvccKey(u, r);
    var c := CellFor(false, key, []);
    ExtractInvertsBuild(u, t);
    ExtractInvertsBuild(u, r);
    NewCellRewritten(db.leaf, c);
    SpaceConcat(db.leaf, [c]);
    assert Space([c]) == SMALLEST_VERSION;
    FindBestCorrect(db.leaf, rkey, db.status);
    assert GetNow(db, u, r) == NotFound;
    WriteThenCommit(db, s, w, t, u, false, r);
    Contradicts(db, t, u, false, r);
  }

  /** A continuation in which the transaction does not act and reads something else. */
  lemma {:induction false} Contradicts(db: Db, t: TxnId, u: Bytes, deleted: bool, r: TxnId)
    requires var more := [WriteOp(t, u, deleted)] + [Op.Commit(t)];
      CleanRun(db, more) && GetNow(FinalDb(db, more), u, r) != GetNow(db, u, r)
    requires t != r
    ensures !RepeatableIn(db, r)
  {
    var more := [WriteOp(t, u, deleted)] + [Op.Commit(t)];
    assert forall op :: op in more ==> !ActsAs(op, r);
  }

  /** So can one that has already written some key: it writes the key again, with a cell no larger. */
  lemma {:induction false} WriterCanChange(db: Db, s: Store, w: nat, t: TxnId, r: TxnId, x: Cell)
    requires Rel(db, s, w) && RunningIn(db, t) && RunningIn(db, r) && t < r && x in db.leaf && Tx(x) == t
    ensures !RepeatableIn(db, r)
  {
    var u, deleted := User(x), GetNow(db, User(x), r) != NotFound;
    RunningAgrees(db, s, w, t);
    assert s.Has(u, t);
    assert !s.Conflict(u, t);
    ConflictRefines(db, s, w, u, t);
    RewriteNoLarger(db.leaf, x, CellFor(deleted, x.key, []));
    WriteThenCommit(db, s, w, t, u, deleted, r);
    Contradicts(db, t, u, deleted, r);
  }

  lemma {:induction false} RewriteNoLarger(leaf: seq<Cell>, x: Cell, c: Cell)
    requires Sorted(leaf) && Fits(leaf) && x in leaf && c.key == x.key && c.Size() <= x.Size()
    ensures Fits(Rewrite(leaf, c.key, Some(c)))
  {
    var all := Rewrite(leaf, c.key, Some(c));
    SortedIsUnique(leaf);
    RewriteUnique(leaf, c.key, Some(c));
    RewriteSet(leaf, c.key, Some(c));
    forall d | d in all ensures exists e :: e in leaf && e.key == d.key && e.Size() >= d.Size() {
      assert d in CellSet(all);
    }
    DominatedSpace(all, leaf);
  }

  /** Every smaller running transaction has stored something, or the leaf has room for it. */
  ghost predicate SmallerCanWrite(db: Db, r: nat) {
    HasRoom(db.leaf) || forall t: nat :: RunningIn(db, t) && t < r ==> exists c :: c in db.leaf && Tx(c) == t
  }

  /** Repeatable reads, after every clean run: the oldest running transaction reads repeatably; any
      other does not, if the smaller ones can write at all. */
  lemma {:induction false} RepeatableExactly(ops: seq<Op>, r: TxnId)
    requires CleanRun(EMPTY_DB, ops) && RunningIn(FinalDb(EMPTY_DB, ops), r)
    ensures var db := FinalDb(EMPTY_DB, ops);
      && (OldestIn(db, r) ==> RepeatableIn(db, r))
      && (SmallerCanWrite(db, r) ==> (RepeatableIn(db, r) <==> OldestIn(db, r)))
  {
    EmptyRelated();
    var w := FinalRelated(EMPTY_DB, EMPTY, 1, ops);
    var db, s := FinalDb(EMPTY_DB, ops), After(EMPTY, ops);
    if OldestIn(db, r) {
      OldestIsRepeatable(db, s, w, r);
    } else if SmallerCanWrite(db, r) {
      var t: nat :| RunningIn(db, t) && t < r;
      if HasRoom(db.leaf) {
        RoomToChange(db, s, w, t, r);
      } else {
        var c :| c in db.leaf && Tx(c) == t;
        WriterCanChange(db, s, w, t, r, c);
      }
    }
  }

  // ---- Lost updates ----

  /** After every clean run in which two transactions are running: one writes a key and commits. The
      conflict scan of the leaf then refuses the other exactly when it has the smaller ID. */
  lemma {:induction false} OverwriteRefusedExactly(ops: seq<Op>, t: TxnId, r: TxnId, u: Bytes, v: Bytes)
    requires CleanRun(EMPTY_DB, ops)
    requires var db := FinalDb(EMPTY_DB, ops);
      && RunningIn(db, t) && RunningIn(db, r) && t != r && CleanWrite(db, t, u, false, v)
      && !HasRival(db.leaf, BuildMvccKey(u, t), db.status)
    ensures var db := FinalDb(EMPTY_DB, ops); var db2 := StepDb(StepDb(db, Set(t, u, v)).0, Op.Commit(t)).0;
      HasRival(db2.leaf, BuildMvccKey(u, r), db2.status) <==> r < t
  {
    EmptyRelated();
    var w := FinalRelated(EMPTY_DB, EMPTY, 1, ops);
    var db, s := FinalDb(EMPTY_DB, ops), After(EMPTY, ops);
    RunningAgrees(db, s, w, t);
    RunningAgrees(db, s, w, r);
    ConflictRefines(db, s, w, u, t);
    var w1 := StepRefines(db, s, w, Set(t, u, v));
    var db1, s1 := StepDb(db, Set(t, u, v)).0, Step(s, Set(t, u, v)).0;
    var w2 := StepRefines(db1, s1, w1, Op.Commit(t));
    OverwriteRefusedIffSmaller(s, t, r, u, v);
    var db2, s2 := StepDb(db1, Op.Commit(t)).0, Step(s1, Op.Commit(t)).0;
    RunningAgrees(db2, s2, w2, r);
    ConflictRefines(db2, s2, w2, u, r);
  }
}
