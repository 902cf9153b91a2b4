/** Transactions on one leaf page as the code runs them: version cells with MVCC keys, the
    transaction tables, undo chains, vacuum and pruning (btree.go, txn.go, vacuum.go). */
module Mvcc {
  import opened Bytes
  import opened Cells
  import opened MvccKeys
  import opened Log
  import opened Redo
  import opened Undo
  import opened IdealStore

  function User(c: Cell): Bytes {
    ExtractMvccKey(c.key).0
  }

  function Tx(c: Cell): nat {
    Owner(c.key)
  }

  // ---- Reading ----

  /** isVersionVisible */
  predicate Visible(kvKey: Bytes, readKey: Bytes, table: map<nat, Status>) {
    var (user, r) := ExtractMvccKey(readKey);
    var (kvUser, t) := ExtractMvccKey(kvKey);
    kvUser == user && t <= r && (t == r || StatusOf(table, t) == Committed)
  }

  /** The scan of FindLatest: the visible cell with the largest key. */
  function FindBest(cells: seq<Cell>, readKey: Bytes, table: map<nat, Status>): Option<Cell> {
    if cells == [] then None
    else
      var best, c := FindBest(cells[..|cells| - 1], readKey, table), cells[|cells| - 1];
      if Visible(c.key, readKey, table) && (best.None? || Less(best.value.key, c.key)) then Some(c) else best
  }

  function Answer(best: Option<Cell>): Response {
    if best.None? || best.value.flag == KEY_DELETED_FLAG then NotFound else Value(best.value.value)
  }

  lemma {:induction false} FindBestCorrect(cells: seq<Cell>, readKey: Bytes, table: map<nat, Status>)
    ensures var best := FindBest(cells, readKey, table);
      && (best.Some? ==> best.value in cells && Visible(best.value.key, readKey, table))
      && forall c :: c in cells && Visible(c.key, readKey, table) ==> best.Some? && AtMost(c.key, best.value.key)
  {
    if cells != [] {
      var front, last := cells[..|cells| - 1], cells[|cells| - 1];
      FindBestCorrect(front, readKey, table);
      assert cells == front + [last];
      var old_, best := FindBest(front, readKey, table), FindBest(cells, readKey, table);
      forall c | c in cells && Visible(c.key, readKey, table)
        ensures best.Some? && AtMost(c.key, best.value.key)
      {
        if c in front {
          if best != old_ && c.key != old_.value.key { LessTransitive(c.key, old_.value.key, last.key); }
        } else if best == old_ {
          LessTotal(old_.value.key, last.key);
        }
      }
    }
  }

  // ---- Writing ----

  /** The conflict test upsertCell makes for each cell of the leaf. */
  predicate RivalCell(c: Cell, key: Bytes, table: map<nat, Status>) {
    var (user, t) := ExtractMvccKey(key);
    User(c) == user && Tx(c) != t &&
    (StatusOf(table, Tx(c)) == Running || (StatusOf(table, Tx(c)) == Committed && Tx(c) > t))
  }

  predicate HasRival(cells: seq<Cell>, key: Bytes, table: map<nat, Status>) {
    exists c :: c in cells && RivalCell(c, key, table)
  }

  /** A write as Rollback meets it on the PrevLSN chain; LSNs play no role at this level. */
  function Logged(t: nat, deleted: bool, key: Bytes, value: Bytes): Record {
    Record(0, t, 0, 0, Write(deleted, key, value))
  }

  /** `chains` holds, oldest first, the writes that Rollback reaches from the last-LSN table. */
  datatype Db = Db(leaf: seq<Cell>, status: map<nat, Status>, chains: map<nat, seq<Record>>, next: nat)

  const EMPTY_DB: Db := Db([], map[], map[], 1)

  function ChainOf(db: Db, t: nat): seq<Record> {
    if t in db.chains then db.chains[t] else []
  }

  function UndoLeaf(cells: seq<Cell>, rs: seq<Record>): seq<Cell> {
    match UndoAll([Leaf(cells)], rs)[0]
    case Leaf(done) => done
    case Other(_) => []
  }

  function RolledBackDb(db: Db, t: nat): Db {
    db.(leaf := UndoLeaf(db.leaf, ChainOf(db, t)), status := db.status[t := RolledBack])
  }

  function WriteDb(db: Db, t: TxnId, user: Bytes, deleted: bool, value: Bytes): (Db, Response) {
    var key := BuildMvccKey(user, t);
    if HasRival(db.leaf, key, db.status) then (RolledBackDb(db, t), Conflicted)
    else (db.(leaf := SortCells(Rewrite(db.leaf, key, Some(CellFor(deleted, key, value)))),
              chains := db.chains[t as nat := ChainOf(db, t) + [Logged(t, deleted, key, value)]]), Done)
  }

  // ---- Vacuum ----

  /** GetMinActiveTxID: the smallest running ID, or the largest possible one. */
  ghost predicate IsMinActive(table: map<nat, Status>, m: nat) {
    && (forall t :: t in table && table[t] == Running ==> m <= t)
    && (m == MAX_TXID || (m in table && table[m] == Running))
  }

  /** The decision vacuumLeaf takes for slot `i`. */
  predicate Dropped(cells: seq<Cell>, i: nat, m: nat)
    requires i < |cells|
  {
    || (i + 1 < |cells| && User(cells[i]) == User(cells[i + 1]) && Tx(cells[i + 1]) < m)
    || (cells[i].IsDeleted() && Tx(cells[i]) < m)
  }

  /** The cells vacuumLeaf keeps among the first `n` slots. */
  function Kept(cells: seq<Cell>, m: nat, n: nat): seq<Cell>
    requires n <= |cells|
  {
    if n == 0 then []
    else Kept(cells, m, n - 1) + if Dropped(cells, n - 1, m) then [] else [cells[n - 1]]
  }

  function Pruned(table: map<nat, Status>, m: nat): map<nat, Status> {
    map t | t in table && (table[t] == Running || t >= m) :: table[t]
  }

  function PrunedChains(chains: map<nat, seq<Record>>, table: map<nat, Status>, m: nat): map<nat, seq<Record>> {
    map t | t in chains && !(t in table && table[t] != Running && t < m) :: chains[t]
  }

  function VacuumDb(db: Db, m: nat): Db {
    db.(leaf := Fill(Kept(db.leaf, m, |db.leaf|)), status := Pruned(db.status, m),
        chains := PrunedChains(db.chains, db.status, m))
  }

  // ---- One operation ----

  ghost function MinActive(table: map<nat, Status>): (m: nat)
    ensures IsMinActive(table, m)
  {
    MinActiveExists(table);
    var m :| IsMinActive(table, m);
    m
  }

  lemma {:induction false} MinActiveUnique(table: map<nat, Status>, m: nat)
    requires IsMinActive(table, m) && forall t :: t in table ==> t <= MAX_TXID
    ensures m == MinActive(table)
  {
  }

  lemma {:induction false} MinActiveExists(table: map<nat, Status>)
    ensures exists m :: IsMinActive(table, m)
  {
    if t: nat :| t in table && table[t] == Running && t <= MAX_TXID {
      SmallestExists(table, t);
    } else {
      assert IsMinActive(table, MAX_TXID);
    }
  }

  lemma {:induction false} SmallestExists(table: map<nat, Status>, t: nat)
    requires t in table && table[t] == Running
    ensures exists m :: IsMinActive(table, m)
  {
    if t': nat :| t' in table && table[t'] == Running && t' < t {
      SmallestExists(table, t');
    } else {
      assert IsMinActive(table, t);
    }
  }

  ghost function StepDb(db: Db, op: Op): (Db, Response) {
    match op
    case Begin(id) => (db.(status := db.status[id as nat := Running], next := id + 1), Done)
    case Set(t, u, v) => WriteDb(db, t, u, false, v)
    case Delete(t, u) => WriteDb(db, t, u, true, [])
    case Get(t, u) => (db, Answer(FindBest(db.leaf, BuildMvccKey(u, t), db.status)))
    case Commit(t) => (db.(status := db.status[t as nat := Committed]), Done)
    case Rollback(t) => (RolledBackDb(db, t), Done)
    case Vacuum => (VacuumDb(db, MinActive(db.status)), Done)
  }

  predicate RunningIn(db: Db, t: nat) {
    t in db.status && db.status[t] == Running
  }

  /** The transaction may roll back cleanly: it wrote each of its keys first by Set. */
  ghost predicate MayRollback(db: Db, t: nat) {
    SetFirst(ChainOf(db, t), 0, db.leaf, {t})
  }

  ghost predicate CleanWrite(db: Db, t: TxnId, u: Bytes, deleted: bool, value: Bytes) {
    var key := BuildMvccKey(u, t);
    && RunningIn(db, t) && NulFree(u)
    && if HasRival(db.leaf, key, db.status) then MayRollback(db, t)
       else Fits(Rewrite(db.leaf, key, Some(CellFor(deleted, key, value))))
  }

  /** Clean operations: fresh increasing IDs, running transactions, NUL-free keys, no split,
      and only set-first transactions roll back. */
  ghost predicate Clean(db: Db, op: Op) {
    match op
    case Begin(id) => db.next <= id < MAX_TXID
    case Set(t, u, v) => CleanWrite(db, t, u, false, v)
    case Delete(t, u) => CleanWrite(db, t, u, true, [])
    case Get(t, u) => RunningIn(db, t) && NulFree(u)
    case Commit(t) => RunningIn(db, t)
    case Rollback(t) => RunningIn(db, t) && MayRollback(db, t)
    case Vacuum => true
  }

  ghost predicate CleanRun(db: Db, ops: seq<Op>)
    decreases |ops|
  {
    ops == [] || (Clean(db, ops[0]) && CleanRun(StepDb(db, ops[0]).0, ops[1..]))
  }

  /** The responses of a run, in order. */
  ghost function Responses(db: Db, ops: seq<Op>): seq<Response>
    decreases |ops|
  {
    if ops == [] then [] else [StepDb(db, ops[0]).1] + Responses(StepDb(db, ops[0]).0, ops[1..])
  }

  ghost function IdealResponses(s: Store, ops: seq<Op>): seq<Response>
    decreases |ops|
  {
    if ops == [] then [] else [Step(s, ops[0]).1] + IdealResponses(Step(s, ops[0]).0, ops[1..])
  }
}
