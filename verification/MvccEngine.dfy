/** The transaction manager and the leaf operations in the imperative form of txn.go, btree.go
    and vacuum.go, proved against the functions of Mvcc. */
module MvccEngine {
  import opened Bytes
  import opened Cells
  import opened MvccKeys
  import opened Log
  import opened Redo
  import opened Undo
  import opened Recovery
  import opened IdealStore
  import opened Mvcc

  class TransactionManager {
    var txnTable: map<nat, Status>

    constructor ()
      ensures txnTable == map[]
    {
      txnTable := map[];
    }

    method SetStatus(t: nat, status: Status)
      modifies this
      ensures txnTable == old(txnTable)[t := status]
    {
      txnTable := txnTable[t := status];
    }

    method GetStatus(t: nat) returns (status: Status)
      ensures status == StatusOf(txnTable, t)
    {
      if t in txnTable { return txnTable[t]; }
      return Committed;
    }

    /** The smallest running ID, or the largest possible one when nothing runs. */
    method GetMinActiveTxID() returns (m: nat)
      requires forall t :: t in txnTable ==> t <= MAX_TXID
      ensures IsMinActive(txnTable, m) && m == MinActive(txnTable)
    {
      m := MAX_TXID;
      var rest := txnTable.Keys;
      while rest != {}
        invariant rest <= txnTable.Keys
        invariant forall t :: t in txnTable && t !in rest && txnTable[t] == Running ==> m <= t
        invariant m == MAX_TXID || (m in txnTable && txnTable[m] == Running)
        decreases rest
      {
        var t :| t in rest;
        if txnTable[t] == Running && t < m { m := t; }
        rest := rest - {t};
      }
      MinActiveUnique(txnTable, m);
    }

    /** Forgets finished transactions below the watermark. */
    method PruneTables(m: nat)
      modifies this
      ensures txnTable == Pruned(old(txnTable), m)
      ensures forall t :: t in txnTable <==> t in old(txnTable) && (old(txnTable)[t] == Running || t >= m)
      ensures forall t :: t in txnTable ==> txnTable[t] == old(txnTable)[t]
    {
      var rest := txnTable.Keys;
      while rest != {}
        invariant rest <= old(txnTable).Keys
        invariant forall t :: t in txnTable <==>
          t in old(txnTable) && (t in rest || old(txnTable)[t] == Running || t >= m)
        invariant forall t :: t in txnTable ==> txnTable[t] == old(txnTable)[t]
        decreases rest
      {
        var t :| t in rest;
        if t in txnTable && txnTable[t] != Running && t < m { txnTable := txnTable - {t}; }
        rest := rest - {t};
      }
      assert txnTable == Pruned(old(txnTable), m);
    }
  }

  /** Undoing the newest of `n + 1` records leaves the first `n` to undo. */
  lemma {:induction false} UndoLeafNext(leaf: seq<Cell>, chain: seq<Record>, n: nat)
    requires n < |chain|
    ensures var r := chain[n];
      UndoLeaf(leaf, chain[..n + 1]) ==
      if r.payload.Write? && r.page == 0
      then UndoLeaf(Fill(Rewrite(leaf, r.payload.key, UndoCellOf(r.payload))), chain[..n])
      else UndoLeaf(leaf, chain[..n])
  {
    var r := chain[n];
    assert chain[..n + 1][..n] == chain[..n];
    if r.payload.Write? && r.page == 0 {
      assert UndoRecord([Leaf(leaf)], r) == [Leaf(Fill(Rewrite(leaf, r.payload.key, UndoCellOf(r.payload))))];
    }
  }

  /** One leaf page with its transaction manager. `chains` stands for the log records reached
      from the last-LSN table. */
  class LeafTable {
    var leaf: seq<Cell>
    var chains: map<nat, seq<Record>>
    var next: nat
    const tm: TransactionManager

    ghost function Abs(): Db
      reads this, tm
    {
      Db(leaf, tm.txnTable, chains, next)
    }

    constructor ()
      ensures Abs() == EMPTY_DB && fresh(tm)
    {
      leaf, chains, next := [], map[], 1;
      tm := new TransactionManager();
    }

    /** FindLatest on the leaf. */
    method Get(t: TxnId, user: Bytes) returns (answer: Response)
      ensures answer == StepDb(Abs(), Op.Get(t, user)).1
    {
      var key := BuildMvccKey(user, t);
      var best: Option<Cell> := None;
      for i := 0 to |leaf|
        invariant best == FindBest(leaf[..i], key, tm.txnTable)
      {
        assert leaf[..i + 1][..i] == leaf[..i];
        var c := leaf[i];
        if Visible(c.key, key, tm.txnTable) {
          if best.None? || Less(best.value.key, c.key) { best := Some(c); }
        }
      }
      assert leaf[..|leaf|] == leaf;
      if best.None? || best.value.flag == KEY_DELETED_FLAG { return NotFound; }
      return Value(best.value.value);
    }

    /** The conflict scan of upsertCell. */
    method FindRival(key: Bytes) returns (found: bool)
      ensures found == HasRival(leaf, key, tm.txnTable)
    {
      var (user, t) := ExtractMvccKey(key);
      for i := 0 to |leaf|
        invariant !HasRival(leaf[..i], key, tm.txnTable)
      {
        var (kvUser, kvTx) := ExtractMvccKey(leaf[i].key);
        if kvUser == user && kvTx != t {
          var status := tm.GetStatus(kvTx);
          if status == Running || (status == Committed && kvTx > t) {
            assert RivalCell(leaf[i], key, tm.txnTable);
            return true;
          }
        }
        assert leaf[..i + 1] == leaf[..i] + [leaf[i]];
      }
      assert leaf[..|leaf|] == leaf;
      return false;
    }

    /** Set (deleted == false) and Delete (deleted == true), with rollback on conflict. No answer
        means that the rewritten leaf overflows: upsertCell goes on to split it (module BTree). */
    method Write(t: TxnId, user: Bytes, deleted: bool, value: Bytes) returns (answer: Option<Response>)
      modifies this, tm
      ensures var key := BuildMvccKey(user, t); var rival := HasRival(old(leaf), key, old(tm.txnTable));
        answer.None? <==> !rival && !Fits(Rewrite(old(leaf), key, Some(CellFor(deleted, key, value))))
      ensures answer.Some? ==> (Abs(), answer.value) == WriteDb(old(Abs()), t, user, deleted, value)
      ensures answer.None? ==> Abs() == old(Abs())
    {
      var key := BuildMvccKey(user, t);
      var rival := FindRival(key);
      if rival {
        Rollback(t);
        return Some(Conflicted);
      }
      var cells := Rewrite(leaf, key, Some(CellFor(deleted, key, value)));
      if !Fits(cells) { return None; }
      leaf := SortCells(cells);
      var chain := if t in chains then chains[t] else [];
      chains := chains[t as nat := chain + [Logged(t, deleted, key, value)]];
      return Some(Done);
    }

    method Begin(id: TxnId)
      modifies this, tm
      ensures Abs() == StepDb(old(Abs()), Op.Begin(id)).0
    {
      tm.SetStatus(id, Running);
      next := id + 1;
    }

    method Commit(t: TxnId)
      modifies tm
      ensures Abs() == StepDb(old(Abs()), Op.Commit(t)).0
    {
      tm.SetStatus(t, Committed);
    }

    /** Undoes the transaction's writes, newest first. */
    method Rollback(t: TxnId)
      modifies this, tm
      ensures Abs() == RolledBackDb(old(Abs()), t)
    {
      tm.SetStatus(t, RollingBack);
      var chain := if t in chains then chains[t] else [];
      var n := |chain|;
      assert chain[..n] == chain;
      while n > 0
        invariant 0 <= n <= |chain|
        invariant UndoLeaf(leaf, chain[..n]) == UndoLeaf(old(leaf), chain)
        invariant chains == old(chains) && next == old(next)
        invariant tm.txnTable == old(tm.txnTable)[t as nat := RollingBack]
      {
        n := n - 1;
        var r := chain[n];
        UndoLeafNext(leaf, chain, n);
        if r.payload.Write? && r.page == 0 {
          leaf := RedoUpsertOnPage(leaf, r.payload.key, UndoCellOf(r.payload));
        }
      }
      tm.SetStatus(t, RolledBack);
    }

    /** vacuumLeaf followed by PruneTables. The page is rewritten only if something was dropped. */
    method Vacuum()
      requires Fits(leaf) && forall t :: t in tm.txnTable ==> t <= MAX_TXID
      modifies this, tm
      ensures Abs() == VacuumDb(old(Abs()), MinActive(old(tm.txnTable)))
      ensures var table := old(tm.txnTable);
        forall t :: t in chains <==> t in old(chains) && (t in table && table[t] != Running ==> t >= MinActive(table))
      ensures forall t :: t in chains ==> chains[t] == old(chains)[t]
    {
      var m := tm.GetMinActiveTxID();
      VacuumLeaf(m);
      chains := PrunedChains(chains, tm.txnTable, m);
      tm.PruneTables(m);
    }

    /** The decision of vacuumLeaf for one slot. */
    method DropsSlot(i: nat, m: nat) returns (drop: bool)
      requires i < |leaf|
      ensures drop == Dropped(leaf, i, m)
    {
      var isOldVersion := false;
      if i + 1 < |leaf| {
        if User(leaf[i]) == User(leaf[i + 1]) && Tx(leaf[i + 1]) < m { isOldVersion := true; }
      }
      drop := isOldVersion || (leaf[i].IsDeleted() && Tx(leaf[i]) < m);
    }

    method VacuumLeaf(m: nat)
      requires Fits(leaf)
      modifies this
      ensures leaf == Fill(Kept(old(leaf), m, |old(leaf)|)) && chains == old(chains) && next == old(next)
    {
      var kept, cleanedCount := KeepCells(m);
      FillKeepsAllIffFits(leaf);
      assert kept == Kept(leaf, m, |leaf|);
      if cleanedCount > 0 {
        leaf := RefillPage(kept);
      }
    }

    /** The loop over the slots: what stays, and how many cells go. */
    method KeepCells(m: nat) returns (kept: seq<Cell>, cleanedCount: nat)
      ensures kept == Kept(leaf, m, |leaf|) && (cleanedCount == 0 ==> kept == leaf)
    {
      kept, cleanedCount := [], 0;
      for i := 0 to |leaf|
        invariant kept == Kept(leaf, m, i) && (cleanedCount == 0 ==> kept == leaf[..i])
      {
        var drop := DropsSlot(i, m);
        if drop {
          cleanedCount := cleanedCount + 1;
        } else {
          kept := kept + [leaf[i]];
        }
      }
    }
  }
}
