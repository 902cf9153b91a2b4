/** The reference for MVCC behaviour: a plain map from (user key, transaction) to what that
    transaction last wrote. Nothing is ever vacuumed and there are no pages, slots or logs. */
module IdealStore {
  import opened Bytes
  import opened MvccKeys

  datatype Status = Running | Committed | RollingBack | RolledBack

  /** TransactionManager.GetStatus: unknown transactions count as committed. */
  function StatusOf(table: map<nat, Status>, t: nat): Status {
    if t in table then table[t] else Committed
  }

  datatype Op =
    | Begin(id: TxnId)
    | Set(t: TxnId, user: Bytes, value: Bytes)
    | Delete(t: TxnId, user: Bytes)
    | Get(t: TxnId, user: Bytes)
    | Commit(t: TxnId)
    | Rollback(t: TxnId)
    | Vacuum

  datatype Response = Done | Conflicted | Value(value: Bytes) | NotFound

  datatype Entry = Entry(deleted: bool, value: Bytes)

  datatype Store = Store(versions: map<(Bytes, nat), Entry>, status: map<nat, Status>, next: nat) {
    predicate Has(u: Bytes, t: nat) {
      (u, t) in versions
    }

    /** Version `t` of the key is visible to reader `r`. */
    predicate Sees(u: Bytes, t: nat, r: nat) {
      Has(u, t) && t <= r && (t == r || StatusOf(status, t) == Committed)
    }

    /** Version `t` is the newest one visible to `r`. */
    ghost predicate Newest(u: Bytes, t: nat, r: nat) {
      Sees(u, t, r) && forall t': nat :: Sees(u, t', r) ==> t' <= t
    }

    /** The value of the newest visible version, unless it is a tombstone or there is none. */
    ghost function Read(u: Bytes, r: nat): Response {
      if exists t: nat :: Newest(u, t, r) && !versions[(u, t)].deleted then
        var t: nat :| Newest(u, t, r) && !versions[(u, t)].deleted;
        Value(versions[(u, t)].value)
      else NotFound
    }

    /** Another transaction is writing the key, or one with a larger ID has committed it. */
    predicate Rival(u: Bytes, t': nat, t: nat) {
      Has(u, t') && t' != t &&
      (StatusOf(status, t') == Running || (StatusOf(status, t') == Committed && t' > t))
    }

    ghost predicate Conflict(u: Bytes, t: nat) {
      exists t': nat :: Rival(u, t', t)
    }
  }

  const EMPTY: Store := Store(map[], map[], 1)

  function Undone(s: Store, t: nat): Store {
    s.(versions := map k | k in s.versions && k.1 != t :: s.versions[k], status := s.status[t := RolledBack])
  }

  ghost function Written(s: Store, t: nat, u: Bytes, e: Entry): (Store, Response) {
    if s.Conflict(u, t) then (Undone(s, t), Conflicted)
    else (s.(versions := s.versions[(u, t) := e]), Done)
  }

  ghost function Step(s: Store, op: Op): (Store, Response) {
    match op
    case Begin(id) => (s.(status := s.status[id as nat := Running], next := id + 1), Done)
    case Set(t, u, v) => Written(s, t, u, Entry(false, v))
    case Delete(t, u) => Written(s, t, u, Entry(true, []))
    case Get(t, u) => (s, s.Read(u, t))
    case Commit(t) => (s.(status := s.status[t as nat := Committed]), Done)
    case Rollback(t) => (Undone(s, t), Done)
    case Vacuum => (s, Done)
  }

  predicate IsRunning(s: Store, t: nat) {
    t in s.status && s.status[t] == Running
  }

  /** IDs are fresh and increasing; only running transactions act; user keys are NUL-free. */
  predicate Allowed(s: Store, op: Op) {
    match op
    case Begin(id) => s.next <= id < MAX_TXID
    case Set(t, u, _) => IsRunning(s, t) && NulFree(u)
    case Delete(t, u) => IsRunning(s, t) && NulFree(u)
    case Get(t, u) => IsRunning(s, t) && NulFree(u)
    case Commit(t) => IsRunning(s, t)
    case Rollback(t) => IsRunning(s, t)
    case Vacuum => true
  }

  // ---- What every step keeps ----

  ghost predicate Inv(s: Store) {
    && 0 < s.next <= MAX_TXID
    && (forall t: nat :: t in s.status ==> t < s.next)
    && (forall u, t: nat :: s.Has(u, t) ==> NulFree(u) && t in s.status && s.status[t] in {Running, Committed})
    && FirstUpdaterWins(s)
  }

  /** A running writer of a key holds its newest version, and all other versions are committed.
      In particular there is at most one running writer. */
  ghost predicate FirstUpdaterWins(s: Store) {
    forall u, t: nat, t': nat :: s.Has(u, t) && s.Has(u, t') && t != t' && StatusOf(s.status, t) == Running ==>
      t' < t && StatusOf(s.status, t') == Committed
  }

  lemma {:induction false} StepKeepsInv(s: Store, op: Op)
    requires Inv(s) && Allowed(s, op)
    ensures Inv(Step(s, op).0)
  {
    var s' := Step(s, op).0;
    if (op.Set? || op.Delete?) && !s.Conflict(op.user, op.t) {
      forall u, t: nat, t': nat | s'.Has(u, t) && s'.Has(u, t') && t != t' && StatusOf(s'.status, t) == Running
        ensures t' < t && StatusOf(s'.status, t') == Committed
      {
        assert !s.Rival(op.user, t, op.t) && !s.Rival(op.user, t', op.t);
        assert u != op.user || t != op.t ==> s.Has(u, t);
        assert u != op.user || t' != op.t ==> s.Has(u, t');
      }
      assert forall u, t: nat :: s'.Has(u, t) ==> s.Has(u, t) || (u == op.user && t == op.t);
    } else {
      assert forall u, t: nat :: s'.Has(u, t) ==> s.Has(u, t);
    }
  }

  /** When a transaction commits, every other version of the keys it wrote is already committed
      by a smaller ID: versions of a key commit in strictly increasing ID order. */
  lemma {:induction false} CommitsInIdOrder(s: Store, t: TxnId, u: Bytes, t': nat)
    requires Inv(s) && Allowed(s, Op.Commit(t)) && s.Has(u, t) && s.Has(u, t') && t' != t
    ensures t' < t && StatusOf(s.status, t') == Committed
  {
  }

  // ---- Reading ----

  lemma {:induction false} ReadNewest(s: Store, u: Bytes, t: nat, r: nat)
    requires s.Newest(u, t, r)
    ensures s.Read(u, r) == if s.versions[(u, t)].deleted then NotFound else Value(s.versions[(u, t)].value)
  {
    if !s.versions[(u, t)].deleted {
      assert exists x: nat :: s.Newest(u, x, r) && !s.versions[(u, x)].deleted;
    }
  }

  /** A transaction reads its own last write. */
  lemma {:induction false} ReadsOwnWrite(s: Store, u: Bytes, r: nat)
    requires s.Has(u, r)
    ensures s.Read(u, r) == if s.versions[(u, r)].deleted then NotFound else Value(s.versions[(u, r)].value)
  {
    assert s.Newest(u, r, r);
    ReadNewest(s, u, r, r);
  }

  /** The visible versions decide what is read. */
  lemma {:induction false} SameReads(s: Store, s': Store, u: Bytes, r: nat)
    requires forall t: nat :: s.Sees(u, t, r) <==> s'.Sees(u, t, r)
    requires forall t: nat :: s.Sees(u, t, r) && s'.Sees(u, t, r) ==> s'.versions[(u, t)] == s.versions[(u, t)]
    ensures s'.Read(u, r) == s.Read(u, r)
  {
    assert forall t: nat :: s.Newest(u, t, r) <==> s'.Newest(u, t, r);
    if exists t: nat :: s.Newest(u, t, r) {
      var t: nat :| s.Newest(u, t, r);
      ReadNewest(s, u, t, r);
      ReadNewest(s', u, t, r);
    }
  }

  predicate ActsAs(op: Op, t: nat) {
    match op
    case Begin(id) => id == t
    case Vacuum => false
    case _ => op.t == t
  }

  /** No step of a larger-ID transaction, and no vacuum, changes what `r` reads. */
  lemma {:induction false} LargerIdsDoNotInterfere(s: Store, op: Op, u: Bytes, r: nat)
    requires Inv(s) && Allowed(s, op) && IsRunning(s, r)
    requires forall t: nat :: ActsAs(op, t) ==> t > r
    ensures Step(s, op).0.Read(u, r) == s.Read(u, r)
  {
    var s' := Step(s, op).0;
    assert op.Vacuum? || op.Begin? || ActsAs(op, op.t);
    assert op.Begin? ==> ActsAs(op, op.id);
    SameReads(s, s', u, r);
  }

  // ---- Repeatable reads ----

  /** `r` is running and no running transaction has a smaller ID. */
  ghost predicate Oldest(s: Store, r: nat) {
    IsRunning(s, r) && forall t: nat :: IsRunning(s, t) ==> r <= t
  }

  ghost predicate AllowedRun(s: Store, ops: seq<Op>)
    decreases |ops|
  {
    ops == [] || (Allowed(s, ops[0]) && AllowedRun(Step(s, ops[0]).0, ops[1..]))
  }

  ghost function After(s: Store, ops: seq<Op>): Store
    decreases |ops|
  {
    if ops == [] then s else After(Step(s, ops[0]).0, ops[1..])
  }

  /** Whatever others do, `r` keeps reading the same. */
  ghost predicate Repeatable(s: Store, r: nat) {
    forall ops, u :: AllowedRun(s, ops) && (forall op :: op in ops ==> !ActsAs(op, r)) ==>
      After(s, ops).Read(u, r) == s.Read(u, r)
  }

  lemma {:induction false} OldestReadsStably(s: Store, r: nat, ops: seq<Op>, u: Bytes)
    requires Inv(s) && Oldest(s, r) && AllowedRun(s, ops) && forall op :: op in ops ==> !ActsAs(op, r)
    ensures After(s, ops).Read(u, r) == s.Read(u, r)
    decreases |ops|
  {
    if ops != [] {
      var op, s1 := ops[0], Step(s, ops[0]).0;
      assert op in ops && !ActsAs(op, r);
      StepKeepsInv(s, op);
      LargerIdsDoNotInterfere(s, op, u, r);
      forall t: nat | IsRunning(s1, t) ensures r <= t {
        assert IsRunning(s, t) || (op.Begin? && t == op.id);
      }
      OldestReadsStably(s1, r, ops[1..], u);
    }
  }

  /** A key of this length occurs nowhere in the store. */
  lemma {:induction false} FreshKey(keys: set<(Bytes, nat)>) returns (u: Bytes)
    ensures NulFree(u) && forall k :: k in keys ==> |k.0| < |u|
    decreases keys
  {
    if keys == {} {
      u := [1];
    } else {
      var k :| k in keys;
      var v := FreshKey(keys - {k});
      u := seq(|v| + |k.0| + 1, _ => 1);
    }
  }

  /** Reads of a running transaction are repeatable exactly when it is the oldest running one:
      visibility looks at the status at read time, so an older one may commit underneath. */
  lemma {:induction false} RepeatableIffOldest(s: Store, r: nat)
    requires Inv(s) && IsRunning(s, r)
    ensures Repeatable(s, r) <==> Oldest(s, r)
  {
    if Oldest(s, r) {
      forall ops, u | AllowedRun(s, ops) && forall op :: op in ops ==> !ActsAs(op, r)
        ensures After(s, ops).Read(u, r) == s.Read(u, r)
      {
        OldestReadsStably(s, r, ops, u);
      }
    } else {
      var t: nat :| IsRunning(s, t) && t < r;
      var u := FreshKey(s.versions.Keys);
      assert forall t': nat :: !s.Has(u, t') by { assert forall k :: k in s.versions ==> k in s.versions.Keys; }
      var ops := [Set(t, u, [7]), Op.Commit(t)];
      var s1 := Step(s, ops[0]).0;
      var s2 := Step(s1, ops[1]).0;
      assert ops[1..] == [Op.Commit(t)] && ops[1..][1..] == [];
      assert AllowedRun(s1, ops[1..]) by { assert AllowedRun(s2, []); }
      assert After(s, ops) == s2 by { assert After(s1, ops[1..]) == After(s2, []); }
      assert s2.Newest(u, t, r);
      ReadNewest(s2, u, t, r);
      assert s.Read(u, r) == NotFound;
    }
  }

  /** Lost updates are prevented in one direction only: when `t` writes and commits a key while
      `r` is running, a later write by `r` is refused exactly when `r` has the smaller ID. */
  lemma {:induction false} OverwriteRefusedIffSmaller(s: Store, t: TxnId, r: TxnId, u: Bytes, v: Bytes)
    requires Inv(s) && IsRunning(s, t) && IsRunning(s, r) && t != r && NulFree(u) && !s.Conflict(u, t)
    ensures var s1 := Step(s, Set(t, u, v)).0; var s2 := Step(s1, Op.Commit(t)).0;
      && Allowed(s1, Op.Commit(t)) && IsRunning(s2, r)
      && (s2.Conflict(u, r) <==> r < t)
  {
    var s1 := Step(s, Set(t, u, v)).0;
    var s2 := Step(s1, Op.Commit(t)).0;
    assert forall t': nat :: !s.Rival(u, t', t);
    if r < t {
      assert s2.Rival(u, t, r);
    } else {
      forall t': nat ensures !s2.Rival(u, t', r) {
        assert !s.Rival(u, t', t) && (s2.Has(u, t') ==> t' == t || s.Has(u, t'));
      }
    }
  }
}
