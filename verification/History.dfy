/** The transaction rules in terms of the history of operations alone: what clients asked for and
    in which order, over every clean run of the engine with vacuums anywhere in it. */
module History {
  import opened Bytes
  import opened Cells
  import opened MvccKeys
  import opened IdealStore
  import opened Mvcc
  import opened MvccRefinement

  // ---- Histories ----

  function WriteOf(op: Op, t: nat, u: Bytes): Option<Entry> {
    match op
    case Set(t', u', v) => if t' == t && u' == u then Some(Entry(false, v)) else None
    case Delete(t', u') => if t' == t && u' == u then Some(Entry(true, [])) else None
    case _ => None
  }

  /** What the transaction last asked to store under the key. */
  function LastWrite(ops: seq<Op>, t: nat, u: Bytes): Option<Entry> {
    if ops == [] then None
    else
      var w := WriteOf(ops[|ops| - 1], t, u);
      if w.Some? then w else LastWrite(ops[..|ops| - 1], t, u)
  }

  predicate HasCommitted(ops: seq<Op>, t: nat) {
    exists op :: op in ops && op.Commit? && op.t == t
  }

  lemma {:induction false} HistorySnoc(ops: seq<Op>, op: Op)
    ensures forall t: nat, u ::
              LastWrite(ops + [op], t, u) ==
              if WriteOf(op, t, u).Some? then WriteOf(op, t, u) else LastWrite(ops, t, u)
    ensures forall t: nat :: HasCommitted(ops + [op], t) <==> HasCommitted(ops, t) || (op.Commit? && op.t == t)
  {
    assert (ops + [op])[..|ops|] == ops;
    forall t: nat | HasCommitted(ops, t) ensures HasCommitted(ops + [op], t) {
      var x :| x in ops && x.Commit? && x.t == t;
      assert x in ops + [op];
    }
    assert op in ops + [op];
  }

  lemma {:induction false} LastWriteGrows(ops: seq<Op>, i: nat, t: nat, u: Bytes)
    requires i <= |ops| && LastWrite(ops[..i], t, u).Some?
    ensures LastWrite(ops, t, u).Some?
    decreases |ops|
  {
    if i < |ops| {
      assert ops[..|ops| - 1][..i] == ops[..i];
      LastWriteGrows(ops[..|ops| - 1], i, t, u);
    } else {
      assert ops[..i] == ops;
    }
  }

  // ---- The store is what the history says ----

  predicate Live(s: Store, t: nat) {
    t in s.status && s.status[t] in {Running, Committed}
  }

  /** Versions of running and committed transactions are their last writes. */
  ghost predicate VersionsExplained(ops: seq<Op>, s: Store) {
    forall t: nat, u :: Live(s, t) ==>
      LastWrite(ops, t, u) == if s.Has(u, t) then Some(s.versions[(u, t)]) else None
  }

  ghost predicate Explains(ops: seq<Op>, s: Store) {
    && VersionsExplained(ops, s)
    && (forall t: nat :: HasCommitted(ops, t) <==> t in s.status && s.status[t] == Committed)
    && (forall t: nat, u :: t !in s.status ==> LastWrite(ops, t, u) == None)
  }

  lemma {:induction false} StepExplains(ops: seq<Op>, s: Store, op: Op)
    requires Inv(s) && Allowed(s, op) && Explains(ops, s)
    ensures Explains(ops + [op], Step(s, op).0)
  {
    HistorySnoc(ops, op);
    var s' := Step(s, op).0;
    forall t: nat, u | Live(s', t)
      ensures LastWrite(ops + [op], t, u) == if s'.Has(u, t) then Some(s'.versions[(u, t)]) else None
    {
      if op.Begin? && op.id == t {
        assert t !in s.status && !s.Has(u, t);
      } else {
        assert Live(s, t);
      }
    }
  }

  lemma {:induction false} RunExplains(done: seq<Op>, s: Store, ops: seq<Op>)
    requires Inv(s) && Explains(done, s) && AllowedRun(s, ops)
    ensures Inv(After(s, ops)) && Explains(done + ops, After(s, ops))
    decreases |ops|
  {
    if ops == [] {
      assert done + ops == done;
    } else {
      StepExplains(done, s, ops[0]);
      StepKeepsInv(s, ops[0]);
      RunExplains(done + [ops[0]], Step(s, ops[0]).0, ops[1..]);
      assert done + [ops[0]] + ops[1..] == done + ops;
    }
  }

  lemma {:induction false} HistoryExplains(ops: seq<Op>)
    requires AllowedRun(EMPTY, ops)
    ensures Inv(After(EMPTY, ops)) && Explains(ops, After(EMPTY, ops))
  {
    RunExplains([], EMPTY, ops);
    assert [] + ops == ops;
  }

  // ---- Reading ----

  /** A transaction with a smaller ID that wrote the key and committed. */
  predicate Source(ops: seq<Op>, u: Bytes, t: nat, r: nat) {
    t < r && HasCommitted(ops, t) && LastWrite(ops, t, u).Some?
  }

  ghost predicate NewestSource(ops: seq<Op>, u: Bytes, t: nat, r: nat) {
    Source(ops, u, t, r) && forall t': nat :: Source(ops, u, t', r) ==> t' <= t
  }

  function Shown(e: Entry): Response {
    if e.deleted then NotFound else Value(e.value)
  }

  /** What FindLatest answers in the state. */
  function GetNow(db: Db, u: Bytes, r: TxnId): Response {
    Answer(FindBest(db.leaf, BuildMvccKey(u, r), db.status))
  }

  lemma {:induction false} SeesSources(ops: seq<Op>, s: Store, u: Bytes, r: nat)
    requires Inv(s) && Explains(ops, s)
    ensures forall t: nat :: t != r ==> (s.Sees(u, t, r) <==> Source(ops, u, t, r))
  {
    forall t: nat | t != r ensures s.Sees(u, t, r) <==> Source(ops, u, t, r) {
      if s.Sees(u, t, r) { assert Live(s, t); }
      if Source(ops, u, t, r) { assert Live(s, t); }
    }
  }

  lemma {:induction false} IdealReadRule(ops: seq<Op>, s: Store, u: Bytes, r: nat)
    requires Inv(s) && Explains(ops, s) && IsRunning(s, r)
    ensures var own := LastWrite(ops, r, u);
      if own.Some? then s.Read(u, r) == Shown(own.value)
      else && (forall t: nat :: NewestSource(ops, u, t, r) ==> s.Read(u, r) == Shown(LastWrite(ops, t, u).value))
           && (s.Read(u, r).Value? ==> exists t: nat :: NewestSource(ops, u, t, r))
  {
    assert Live(s, r);
    SeesSources(ops, s, u, r);
    if LastWrite(ops, r, u).Some? {
      ReadsOwnWrite(s, u, r);
    } else {
      assert forall t: nat :: NewestSource(ops, u, t, r) <==> s.Newest(u, t, r);
      forall t: nat | NewestSource(ops, u, t, r) ensures s.Read(u, r) == Shown(LastWrite(ops, t, u).value) {
        assert Live(s, t);
        ReadNewest(s, u, t, r);
      }
    }
  }

  /** The read rule, over every clean run: a running transaction reads its own last write; without
      one it reads what the committed transaction with the largest smaller ID last wrote, and
      finds a value only if there is such a transaction. */
  lemma {:induction false} ReadRule(ops: seq<Op>, u: Bytes, r: TxnId)
    requires CleanRun(EMPTY_DB, ops) && RunningIn(FinalDb(EMPTY_DB, ops), r)
    ensures var own, got := LastWrite(ops, r, u), GetNow(FinalDb(EMPTY_DB, ops), u, r);
      if own.Some? then got == Shown(own.value)
      else && (forall t: nat :: NewestSource(ops, u, t, r) ==> got == Shown(LastWrite(ops, t, u).value))
           && (got.Value? ==> exists t: nat :: NewestSource(ops, u, t, r))
  {
    EmptyRelated();
    var w := FinalRelated(EMPTY_DB, EMPTY, 1, ops);
    var db, s := FinalDb(EMPTY_DB, ops), After(EMPTY, ops);
    EngineRefinesIdealStore(ops);
    HistoryExplains(ops);
    RunningAgrees(db, s, w, r);
    GetRefines(db, s, w, u, r);
    IdealReadRule(ops, s, u, r);
  }

  /** Non-interference, over every clean run: a vacuum or any operation of a transaction with a
      larger ID changes nothing a running transaction reads. */
  lemma {:induction false} NoInterference(ops: seq<Op>, op: Op, u: Bytes, r: TxnId)
    requires CleanRun(EMPTY_DB, ops) && Clean(FinalDb(EMPTY_DB, ops), op)
    requires RunningIn(FinalDb(EMPTY_DB, ops), r) && forall t: nat :: ActsAs(op, t) ==> t > r
    ensures var db := FinalDb(EMPTY_DB, ops); GetNow(StepDb(db, op).0, u, r) == GetNow(db, u, r)
  {
    EmptyRelated();
    var w := FinalRelated(EMPTY_DB, EMPTY, 1, ops);
    var db, s := FinalDb(EMPTY_DB, ops), After(EMPTY, ops);
    var w' := StepRefines(db, s, w, op);
    RunningAgrees(db, s, w, r);
    StaysRunning(db, op, r);
    RunningAgrees(StepDb(db, op).0, Step(s, op).0, w', r);
    GetRefines(db, s, w, u, r);
    GetRefines(StepDb(db, op).0, Step(s, op).0, w', u, r);
    LargerIdsDoNotInterfere(s, op, u, r);
  }

  lemma {:induction false} StaysRunning(db: Db, op: Op, r: nat)
    requires RunningIn(db, r) && !ActsAs(op, r)
    ensures RunningIn(StepDb(db, op).0, r)
  {
  }

  // ---- Commit order ----

  lemma {:induction false} AllowedPrefix(s: Store, ops: seq<Op>, j: nat)
    requires AllowedRun(s, ops) && j < |ops|
    ensures AllowedRun(s, ops[..j]) && Allowed(After(s, ops[..j]), ops[j])
    decreases |ops|
  {
    if j > 0 {
      AllowedPrefix(Step(s, ops[0]).0, ops[1..], j - 1);
      assert ops[..j][1..] == ops[1..][..j - 1];
    }
  }

  /** Over every clean run, transactions that wrote the same key commit in strictly increasing ID
      order, with vacuums interleaved. */
  lemma {:induction false} CommitOrder(ops: seq<Op>, i: nat, j: nat, u: Bytes)
    requires CleanRun(EMPTY_DB, ops) && i < j < |ops| && ops[i].Commit? && ops[j].Commit?
    requires LastWrite(ops[..i], ops[i].t, u).Some? && LastWrite(ops[..j], ops[j].t, u).Some?
    ensures ops[i].t < ops[j].t
  {
    var t1, t2, s := ops[i].t, ops[j].t, After(EMPTY, ops[..j]);
    EngineRefinesIdealStore(ops);
    AllowedPrefix(EMPTY, ops, j);
    HistoryExplains(ops[..j]);
    assert ops[..j][..i] == ops[..i];
    LastWriteGrows(ops[..j], i, t1, u);
    assert HasCommitted(ops[..j], t1) by { assert ops[..j][i] == ops[i]; }
    assert Live(s, t1) && Live(s, t2);
    CommitsInIdOrder(s, t2, u, t1);
  }
}
