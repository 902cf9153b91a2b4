/** A crash in the middle of undo. The compensation records written so far tell the next recovery where
    to go on: it has exactly the writes left that the first one had not undone yet. */
module UndoRestart {
  import opened Log
  import opened Redo
  import opened Recovery
  import opened Folding
  import opened Engine
  import opened EngineInvariant
  import opened Durability
  import opened RecoveryRun

  function WritesOf(rs: seq<Record>): seq<Record> {
    if rs == [] then []
    else WritesOf(rs[..|rs| - 1]) + if rs[|rs| - 1].payload.Write? then [rs[|rs| - 1]] else []
  }

  // ---- Chains in a longer log ----

  lemma {:induction false} ReadInLonger(log: seq<Record>, log': seq<Record>, l: Lsn)
    requires WellFormed(log') && log <= log' && l < End(log)
    ensures ReadRecord(log', l) == ReadRecord(log, l)
    decreases |log'|
  {
    if |log| < |log'| {
      var front := log'[..|log'| - 1];
      WellFormedPrefix(log', |log'| - 1);
      assert log <= front;
      assert InOrder(log', |log'| - 1);
      EndGrows(log, front);
      ReadInLonger(log, front, l);
    } else {
      assert log' == log;
    }
  }

  lemma {:induction false} EndGrows(log: seq<Record>, log': seq<Record>)
    requires WellFormed(log') && log <= log'
    ensures End(log) <= End(log')
  {
    if |log| < |log'| {
      assert InOrder(log', |log|);
      assert log'[..|log|] == log;
      LsnOrder(log', |log|, |log'|);
    } else {
      assert log' == log;
    }
  }

  lemma {:induction false} ChainInLonger(log: seq<Record>, log': seq<Record>, l: Lsn, x: Lsn)
    requires WellFormed(log') && log <= log' && l < End(log)
    ensures InChain(log', l, x) <==> InChain(log, l, x)
    decreases l
  {
    ReadInLonger(log, log', l);
    var r := ReadRecord(log, l);
    if r.Some? && r.value.prev < l { ChainInLonger(log, log', r.value.prev, x); }
  }

  // ---- What the log knows of the loop ----

  /** The log leads the transaction back to exactly the writes of `log0` that the loop has left at `l`. */
  ghost predicate SameWritesLeft(log0: seq<Record>, l: Lsn, log: seq<Record>, l': Lsn) {
    forall i :: 0 <= i < |log0| && log0[i].payload.Write? ==>
      (InChain(log, l', log0[i].lsn) <==> InChain(log0, l, log0[i].lsn))
  }

  /** Analysis of the log finds the transactions of the loop's table, each with the same writes left. */
  ghost predicate LeadsBack(log0: seq<Record>, att: map<nat, Lsn>, log: seq<Record>, from: nat) {
    && log0 <= log && WellFormed(log) && from <= |log0|
    && Att(log, from).Keys == att.Keys
    && (forall i :: |log0| <= i < |log| ==> !log[i].payload.Write?)
    && forall t :: t in att ==> Att(log, from)[t] < End(log) && SameWritesLeft(log0, att[t], log, Att(log, from)[t])
  }

  /** The same, folded. */
  ghost predicate Resumes(log0: seq<Record>, att: map<nat, Lsn>, log: seq<Record>, from: nat) {
    forall n: nat :: Unfold(n) ==> LeadsBack(log0, att, log, from)
  }

  lemma {:induction false} ResumesAtStart(log0: seq<Record>, from: nat)
    requires WellFormed(log0) && from <= |log0|
    ensures Resumes(log0, Att(log0, from), log0, from)
  {
    AnalysisAttOk(log0, from);
    LsnsBelowEnd(log0);
  }

  /** One more record that is no write: if its transaction stays in the table it moves on to the record's
      PrevLSN, and no other transaction is affected. */
  lemma {:induction false} AppendResumes(log0: seq<Record>, att: map<nat, Lsn>, log: seq<Record>, from: nat, r: Record,
        att': map<nat, Lsn>)
    requires Resumes(log0, att, log, from) && r.lsn == End(log) && !r.payload.Write?
    requires from <= |log| && Att(log + [r], from).Keys == att'.Keys && att'.Keys <= att.Keys
    requires forall t :: t in att' && t != r.txn ==> att'[t] == att[t]
    requires r.txn in att' ==> Att(log + [r], from)[r.txn] == r.lsn && r.prev == att'[r.txn] < End(log0)
    requires WellFormed(log0)
    ensures Resumes(log0, att', log + [r], from)
  {
    assert Unfold(0);
    var log' := log + [r];
    AppendWellFormed(log, r);
    AttSnoc(log, r, from);
    LsnsBelowEnd(log');
    forall t | t in att'
      ensures Att(log', from)[t] < End(log') && SameWritesLeft(log0, att'[t], log', Att(log', from)[t])
    {
      if t == r.txn {
        ClrLeads(log0, log', r);
      } else {
        StillLeads(log0, att[t], log, log', Att(log, from)[t]);
      }
    }
  }

  lemma {:induction false} StillLeads(log0: seq<Record>, l0: Lsn, log: seq<Record>, log': seq<Record>, l: Lsn)
    requires WellFormed(log') && log <= log' && l < End(log) && SameWritesLeft(log0, l0, log, l)
    ensures SameWritesLeft(log0, l0, log', l)
  {
    forall i | 0 <= i < |log0| && log0[i].payload.Write?
      ensures InChain(log', l, log0[i].lsn) <==> InChain(log0, l0, log0[i].lsn)
    {
      ChainInLonger(log, log', l, log0[i].lsn);
    }
  }

  /** From a compensation record the chain goes on at the PrevLSN of the undone write. */
  lemma {:induction false} ClrLeads(log0: seq<Record>, log: seq<Record>, r: Record)
    requires WellFormed(log) && log0 < log && log[|log| - 1] == r && r.prev < End(log0)
    ensures SameWritesLeft(log0, r.prev, log, r.lsn)
  {
    forall i | 0 <= i < |log0| && log0[i].payload.Write?
      ensures InChain(log, r.lsn, log0[i].lsn) <==> InChain(log0, r.prev, log0[i].lsn)
    {
      assert log[i] == log0[i];
      LsnOrder(log, i, |log| - 1);
      WellFormedPrefix(log, |log| - 1);
      EndGrows(log0, log[..|log| - 1]);
      assert InOrder(log, |log| - 1);
      ChainStep(log, |log| - 1, log0[i].lsn);
      ChainInLonger(log0, log, r.prev, log0[i].lsn);
    }
  }

  // ---- One round ----

  ghost predicate PagesKnown(log: seq<Record>, pages: nat) {
    forall i :: 0 <= i < |log| && log[i].payload.Write? ==> log[i].page < pages
  }

  /** The table inside a round, before the transaction is taken off. */
  function Moved(att: map<nat, Lsn>, r: Record): map<nat, Lsn> {
    att[r.txn := r.prev]
  }

  lemma {:induction false} SkippedResumes(log0: seq<Record>, att: map<nat, Lsn>, i: nat, log: seq<Record>, from: nat)
    requires WellFormed(log0) && ChainsOk(log0) && AttOk(log0, att) && IsMax(log0, att, i)
    requires Resumes(log0, att, log, from) && !log0[i].payload.Write?
    ensures Resumes(log0, Moved(att, log0[i]), log, from)
  {
    assert Unfold(0);
    PrevBelow(log0, i);
    SkippedLeads(log0, i, log, Att(log, from)[log0[i].txn]);
  }

  lemma {:induction false} SkippedLeads(log0: seq<Record>, i: nat, log: seq<Record>, l: Lsn)
    requires WellFormed(log0) && i < |log0| && log0[i].prev < log0[i].lsn && !log0[i].payload.Write?
    requires SameWritesLeft(log0, log0[i].lsn, log, l)
    ensures SameWritesLeft(log0, log0[i].prev, log, l)
  {
    forall j | 0 <= j < |log0| && log0[j].payload.Write?
      ensures InChain(log, l, log0[j].lsn) <==> InChain(log0, log0[i].prev, log0[j].lsn)
    {
      if i < j { LsnOrder(log0, i, j); } else { LsnOrder(log0, j, i); }
      ChainStep(log0, i, log0[j].lsn);
    }
  }

  lemma {:induction false} PassedResumes(log0: seq<Record>, att: map<nat, Lsn>, i: nat, v: Volume, v': Volume,
        from: nat)
    requires WellFormed(log0) && ChainsOk(log0) && AttOk(log0, att) && IsMax(log0, att, i)
    requires Resumes(log0, att, v.log, from) && PagesKnown(log0, |v.pages|) && Passed(v, log0[i], v')
    ensures Resumes(log0, Moved(att, log0[i]), v'.log, from)
  {
    var r := log0[i];
    if r.payload.Write? {
      assert Unfold(0);
      AdvanceOk(log0, att, i);
      LsnsBelowEnd(log0);
      NobodyIsActive(v.log, from);
      if v'.log == Compensated(v.log, r) {
        ClrResumes(log0, att, r, v.log, from);
      } else {
        var b := Record(End(v.log), 0, r.page, 0, FullPage(v.pages[r.page]));
        AttSnoc(v.log, b, from);
        AppendResumes(log0, att, v.log, from, b, att);
        ClrResumes(log0, att, r, v.log + [b], from);
      }
    } else {
      SkippedResumes(log0, att, i, v.log, from);
    }
  }

  lemma {:induction false} ClrResumes(log0: seq<Record>, att: map<nat, Lsn>, r: Record, log: seq<Record>, from: nat)
    requires Resumes(log0, att, log, from) && r.payload.Write? && r.txn in att && r.prev < End(log0) && WellFormed(log0)
    ensures Resumes(log0, Moved(att, r), Compensated(log, r), from)
  {
    assert Unfold(0);
    var clr := Compensated(log, r)[|log|];
    NobodyIsActive(log, from);
    AttSnoc(log, clr, from);
    AppendResumes(log0, att, log, from, clr, Moved(att, r));
  }

  lemma {:induction false} AbortResumes(log0: seq<Record>, att: map<nat, Lsn>, txn: nat, v: Volume, from: nat)
    requires Resumes(log0, att, v.log, from) && txn in att && WellFormed(log0)
    ensures Resumes(log0, att - {txn}, WithAbort(v, txn).log, from)
  {
    assert Unfold(0);
    var a := Record(End(v.log), txn, 0, 0, Abort);
    NobodyIsActive(v.log, from);
    AttSnoc(v.log, a, from);
    AppendResumes(log0, att, v.log, from, a, att - {txn});
  }

  lemma {:induction false} RoundResumes(log0: seq<Record>, att: map<nat, Lsn>, i: nat, v: Volume, v': Volume, from: nat)
    requires WellFormed(log0) && ChainsOk(log0) && AttOk(log0, att) && IsMax(log0, att, i)
    requires Resumes(log0, att, v.log, from) && PagesKnown(log0, |v.pages|) && RoundDone(v, log0[i], v', true)
    ensures Resumes(log0, Advance(att, log0[i]), v'.log, from) && |v'.pages| == |v.pages|
  {
    var r := log0[i];
    RoundBodies(v, r, v', true);
    if r.prev == 0 {
      var mid :| Passed(v, r, mid) && v' == WithAbort(mid, r.txn);
      PassedResumes(log0, att, i, v, mid, from);
      AbortResumes(log0, Moved(att, r), r.txn, mid, from);
      assert Moved(att, r) - {r.txn} == Advance(att, r);
    } else {
      PassedResumes(log0, att, i, v, v', from);
    }
  }

  // ---- The list of work ----

  /** The newest record to undo is the one the loop picks. */
  lemma {:induction false} NewestIsMax(log: seq<Record>, att: map<nat, Lsn>) returns (i: nat)
    requires WellFormed(log) && ChainsOk(log) && AttOk(log, att) && UndoList(log, att, |log|) != []
    ensures IsMax(log, att, i)
    ensures UndoList(log, att, |log|) == UndoList(log, Advance(att, log[i]), |log|) + [log[i]]
  {
    var work := UndoList(log, att, |log|);
    var r := work[|work| - 1];
    UndoListExact(log, att, |log|);
    assert r in work;
    i :| 0 <= i < |log| && log[i] == r;
    LsnsBelowEnd(log);
    forall t | t in att ensures att[t] <= r.lsn {
      var k :| 0 <= k < |log| && log[k].lsn == att[t] && log[k].txn == t;
      assert ToUndo(log, att, log[k]);
      assert log[k] in work;
    }
    ChainBelow(log, att[r.txn], r.lsn);
    UndoListStep(log, att, i);
  }

  lemma {:induction false} WritesOfStep(log: seq<Record>, att: map<nat, Lsn>, n: nat)
    requires n < |log|
    ensures WritesOf(UndoList(log, att, n + 1)) ==
      WritesOf(UndoList(log, att, n)) + if log[n].payload.Write? && ToUndo(log, att, log[n]) then [log[n]] else []
  {
    var rs, r := UndoList(log, att, n), log[n];
    assert (rs + [r])[..|rs|] == rs && rs + [] == rs;
    assert UndoList(log, att, n + 1) == if ToUndo(log, att, r) then rs + [r] else rs;
  }

  lemma {:induction false} DropSnoc(rs: seq<Record>, r: Record, k: nat)
    requires k <= |rs|
    ensures (rs + [r])[k..] == rs[k..] + [r] && (rs + [r])[..k] == rs[..k] && (rs[k..] + [r])[..|rs[k..]|] == rs[k..]
  {
  }

  lemma {:induction false} SameWork(log0: seq<Record>, att: map<nat, Lsn>, log: seq<Record>, from: nat, n: nat)
    requires Resumes(log0, att, log, from) && n <= |log|
    ensures WritesOf(UndoList(log, Att(log, from), n)) ==
      WritesOf(UndoList(log0, att, if n < |log0| then n else |log0|))
    decreases n
  {
    assert Unfold(0);
    if n > 0 {
      SameWork(log0, att, log, from, n - 1);
      WritesOfStep(log, Att(log, from), n - 1);
      if n <= |log0| {
        var r := log0[n - 1];
        assert log[n - 1] == r;
        WritesOfStep(log0, att, n - 1);
        if r.payload.Write? && r.txn in att {
          assert SameWritesLeft(log0, att[r.txn], log, Att(log, from)[r.txn]);
          assert ToUndo(log, Att(log, from), r) <==> ToUndo(log0, att, r);
        }
      }
    }
  }

  lemma {:induction false} SameWorkLeft(log0: seq<Record>, att: map<nat, Lsn>, log: seq<Record>, from: nat)
    requires Resumes(log0, att, log, from)
    ensures WritesOf(UndoList(log, Att(log, from), |log|)) == WritesOf(UndoList(log0, att, |log0|))
  {
    assert Unfold(0);
    SameWork(log0, att, log, from, |log|);
  }

  /** Undo has come from a state with table `att` and stands before the last `k` records: its log leads
      to exactly the writes among them. */
  lemma {:induction false} RestResumes(log0: seq<Record>, att: map<nat, Lsn>, v: Volume, k: nat, v': Volume, from: nat)
    requires WellFormed(log0) && ChainsOk(log0) && AttOk(log0, att)
    requires Resumes(log0, att, v.log, from) && PagesKnown(log0, |v.pages|)
    requires k <= |UndoList(log0, att, |log0|)| && UndoneInTurn(v, UndoList(log0, att, |log0|)[k..], v', true)
    ensures WritesOf(UndoList(v'.log, Att(v'.log, from), |v'.log|)) == WritesOf(UndoList(log0, att, |log0|)[..k])
    decreases |UndoList(log0, att, |log0|)|
  {
    var work := UndoList(log0, att, |log0|);
    if k == |work| {
      assert work[k..] == [] && work[..k] == work;
      SameWorkLeft(log0, att, v.log, from);
    } else {
      var i := NewestIsMax(log0, att);
      var att' := Advance(att, log0[i]);
      var rest := UndoList(log0, att', |log0|);
      DropSnoc(rest, log0[i], k);
      var mid :| RoundDone(v, log0[i], mid, true) && UndoneInTurn(mid, rest[k..], v', true);
      RoundResumes(log0, att, i, v, mid, from);
      AdvanceOk(log0, att, i);
      RestResumes(log0, att', mid, k, v', from);
    }
  }

  /** A crash in the middle of undo, after any number of rounds: the next recovery has exactly the
      writes to undo that the first one had left, in the same order. None is undone twice, none is
      passed over. */
  lemma {:induction false} UndoInterrupted(s: State, k: nat, v': Volume) returns (steps: seq<Step>)
    requires Inv(s) && k <= |Work(s)|
    requires UndoneInTurn(AfterRedo(Volume(s.log, s.disk, {}), StartIndex(s.log, s.chk)), Work(s)[k..], v', true)
    ensures var s1 := Next(s, CrashAndRedo);
      Leads(s1, steps, v') && Inv(Final(s1, steps)) && WritesOf(Work(Final(s1, steps))) == WritesOf(Work(s)[..k])
  {
    var from, s1 := StartIndex(s.log, s.chk), Next(s, CrashAndRedo);
    var v := AfterRedo(Volume(s.log, s.disk, {}), from);
    steps := PartRuns(s, k, v');
    AnalysisAttOk(s.log, from);
    StartIndexIsStart(s.log, s.chk);
    ResumesAtStart(s.log, from);
    SameStart(s.log, Final(s1, steps).log, s.chk);
    RestResumes(s.log, Att(s.log, from), v, k, v', from);
  }

  lemma {:induction false} PartRuns(s: State, k: nat, v': Volume) returns (steps: seq<Step>)
    requires Inv(s) && k <= |Work(s)|
    requires UndoneInTurn(AfterRedo(Volume(s.log, s.disk, {}), StartIndex(s.log, s.chk)), Work(s)[k..], v', true)
    ensures var s1 := Next(s, CrashAndRedo); Leads(s1, steps, v') && Inv(Final(s1, steps)) && s.log <= v'.log
  {
    var s1, from := Next(s, CrashAndRedo), StartIndex(s.log, s.chk);
    RedoStands(s);
    StepKeepsInv(s, CrashAndRedo);
    WorkPrevKnown(s.log, Att(s.log, from));
    steps := UndoRuns(s1, AfterRedo(Volume(s.log, s.disk, {}), from), Work(s)[k..], v', true);
    RunKeepsInv(s1, steps);
  }
}
