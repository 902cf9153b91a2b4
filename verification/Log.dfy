/** The write-ahead log as the sequence of its records (wal.go). A record's LSN is its byte
    offset in the file; module LogFile relates this view to the bytes. Page contents are seen at
    the level of cells for leaves and as opaque bytes otherwise. */
module Log {
  import opened Bytes
  import opened Cells
  import opened MvccKeys

  type PageId = nat
  type Lsn = nat

  /** What a page holds besides its LSN header field. */
  datatype Body = Leaf(cells: seq<Cell>) | Other(data: Bytes)

  datatype Page = Page(lsn: Lsn, body: Body)

  datatype Payload =
    | Write(deleted: bool, key: Bytes, value: Bytes)  // LogOpInsert, LogOpDelete
    | FullPage(image: Page)
    | Commit
    | Abort
    | Clr(undoKey: Bytes, undoValue: Bytes)
    | Checkpoint(dirtyPages: map<PageId, Lsn>)

  datatype Record = Record(lsn: Lsn, txn: nat, page: PageId, prev: Lsn, payload: Payload)

  /** The first record follows the 4-byte magic header. */
  const FIRST_LSN: Lsn := 4

  /** Bytes the record takes in the file. */
  function Size(p: Payload): (size: nat)
    ensures size >= 43
  {
    43 + match p
         case Write(_, key, value) => |key| + |value|
         case FullPage(_) => PAGE_SIZE
         case Commit => 0
         case Abort => 0
         case Clr(key, value) => |key| + |value|
         case Checkpoint(dpt) => 4 + 12 * |dpt|
  }

  /** WAL.currentLSN */
  function End(log: seq<Record>): Lsn {
    if log == [] then FIRST_LSN else log[|log| - 1].lsn + Size(log[|log| - 1].payload)
  }

  /** Record number `i` starts where the records before it end. */
  ghost predicate InOrder(log: seq<Record>, i: nat)
    requires i < |log|
  {
    log[i].lsn == End(log[..i])
  }

  ghost predicate WellFormed(log: seq<Record>) {
    forall i :: 0 <= i < |log| ==> InOrder(log, i)
  }

  /** Records whose PageID names a page they change or repeat. Commit, abort and checkpoint
      records carry PageID 0 as a filler. */
  predicate OnPage(r: Record) {
    r.payload.Write? || r.payload.FullPage? || r.payload.Clr?
  }

  lemma {:induction false} LsnOrder(log: seq<Record>, i: nat, j: nat)
    requires WellFormed(log) && i < j <= |log|
    ensures FIRST_LSN <= log[i].lsn < if j == |log| then End(log) else log[j].lsn
    decreases j
  {
    assert InOrder(log, i);
    assert j < |log| ==> InOrder(log, j);
    assert log[j - 1] == log[..j][j - 1];
    assert j == |log| ==> log[..j] == log;
    if i + 1 < j {
      LsnOrder(log, i, j - 1);
    } else {
      LsnAboveHeader(log, i);
    }
  }

  lemma {:induction false} LsnAboveHeader(log: seq<Record>, i: nat)
    requires WellFormed(log) && i < |log|
    ensures log[i].lsn >= FIRST_LSN
    decreases i
  {
    assert InOrder(log, i);
    if i > 0 {
      LsnAboveHeader(log, i - 1);
      assert log[i - 1] == log[..i][i - 1];
    }
  }

  lemma {:induction false} LsnsBelowEnd(log: seq<Record>)
    requires WellFormed(log)
    ensures forall i :: 0 <= i < |log| ==> FIRST_LSN <= log[i].lsn < End(log)
    ensures End(log) >= FIRST_LSN
  {
    forall i | 0 <= i < |log| ensures FIRST_LSN <= log[i].lsn < End(log) {
      LsnOrder(log, i, |log|);
    }
  }

  lemma {:induction false} AppendWellFormed(log: seq<Record>, r: Record)
    requires WellFormed(log) && r.lsn == End(log)
    ensures WellFormed(log + [r])
  {
    forall i | 0 <= i < |log + [r]| ensures InOrder(log + [r], i) {
      assert (log + [r])[..i] == log[..i];
      if i == |log| { assert log[..i] == log; } else { assert InOrder(log, i); }
    }
  }

  lemma {:induction false} WellFormedPrefix(log: seq<Record>, n: nat)
    requires WellFormed(log) && n <= |log|
    ensures WellFormed(log[..n])
  {
    forall i | 0 <= i < n ensures InOrder(log[..n], i) {
      assert InOrder(log, i);
      assert log[..n][..i] == log[..i];
    }
  }

  /** WAL.ReadRecord: the record at a byte offset, if one starts there. */
  function ReadRecord(log: seq<Record>, lsn: Lsn): (r: Option<Record>)
    ensures r.Some? ==> r.value in log && r.value.lsn == lsn
  {
    if log == [] then None
    else if log[|log| - 1].lsn == lsn then Some(log[|log| - 1])
    else ReadRecord(log[..|log| - 1], lsn)
  }

  /** Every record is found at its LSN, and nothing at the end of the log. */
  lemma {:induction false} ReadFinds(log: seq<Record>, i: nat)
    requires WellFormed(log) && i <= |log|
    ensures i < |log| ==> ReadRecord(log, log[i].lsn) == Some(log[i])
    ensures i == |log| ==> ReadRecord(log, End(log)) == None
  {
    if i == |log| {
      LsnsBelowEnd(log);
    } else if i < |log| - 1 {
      LsnOrder(log, i, |log| - 1);
      var front := log[..|log| - 1];
      WellFormedPrefix(log, |log| - 1);
      ReadFinds(front, i);
    }
  }

  /** Undo chains: PrevLSN is 0 or names an earlier record of the same transaction. */
  ghost predicate ChainsOk(log: seq<Record>) {
    forall i :: 0 <= i < |log| && log[i].prev != 0 ==>
      exists j :: 0 <= j < i && log[j].lsn == log[i].prev && log[j].txn == log[i].txn
  }
}
