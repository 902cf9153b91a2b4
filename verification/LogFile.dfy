/** The log of the machine and the bytes of the log file are the same thing: record sizes agree, LSNs
    are offsets, and scanning the file, whole or cut, yields the records of the log. */
module LogFile {
  import opened Bytes
  import opened Cells
  import opened Log
  import W = Wal

  /** How page images and checkpoint tables are turned into bytes and back. */
  datatype Codec = Codec(image: Page -> Bytes, page: Bytes -> Page,
                         table: map<PageId, Lsn> -> Bytes, entries: Bytes -> map<PageId, Lsn>)

  const OP_INSERT: Byte := 1
  const OP_DELETE: Byte := 2
  const OP_FULL_PAGE: Byte := 3
  const OP_COMMIT: Byte := 4
  const OP_ABORT: Byte := 5
  const OP_CLR: Byte := 6
  const OP_CHECKPOINT: Byte := 7

  function ToWire(r: Record, c: Codec): W.WireRecord {
    var (op, key, value) := match r.payload
      case Write(deleted, k, v) => (if deleted then OP_DELETE else OP_INSERT, k, v)
      case FullPage(image) => (OP_FULL_PAGE, [], c.image(image))
      case Commit => (OP_COMMIT, [], [])
      case Abort => (OP_ABORT, [], [])
      case Clr(k, v) => (OP_CLR, k, v)
      case Checkpoint(dpt) => (OP_CHECKPOINT, [], c.table(dpt));
    W.WireRecord(r.lsn, r.txn, r.page, op, r.prev, key, value)
  }

  /** The record that recovery works with; other operation codes never reach the log. */
  function FromWire(w: W.WireRecord, c: Codec): Option<Record> {
    var payload :=
      if w.op == OP_INSERT || w.op == OP_DELETE then Some(Write(w.op == OP_DELETE, w.key, w.value))
      else if w.op == OP_FULL_PAGE then Some(FullPage(c.page(w.value)))
      else if w.op == OP_COMMIT then Some(Commit)
      else if w.op == OP_ABORT then Some(Abort)
      else if w.op == OP_CLR then Some(Clr(w.key, w.value))
      else if w.op == OP_CHECKPOINT then Some(Checkpoint(c.entries(w.value)))
      else None;
    if payload.Some? then Some(Record(w.lsn, w.txn, w.page, w.prev, payload.value)) else None
  }

  /** The codec works for this record, and the record's fields fit their widths. */
  ghost predicate Encodes(c: Codec, r: Record) {
    && (r.payload.FullPage? ==>
          && |c.image(r.payload.image)| == PAGE_SIZE
          && c.page(c.image(r.payload.image)) == r.payload.image)
    && (r.payload.Checkpoint? ==>
          && |c.table(r.payload.dirtyPages)| == 4 + 12 * |r.payload.dirtyPages|
          && c.entries(c.table(r.payload.dirtyPages)) == r.payload.dirtyPages)
    && W.FieldsFit(ToWire(r, c)) && |ToWire(r, c).key| < Pow256(2)
  }

  ghost predicate EncodesAll(c: Codec, log: seq<Record>) {
    forall i :: 0 <= i < |log| ==> Encodes(c, log[i])
  }

  /** The size the machine charges for a record is the size of its bytes, and the bytes say what the
      record is. */
  lemma {:induction false} WireAgrees(r: Record, c: Codec)
    requires Encodes(c, r)
    ensures W.SizeOf(ToWire(r, c)) == Size(r.payload) && FromWire(ToWire(r, c), c) == Some(r)
  {
  }

  function Wires(log: seq<Record>, c: Codec): seq<W.WireRecord> {
    seq(|log|, i requires 0 <= i < |log| => ToWire(log[i], c))
  }

  function Chunks(log: seq<Record>, c: Codec, crc: W.Crc): seq<Bytes> {
    seq(|log|, i requires 0 <= i < |log| => W.Serialize(ToWire(log[i], c), crc))
  }

  /** The log file: what appending the records one by one writes. */
  function FileOf(log: seq<Record>, c: Codec, crc: W.Crc): Bytes {
    W.FileOf(Chunks(log, c, crc))
  }

  /** LSNs are byte offsets. */
  lemma {:induction false} OffsetIsLsn(log: seq<Record>, c: Codec, crc: W.Crc, i: nat)
    requires WellFormed(log) && EncodesAll(c, log) && i <= |log|
    ensures W.Offset(Chunks(log, c, crc), i) == End(log[..i])
    ensures i < |log| ==> log[i].lsn == End(log[..i])
  {
    if i < |log| { assert InOrder(log, i); }
    if i > 0 {
      OffsetIsLsn(log, c, crc, i - 1);
      WireAgrees(log[i - 1], c);
      assert log[..i][i - 1] == log[i - 1];
    }
  }

  lemma {:induction false} LogIsWritten(log: seq<Record>, c: Codec, crc: W.Crc)
    requires WellFormed(log) && EncodesAll(c, log)
    ensures W.Written(Chunks(log, c, crc), Wires(log, c), crc)
  {
    forall i | 0 <= i < |log| ensures W.WrittenAt(Chunks(log, c, crc), Wires(log, c), i, crc) {
      W.SerializeDecodes(ToWire(log[i], c), crc);
      OffsetIsLsn(log, c, crc, i);
    }
  }

  /** Scanning the file of a log that was cut anywhere behind its header yields the longest prefix of
      the log that ends at or before the cut, and each record decodes to the one that was logged. */
  lemma {:induction false} ScanYieldsLog(log: seq<Record>, c: Codec, crc: W.Crc, cut: nat) returns (k: nat)
    requires WellFormed(log) && EncodesAll(c, log) && FIRST_LSN <= cut <= |FileOf(log, c, crc)|
    ensures k <= |log| && End(log[..k]) <= cut && (k < |log| ==> End(log[..k + 1]) > cut)
    ensures W.Scan(FileOf(log, c, crc)[..cut], FIRST_LSN, crc) == Wires(log[..k], c)
    ensures forall i :: 0 <= i < k ==> FromWire(Wires(log[..k], c)[i], c) == Some(log[i])
  {
    LogIsWritten(log, c, crc);
    k := W.ScanPrefix(Chunks(log, c, crc), Wires(log, c), cut, crc);
    OffsetIsLsn(log, c, crc, k);
    if k < |log| { OffsetIsLsn(log, c, crc, k + 1); }
    assert Wires(log, c)[..k] == Wires(log[..k], c);
    WiresDecode(log, c, k);
  }

  lemma {:induction false} WiresDecode(log: seq<Record>, c: Codec, k: nat)
    requires EncodesAll(c, log) && k <= |log|
    ensures forall i :: 0 <= i < k ==> FromWire(Wires(log[..k], c)[i], c) == Some(log[i])
  {
    forall i | 0 <= i < k ensures FromWire(Wires(log[..k], c)[i], c) == Some(log[i]) {
      WireAgrees(log[i], c);
    }
  }

  /** Reading at a record's LSN finds it in the file as in the log. */
  lemma {:induction false} ReadAgrees(log: seq<Record>, c: Codec, crc: W.Crc, i: nat)
    requires WellFormed(log) && EncodesAll(c, log) && i < |log|
    ensures W.ReadRecord(FileOf(log, c, crc), log[i].lsn, crc) == Some((ToWire(log[i], c), Size(log[i].payload)))
    ensures ReadRecord(log, log[i].lsn) == FromWire(ToWire(log[i], c), c)
  {
    LogIsWritten(log, c, crc);
    OffsetIsLsn(log, c, crc, i);
    ReadFinds(log, i);
    WireAgrees(log[i], c);
    ReadWhole(Chunks(log, c, crc), Wires(log, c), i, crc);
  }

  lemma {:induction false} ReadWhole(chunks: seq<Bytes>, wires: seq<W.WireRecord>, i: nat, crc: W.Crc)
    requires W.Written(chunks, wires, crc) && i < |wires|
    ensures W.ReadRecord(W.FileOf(chunks), W.Offset(chunks, i), crc) == Some((wires[i], |chunks[i]|))
  {
    var file := W.FileOf(chunks);
    W.RecordBytes(chunks, i);
    assert file[..|file|] == file;
    W.ReadAtBoundary(chunks, wires, i, |file|, crc);
  }
}
