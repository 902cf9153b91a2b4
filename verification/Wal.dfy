/** The bytes of the write-ahead log: record format, append, read and scan (wal.go). The CRC is
    an arbitrary function of the payload. */
module Wal {
  import opened Bytes
  import opened Cells

  datatype WireRecord = WireRecord(lsn: nat, txn: nat, page: nat, op: Byte, prev: nat, key: Bytes, value: Bytes)

  type Crc = Bytes -> nat

  const MIN_RECORD: nat := 43

  function SizeOf(r: WireRecord): nat {
    MIN_RECORD + |r.key| + |r.value|
  }

  /** Fields that fit their widths. The key length field is looked at separately. */
  ghost predicate FieldsFit(r: WireRecord) {
    && r.lsn < Pow256(8) && r.txn < Pow256(8) && r.page < Pow256(4) && r.prev < Pow256(8)
    && |r.value| < Pow256(4) && SizeOf(r) < Pow256(4)
  }

  /** LSN, transaction, page, operation, previous LSN and the two lengths: 35 bytes. */
  function Head(r: WireRecord): (h: Bytes)
    ensures |h| == 35
  {
    LittleEndian(r.lsn, 8) + LittleEndian(r.txn, 8) + LittleEndian(r.page, 4) + [r.op] +
    LittleEndian(r.prev, 8) + LittleEndian(|r.key|, 2) + LittleEndian(|r.value|, 4)
  }

  function Payload(r: WireRecord): Bytes {
    Head(r) + r.key + r.value
  }

  /** LogRecord.Serialize: size, payload, checksum over the payload. */
  function Serialize(r: WireRecord, crc: Crc): (b: Bytes)
    ensures |b| == SizeOf(r)
  {
    LittleEndian(SizeOf(r), 4) + Payload(r) + LittleEndian(crc(Payload(r)), 4)
  }

  function Field(data: Bytes, from: nat, to: nat): nat
    requires from <= to <= |data|
  {
    FromLittleEndian(data[from..to])
  }

  /** DeserializeLogRecord. A record whose length fields run past its end cannot come from
      Serialize; the slice expression would panic, here it is an error. */
  function Deserialize(data: Bytes, crc: Crc): Option<WireRecord> {
    if |data| < MIN_RECORD then None
    else if Field(data, 0, 4) != |data| then None
    else if Field(data, |data| - 4, |data|) != FromLittleEndian(LittleEndian(crc(data[4..|data| - 4]), 4)) then None
    else
      var keyLen, valLen := Field(data, 33, 35), Field(data, 35, 39);
      if 39 + keyLen + valLen > |data| then None
      else Some(WireRecord(Field(data, 4, 12), Field(data, 12, 20), Field(data, 20, 24), data[24],
                           Field(data, 25, 33), data[39..39 + keyLen], data[39 + keyLen..39 + keyLen + valLen]))
  }

  // ---- Round trip ----

  lemma {:induction false} HeadFields(r: WireRecord)
    ensures var h := Head(r);
      && h[0..8] == LittleEndian(r.lsn, 8) && h[8..16] == LittleEndian(r.txn, 8)
      && h[16..20] == LittleEndian(r.page, 4) && h[20] == r.op && h[21..29] == LittleEndian(r.prev, 8)
      && h[29..31] == LittleEndian(|r.key|, 2) && h[31..35] == LittleEndian(|r.value|, 4)
  {
  }

  lemma {:induction false} SerializedParts(r: WireRecord, crc: Crc)
    ensures var b := Serialize(r, crc);
      && b[0..4] == LittleEndian(SizeOf(r), 4) && b[4..39] == Head(r)
      && b[39..39 + |r.key|] == r.key && b[39 + |r.key|..|b| - 4] == r.value
      && b[4..|b| - 4] == Payload(r) && b[|b| - 4..] == LittleEndian(crc(Payload(r)), 4)
  {
    var b := Serialize(r, crc);
    assert b[4..|b| - 4] == Payload(r);
  }

  lemma {:induction false} SubSlice(b: Bytes, from: nat, to: nat, i: nat, j: nat)
    requires from <= to <= |b| && i <= j <= to - from
    ensures b[from..to][i..j] == b[from + i..from + j]
  {
    forall k | 0 <= k < j - i ensures b[from..to][i..j][k] == b[from + i..from + j][k] {
      assert b[from..to][i + k] == b[from + i + k];
    }
  }

  lemma {:induction false} SerializedFields(r: WireRecord, crc: Crc)
    ensures var b := Serialize(r, crc);
      && b[4..12] == LittleEndian(r.lsn, 8) && b[12..20] == LittleEndian(r.txn, 8)
      && b[20..24] == LittleEndian(r.page, 4) && b[24] == r.op && b[25..33] == LittleEndian(r.prev, 8)
      && b[33..35] == LittleEndian(|r.key|, 2) && b[35..39] == LittleEndian(|r.value|, 4)
  {
    var b := Serialize(r, crc);
    SerializedParts(r, crc);
    HeadFields(r);
    SubSlice(b, 4, 39, 0, 8);
    SubSlice(b, 4, 39, 8, 16);
    SubSlice(b, 4, 39, 16, 20);
    assert b[4..39][20] == b[24];
    SubSlice(b, 4, 39, 21, 29);
    SubSlice(b, 4, 39, 29, 31);
    SubSlice(b, 4, 39, 31, 35);
  }

  /** Decoding, given what the fixed fields hold. */
  lemma {:induction false} DecodesByFields(b: Bytes, r: WireRecord, crc: Crc)
    requires |b| == SizeOf(r) && Field(b, 0, 4) == |b| && Field(b, 33, 35) == |r.key| && Field(b, 35, 39) == |r.value|
    requires Field(b, |b| - 4, |b|) == FromLittleEndian(LittleEndian(crc(b[4..|b| - 4]), 4))
    requires Field(b, 4, 12) == r.lsn && Field(b, 12, 20) == r.txn && Field(b, 20, 24) == r.page
    requires b[24] == r.op && Field(b, 25, 33) == r.prev
    requires b[39..39 + |r.key|] == r.key && b[39 + |r.key|..|b| - 4] == r.value
    ensures Deserialize(b, crc) == Some(r)
  {
  }

  lemma {:induction false} NumbersRead(r: WireRecord, crc: Crc)
    requires FieldsFit(r)
    ensures var b := Serialize(r, crc);
      && Field(b, 4, 12) == r.lsn && Field(b, 12, 20) == r.txn && Field(b, 20, 24) == r.page
      && b[24] == r.op && Field(b, 25, 33) == r.prev
  {
    SerializedFields(r, crc);
    LittleEndianRoundTrip(r.lsn, 8);
    LittleEndianRoundTrip(r.txn, 8);
    LittleEndianRoundTrip(r.page, 4);
    LittleEndianRoundTrip(r.prev, 8);
  }

  lemma {:induction false} LengthsRead(r: WireRecord, crc: Crc)
    requires FieldsFit(r) && |r.key| < Pow256(2)
    ensures var b := Serialize(r, crc);
      Field(b, 0, 4) == |b| && Field(b, 33, 35) == |r.key| && Field(b, 35, 39) == |r.value|
  {
    SerializedParts(r, crc);
    SerializedFields(r, crc);
    LittleEndianRoundTrip(SizeOf(r), 4);
    LittleEndianRoundTrip(|r.key|, 2);
    LittleEndianRoundTrip(|r.value|, 4);
  }

  lemma {:induction false} ShortKeyRoundTrip(r: WireRecord, crc: Crc)
    requires FieldsFit(r) && |r.key| < Pow256(2)
    ensures Deserialize(Serialize(r, crc), crc) == Some(r)
  {
    var b := Serialize(r, crc);
    SerializedParts(r, crc);
    NumbersRead(r, crc);
    LengthsRead(r, crc);
    assert b[|b| - 4..|b|] == b[|b| - 4..];
    DecodesByFields(b, r, crc);
  }

  /** Every record that fits its fields is read back exactly when its key is shorter than 64 KiB:
      the key length is stored in two bytes. */
  lemma {:induction false} RecordRoundTripIff(r: WireRecord, crc: Crc)
    requires FieldsFit(r)
    ensures Deserialize(Serialize(r, crc), crc) == Some(r) <==> |r.key| < Pow256(2)
  {
    if |r.key| < Pow256(2) {
      ShortKeyRoundTrip(r, crc);
    } else {
      SerializedFields(r, crc);
      LittleEndianRoundTrip(|r.key|, 2);
      var b := Serialize(r, crc);
      assert Field(b, 33, 35) < |r.key|;
    }
  }

  // ---- What is refused ----

  /** The size field is the length, the last four bytes are the checksum of everything between, and the
      two lengths stay inside. */
  predicate Intact(data: Bytes, crc: Crc) {
    && |data| >= MIN_RECORD && data[0..4] == LittleEndian(|data|, 4) && |data| < Pow256(4)
    && data[|data| - 4..|data|] == LittleEndian(crc(data[4..|data| - 4]), 4)
    && 39 + Field(data, 33, 35) + Field(data, 35, 39) <= |data|
  }

  lemma {:induction false} FieldIs(data: Bytes, from: nat, to: nat, n: nat)
    requires from <= to <= |data|
    ensures Field(data, from, to) == n && n < Pow256(to - from) <==>
      data[from..to] == LittleEndian(n, to - from) && n < Pow256(to - from)
    ensures Field(data, from, to) < Pow256(to - from)
  {
    LittleEndianOnto(data[from..to]);
    LittleEndianRoundTrip(n, to - from);
  }

  lemma {:induction false} ChecksumIs(data: Bytes, sum: nat)
    requires |data| >= 4
    ensures Field(data, |data| - 4, |data|) == FromLittleEndian(LittleEndian(sum, 4)) <==>
      data[|data| - 4..|data|] == LittleEndian(sum, 4)
  {
    LittleEndianOnto(data[|data| - 4..|data|]);
    LittleEndianOnto(LittleEndian(sum, 4));
  }

  /** Torn and damaged records are refused: bytes are read as a record if and only if they are intact. */
  lemma {:induction false} ReadableExactly(data: Bytes, crc: Crc)
    ensures Deserialize(data, crc).Some? <==> Intact(data, crc)
  {
    if |data| >= MIN_RECORD {
      FieldIs(data, 0, 4, |data|);
      ChecksumIs(data, crc(data[4..|data| - 4]));
    }
  }

  /** Serialize is the only source of records whose lengths add up: reading gives `r` if and only if the
      bytes are those of `r`, which then fits its fields. */
  lemma {:induction false} ReadableIsSerialized(data: Bytes, r: WireRecord, crc: Crc)
    ensures Deserialize(data, crc) == Some(r) && SizeOf(r) == |data| <==>
      data == Serialize(r, crc) && FieldsFit(r) && |r.key| < Pow256(2)
  {
    if Deserialize(data, crc) == Some(r) && SizeOf(r) == |data| {
      ReadFits(data, r, crc);
      ReadableExactly(data, crc);
      ReadPayload(data, r, crc);
      Pieces(data);
    } else if data == Serialize(r, crc) && FieldsFit(r) && |r.key| < Pow256(2) {
      ShortKeyRoundTrip(r, crc);
    }
  }

  lemma {:induction false} ReadFits(data: Bytes, r: WireRecord, crc: Crc)
    requires Deserialize(data, crc) == Some(r) && SizeOf(r) == |data|
    ensures FieldsFit(r) && |r.key| < Pow256(2)
  {
    ReadLengthsFit(data, r, crc);
    FieldIs(data, 4, 12, r.lsn);
    FieldIs(data, 12, 20, r.txn);
    FieldIs(data, 20, 24, r.page);
    FieldIs(data, 25, 33, r.prev);
  }

  lemma {:induction false} ReadLengthsFit(data: Bytes, r: WireRecord, crc: Crc)
    requires Deserialize(data, crc) == Some(r) && SizeOf(r) == |data|
    ensures SizeOf(r) < Pow256(4) && |r.value| < Pow256(4) && |r.key| < Pow256(2)
  {
    FieldIs(data, 0, 4, |data|);
    FieldIs(data, 33, 35, |r.key|);
    FieldIs(data, 35, 39, |r.value|);
  }

  lemma {:induction false} ReadHead(data: Bytes, r: WireRecord, crc: Crc)
    requires Deserialize(data, crc) == Some(r)
    ensures data[4..39] == Head(r)
  {
    LittleEndianOnto(data[4..12]);
    LittleEndianOnto(data[12..20]);
    LittleEndianOnto(data[20..24]);
    LittleEndianOnto(data[25..33]);
    LittleEndianOnto(data[33..35]);
    LittleEndianOnto(data[35..39]);
    assert data[4..39] == data[4..12] + data[12..20] + data[20..24] + [data[24]] + data[25..33] +
                          data[33..35] + data[35..39];
  }

  lemma {:induction false} Pieces(data: Bytes)
    requires |data| >= MIN_RECORD
    ensures data == data[0..4] + data[4..|data| - 4] + data[|data| - 4..|data|]
  {
  }

  lemma {:induction false} ReadPayload(data: Bytes, r: WireRecord, crc: Crc)
    requires Deserialize(data, crc) == Some(r) && SizeOf(r) == |data|
    ensures data[4..|data| - 4] == Payload(r)
  {
    ReadHead(data, r, crc);
    assert data[4..|data| - 4] == data[4..39] + data[39..39 + |r.key|] + data[39 + |r.key|..|data| - 4];
  }

  /** The bytes are a complete record. */
  predicate Decodes(bytes: Bytes, r: WireRecord, crc: Crc) {
    |bytes| >= MIN_RECORD && Field(bytes, 0, 4) == |bytes| && Deserialize(bytes, crc) == Some(r)
  }

  lemma {:induction false} SerializeDecodes(r: WireRecord, crc: Crc)
    requires FieldsFit(r) && |r.key| < Pow256(2)
    ensures Decodes(Serialize(r, crc), r, crc)
  {
    SerializedParts(r, crc);
    LittleEndianRoundTrip(SizeOf(r), 4);
    RecordRoundTripIff(r, crc);
  }

  // ---- The file ----

  const MAGIC: Bytes := [87, 65, 76, 10]  // "WAL\n"

  /** The file after the record bytes were appended one by one. */
  function FileOf(chunks: seq<Bytes>): Bytes {
    if chunks == [] then MAGIC else FileOf(chunks[..|chunks| - 1]) + chunks[|chunks| - 1]
  }

  /** Where record number `i` starts. */
  function Offset(chunks: seq<Bytes>, i: nat): nat
    requires i <= |chunks|
  {
    if i == 0 then |MAGIC| else Offset(chunks, i - 1) + |chunks[i - 1]|
  }

  /** Record number `i` as Append writes it: complete, with its offset as its LSN. */
  ghost predicate WrittenAt(chunks: seq<Bytes>, rs: seq<WireRecord>, i: nat, crc: Crc) {
    i < |chunks| && i < |rs| && Decodes(chunks[i], rs[i], crc) && rs[i].lsn == Offset(chunks, i)
  }

  ghost predicate Written(chunks: seq<Bytes>, rs: seq<WireRecord>, crc: Crc) {
    |chunks| == |rs| && forall i :: 0 <= i < |rs| ==> WrittenAt(chunks, rs, i, crc)
  }

  /** WAL.ReadRecord: the record at an offset and its size. */
  function ReadRecord(file: Bytes, at: nat, crc: Crc): Option<(WireRecord, nat)> {
    if at + 4 > |file| then None
    else
      var size := Field(file, at, at + 4);
      if size < MIN_RECORD || at + size > |file| then None
      else match Deserialize(file[at..at + size], crc)
           case Some(r) => Some((r, size))
           case None => None
  }

  /** The scan of recovery: records from an offset by size until one cannot be read. */
  function Scan(file: Bytes, at: nat, crc: Crc): seq<WireRecord>
    decreases |file| - at
  {
    match ReadRecord(file, at, crc)
    case None => []
    case Some(pair) => if pair.1 == 0 then [] else [pair.0] + Scan(file, at + pair.1, crc)
  }

  lemma {:induction false} OffsetPrefix(chunks: seq<Bytes>, n: nat, i: nat)
    requires i <= n <= |chunks|
    ensures Offset(chunks[..n], i) == Offset(chunks, i)
  {
    if i > 0 { OffsetPrefix(chunks, n, i - 1); }
  }

  lemma {:induction false} FilePrefix(chunks: seq<Bytes>, n: nat)
    requires n <= |chunks|
    ensures FileOf(chunks[..n]) <= FileOf(chunks) && |FileOf(chunks[..n])| == Offset(chunks, n)
    decreases |chunks|, n
  {
    if n < |chunks| {
      var front := chunks[..|chunks| - 1];
      assert front[..n] == chunks[..n];
      FilePrefix(front, n);
      OffsetPrefix(chunks, |chunks| - 1, n);
    } else {
      assert chunks[..n] == chunks;
      if n > 0 { FilePrefix(chunks, n - 1); }
    }
  }

  lemma {:induction false} CutSlice(file: Bytes, cut: nat, from: nat, to: nat)
    requires from <= to <= cut <= |file|
    ensures file[..cut][from..to] == file[from..to]
  {
  }

  lemma {:induction false} TailSlice(a: Bytes, b: Bytes, whole: Bytes)
    requires a + b <= whole
    ensures |a| + |b| <= |whole| && whole[|a|..|a| + |b|] == b
  {
    assert whole[..|a + b|] == a + b;
    assert (a + b)[|a|..] == b;
    CutSlice(whole, |a + b|, |a|, |a + b|);
  }

  /** The file holds each record's bytes at its offset. */
  lemma {:induction false} RecordBytes(chunks: seq<Bytes>, i: nat)
    requires i < |chunks|
    ensures Offset(chunks, i) + |chunks[i]| <= |FileOf(chunks)|
    ensures FileOf(chunks)[Offset(chunks, i)..Offset(chunks, i) + |chunks[i]|] == chunks[i]
  {
    FilePrefix(chunks, i);
    FilePrefix(chunks, i + 1);
    assert chunks[..i + 1][..i] == chunks[..i];
    TailSlice(FileOf(chunks[..i]), chunks[i], FileOf(chunks));
  }

  /** The records from number `i` on that end at or before the cut. */
  function Whole(chunks: seq<Bytes>, rs: seq<WireRecord>, i: nat, cut: nat): seq<WireRecord>
    requires i <= |rs| == |chunks|
    decreases |rs| - i
  {
    if i == |rs| || Offset(chunks, i + 1) > cut then [] else [rs[i]] + Whole(chunks, rs, i + 1, cut)
  }

  lemma {:induction false} ReadsRecord(file: Bytes, at: nat, cut: nat, bytes: Bytes, r: WireRecord, crc: Crc)
    requires at <= cut <= |file| && at + |bytes| <= |file| && file[at..at + |bytes|] == bytes
    requires Decodes(bytes, r, crc)
    ensures ReadRecord(file[..cut], at, crc) == if at + |bytes| > cut then None else Some((r, |bytes|))
  {
    if at + 4 <= cut {
      CutSlice(file, cut, at, at + 4);
      SubSlice(file, at, at + |bytes|, 0, 4);
      if at + |bytes| <= cut { CutSlice(file, cut, at, at + |bytes|); }
    }
  }

  /** Reading at a record boundary of a cut file gives the record if it is whole, else nothing. */
  lemma {:induction false} ReadAtBoundary(chunks: seq<Bytes>, rs: seq<WireRecord>, i: nat, cut: nat, crc: Crc)
    requires Written(chunks, rs, crc) && i <= |rs|
    requires Offset(chunks, i) <= cut <= |FileOf(chunks)|
    ensures ReadRecord(FileOf(chunks)[..cut], Offset(chunks, i), crc) ==
      if i == |rs| || Offset(chunks, i + 1) > cut then None else Some((rs[i], |chunks[i]|))
  {
    FilePrefix(chunks, |chunks|);
    assert chunks[..|chunks|] == chunks;
    if i < |rs| {
      assert WrittenAt(chunks, rs, i, crc);
      RecordBytes(chunks, i);
      ReadsRecord(FileOf(chunks), Offset(chunks, i), cut, chunks[i], rs[i], crc);
    }
  }

  lemma {:induction false} ScanNext(file: Bytes, at: nat, next: nat, crc: Crc, r: WireRecord, size: nat)
    requires ReadRecord(file, at, crc) == Some((r, size)) && size > 0 && next == at + size
    ensures Scan(file, at, crc) == [r] + Scan(file, next, crc)
  {
  }

  lemma {:induction false} ScanEnd(file: Bytes, at: nat, crc: Crc)
    requires ReadRecord(file, at, crc).None?
    ensures Scan(file, at, crc) == []
  {
  }

  /** What reading gives at every record boundary of a file. */
  ghost predicate ReadsAs(file: Bytes, chunks: seq<Bytes>, rs: seq<WireRecord>, i: nat, crc: Crc) {
    && i <= |rs| == |chunks|
    && ReadRecord(file, Offset(chunks, i), crc) ==
       if i == |rs| || Offset(chunks, i + 1) > |file| then None else Some((rs[i], |chunks[i]|))
  }

  lemma {:induction false} ScanFrom(file: Bytes, chunks: seq<Bytes>, rs: seq<WireRecord>, i: nat, crc: Crc)
    requires i <= |rs| == |chunks|
    requires forall j :: i <= j <= |rs| && Offset(chunks, j) <= |file| ==> ReadsAs(file, chunks, rs, j, crc)
    requires Offset(chunks, i) <= |file| && forall j :: i <= j < |rs| ==> |chunks[j]| > 0
    ensures Scan(file, Offset(chunks, i), crc) == Whole(chunks, rs, i, |file|)
    decreases |rs| - i
  {
    assert ReadsAs(file, chunks, rs, i, crc);
    if i < |rs| && Offset(chunks, i + 1) <= |file| {
      ScanFrom(file, chunks, rs, i + 1, crc);
      ScanNext(file, Offset(chunks, i), Offset(chunks, i + 1), crc, rs[i], |chunks[i]|);
    } else {
      ScanEnd(file, Offset(chunks, i), crc);
    }
  }

  /** Truncation: however the log file is cut behind its header, scanning it from any record
      boundary yields exactly the records that are wholly before the cut, in order and with all
      fields intact. */
  lemma {:induction false} ScanAfterCut(chunks: seq<Bytes>, rs: seq<WireRecord>, i: nat, cut: nat, crc: Crc)
    requires Written(chunks, rs, crc) && i <= |rs|
    requires Offset(chunks, i) <= cut <= |FileOf(chunks)|
    ensures Scan(FileOf(chunks)[..cut], Offset(chunks, i), crc) == Whole(chunks, rs, i, cut)
  {
    var file := FileOf(chunks)[..cut];
    forall j | i <= j <= |rs| && Offset(chunks, j) <= |file| ensures ReadsAs(file, chunks, rs, j, crc) {
      ReadAtBoundary(chunks, rs, j, cut, crc);
    }
    forall j | i <= j < |rs| ensures |chunks[j]| > 0 {
      assert WrittenAt(chunks, rs, j, crc);
    }
    ScanFrom(file, chunks, rs, i, crc);
  }

  /** The whole records are a prefix, and the longest one that ends at or before the cut. */
  lemma {:induction false} WholeIsLongestPrefix(chunks: seq<Bytes>, rs: seq<WireRecord>, i: nat, cut: nat)
    requires i <= |rs| == |chunks| && Offset(chunks, i) <= cut
    ensures var k := i + |Whole(chunks, rs, i, cut)|;
      && k <= |rs| && Whole(chunks, rs, i, cut) == rs[i..k] && Offset(chunks, k) <= cut
      && (k < |rs| ==> Offset(chunks, k + 1) > cut)
    decreases |rs| - i
  {
    if i < |rs| && Offset(chunks, i + 1) <= cut { WholeIsLongestPrefix(chunks, rs, i + 1, cut); }
  }

  /** Both together: a scan from the header yields the longest prefix of whole records. */
  lemma {:induction false} ScanPrefix(chunks: seq<Bytes>, rs: seq<WireRecord>, cut: nat, crc: Crc) returns (k: nat)
    requires Written(chunks, rs, crc) && |MAGIC| <= cut <= |FileOf(chunks)|
    ensures k <= |rs| && Offset(chunks, k) <= cut && (k < |rs| ==> Offset(chunks, k + 1) > cut)
    ensures Scan(FileOf(chunks)[..cut], |MAGIC|, crc) == rs[..k]
  {
    ScanAfterCut(chunks, rs, 0, cut, crc);
    WholeIsLongestPrefix(chunks, rs, 0, cut);
    k := |Whole(chunks, rs, 0, cut)|;
  }

  // ---- Damage in the file ----

  /** A record starts at the offset: its size is in the file, and so are that many bytes, intact. */
  predicate ReadableAt(file: Bytes, at: nat, crc: Crc) {
    at + 4 <= |file| &&
    var end := at + Field(file, at, at + 4);
    end <= |file| && Intact(file[at..end], crc)
  }

  /** Whatever the file holds, a read at any offset succeeds if and only if a record starts there. */
  lemma {:induction false} ReadExactly(file: Bytes, at: nat, crc: Crc)
    ensures ReadRecord(file, at, crc).Some? <==> ReadableAt(file, at, crc)
    ensures ReadableAt(file, at, crc) ==>
      var end := at + Field(file, at, at + 4);
      ReadRecord(file, at, crc) == Some((Deserialize(file[at..end], crc).value, end - at))
  {
    if at + 4 <= |file| && at + Field(file, at, at + 4) <= |file| {
      ReadableExactly(file[at..at + Field(file, at, at + 4)], crc);
    }
  }

  lemma {:induction false} ReadsBeforeTail(chunks: seq<Bytes>, rs: seq<WireRecord>, tail: Bytes, j: nat, crc: Crc)
    requires Written(chunks, rs, crc) && j <= |rs|
    requires !ReadableAt(FileOf(chunks) + tail, |FileOf(chunks)|, crc)
    ensures ReadsAs(FileOf(chunks) + tail, chunks, rs, j, crc)
    ensures Offset(chunks, |rs|) == |FileOf(chunks)|
  {
    var file := FileOf(chunks) + tail;
    FilePrefix(chunks, |chunks|);
    assert chunks[..|chunks|] == chunks;
    if j < |rs| {
      assert WrittenAt(chunks, rs, j, crc);
      RecordBytes(chunks, j);
      var at := Offset(chunks, j);
      assert file[at..at + |chunks[j]|] == FileOf(chunks)[at..at + |chunks[j]|];
      assert file[..|file|] == file;
      ReadsRecord(file, at, |file|, chunks[j], rs[j], crc);
    } else {
      ReadExactly(file, |FileOf(chunks)|, crc);
    }
  }

  /** Recovery stops at the first record that cannot be read: if after the records of the log anything
      follows that is not an intact record, a scan yields exactly the records before it, whatever
      comes after. */
  lemma {:induction false} ScanStopsAtDamage(chunks: seq<Bytes>, rs: seq<WireRecord>, tail: Bytes, crc: Crc)
    requires Written(chunks, rs, crc) && !ReadableAt(FileOf(chunks) + tail, |FileOf(chunks)|, crc)
    ensures Scan(FileOf(chunks) + tail, |MAGIC|, crc) == rs
  {
    var file := FileOf(chunks) + tail;
    forall j | 0 <= j <= |rs| && Offset(chunks, j) <= |file| ensures ReadsAs(file, chunks, rs, j, crc) {
      ReadsBeforeTail(chunks, rs, tail, j, crc);
    }
    forall j | 0 <= j < |rs| ensures |chunks[j]| > 0 {
      assert WrittenAt(chunks, rs, j, crc);
    }
    ReadsBeforeTail(chunks, rs, tail, 0, crc);
    FilePrefix(chunks, 0);
    ScanFrom(file, chunks, rs, 0, crc);
    WholeIsLongestPrefix(chunks, rs, 0, |file|);
    var k := |Whole(chunks, rs, 0, |file|)|;
    if k < |rs| {
      FilePrefix(chunks, k + 1);
    }
    assert rs[0..|rs|] == rs;
  }

  /** In particular at a complete record whose checksum is not that of its payload. */
  lemma {:induction false} ScanStopsAtBadChecksum(chunks: seq<Bytes>, rs: seq<WireRecord>, bad: Bytes, rest: Bytes,
        crc: Crc)
    requires Written(chunks, rs, crc) && |bad| >= MIN_RECORD && Field(bad, 0, 4) == |bad|
    requires bad[|bad| - 4..|bad|] != LittleEndian(crc(bad[4..|bad| - 4]), 4)
    ensures Scan(FileOf(chunks) + (bad + rest), |MAGIC|, crc) == rs
  {
    var file, at := FileOf(chunks) + (bad + rest), |FileOf(chunks)|;
    assert file[at..at + |bad|] == bad && file[at..at + 4] == bad[0..4];
    ScanStopsAtDamage(chunks, rs, bad + rest, crc);
  }

  lemma {:induction false} WrittenPrefix(chunks: seq<Bytes>, rs: seq<WireRecord>, k: nat, crc: Crc)
    requires Written(chunks, rs, crc) && k <= |rs|
    ensures Written(chunks[..k], rs[..k], crc)
  {
    forall i | 0 <= i < k ensures WrittenAt(chunks[..k], rs[..k], i, crc) {
      assert WrittenAt(chunks, rs, i, crc);
      OffsetPrefix(chunks, k, i);
    }
  }

  lemma {:induction false} TailOfCut(file: Bytes, front: Bytes, cut: nat, later: Bytes)
    requires front <= file && |front| <= cut <= |file|
    ensures front + (file[|front|..cut] + later) == file[..cut] + later
  {
    assert front + file[|front|..cut] == file[..cut];
    assert front + (file[|front|..cut] + later) == front + file[|front|..cut] + later;
  }

  /** Nothing cuts a torn record off: after a crash the log is opened at its length and appended to. As
      long as no intact record starts where the torn one began, a scan yields what was whole at the
      crash, and never any of the records appended later. */
  lemma {:induction false} TornRecordHidesLater(chunks: seq<Bytes>, rs: seq<WireRecord>, cut: nat, later: Bytes,
        crc: Crc) returns (k: nat)
    requires Written(chunks, rs, crc) && |MAGIC| <= cut <= |FileOf(chunks)|
    ensures k <= |rs| && Offset(chunks, k) <= cut && (k < |rs| ==> Offset(chunks, k + 1) > cut)
    ensures !ReadableAt(FileOf(chunks)[..cut] + later, Offset(chunks, k), crc) ==>
      Scan(FileOf(chunks)[..cut] + later, |MAGIC|, crc) == rs[..k]
  {
    k := ScanPrefix(chunks, rs, cut, crc);
    var file, at := FileOf(chunks), Offset(chunks, k);
    FilePrefix(chunks, k);
    WrittenPrefix(chunks, rs, k, crc);
    var tail := file[at..cut] + later;
    TailOfCut(file, FileOf(chunks[..k]), cut, later);
    if !ReadableAt(file[..cut] + later, at, crc) { ScanStopsAtDamage(chunks[..k], rs[..k], tail, crc); }
  }

  lemma {:induction false} AppendKeeps(chunks: seq<Bytes>, rs: seq<WireRecord>, bytes: Bytes, r: WireRecord, crc: Crc)
    requires Written(chunks, rs, crc) && Decodes(bytes, r, crc) && r.lsn == |FileOf(chunks)|
    ensures Written(chunks + [bytes], rs + [r], crc) && FileOf(chunks + [bytes]) == FileOf(chunks) + bytes
  {
    var all := chunks + [bytes];
    assert all[..|chunks|] == chunks && chunks[..|chunks|] == chunks;
    FilePrefix(chunks, |chunks|);
    forall i | 0 <= i < |all| ensures WrittenAt(all, rs + [r], i, crc) {
      OffsetPrefix(all, |chunks|, i);
      if i < |rs| { assert WrittenAt(chunks, rs, i, crc); }
    }
  }

  // ---- The log as an object ----

  class Log {
    var file: Bytes
    var currentLsn: nat
    const crc: Crc
    ghost var records: seq<WireRecord>
    ghost var chunks: seq<Bytes>

    ghost predicate Valid()
      reads this
    {
      Written(chunks, records, crc) && file == FileOf(chunks) && currentLsn == |file|
    }

    constructor (crc: Crc)
      ensures Valid() && records == [] && this.crc == crc
    {
      this.crc := crc;
      file, currentLsn, records, chunks := MAGIC, |MAGIC|, [], [];
    }

    /** WAL.Append: the record gets the end of the file as its LSN. It can be read back exactly when
        its key is shorter than 64 KiB, and then the file stays a sequence of complete records. */
    method Append(txn: nat, page: nat, prev: nat, op: Byte, key: Bytes, value: Bytes) returns (lsn: nat)
      requires Valid() && FieldsFit(WireRecord(currentLsn, txn, page, op, prev, key, value))
      modifies this
      ensures lsn == old(currentLsn) == |old(file)| && currentLsn == |file|
      ensures file == old(file) + Serialize(WireRecord(lsn, txn, page, op, prev, key, value), crc)
      ensures Decodes(file[lsn..], WireRecord(lsn, txn, page, op, prev, key, value), crc) <==> |key| < Pow256(2)
      ensures |key| < Pow256(2) ==>
        Valid() && records == old(records) + [WireRecord(lsn, txn, page, op, prev, key, value)]
    {
      lsn := currentLsn;
      var r := WireRecord(lsn, txn, page, op, prev, key, value);
      var data := Serialize(r, crc);
      RecordRoundTripIff(r, crc);
      if |key| < Pow256(2) {
        SerializeDecodes(r, crc);
        AppendKeeps(chunks, records, data, r, crc);
        records, chunks := records + [r], chunks + [data];
      }
      file := file + data;
      currentLsn := currentLsn + |data|;
      assert file[lsn..] == data;
    }
  }

  // ---- Checkpoint payload ----

  /** The decoding loop of analysis over `n` entries of page ID and recovery LSN. */
  function DecodeTable(buf: Bytes, n: nat): map<nat, nat>
    requires 12 * n <= |buf|
  {
    if n == 0 then map[]
    else DecodeTable(buf, n - 1)[Field(buf, 12 * n - 12, 12 * n - 8) := Field(buf, 12 * n - 8, 12 * n)]
  }

  lemma {:induction false} DecodePrefix(buf: Bytes, more: Bytes, n: nat)
    requires 12 * n <= |buf|
    ensures DecodeTable(buf + more, n) == DecodeTable(buf, n)
  {
    if n > 0 {
      DecodePrefix(buf, more, n - 1);
      assert (buf + more)[12 * n - 12..12 * n - 8] == buf[12 * n - 12..12 * n - 8];
      assert (buf + more)[12 * n - 8..12 * n] == buf[12 * n - 8..12 * n];
    }
  }

  ghost predicate EntryFits(page: nat, recLsn: nat) {
    page < Pow256(4) && recLsn < Pow256(8)
  }

  predicate EntryOf(b: Bytes, page: nat, recLsn: nat) {
    |b| == 12 && Field(b, 0, 4) == page && Field(b, 4, 12) == recLsn
  }

  function EntryFor(page: nat, recLsn: nat): Bytes {
    LittleEndian(page, 4) + LittleEndian(recLsn, 8)
  }

  lemma {:induction false} EntryForDecodes(page: nat, recLsn: nat)
    requires EntryFits(page, recLsn)
    ensures EntryOf(EntryFor(page, recLsn), page, recLsn)
  {
    var b := EntryFor(page, recLsn);
    LittleEndianRoundTrip(page, 4);
    LittleEndianRoundTrip(recLsn, 8);
    assert b[0..4] == LittleEndian(page, 4) && b[4..12] == LittleEndian(recLsn, 8);
  }

  lemma {:induction false} EntryDecodes(entries: Bytes, n: nat, entry: Bytes)
    requires |entries| == 12 * n && |entry| == 12
    ensures DecodeTable(entries + entry, n + 1) == DecodeTable(entries, n)[Field(entry, 0, 4) := Field(entry, 4, 12)]
  {
    var buf := entries + entry;
    DecodePrefix(entries, entry, n);
    assert buf[12 * n..12 * n + 4] == entry[0..4];
    assert buf[12 * n + 4..12 * n + 12] == entry[4..12];
  }

  /** The entries written so far are those of the pages not in `rest`. */
  ghost predicate Encoded(dpt: map<nat, nat>, rest: set<nat>, entries: Bytes, n: nat) {
    |entries| == 12 * n && n + |rest| == |dpt| && DecodeTable(entries, n) == dpt - rest
  }

  lemma {:induction false} EncodeStep(dpt: map<nat, nat>, rest: set<nat>, entries: Bytes, n: nat, p: nat, entry: Bytes)
    requires Encoded(dpt, rest, entries, n) && p in rest && p in dpt
    requires EntryOf(entry, p, dpt[p])
    ensures Encoded(dpt, rest - {p}, entries + entry, n + 1)
  {
    EntryDecodes(entries, n, entry);
    assert (dpt - rest)[p := dpt[p]] == dpt - (rest - {p});
  }

  lemma {:induction false} EncodeEnds(dpt: map<nat, nat>)
    ensures Encoded(dpt, dpt.Keys, [], 0)
    ensures forall entries, n :: Encoded(dpt, {}, entries, n) ==> n == |dpt| && DecodeTable(entries, n) == dpt
  {
    assert dpt - dpt.Keys == map[];
    assert dpt - {} == dpt;
  }

  /** The entries, in whatever order the map is walked. */
  method EncodeEntries(dpt: map<nat, nat>) returns (entries: Bytes)
    requires forall p :: p in dpt ==> EntryFits(p, dpt[p])
    ensures |entries| == 12 * |dpt| && DecodeTable(entries, |dpt|) == dpt
  {
    entries := [];
    var rest := dpt.Keys;
    ghost var n: nat := 0;
    EncodeEnds(dpt);
    while rest != {}
      invariant rest <= dpt.Keys && Encoded(dpt, rest, entries, n)
      decreases rest
    {
      var p :| p in rest;
      var entry := EntryFor(p, dpt[p]);
      EntryForDecodes(p, dpt[p]);
      EncodeStep(dpt, rest, entries, n, p, entry);
      entries := entries + entry;
      n := n + 1;
      rest := rest - {p};
    }
  }

  /** WriteCheckpoint's payload decodes to the table it was made from. */
  method EncodeTable(dpt: map<nat, nat>) returns (buf: Bytes)
    requires |dpt| < Pow256(4)
    requires forall p :: p in dpt ==> EntryFits(p, dpt[p])
    ensures |buf| == 4 + 12 * |dpt|
    ensures Field(buf, 0, 4) == |dpt| && DecodeTable(buf[4..], |dpt|) == dpt
  {
    var entries := EncodeEntries(dpt);
    buf := LittleEndian(|dpt|, 4) + entries;
    LittleEndianRoundTrip(|dpt|, 4);
    assert buf[0..4] == LittleEndian(|dpt|, 4) && buf[4..] == entries;
  }
}
