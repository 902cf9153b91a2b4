/** The codecs behind LogFile: page images are the bytes of slotted pages, checkpoint tables the bytes
    WriteCheckpoint writes. With them the log of the machine is the log file, byte for byte. */
module PageImage {
  import opened Bytes
  import opened Cells
  import opened Log
  import opened SlottedPage
  import W = Wal
  import opened LogFile

  // ---- Checkpoint tables ----

  ghost predicate TableFits(dpt: map<PageId, Lsn>) {
    |dpt| < Pow256(4) && forall p :: p in dpt ==> W.EntryFits(p, dpt[p])
  }

  /** The payload of a checkpoint: the number of entries and the entries, in some order. */
  ghost predicate IsTable(b: Bytes, dpt: map<PageId, Lsn>) {
    |b| == 4 + 12 * |dpt| && W.Field(b, 0, 4) == |dpt| && W.DecodeTable(b[4..], |dpt|) == dpt
  }

  lemma {:induction false} EntriesExist(dpt: map<PageId, Lsn>, rest: set<nat>, entries: Bytes,
        n: nat) returns (all: Bytes)
    requires rest <= dpt.Keys && W.Encoded(dpt, rest, entries, n) && forall p :: p in dpt ==> W.EntryFits(p, dpt[p])
    ensures |all| == 12 * |dpt| && W.DecodeTable(all, |dpt|) == dpt
    decreases rest
  {
    if rest == {} {
      W.EncodeEnds(dpt);
      all := entries;
    } else {
      var p :| p in rest;
      var entry := W.EntryFor(p, dpt[p]);
      W.EntryForDecodes(p, dpt[p]);
      W.EncodeStep(dpt, rest, entries, n, p, entry);
      all := EntriesExist(dpt, rest - {p}, entries + entry, n + 1);
    }
  }

  lemma {:induction false} TableExists(dpt: map<PageId, Lsn>)
    requires TableFits(dpt)
    ensures exists b :: IsTable(b, dpt)
  {
    W.EncodeEnds(dpt);
    var entries := EntriesExist(dpt, dpt.Keys, [], 0);
    var b := LittleEndian(|dpt|, 4) + entries;
    LittleEndianRoundTrip(|dpt|, 4);
    assert b[0..4] == LittleEndian(|dpt|, 4) && b[4..] == entries;
    assert IsTable(b, dpt);
  }

  ghost function TableBytes(dpt: map<PageId, Lsn>): (b: Bytes)
    ensures TableFits(dpt) ==> IsTable(b, dpt)
  {
    if TableFits(dpt) then
      TableExists(dpt);
      var b :| IsTable(b, dpt);
      b
    else []
  }

  /** The decoding loop of analysis. */
  function TableOf(b: Bytes): map<PageId, Lsn> {
    if |b| >= 4 && 12 * W.Field(b, 0, 4) <= |b| - 4 then W.DecodeTable(b[4..], W.Field(b, 0, 4)) else map[]
  }

  // ---- Page images ----

  const LSN_OFFSET: nat := 12

  /** The bytes are the page: its LSN, and its cells if it is a leaf; of any other page everything but
      the LSN. */
  ghost predicate IsImage(b: Bytes, p: Log.Page) {
    && |b| == PAGE_SIZE && FromLittleEndian(b[LSN_OFFSET..PAGE_TYPE]) == p.lsn
    && match p.body
       case Leaf(cells) => b[PAGE_TYPE] == PAGE_TYPE_LEAF && Layout(b, Encoded(cells))
       case Other(data) => b[PAGE_TYPE] != PAGE_TYPE_LEAF && data == b[..LSN_OFFSET] + b[PAGE_TYPE..]
  }

  /** A cell list is determined by its bytes. */
  lemma {:induction false} CellsDetermined(b: Bytes, xs: seq<Cell>, ys: seq<Cell>)
    requires Layout(b, Encoded(xs)) && Layout(b, Encoded(ys))
    ensures xs == ys
  {
    LayoutUnique(b, Encoded(xs), Encoded(ys));
    assert |Encoded(xs)| == |xs| && |Encoded(ys)| == |ys|;
    forall i | 0 <= i < |xs| ensures xs[i] == ys[i] {
      SmallInPage(b, Encoded(xs), i);
      assert Encoded(xs)[i] == EncodeCell(xs[i]) && Encoded(ys)[i] == EncodeCell(ys[i]);
      CellRoundTripIff(xs[i]);
      CellRoundTripIff(ys[i]);
    }
  }

  lemma {:induction false} ImageDetermines(b: Bytes, p: Log.Page, q: Log.Page)
    requires IsImage(b, p) && IsImage(b, q)
    ensures p == q
  {
    if p.body.Leaf? { CellsDetermined(b, p.body.cells, q.body.cells); }
  }

  // ---- Images exist ----

  function PutWord(b: Bytes, at: nat, w: nat): (b': Bytes)
    requires at + 2 <= |b|
    ensures |b'| == |b| && b'[at] == w % 256 && b'[at + 1] == w / 256 % 256
    ensures forall k :: 0 <= k < |b| && k != at && k != at + 1 ==> b'[k] == b[k]
  {
    b[at := w % 256][at + 1 := w / 256 % 256]
  }

  function PutBytes(b: Bytes, at: nat, cell: Bytes): (b': Bytes)
    requires at + |cell| <= |b|
    ensures |b'| == |b|
    ensures forall k :: 0 <= k < |cell| ==> b'[at + k] == cell[k]
    ensures forall k :: 0 <= k < |b| && !(at <= k < at + |cell|) ==> b'[k] == b[k]
  {
    b[..at] + cell + b[at + |cell|..]
  }

  /** The bytes once a slot and its cell have been added, as Insert adds them. */
  function WithCell(b: Bytes, slots: nat, free: nat, cell: Bytes): (b': Bytes)
    requires |b| == PAGE_SIZE && Needed(slots, |cell|) <= free <= PAGE_SIZE
    ensures KeepsCells(b, b', slots, free)
  {
    var at, slot := free - |cell|, HEADER_SIZE + SLOT_SIZE * slots;
    PutWord(WithEntry(PutBytes(b, at, cell), slot, at, |cell|), SLOT_COUNT, slots + 1)
  }

  /** Free offset and slot entry, as Insert writes them. */
  function WithEntry(b: Bytes, slot: nat, at: nat, size: nat): (b': Bytes)
    requires |b| == PAGE_SIZE && HEADER_SIZE <= slot && slot + 4 <= PAGE_SIZE
    ensures |b'| == |b|
    ensures forall k :: 0 <= k < |b| && !(FREE_OFFSET <= k < FREE_OFFSET + 2 || slot <= k < slot + 4) ==> b'[k] == b[k]
    ensures b'[FREE_OFFSET] == at % 256 && b'[FREE_OFFSET + 1] == at / 256 % 256
    ensures b'[slot] == at % 256 && b'[slot + 1] == at / 256 % 256
    ensures b'[slot + 2] == size % 256 && b'[slot + 3] == size / 256 % 256
  {
    PutWord(PutWord(PutWord(b, FREE_OFFSET, at), slot, at), slot + 2, size)
  }

  lemma {:induction false} WithCellAdds(b: Bytes, slots: nat, free: nat, cell: Bytes)
    requires |b| == PAGE_SIZE && Needed(slots, |cell|) <= free <= PAGE_SIZE
    ensures Added(WithCell(b, slots, free, cell), slots, free, cell)
  {
    var at, slot := free - |cell|, HEADER_SIZE + SLOT_SIZE * slots;
    var b' := WithCell(b, slots, free, cell);
    WordOf(b', SLOT_COUNT, slots + 1);
    WordOf(b', FREE_OFFSET, at);
    WordOf(b', slot, at);
    WordOf(b', slot + 2, |cell|);
    assert b'[at..free] == cell;
  }

  /** An empty leaf with this LSN. */
  function EmptyLeaf(lsn: nat): (b: Bytes)
    ensures |b| == PAGE_SIZE && b[LSN_OFFSET..PAGE_TYPE] == LittleEndian(lsn, 8) && b[PAGE_TYPE] == PAGE_TYPE_LEAF
    ensures Layout(b, [])
  {
    var head := seq(LSN_OFFSET, _ => 0) + LittleEndian(lsn, 8) + [PAGE_TYPE_LEAF];
    var b := head + seq(PAGE_SIZE - |head|, _ => 0);
    var b' := PutWord(PutWord(b, FREE_OFFSET, PAGE_SIZE), SLOT_COUNT, 0);
    WordOf(b', FREE_OFFSET, PAGE_SIZE);
    WordOf(b', SLOT_COUNT, 0);
    assert b[LSN_OFFSET..PAGE_TYPE] == LittleEndian(lsn, 8);
    assert b'[LSN_OFFSET..PAGE_TYPE] == b[LSN_OFFSET..PAGE_TYPE];
    b'
  }

  lemma {:induction false} LayoutExists(lsn: nat, list: seq<Bytes>) returns (b: Bytes)
    requires HEADER_SIZE + SLOT_SIZE * |list| <= Start(list, |list|)
    ensures Layout(b, list) && b[LSN_OFFSET..PAGE_TYPE] == LittleEndian(lsn, 8) && b[PAGE_TYPE] == PAGE_TYPE_LEAF
  {
    if list == [] {
      b := EmptyLeaf(lsn);
    } else {
      var front, cell := list[..|list| - 1], list[|list| - 1];
      assert list == front + [cell];
      StartPrefix(front, [cell], |front|);
      StartFalls(front, |front|, |front|);
      var b0 := LayoutExists(lsn, front);
      b := WithCell(b0, |front|, Start(front, |front|), cell);
      WithCellAdds(b0, |front|, Start(front, |front|), cell);
      LayoutSnoc(b0, b, front, cell);
      assert b[LSN_OFFSET..PAGE_TYPE] == b0[LSN_OFFSET..PAGE_TYPE];
    }
  }

  /** Pages that have an image: leaves whose cells fit, and other pages with all their bytes. */
  ghost predicate HasImage(p: Log.Page) {
    && p.lsn < Pow256(8)
    && match p.body
       case Leaf(cells) => Fits(cells)
       case Other(data) => |data| == PAGE_SIZE - 8 && data[LSN_OFFSET] != PAGE_TYPE_LEAF
  }

  lemma {:induction false} ImageExists(p: Log.Page)
    requires HasImage(p)
    ensures exists b :: IsImage(b, p)
  {
    LittleEndianRoundTrip(p.lsn, 8);
    match p.body
    case Leaf(cells) =>
      StartIsSpace(cells);
      assert |Encoded(cells)| == |cells|;
      var b := LayoutExists(p.lsn, Encoded(cells));
      assert IsImage(b, p);
    case Other(data) =>
      var b := data[..LSN_OFFSET] + LittleEndian(p.lsn, 8) + data[LSN_OFFSET..];
      assert b[LSN_OFFSET..PAGE_TYPE] == LittleEndian(p.lsn, 8);
      assert b[..LSN_OFFSET] + b[PAGE_TYPE..] == data;
      assert IsImage(b, p);
  }

  ghost function ImageBytes(p: Log.Page): (b: Bytes)
    ensures HasImage(p) ==> IsImage(b, p)
  {
    if HasImage(p) then
      ImageExists(p);
      var b :| IsImage(b, p);
      b
    else []
  }

  ghost function PageOf(b: Bytes): (p: Log.Page)
    ensures forall q :: IsImage(b, q) ==> p == q
  {
    if exists q :: IsImage(b, q) then
      var q :| IsImage(b, q);
      OnlyPage(b, q);
      q
    else Log.Page.Page(0, Other(b))
  }

  lemma {:induction false} OnlyPage(b: Bytes, q: Log.Page)
    requires IsImage(b, q)
    ensures forall p :: IsImage(b, p) ==> p == q
  {
    forall p | IsImage(b, p) ensures p == q {
      ImageDetermines(b, p, q);
    }
  }

  // ---- The log file ----

  ghost function FileCodec(): Codec {
    Codec(p => ImageBytes(p), b => PageOf(b), dpt => TableBytes(dpt), b => TableOf(b))
  }

  /** The record has an image or table if it needs one, and its numbers and lengths fit their fields. */
  ghost predicate Writable(r: Record) {
    && (r.payload.FullPage? ==> HasImage(r.payload.image))
    && (r.payload.Checkpoint? ==> TableFits(r.payload.dirtyPages))
    && W.FieldsFit(ToWire(r, FileCodec())) && |ToWire(r, FileCodec()).key| < Pow256(2)
  }

  lemma {:induction false} WritableEncodes(r: Record)
    requires Writable(r)
    ensures Encodes(FileCodec(), r)
  {
    if r.payload.Checkpoint? {
      var dpt := r.payload.dirtyPages;
      assert IsTable(TableBytes(dpt), dpt);
    }
  }

  /** For every well-formed log of writable records, with the real page and table formats: the log file,
      cut anywhere behind its header, scans to the longest prefix of the log before the cut. */
  lemma {:induction false} FileScansToLog(log: seq<Record>, crc: W.Crc, cut: nat) returns (k: nat)
    requires WellFormed(log) && forall i :: 0 <= i < |log| ==> Writable(log[i])
    requires FIRST_LSN <= cut <= |FileOf(log, FileCodec(), crc)|
    ensures k <= |log| && End(log[..k]) <= cut && (k < |log| ==> End(log[..k + 1]) > cut)
    ensures W.Scan(FileOf(log, FileCodec(), crc)[..cut], FIRST_LSN, crc) == Wires(log[..k], FileCodec())
    ensures forall i :: 0 <= i < k ==> FromWire(Wires(log[..k], FileCodec())[i], FileCodec()) == Some(log[i])
  {
    forall i | 0 <= i < |log| ensures Encodes(FileCodec(), log[i]) {
      WritableEncodes(log[i]);
    }
    k := ScanYieldsLog(log, FileCodec(), crc, cut);
  }
}
