/** The bytes of a slotted page (page.go) and of its cells (cell.go), with the source's uint16
    arithmetic. The bytes carry exactly the cell lists that module Cells works on. */
module SlottedPage {
  import opened Bytes
  import opened Cells
  import Splits

  const PAGE_TYPE_LEAF: Byte := 1
  const PAGE_TYPE_INTERNAL: Byte := 2
  const PAGE_TYPE: nat := 20
  const SLOT_COUNT: nat := 21
  const FREE_OFFSET: nat := 23
  const WORD: nat := 0x1_0000

  /** binary.LittleEndian.Uint16 at an offset. */
  function Word(b: Bytes, at: nat): (w: nat)
    requires at + 2 <= |b|
    ensures w < WORD
  {
    (b[at] as int) + 256 * (b[at + 1] as int)
  }

  lemma {:induction false} WordOf(b: Bytes, at: nat, w: nat)
    requires at + 2 <= |b| && b[at] == w % 256 && b[at + 1] == w / 256 % 256 && w < WORD
    ensures Word(b, at) == w
  {
  }

  predicate HoldsCells(b: Bytes)
    requires |b| == PAGE_SIZE
  {
    b[PAGE_TYPE] == PAGE_TYPE_LEAF || b[PAGE_TYPE] == PAGE_TYPE_INTERNAL
  }

  // ---- Layout ----

  /** Where the data of the first `i` cells begins: cells are stacked downwards from the end. */
  function Start(cells: seq<Bytes>, i: nat): int
    requires i <= |cells|
  {
    if i == 0 then PAGE_SIZE else Start(cells, i - 1) - |cells[i - 1]|
  }

  /** Slot `i` names the place of cell `i`, and the cell is there. */
  ghost predicate SlotOk(b: Bytes, cells: seq<Bytes>, i: nat) {
    && |b| == PAGE_SIZE && i < |cells|
    && HEADER_SIZE + SLOT_SIZE * i + 4 <= Start(cells, i + 1) <= Start(cells, i) <= PAGE_SIZE
    && Word(b, HEADER_SIZE + SLOT_SIZE * i) == Start(cells, i + 1)
    && Word(b, HEADER_SIZE + SLOT_SIZE * i + 2) == |cells[i]|
    && b[Start(cells, i + 1)..Start(cells, i)] == cells[i]
  }

  /** The page holds exactly these cells, and the directory ends before the cell data begins. */
  ghost predicate Layout(b: Bytes, cells: seq<Bytes>) {
    && |b| == PAGE_SIZE
    && HEADER_SIZE + SLOT_SIZE * |cells| <= Start(cells, |cells|) == Word(b, FREE_OFFSET)
    && Word(b, SLOT_COUNT) == |cells|
    && forall i :: 0 <= i < |cells| ==> SlotOk(b, cells, i)
  }

  lemma {:induction false} StartPrefix(cells: seq<Bytes>, more: seq<Bytes>, i: nat)
    requires i <= |cells|
    ensures Start(cells + more, i) == Start(cells, i)
  {
    if i > 0 { StartPrefix(cells, more, i - 1); }
  }

  lemma {:induction false} StartFalls(cells: seq<Bytes>, i: nat, j: nat)
    requires i <= j <= |cells|
    ensures Start(cells, j) <= Start(cells, i) <= PAGE_SIZE
  {
    if i < j {
      StartFalls(cells, i, j - 1);
    } else if i > 0 {
      StartFalls(cells, i - 1, i - 1);
    }
  }

  /** No two cells overlap, and no cell overlaps the slot directory. */
  lemma {:induction false} CellsDisjoint(b: Bytes, cells: seq<Bytes>, i: nat, j: nat)
    requires Layout(b, cells) && i < j < |cells|
    ensures HEADER_SIZE + SLOT_SIZE * |cells| <= Start(cells, j + 1) <= Start(cells, j)
    ensures Start(cells, j) <= Start(cells, i + 1) <= Start(cells, i) <= PAGE_SIZE
  {
    StartFalls(cells, j + 1, |cells|);
    StartFalls(cells, i + 1, j);
    StartFalls(cells, i, i);
  }

  /** The bytes determine the cells: a page is read in only one way. */
  lemma {:induction false} LayoutUnique(b: Bytes, xs: seq<Bytes>, ys: seq<Bytes>)
    requires Layout(b, xs) && Layout(b, ys)
    ensures xs == ys
  {
    forall i | 0 <= i < |xs| ensures xs[i] == ys[i] {
      assert SlotOk(b, xs, i) && SlotOk(b, ys, i);
      assert |xs[i]| == |ys[i]|;
      assert Start(xs, i) == Start(xs, i + 1) + |xs[i]|;
      assert Start(ys, i) == Start(ys, i + 1) + |ys[i]|;
    }
  }

  /** Bytes outside the free space and the three changed fields stay. */
  ghost predicate KeepsCells(b: Bytes, after: Bytes, slots: nat, free: nat) {
    && |b| == |after| == PAGE_SIZE
    && (forall k :: 0 <= k < SLOT_COUNT || FREE_OFFSET + 2 <= k < HEADER_SIZE ==> after[k] == b[k])
    && (forall k :: HEADER_SIZE <= k < HEADER_SIZE + SLOT_SIZE * slots && k < PAGE_SIZE ==> after[k] == b[k])
    && (forall k :: free <= k < PAGE_SIZE ==> after[k] == b[k])
  }

  lemma {:induction false} SlotSurvives(b: Bytes, after: Bytes, cells: seq<Bytes>, cell: Bytes, i: nat)
    requires SlotOk(b, cells, i) && Start(cells, |cells|) >= 0
    requires KeepsCells(b, after, |cells|, Start(cells, |cells|))
    ensures SlotOk(after, cells + [cell], i)
  {
    StartPrefix(cells, [cell], i);
    StartPrefix(cells, [cell], i + 1);
    StartFalls(cells, i + 1, |cells|);
    var from, to := Start(cells, i + 1), Start(cells, i);
    assert after[from..to] == b[from..to];
  }

  /** The page was wiped and refilled: checksum field, page ID and reserved bytes stay, the LSN is cleared. */
  ghost predicate PutAway(b: Bytes, after: Bytes) {
    && |b| == |after| == PAGE_SIZE
    && (forall k :: 4 <= k < 12 || FREE_OFFSET + 2 <= k < HEADER_SIZE ==> after[k] == b[k])
    && forall k :: 12 <= k < 20 ==> after[k] == 0
  }

  /** Slot number `slots` has been added for a cell placed just below `free`. */
  ghost predicate Added(after: Bytes, slots: nat, free: nat, cell: Bytes) {
    && HEADER_SIZE + SLOT_SIZE * slots + SLOT_SIZE + |cell| <= free <= PAGE_SIZE == |after|
    && Word(after, SLOT_COUNT) == slots + 1 && Word(after, FREE_OFFSET) == free - |cell|
    && Word(after, HEADER_SIZE + SLOT_SIZE * slots) == free - |cell|
    && Word(after, HEADER_SIZE + SLOT_SIZE * slots + 2) == |cell|
    && after[free - |cell|..free] == cell
  }

  lemma {:induction false} NewSlotOk(after: Bytes, cells: seq<Bytes>, cell: Bytes)
    requires Start(cells, |cells|) >= 0 && Added(after, |cells|, Start(cells, |cells|), cell)
    ensures SlotOk(after, cells + [cell], |cells|)
  {
    StartPrefix(cells, [cell], |cells|);
  }

  /** Writing one more cell below the free offset extends the layout. */
  lemma {:induction false} LayoutSnoc(b: Bytes, after: Bytes, cells: seq<Bytes>, cell: Bytes)
    requires Layout(b, cells) && KeepsCells(b, after, |cells|, Start(cells, |cells|))
    requires Added(after, |cells|, Start(cells, |cells|), cell)
    ensures Layout(after, cells + [cell])
  {
    NewSlotOk(after, cells, cell);
    forall i | 0 <= i < |cells| ensures SlotOk(after, cells + [cell], i) {
      assert SlotOk(b, cells, i);
      SlotSurvives(b, after, cells, cell, i);
    }
  }

  // ---- The space test of Insert ----

  /** What the test should compare: header, directory with one more slot, and the cell. */
  function Needed(slots: nat, size: nat): nat {
    HEADER_SIZE + SLOT_SIZE * slots + SLOT_SIZE + size
  }

  /** The test in uint16: every intermediate sum is truncated. */
  predicate TestSaysFull(slots: nat, size: nat, free: nat) {
    var directoryEnd := (HEADER_SIZE + SLOT_SIZE * slots) % WORD;
    var neededSpace := (size % WORD + SLOT_SIZE) % WORD;
    (directoryEnd + neededSpace) % WORD > free
  }

  /** The truncated test gives the true answer exactly when the sum does not wrap, or wraps to
      something that still does not fit. */
  lemma {:induction false} SpaceTestExactIff(slots: nat, size: nat, free: nat)
    requires free <= PAGE_SIZE
    ensures (TestSaysFull(slots, size, free) <==> Needed(slots, size) > free) <==>
            Needed(slots, size) < WORD || Needed(slots, size) % WORD > free
  {
    TruncatedSum(HEADER_SIZE + SLOT_SIZE * slots, size);
    RemainderFits(Needed(slots, size));
  }

  lemma {:induction false} RemainderFits(n: nat)
    ensures n < WORD ==> n % WORD == n
  {
  }

  /** Truncating the intermediate sums does not change the truncated total. */
  lemma {:induction false} TruncatedSum(directory: nat, size: nat)
    ensures (directory % WORD + (size % WORD + SLOT_SIZE) % WORD) % WORD == (directory + SLOT_SIZE + size) % WORD
  {
    var d, s := directory / WORD, size / WORD;
    assert directory == WORD * d + directory % WORD && size == WORD * s + size % WORD;
    var t := (size % WORD + SLOT_SIZE) / WORD;
    assert size % WORD + SLOT_SIZE == WORD * t + (size % WORD + SLOT_SIZE) % WORD;
    var rest := directory % WORD + (size % WORD + SLOT_SIZE) % WORD;
    assert directory + SLOT_SIZE + size == WORD * (d + s + t) + rest;
  }

  /** Largest cell for which no page state lets the sum wrap. */
  const SAFE_CELL: nat := 61435

  lemma {:induction false} SafeCellNeverWraps(b: Bytes, cells: seq<Bytes>, size: nat)
    requires Layout(b, cells) && size <= SAFE_CELL
    ensures Needed(|cells|, size) < WORD
    ensures TestSaysFull(|cells|, size, Word(b, FREE_OFFSET)) <==> Needed(|cells|, size) > Word(b, FREE_OFFSET)
  {
    StartFalls(cells, |cells|, |cells|);
    SpaceTestExactIff(|cells|, size, Word(b, FREE_OFFSET));
  }

  // ---- The page object ----

  /** Panic is the slice expression with its bounds the wrong way round. */
  datatype Outcome = Stored(slot: nat) | Full | WrongType | Panic

  /** What Insert does with a cell, as a function of the page before. */
  function InsertOutcome(b: Bytes, cell: Bytes): Outcome
    requires |b| == PAGE_SIZE
  {
    if !HoldsCells(b) then WrongType
    else if TestSaysFull(Word(b, SLOT_COUNT), |cell|, Word(b, FREE_OFFSET)) then Full
    else if |cell| % WORD > Word(b, FREE_OFFSET) then Panic
    else Stored(Word(b, SLOT_COUNT))
  }

  lemma {:induction false} MagicBytes()
    ensures LittleEndian(0xDAB0_BA55, 4) == [0x55, 0xBA, 0xB0, 0xDA]
  {
    assert LittleEndian(0xDA, 1) == [0xDA] + LittleEndian(0, 0);
    assert LittleEndian(0xDAB0, 2) == [0xB0] + LittleEndian(0xDA, 1);
    assert LittleEndian(0xDAB0_BA, 3) == [0xBA] + LittleEndian(0xDAB0, 2);
  }

  class Page {
    const data: array<Byte>
    ghost var cells: seq<Bytes>

    ghost predicate Valid()
      reads this, data
    {
      data.Length == PAGE_SIZE && Layout(data[..], cells)
    }

    /** NewPage */
    constructor (mode: Byte)
      ensures Valid() && cells == [] && fresh(data) && data[PAGE_TYPE] == mode
      ensures data[..4] == LittleEndian(0xDAB0_BA55, 4)
      ensures forall k :: 4 <= k < PAGE_TYPE || FREE_OFFSET + 2 <= k < PAGE_SIZE ==> data[k] == 0
    {
      data := new Byte[PAGE_SIZE](_ => 0);
      cells := [];
      new;
      Init(mode);
    }

    method PutWord(at: nat, w: nat)
      requires at + 2 <= data.Length
      modifies data
      ensures data[at] == w % 256 && data[at + 1] == w / 256 % 256
      ensures forall k :: 0 <= k < data.Length && k != at && k != at + 1 ==> data[k] == old(data[k])
    {
      data[at] := w % 256;
      data[at + 1] := w / 256 % 256;
    }

    /** Init: magic, free offset, slot count, LSN and type. The page ID is kept. */
    method Init(mode: Byte)
      requires data.Length == PAGE_SIZE
      modifies this`cells, data
      ensures Valid() && cells == []
      ensures data[PAGE_TYPE] == mode
      ensures data[..4] == LittleEndian(0xDAB0_BA55, 4)
      ensures forall k :: 12 <= k < 20 ==> data[k] == 0
      ensures forall k :: 4 <= k < 12 || FREE_OFFSET + 2 <= k < PAGE_SIZE ==> data[k] == old(data[k])
    {
      data[0], data[1], data[2], data[3] := 0x55, 0xBA, 0xB0, 0xDA;
      PutWord(FREE_OFFSET, PAGE_SIZE);
      PutWord(SLOT_COUNT, 0);
      forall k | 12 <= k < 20 { data[k] := 0; }
      data[PAGE_TYPE] := mode;
      cells := [];
      MagicBytes();
    }

    /** The writes of Insert: cell bytes, free offset, slot entry, slot count. */
    method AddSlot(slotCount: nat, freeOffset: nat, cell: Bytes)
      requires data.Length == PAGE_SIZE && Needed(slotCount, |cell|) <= freeOffset <= PAGE_SIZE
      modifies data
      ensures KeepsCells(old(data[..]), data[..], slotCount, freeOffset)
      ensures Added(data[..], slotCount, freeOffset, cell)
    {
      var newFree := freeOffset - |cell|;
      var slot := HEADER_SIZE + slotCount * SLOT_SIZE;
      forall k | 0 <= k < |cell| { data[newFree + k] := cell[k]; }
      PutWord(FREE_OFFSET, newFree);
      PutWord(slot, newFree);
      PutWord(slot + 2, |cell|);
      PutWord(SLOT_COUNT, slotCount + 1);
      WordOf(data[..], SLOT_COUNT, slotCount + 1);
      WordOf(data[..], FREE_OFFSET, newFree);
      WordOf(data[..], slot, newFree);
      WordOf(data[..], slot + 2, |cell|);
      assert forall k :: 0 <= k < |cell| ==> data[newFree + k] == cell[k];
    }

    /** Insert: a cell that fits is appended and everything stored before survives; otherwise the
        page is unchanged. A cell of 64 KiB or more is cut to its length modulo 64 KiB. */
    method Insert(cellData: Bytes) returns (r: Outcome)
      requires Valid()
      modifies this`cells, data
      ensures Valid() && r == InsertOutcome(old(data[..]), cellData)
      ensures r.WrongType? <==> old(data[PAGE_TYPE]) !in {PAGE_TYPE_LEAF, PAGE_TYPE_INTERNAL}
      ensures forall k :: 0 <= k < SLOT_COUNT || FREE_OFFSET + 2 <= k < HEADER_SIZE ==> data[k] == old(data[k])
      ensures r.Stored? ==> r.slot == |old(cells)| && cells == old(cells) + [cellData[..|cellData| % WORD]]
      ensures !r.Stored? ==> cells == old(cells) && data[..] == old(data[..])
    {
      ghost var before := data[..];
      if !HoldsCells(data[..]) { return WrongType; }
      var slotCount, freeOffset := Word(data[..], SLOT_COUNT), Word(data[..], FREE_OFFSET);
      var cellSize := |cellData| % WORD;
      StartFalls(cells, |cells|, |cells|);
      if TestSaysFull(slotCount, |cellData|, freeOffset) { return Full; }
      if cellSize > freeOffset { return Panic; }
      RoomIfAccepted(before, cells, cellData);
      AddSlot(slotCount, freeOffset, cellData[..cellSize]);
      LayoutSnoc(before, data[..], cells, cellData[..cellSize]);
      cells := cells + [cellData[..cellSize]];
      return Stored(slotCount);
    }

    /** Get: exactly the stored slots can be read, each with the bytes that were inserted. */
    method Get(slotID: nat) returns (r: Option<Bytes>)
      requires Valid()
      ensures r == if data[PAGE_TYPE] in {PAGE_TYPE_LEAF, PAGE_TYPE_INTERNAL} && slotID < |cells|
                   then Some(cells[slotID]) else None
    {
      if !HoldsCells(data[..]) { return None; }
      if slotID >= Word(data[..], SLOT_COUNT) { return None; }
      assert SlotOk(data[..], cells, slotID);
      var entry := HEADER_SIZE + slotID * SLOT_SIZE;
      var cellOffset, cellSize := Word(data[..], entry), Word(data[..], entry + 2);
      assert Start(cells, slotID) == cellOffset + cellSize;
      return Some(data[cellOffset..cellOffset + cellSize]);
    }

    /** Wipe the page and insert the cells in turn, errors ignored. A wrapped sum can make an insert
        panic; the cells before it are then in the page. */
    method Refill(mode: Byte, list: seq<Bytes>) returns (panicked: bool)
      requires data.Length == PAGE_SIZE && (mode == PAGE_TYPE_LEAF || mode == PAGE_TYPE_INTERNAL)
      modifies this`cells, data
      ensures Valid() && panicked == Refilled(list).Panicked? && (!panicked ==> cells == Refilled(list).cells)
      ensures data[PAGE_TYPE] == mode && PutAway(old(data[..]), data[..])
    {
      Init(mode);
      for i := 0 to |list|
        invariant Valid() && Refilled(list[..i]) == Filled(cells) && data[PAGE_TYPE] == mode
        invariant PutAway(old(data[..]), data[..])
      {
        var r := InsertNext(list[i]);
        RefilledNext(list, i);
        if r.Panic? {
          RefilledPanics(list, i + 1);
          return true;
        }
      }
      assert list[..|list|] == list;
      return false;
    }

    /** Insert into a page of cells, seen from its cells. */
    method InsertNext(cell: Bytes) returns (r: Outcome)
      requires Valid() && HoldsCells(data[..])
      modifies this`cells, data
      ensures Valid()
      ensures forall k :: 0 <= k < SLOT_COUNT || FREE_OFFSET + 2 <= k < HEADER_SIZE ==> data[k] == old(data[k])
      ensures InsertInto(old(cells), cell) == if r.Panic? then Panicked else Filled(cells)
    {
      StartFalls(cells, |cells|, |cells|);
      r := Insert(cell);
    }

    /** The extraction loop: every slot read and decoded. */
    method ReadCells(ghost list: seq<Cell>) returns (r: seq<Cell>)
      requires Valid() && HoldsCells(data[..]) && cells == Encoded(list)
      ensures r == list
    {
      r := [];
      var slotCount := Word(data[..], SLOT_COUNT);
      for i := 0 to slotCount
        invariant r == list[..i]
      {
        var c := Get(i);
        SmallInPage(data[..], cells, i);
        CellRoundTripIff(list[i]);
        r := r + [DecodeCell(c.value).value];
      }
    }

    /** What upsertCell and redoUpsertOnPage do to the bytes of a leaf that needs no split. When the
        space test passes, the page afterwards holds every cell of the rewritten list. */
    method RewriteLeaf(key: Bytes, new_: Option<Cell>, ghost list: seq<Cell>) returns (fits: bool)
      requires Valid() && HoldsCells(data[..]) && cells == Encoded(list)
      modifies this`cells, data
      ensures Valid() && fits == Fits(Rewrite(list, key, new_))
      ensures fits ==> cells == Encoded(SortCells(Rewrite(list, key, new_))) && data[PAGE_TYPE] == PAGE_TYPE_LEAF
      ensures fits ==> PutAway(old(data[..]), data[..])
      ensures !fits ==> cells == old(cells) && data[..] == old(data[..])
    {
      var old_ := ReadCells(list);
      var rewritten := Rewrite(old_, key, new_);
      fits := Fits(rewritten);
      if fits {
        var sorted := SortCells(rewritten);
        SortKeepsSpace(rewritten);
        FillKeepsAllIffFits(sorted);
        FillAgrees(sorted);
        FittingCellsAreSmall(sorted);
        SafeRefill(Encoded(sorted));
        var _ := Refill(PAGE_TYPE_LEAF, Encoded(sorted));
      }
    }
  }

  /** An accepted cell really has room: after truncation it fits above the longer directory. */
  lemma {:induction false} RoomIfAccepted(b: Bytes, cells: seq<Bytes>, cell: Bytes)
    requires Layout(b, cells) && InsertOutcome(b, cell).Stored?
    ensures Needed(|cells|, |cell| % WORD) <= Word(b, FREE_OFFSET)
  {
    StartFalls(cells, |cells|, |cells|);
    AcceptedFits(|cells|, |cell| % WORD, Word(b, FREE_OFFSET));
  }

  lemma {:induction false} AcceptedFits(slots: nat, size: nat, free: nat)
    requires free <= PAGE_SIZE && HEADER_SIZE + SLOT_SIZE * slots <= free && size <= free
    requires !TestSaysFull(slots, size, free)
    ensures Needed(slots, size) <= free
  {
    SpaceTestExactIff(slots, size, free);
  }

  /** For cells of up to 61435 bytes Insert stores the cell exactly when it fits. */
  lemma {:induction false} InsertExact(b: Bytes, cells: seq<Bytes>, cell: Bytes)
    requires Layout(b, cells) && HoldsCells(b) && |cell| <= SAFE_CELL
    ensures InsertOutcome(b, cell) ==
      if Needed(|cells|, |cell|) <= Start(cells, |cells|) then Stored(|cells|) else Full
  {
    SafeCellNeverWraps(b, cells, |cell|);
  }

  /** A cell that really wraps: 65500 bytes look like none to the test of an empty page, and the copy
      panics. */
  lemma {:induction false} LargeCellPanics(b: Bytes, cell: Bytes)
    requires Layout(b, []) && HoldsCells(b) && |cell| == 65500
    ensures Needed(0, |cell|) > PAGE_SIZE && InsertOutcome(b, cell) == Panic
  {
  }

  // ---- Cells as bytes ----

  function WordBytes(n: nat): (r: Bytes) {
    [n % 256, n / 256 % 256]
  }

  /** KVCell.Serialize */
  function EncodeCell(c: Cell): (b: Bytes)
    ensures |b| == c.Size()
  {
    [c.flag] + WordBytes(|c.key|) + WordBytes(|c.value|) + c.key + c.value
  }

  /** DeserializeKVCell. Bounds are uint16; None is a slice expression that panics. */
  function DecodeCell(b: Bytes): Option<Cell> {
    if |b| < 5 then None
    else
      var keyEnd := (5 + Word(b, 1)) % WORD;
      var valueEnd := (keyEnd + Word(b, 3)) % WORD;
      if 5 <= keyEnd <= valueEnd <= |b| then Some(Cell(b[0], b[5..keyEnd], b[keyEnd..valueEnd])) else None
  }

  lemma {:induction false} EncodedParts(c: Cell)
    ensures var b := EncodeCell(c);
      && b[0] == c.flag && Word(b, 1) == |c.key| % WORD && Word(b, 3) == |c.value| % WORD
      && b[5..5 + |c.key|] == c.key && b[5 + |c.key|..] == c.value
  {
    WordOfBytes(|c.key|);
    WordOfBytes(|c.value|);
  }

  lemma {:induction false} WordOfBytes(n: nat)
    ensures n % 256 + 256 * (n / 256 % 256) == n % WORD
  {
    var q := n / 256 / 256;
    assert n == 256 * (256 * q + n / 256 % 256) + n % 256;
  }

  lemma {:induction false} DecodesByLengths(b: Bytes, k: nat, v: nat)
    requires 5 + k + v == |b| < WORD && Word(b, 1) == k && Word(b, 3) == v
    ensures DecodeCell(b) == Some(Cell(b[0], b[5..5 + k], b[5 + k..]))
  {
    assert (5 + k) % WORD == 5 + k && (5 + k + v) % WORD == |b|;
    assert b[5 + k..|b|] == b[5 + k..];
  }

  lemma {:induction false} ShortCellDecodes(c: Cell)
    requires c.Size() < WORD
    ensures DecodeCell(EncodeCell(c)) == Some(c)
  {
    EncodedParts(c);
    DecodesByLengths(EncodeCell(c), |c.key|, |c.value|);
  }

  /** A leaf cell is read back exactly when its serialised form is shorter than 64 KiB: no input
      decodes to a longer cell. */
  lemma {:induction false} CellRoundTripIff(c: Cell)
    ensures DecodeCell(EncodeCell(c)) == Some(c) <==> c.Size() < WORD
  {
    var r := DecodeCell(EncodeCell(c));
    assert r.Some? ==> r.value.Size() < WORD;
    if c.Size() < WORD { ShortCellDecodes(c); }
  }

  /** The converse: bytes that are read as a cell of their own length are the bytes of that cell. */
  lemma {:induction false} CellReadIff(b: Bytes, c: Cell)
    ensures DecodeCell(b) == Some(c) && c.Size() == |b| <==> b == EncodeCell(c) && |b| < WORD
  {
    if DecodeCell(b) == Some(c) && c.Size() == |b| {
      ReadLengths(b, c);
      WordsOf(b, 1);
      WordsOf(b, 3);
      CellPieces(b, |c.key|);
    }
    if b == EncodeCell(c) && |b| < WORD { ShortCellDecodes(c); }
  }

  lemma {:induction false} ReadLengths(b: Bytes, c: Cell)
    requires DecodeCell(b) == Some(c) && c.Size() == |b|
    ensures |b| < WORD && c.flag == b[0] && Word(b, 1) == |c.key| && Word(b, 3) == |c.value|
    ensures c.key == b[5..5 + |c.key|] && c.value == b[5 + |c.key|..|b|]
  {
  }

  lemma {:induction false} CellPieces(b: Bytes, k: nat)
    requires 5 + k <= |b|
    ensures b == [b[0]] + b[1..3] + b[3..5] + b[5..5 + k] + b[5 + k..|b|]
  {
  }

  lemma {:induction false} WordsOf(b: Bytes, at: nat)
    requires at + 2 <= |b|
    ensures b[at..at + 2] == WordBytes(Word(b, at))
  {
  }

  /** KeyCell.Serialize and DeserializeKeyCell */
  function EncodeKeyCell(c: Splits.KeyCell): (b: Bytes)
    ensures |b| == c.Size()
  {
    LittleEndian(c.child, 4) + WordBytes(|c.key|) + c.key
  }

  function DecodeKeyCell(b: Bytes): Option<Splits.KeyCell> {
    if |b| < 6 then None
    else
      var keyEnd := (6 + Word(b, 4)) % WORD;
      if 6 <= keyEnd <= |b| then Some(Splits.KeyCell(b[6..keyEnd], FromLittleEndian(b[0..4]))) else None
  }

  lemma {:induction false} EncodedKeyParts(c: Splits.KeyCell)
    ensures var b := EncodeKeyCell(c);
      b[0..4] == LittleEndian(c.child, 4) && Word(b, 4) == |c.key| % WORD && b[6..] == c.key
  {
    var b := EncodeKeyCell(c);
    WordOfBytes(|c.key|);
    assert b[4] == |c.key| % 256 && b[5] == |c.key| / 256 % 256;
  }

  lemma {:induction false} KeyDecodesByLength(b: Bytes, k: nat)
    requires 6 + k == |b| < WORD && Word(b, 4) == k
    ensures DecodeKeyCell(b) == Some(Splits.KeyCell(b[6..], FromLittleEndian(b[0..4])))
  {
    assert (6 + k) % WORD == |b| && b[6..|b|] == b[6..];
  }

  /** A routing cell is read back exactly when it is shorter than 64 KiB and its child fits 32 bits. */
  lemma {:induction false} KeyCellRoundTripIff(c: Splits.KeyCell)
    ensures DecodeKeyCell(EncodeKeyCell(c)) == Some(c) <==> c.Size() < WORD && c.child < Pow256(4)
  {
    var r := DecodeKeyCell(EncodeKeyCell(c));
    EncodedKeyParts(c);
    LittleEndianRoundTrip(c.child, 4);
    assert r.Some? ==> r.value.Size() < WORD;
    if c.Size() < WORD { KeyDecodesByLength(EncodeKeyCell(c), |c.key|); }
  }

  lemma {:induction false} KeyCellReadIff(b: Bytes, c: Splits.KeyCell)
    ensures DecodeKeyCell(b) == Some(c) && c.Size() == |b| <==>
      b == EncodeKeyCell(c) && |b| < WORD && c.child < Pow256(4)
  {
    if DecodeKeyCell(b) == Some(c) && c.Size() == |b| {
      ReadKeyLength(b, c);
      WordsOf(b, 4);
      LittleEndianOnto(b[0..4]);
      KeyCellPieces(b);
    }
    if b == EncodeKeyCell(c) && |b| < WORD && c.child < Pow256(4) { KeyCellRoundTripIff(c); }
  }

  lemma {:induction false} ReadKeyLength(b: Bytes, c: Splits.KeyCell)
    requires DecodeKeyCell(b) == Some(c) && c.Size() == |b|
    ensures |b| < WORD && Word(b, 4) == |c.key| && c.key == b[6..|b|] && c.child == FromLittleEndian(b[0..4])
  {
  }

  lemma {:induction false} KeyCellPieces(b: Bytes)
    requires 6 <= |b|
    ensures b == b[0..4] + b[4..6] + b[6..|b|]
  {
  }

  // ---- Bytes and cell lists agree ----

  /** Inserting each cell in turn, as bytes. */
  function FillBytes(list: seq<Bytes>): seq<Bytes> {
    if list == [] then []
    else AddIfRoom(FillBytes(list[..|list| - 1]), list[|list| - 1])
  }

  function AddIfRoom(kept: seq<Bytes>, cell: Bytes): seq<Bytes> {
    if Needed(|kept|, |cell|) <= Start(kept, |kept|) then kept + [cell] else kept
  }

  datatype Filling = Filled(cells: seq<Bytes>) | Panicked

  /** One insert in uint16 arithmetic: full, panic, or stored cut to its length modulo 64 KiB. */
  function InsertInto(kept: seq<Bytes>, cell: Bytes): Filling {
    var free: nat := if Start(kept, |kept|) >= 0 then Start(kept, |kept|) else 0;
    if TestSaysFull(|kept|, |cell|, free) then Filled(kept)
    else if |cell| % WORD > free then Panicked
    else Filled(kept + [cell[..|cell| % WORD]])
  }

  /** The loop over a list of cells of any size. */
  function Refilled(list: seq<Bytes>): Filling {
    if list == [] then Filled([])
    else
      match Refilled(list[..|list| - 1])
      case Panicked => Panicked
      case Filled(kept) => InsertInto(kept, list[|list| - 1])
  }

  lemma {:induction false} RefilledNext(list: seq<Bytes>, i: nat)
    requires i < |list| && Refilled(list[..i]).Filled?
    ensures Refilled(list[..i + 1]) == InsertInto(Refilled(list[..i]).cells, list[i])
  {
    assert list[..i + 1][..i] == list[..i];
  }

  lemma {:induction false} RefilledPanics(list: seq<Bytes>, i: nat)
    requires i <= |list| && Refilled(list[..i]).Panicked?
    ensures Refilled(list).Panicked?
    decreases |list|
  {
    if i < |list| {
      assert list[..|list| - 1][..i] == list[..i];
      RefilledPanics(list[..|list| - 1], i);
    } else {
      assert list[..i] == list;
    }
  }

  /** Filling never runs cells into the directory. */
  lemma {:induction false} FillBytesRoom(list: seq<Bytes>)
    ensures var kept := FillBytes(list); HEADER_SIZE + SLOT_SIZE * |kept| <= Start(kept, |kept|) <= PAGE_SIZE
  {
    if list != [] {
      var kept, cell := FillBytes(list[..|list| - 1]), list[|list| - 1];
      FillBytesRoom(list[..|list| - 1]);
      StartPrefix(kept, [cell], |kept|);
    }
  }

  lemma {:induction false} SafeInsert(kept: seq<Bytes>, cell: Bytes)
    requires HEADER_SIZE + SLOT_SIZE * |kept| <= Start(kept, |kept|) <= PAGE_SIZE && |cell| <= SAFE_CELL
    ensures InsertInto(kept, cell) == Filled(AddIfRoom(kept, cell))
  {
    SpaceTestExactIff(|kept|, |cell|, Start(kept, |kept|));
    assert |cell| % WORD == |cell| && cell[..|cell|] == cell;
  }

  /** With cells of up to 61435 bytes the loop keeps exactly the cells that find room in turn. */
  lemma {:induction false} SafeRefill(list: seq<Bytes>)
    requires forall c :: c in list ==> |c| <= SAFE_CELL
    ensures Refilled(list) == Filled(FillBytes(list))
  {
    if list != [] {
      var front := list[..|list| - 1];
      SafeRefill(front);
      FillBytesRoom(front);
      assert list[|list| - 1] in list;
      SafeInsert(FillBytes(front), list[|list| - 1]);
    }
  }

  function Encoded(list: seq<Cell>): seq<Bytes> {
    seq(|list|, i requires 0 <= i < |list| => EncodeCell(list[i]))
  }

  function EncodedKeys(list: seq<Splits.KeyCell>): seq<Bytes> {
    seq(|list|, i requires 0 <= i < |list| => EncodeKeyCell(list[i]))
  }

  lemma {:induction false} StartIsSpace(list: seq<Cell>)
    ensures Start(Encoded(list), |list|) == PAGE_SIZE - (Space(list) - SLOT_SIZE * |list|)
  {
    if list != [] {
      var front := list[..|list| - 1];
      StartIsSpace(front);
      assert Encoded(list) == Encoded(front) + [EncodeCell(list[|list| - 1])];
      StartPrefix(Encoded(front), [EncodeCell(list[|list| - 1])], |front|);
    }
  }

  /** Filling a page with serialised cells is filling it with cells. */
  lemma {:induction false} FillAgrees(list: seq<Cell>)
    ensures FillBytes(Encoded(list)) == Encoded(Fill(list))
  {
    if list != [] {
      var front, c := list[..|list| - 1], list[|list| - 1];
      FillAgrees(front);
      assert Encoded(list)[..|list| - 1] == Encoded(front);
      var kept := Fill(front);
      StartIsSpace(kept);
      SpaceConcat(kept, [c]);
      assert Space([c]) == SLOT_SIZE + c.Size();
      assert Encoded(kept + [c]) == Encoded(kept) + [EncodeCell(c)];
    }
  }

  lemma {:induction false} KeyStartIsSpace(list: seq<Splits.KeyCell>)
    ensures Start(EncodedKeys(list), |list|) == PAGE_SIZE - (Splits.KeySpace(list) - SLOT_SIZE * |list|)
  {
    if list != [] {
      var front := list[..|list| - 1];
      KeyStartIsSpace(front);
      assert EncodedKeys(list) == EncodedKeys(front) + [EncodeKeyCell(list[|list| - 1])];
      StartPrefix(EncodedKeys(front), [EncodeKeyCell(list[|list| - 1])], |front|);
    }
  }

  lemma {:induction false} KeyFillAgrees(list: seq<Splits.KeyCell>)
    ensures FillBytes(EncodedKeys(list)) == EncodedKeys(Splits.KeyFill(list))
  {
    if list != [] {
      var front, c := list[..|list| - 1], list[|list| - 1];
      KeyFillAgrees(front);
      assert EncodedKeys(list)[..|list| - 1] == EncodedKeys(front);
      var kept := Splits.KeyFill(front);
      KeyStartIsSpace(kept);
      Splits.KeySpaceConcat(kept, [c]);
      assert Splits.KeySpace([c]) == SLOT_SIZE + c.Size();
      assert EncodedKeys(kept + [c]) == EncodedKeys(kept) + [EncodeKeyCell(c)];
    }
  }

  lemma {:induction false} SmallInPage(b: Bytes, cells: seq<Bytes>, i: nat)
    requires Layout(b, cells) && i < |cells|
    ensures |cells[i]| < WORD
  {
    assert SlotOk(b, cells, i);
  }

  lemma {:induction false} InsertSortedSpace(c: Cell, cells: seq<Cell>)
    ensures Space(InsertSorted(c, cells)) == Space(cells) + SLOT_SIZE + c.Size()
  {
    if cells != [] {
      var front, last := cells[..|cells| - 1], cells[|cells| - 1];
      InsertSortedSpace(c, front);
      SpaceConcat(InsertSorted(c, front), [last]);
      SpaceConcat(cells, [c]);
      assert Space([c]) == SLOT_SIZE + c.Size() && Space([last]) == SLOT_SIZE + last.Size();
    }
  }

  lemma {:induction false} SortKeepsSpace(cells: seq<Cell>)
    ensures Space(SortCells(cells)) == Space(cells)
  {
    if cells != [] {
      SortKeepsSpace(cells[..|cells| - 1]);
      InsertSortedSpace(cells[|cells| - 1], SortCells(cells[..|cells| - 1]));
    }
  }

  lemma {:induction false} FittingCellsAreSmall(cells: seq<Cell>)
    requires Fits(cells)
    ensures forall b :: b in Encoded(cells) ==> |b| <= SAFE_CELL
  {
    if cells != [] {
      var front, last := cells[..|cells| - 1], cells[|cells| - 1];
      FittingCellsAreSmall(front);
      assert Encoded(cells) == Encoded(front) + [EncodeCell(last)];
    }
  }
}
