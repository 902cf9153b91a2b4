/** Splitting a full node by cell count and ignoring Insert errors (splitLeafCells,
    splitInternal): when nothing is lost. */
module Splits {
  import opened Bytes
  import opened Cells

  /** Routing cells: child page, then the key (KeyCell). */
  datatype KeyCell = KeyCell(key: Bytes, child: nat) {
    function Size(): nat {
      6 + |key|
    }
  }

  function KeySpace(cells: seq<KeyCell>): nat {
    if cells == [] then 0
    else KeySpace(cells[..|cells| - 1]) + SLOT_SIZE + cells[|cells| - 1].Size()
  }

  predicate KeyFits(cells: seq<KeyCell>) {
    HEADER_SIZE + KeySpace(cells) <= PAGE_SIZE
  }

  /** Page.Insert of each routing cell in turn, errors ignored. */
  function KeyFill(cells: seq<KeyCell>): (kept: seq<KeyCell>) {
    if cells == [] then []
    else
      var kept := KeyFill(cells[..|cells| - 1]);
      var more := kept + [cells[|cells| - 1]];
      if KeyFits(more) then more else kept
  }

  lemma {:induction false} KeyFillKeepsAllIfFits(cells: seq<KeyCell>)
    requires KeyFits(cells)
    ensures KeyFill(cells) == cells
  {
    if cells != [] {
      var front := cells[..|cells| - 1];
      KeyFillKeepsAllIfFits(front);
      assert cells == front + [cells[|cells| - 1]];
    }
  }

  lemma {:induction false} KeySpaceConcat(a: seq<KeyCell>, b: seq<KeyCell>)
    ensures KeySpace(a + b) == KeySpace(a) + KeySpace(b)
    decreases |b|
  {
    if b == [] {
      assert a + b == a;
    } else {
      assert (a + b)[..|a + b| - 1] == a + b[..|b| - 1];
      KeySpaceConcat(a, b[..|b| - 1]);
    }
  }

  // ---- Leaves ----

  /** A split by count keeps every cell exactly when both halves pass the space test. */
  lemma {:induction false} LeafSplitLosesNothingIff(cells: seq<Cell>)
    ensures var mid := |cells| / 2;
      Fill(cells[..mid]) + Fill(cells[mid..]) == cells <==> Fits(cells[..mid]) && Fits(cells[mid..])
  {
    var mid := |cells| / 2;
    FillKeepsAllIffFits(cells[..mid]);
    FillKeepsAllIffFits(cells[mid..]);
    assert cells == cells[..mid] + cells[mid..];
    if Fill(cells[..mid]) + Fill(cells[mid..]) == cells {
      var a, b := Fill(cells[..mid]), Fill(cells[mid..]);
      assert |a| == mid && |b| == |cells| - mid;
      assert a == cells[..mid] && b == cells[mid..] by {
        assert (a + b)[..mid] == a && (a + b)[mid..] == b;
      }
    }
  }

  /** A half fits when the other half takes at least the space of the incoming cell. */
  lemma {:induction false} HalfFitsIfOtherIsLarge(old_: seq<Cell>, incoming: Cell, cells: seq<Cell>, k: nat)
    requires Fits(old_) && Space(cells) <= Space(old_) + SLOT_SIZE + incoming.Size() && k <= |cells|
    ensures Space(cells[k..]) >= SLOT_SIZE + incoming.Size() ==> Fits(cells[..k])
    ensures Space(cells[..k]) >= SLOT_SIZE + incoming.Size() ==> Fits(cells[k..])
  {
    assert cells == cells[..k] + cells[k..];
    SpaceConcat(cells[..k], cells[k..]);
  }

  /** The cells a rewritten leaf loses: none if it fits, else those that find no room in their half. */
  function Lost(cells: seq<Cell>): set<Cell> {
    if Fits(cells) then {}
    else set c | c in cells && c !in Fill(cells[..|cells| / 2]) && c !in Fill(cells[|cells| / 2..])
  }

  lemma {:induction false} FillSorted(cells: seq<Cell>)
    requires Sorted(cells)
    ensures Sorted(Fill(cells))
  {
    if cells != [] {
      var front, last := cells[..|cells| - 1], cells[|cells| - 1];
      FillSorted(front);
      FillSubset(front);
      LastIsLargest(cells);
      SortedSnoc(Fill(front), last);
    }
  }

  lemma {:induction false} LastIsLargest(cells: seq<Cell>)
    requires Sorted(cells) && cells != []
    ensures forall x :: x in cells[..|cells| - 1] ==> Less(x.key, cells[|cells| - 1].key)
  {
  }

  /** Nothing is lost if and only if the leaf or both of its halves fit. */
  lemma {:induction false} LostNothingIff(cells: seq<Cell>)
    requires UniqueKeys(cells)
    ensures Lost(cells) == {} <==> Fits(cells) || (Fits(cells[..|cells| / 2]) && Fits(cells[|cells| / 2..]))
  {
    var left, right := cells[..|cells| / 2], cells[|cells| / 2..];
    assert cells == left + right;
    HalvesKeepIff(cells, left, right);
    if !Fits(cells) {
      assert forall c :: c in Lost(cells) <==> c in cells && c !in Fill(left) && c !in Fill(right);
      if c :| c in cells && c !in Fill(left) && c !in Fill(right) { assert c in Lost(cells); }
    }
  }

  lemma {:induction false} HalvesKeepIff(cells: seq<Cell>, left: seq<Cell>, right: seq<Cell>)
    requires UniqueKeys(cells) && cells == left + right
    ensures (forall c :: c in cells ==> c in Fill(left) || c in Fill(right)) <==> Fits(left) && Fits(right)
  {
    FillKeepsAllIffFits(left);
    FillKeepsAllIffFits(right);
    assert UniqueKeys(left) && UniqueKeys(right) && forall x, y :: x in left && y in right ==> x.key != y.key by {
      forall i, j | 0 <= i < j < |left| ensures left[i].key != left[j].key {
        assert cells[i] == left[i] && cells[j] == left[j];
      }
      forall i, j | 0 <= i < j < |right| ensures right[i].key != right[j].key {
        assert cells[|left| + i] == right[i] && cells[|left| + j] == right[j];
      }
      forall x, y | x in left && y in right ensures x.key != y.key {
        var i :| 0 <= i < |left| && left[i] == x;
        var j :| 0 <= j < |right| && right[j] == y;
        assert cells[i] == x && cells[|left| + j] == y;
      }
    }
    if !Fits(left) { var c := DroppedFrom(left, right); }
    if !Fits(right) { var c := DroppedFrom(right, left); }
  }

  lemma {:induction false} DroppedFrom(half: seq<Cell>, other: seq<Cell>) returns (c: Cell)
    requires UniqueKeys(half) && !Fits(half) && forall x, y :: x in half && y in other ==> x.key != y.key
    ensures c in half && c !in Fill(half) && c !in Fill(other)
  {
    c := FillDrops(half);
    FillSubset(other);
  }

  /** What upsertCell stores inline: keys that routing can take, values of up to 1024 bytes. */
  predicate InlineCell(c: Cell) {
    SmallKey(c.key) && |c.value| <= 1024
  }

  ghost predicate InlineCells(cells: seq<Cell>) {
    forall c :: c in cells ==> InlineCell(c)
  }

  /** An overflowing leaf has something to put into both halves. */
  lemma {:induction false} InlineCellsSplit(cells: seq<Cell>)
    requires InlineCells(cells) && !Fits(cells)
    ensures 1 <= |cells| / 2 < |cells|
  {
    SpaceAtMost(cells, 1223);
  }

  // ---- The bound under which nothing is lost ----

  /** Cells of up to 199 bytes, slot included, never get lost in a split; of 200 bytes they can. */
  const CELL_BOUND: nat := 199

  predicate SmallCell(c: Cell) {
    SLOT_SIZE + c.Size() <= CELL_BOUND
  }

  ghost predicate SmallCells(cells: seq<Cell>) {
    forall c :: c in cells ==> SmallCell(c)
  }

  lemma {:induction false} SpaceAtMost(cells: seq<Cell>, bound: nat)
    requires forall c :: c in cells ==> SLOT_SIZE + c.Size() <= bound
    ensures Space(cells) <= bound * |cells|
  {
    if cells != [] {
      SpaceAtMost(cells[..|cells| - 1], bound);
      assert cells[|cells| - 1] in cells;
    }
  }

  /** At most one key is empty, so all cells but one take at least 10 bytes. */
  lemma {:induction false} SpaceAtLeast(cells: seq<Cell>)
    requires UniqueKeys(cells)
    ensures Space(cells) >= 10 * |cells| - if HasKey(cells, []) then 1 else 0
  {
    if cells != [] {
      var front, last := cells[..|cells| - 1], cells[|cells| - 1];
      UniqueFront(cells);
      SpaceAtLeast(front);
      assert cells == front + [last];
      if HasKey(front, []) {
        var c :| c in front && c.key == [];
        assert c in cells;
      }
      if last.key == [] { assert last in cells; }
    }
  }

  /** With cells of at most 199 bytes, slot included, both halves of an overflowing leaf fit. */
  lemma {:induction false} SmallCellsSplit(old_: seq<Cell>, incoming: Cell, cells: seq<Cell>)
    requires Fits(old_) && SmallCells(cells) && SmallCell(incoming) && UniqueKeys(cells)
    requires Space(cells) <= Space(old_) + SLOT_SIZE + incoming.Size()
    requires !Fits(cells)
    ensures var mid := |cells| / 2; Fits(cells[..mid]) && Fits(cells[mid..])
  {
    var left, right := cells[..|cells| / 2], cells[|cells| / 2..];
    assert cells == left + right;
    SpaceConcat(left, right);
    assert SmallCells(left) && SmallCells(right);
    BalancedHalvesFit(left, right);
  }

  lemma {:induction false} BalancedHalvesFit(left: seq<Cell>, right: seq<Cell>)
    requires SmallCells(left) && SmallCells(right) && UniqueKeys(left) && UniqueKeys(right)
    requires |left| <= |right| <= |left| + 1
    requires HEADER_SIZE + Space(left) + Space(right) <= PAGE_SIZE + CELL_BOUND
    ensures Fits(left) && Fits(right)
  {
    SpaceAtMost(left, CELL_BOUND);
    SpaceAtMost(right, CELL_BOUND);
    SpaceAtLeast(left);
    SpaceAtLeast(right);
  }

  // ---- One byte more ----

  /** The cell of one-byte key `k` with a value of `n` bytes: it takes 10 + n bytes. */
  function KeyedCell(k: Byte, n: nat): Cell {
    Cell(0, [k], seq(n, _ => 0))
  }

  function KeyedCells(from: Byte, count: nat, n: nat): seq<Cell>
    requires from + count <= 256
  {
    if count == 0 then [] else KeyedCells(from, count - 1, n) + [KeyedCell(from + count - 1, n)]
  }

  lemma {:induction false} KeyedCellsFacts(from: Byte, count: nat, n: nat)
    requires from + count <= 256
    ensures var cells := KeyedCells(from, count, n);
      && |cells| == count && Space(cells) == (10 + n) * count
      && forall i :: 0 <= i < count ==> cells[i] == KeyedCell(from + i, n)
  {
    if count > 0 { KeyedCellsFacts(from, count - 1, n); }
  }

  function SmallPart(): seq<Cell> {
    [Cell(0, [], [])] + KeyedCells(0, 19, 0)
  }

  function LargePart(): seq<Cell> {
    [KeyedCell(19, 169)] + KeyedCells(20, 19, 184)
  }

  /** A leaf of 40 cells that fills its page: 20 of 9 or 10 bytes, 19 of 194 and one of 179. */
  function FullLeaf(): seq<Cell> {
    SmallPart() + LargePart()
  }

  lemma {:induction false} PartSpaces()
    ensures |SmallPart()| == 20 && Space(SmallPart()) == 199
    ensures |LargePart()| == 20 && Space(LargePart()) == 3865
  {
    KeyedCellsFacts(0, 19, 0);
    KeyedCellsFacts(20, 19, 184);
    SpaceConcat([Cell(0, [], [])], KeyedCells(0, 19, 0));
    SpaceConcat([KeyedCell(19, 169)], KeyedCells(20, 19, 184));
    SpaceOfOne(Cell(0, [], []));
    SpaceOfOne(KeyedCell(19, 169));
  }

  lemma {:induction false} OverfullHalf(small: seq<Cell>, large: seq<Cell>, last: Cell)
    requires |small| == |large| == 20 && Space(small) == 199 && Space(large) == 3865 && last.Size() == 196
    ensures var cells := small + large + [last];
      && Fits(small + large) && !Fits(cells) && |cells| == 41
      && Fill(cells[..|cells| / 2]) + Fill(cells[|cells| / 2..]) != cells
  {
    var cells := small + large + [last];
    OverfullSpaces(small, large, last);
    assert |cells| / 2 == 20 && cells[20..] == large + [last];
    LeafSplitLosesNothingIff(cells);
  }

  lemma {:induction false} OverfullSpaces(small: seq<Cell>, large: seq<Cell>, last: Cell)
    requires Space(small) == 199 && Space(large) == 3865 && last.Size() == 196
    ensures Fits(small + large) && !Fits(small + large + [last]) && !Fits(large + [last])
  {
    SpaceConcat(small, large);
    SpaceConcat(small + large, [last]);
    SpaceConcat(large, [last]);
    SpaceOfOne(last);
  }

  /** The bound is tight: with cells of up to 200 bytes, slot included, there is a leaf in order and
      an incoming cell on which the split by count drops a cell. */
  lemma {:induction false} BoundIsTight()
    ensures var cells := FullLeaf() + [KeyedCell(39, 190)];
      && Fits(FullLeaf()) && Sorted(cells) && !Fits(cells)
      && (forall c :: c in cells ==> SLOT_SIZE + c.Size() <= CELL_BOUND + 1)
      && Fill(cells[..|cells| / 2]) + Fill(cells[|cells| / 2..]) != cells
  {
    PartSpaces();
    OverfullHalf(SmallPart(), LargePart(), KeyedCell(39, 190));
    FullLeafSorted(FullLeaf() + [KeyedCell(39, 190)]);
  }

  lemma {:induction false} SpaceOfOne(c: Cell)
    ensures Space([c]) == SLOT_SIZE + c.Size()
  {
    assert [c][..0] == [];
  }

  lemma {:induction false} FullLeafSorted(cells: seq<Cell>)
    requires cells == FullLeaf() + [KeyedCell(39, 190)]
    ensures Sorted(cells) && |cells| == 41
    ensures forall c :: c in cells ==> SLOT_SIZE + c.Size() <= CELL_BOUND + 1
  {
    KeyedCellsFacts(0, 19, 0);
    KeyedCellsFacts(20, 19, 184);
    forall i | 0 <= i < 41
      ensures cells[i].key == (if i == 0 then [] else [i - 1]) && SLOT_SIZE + cells[i].Size() <= CELL_BOUND + 1
    {
    }
  }

  /** A rewrite adds at most the space of the new cell. */
  lemma {:induction false} SwapSpace(cells: seq<Cell>, key: Bytes, c: Cell)
    requires UniqueKeys(cells)
    ensures Space(Swap(cells, key, Some(c))) <= Space(cells) + if HasKey(cells, key) then SLOT_SIZE + c.Size() else 0
  {
    if cells != [] {
      var front, last := cells[..|cells| - 1], cells[|cells| - 1];
      UniqueFront(cells);
      SwapSpace(front, key, c);
      assert cells == front + [last];
      var x := if last.key == key then c else last;
      SpaceConcat(Swap(front, key, Some(c)), [x]);
      assert Space([x]) == SLOT_SIZE + x.Size();
    }
  }

  lemma {:induction false} RewriteSpace(cells: seq<Cell>, key: Bytes, c: Cell)
    requires UniqueKeys(cells)
    ensures Space(Rewrite(cells, key, Some(c))) <= Space(cells) + SLOT_SIZE + c.Size()
  {
    SwapSpace(cells, key, c);
    if !HasKey(cells, key) {
      SpaceConcat(Swap(cells, key, Some(c)), [c]);
      assert Space([c]) == SLOT_SIZE + c.Size();
    }
  }

  // ---- Internal nodes ----

  /** Keys that routing cells can take: both halves of a full internal node then fit. */
  predicate SmallKey(key: Bytes) {
    |key| <= 190
  }

  ghost predicate SmallKeys(cells: seq<KeyCell>) {
    forall c :: c in cells ==> SmallKey(c.key)
  }

  lemma {:induction false} KeySpaceBounds(cells: seq<KeyCell>)
    ensures 10 * |cells| <= KeySpace(cells)
    ensures SmallKeys(cells) ==> KeySpace(cells) <= 200 * |cells|
  {
    if cells != [] {
      KeySpaceBounds(cells[..|cells| - 1]);
      assert cells[|cells| - 1] in cells;
    }
  }

  /** The right half of an internal split: the middle key moves up, its child stays behind as
      the left-most pointer. */
  function RightHalf(cells: seq<KeyCell>, mid: nat): seq<KeyCell>
    requires mid < |cells|
  {
    [KeyCell([], cells[mid].child)] + cells[mid + 1..]
  }

  lemma {:induction false} KeySpaceCons(c: KeyCell, rest: seq<KeyCell>)
    ensures KeySpace([c] + rest) == SLOT_SIZE + c.Size() + KeySpace(rest)
  {
    KeySpaceConcat([c], rest);
    assert [c][..0] == [];
  }

  lemma {:induction false} RightHalfSpace(cells: seq<KeyCell>, mid: nat)
    requires mid < |cells|
    ensures KeySpace(RightHalf(cells, mid)) <= KeySpace(cells[mid..])
  {
    var first, rest := cells[mid], cells[mid + 1..];
    assert cells[mid..] == [first] + rest;
    KeySpaceCons(KeyCell([], first.child), rest);
    KeySpaceCons(first, rest);
  }

  lemma {:induction false} KeySpaceCut(cells: seq<KeyCell>, k: nat)
    requires k <= |cells|
    ensures KeySpace(cells) == KeySpace(cells[..k]) + KeySpace(cells[k..])
  {
    KeySpaceConcat(cells[..k], cells[k..]);
    assert cells == cells[..k] + cells[k..];
  }

  /** With routing keys of at most 190 bytes, both halves of an overflowing internal node fit. */
  lemma {:induction false} SmallKeysSplit(old_: seq<KeyCell>, incoming: KeyCell, cells: seq<KeyCell>)
    requires KeyFits(old_) && SmallKeys(cells) && SmallKey(incoming.key)
    requires KeySpace(cells) == KeySpace(old_) + SLOT_SIZE + incoming.Size()
    requires !KeyFits(cells)
    ensures var mid := |cells| / 2; 1 <= mid < |cells| && KeyFits(cells[..mid]) && KeyFits(RightHalf(cells, mid))
  {
    var mid := |cells| / 2;
    KeySpaceBounds(cells);
    assert |cells| >= 21;
    KeySpaceCut(cells, mid);
    RightHalfSpace(cells, mid);
    KeySpaceBounds(cells[..mid]);
    KeySpaceBounds(cells[mid..]);
  }
}
