/** Key/value cells of a leaf and what a 4096-byte slotted page does with a list of them
    (cell.go, the rewrite loops of btree.go and recovery.go). A page is seen here as the
    list of its cells in slot order; module SlottedPage has the bytes. */
module Cells {
  import opened Bytes

  const PAGE_SIZE: nat := 4096
  const HEADER_SIZE: nat := 32
  const SLOT_SIZE: nat := 4
  const KEY_DELETED_FLAG: Byte := 2

  datatype Option<+T> = None | Some(value: T)

  datatype Cell = Cell(flag: Byte, key: Bytes, value: Bytes) {
    /** KVCell.Size */
    function Size(): nat {
      5 + |key| + |value|
    }

    /** The bit KEY_DELETED_FLAG of the flag is set. */
    predicate IsDeleted() {
      (flag / 2) % 2 == 1
    }
  }

  /** The test of cell.go, which masks the flag. */
  lemma {:induction false} DeletedBit(c: Cell)
    ensures c.IsDeleted() <==> (c.flag as bv8) & (KEY_DELETED_FLAG as bv8) != 0
  {
  }

  function CellFor(deleted: bool, key: Bytes, value: Bytes): (c: Cell)
    ensures c.IsDeleted() <==> deleted
  {
    Cell(if deleted then KEY_DELETED_FLAG else 0, key, value)
  }

  /** Space the cells take in a page, slots included. */
  function Space(cells: seq<Cell>): nat {
    if cells == [] then 0
    else Space(cells[..|cells| - 1]) + SLOT_SIZE + cells[|cells| - 1].Size()
  }

  /** The test upsertCell makes before it rewrites a page. */
  predicate Fits(cells: seq<Cell>) {
    HEADER_SIZE + Space(cells) <= PAGE_SIZE
  }

  /** Page.Insert of each cell in turn into a wiped page, errors ignored: a cell that finds
      no room is dropped. */
  function Fill(cells: seq<Cell>): (kept: seq<Cell>)
    ensures Fits(kept)
  {
    if cells == [] then []
    else
      var kept := Fill(cells[..|cells| - 1]);
      var more := kept + [cells[|cells| - 1]];
      assert more[..|more| - 1] == kept;
      if Fits(more) then more else kept
  }

  /** Nothing is dropped exactly when the space test holds. */
  lemma {:induction false} FillKeepsAllIffFits(cells: seq<Cell>)
    ensures Fits(cells) <==> Fill(cells) == cells
    ensures |Fill(cells)| <= |cells|
  {
    if cells != [] {
      var front := cells[..|cells| - 1];
      FillKeepsAllIffFits(front);
      assert cells == front + [cells[|cells| - 1]];
    }
  }

  lemma {:induction false} FillSubset(cells: seq<Cell>)
    ensures forall c :: c in Fill(cells) ==> c in cells
  {
    if cells != [] { FillSubset(cells[..|cells| - 1]); }
  }

  lemma {:induction false} SpaceConcat(a: seq<Cell>, b: seq<Cell>)
    ensures Space(a + b) == Space(a) + Space(b)
    decreases |b|
  {
    if b == [] {
      assert a + b == a;
    } else {
      assert (a + b)[..|a + b| - 1] == a + b[..|b| - 1];
      SpaceConcat(a, b[..|b| - 1]);
    }
  }

  // ---- Lists of cells as sets ----

  predicate UniqueKeys(cells: seq<Cell>) {
    forall i, j :: 0 <= i < j < |cells| ==> cells[i].key != cells[j].key
  }

  ghost predicate Sorted(cells: seq<Cell>) {
    forall i, j :: 0 <= i < j < |cells| ==> Less(cells[i].key, cells[j].key)
  }

  predicate HasKey(cells: seq<Cell>, key: Bytes) {
    exists c :: c in cells && c.key == key
  }

  ghost function CellSet(cells: seq<Cell>): set<Cell> {
    set c | c in cells
  }

  lemma {:induction false} SortedIsUnique(cells: seq<Cell>)
    requires Sorted(cells)
    ensures UniqueKeys(cells)
  {
    forall i, j | 0 <= i < j < |cells| ensures cells[i].key != cells[j].key {
      LessAsymmetric(cells[i].key, cells[j].key);
    }
  }

  function Without(cells: seq<Cell>, j: nat): seq<Cell>
    requires j < |cells|
  {
    cells[..j] + cells[j + 1..]
  }

  lemma {:induction false} SpaceAround(a: seq<Cell>, c: Cell, b: seq<Cell>)
    ensures Space(a + [c] + b) == Space(a + b) + SLOT_SIZE + c.Size()
  {
    SpaceConcat(a + [c], b);
    SpaceConcat(a, b);
    assert (a + [c])[..|a|] == a;
  }

  lemma {:induction false} WithoutSpace(cells: seq<Cell>, j: nat)
    requires j < |cells|
    ensures Space(cells) == Space(Without(cells, j)) + SLOT_SIZE + cells[j].Size()
  {
    SpaceAround(cells[..j], cells[j], cells[j + 1..]);
    assert cells == cells[..j] + [cells[j]] + cells[j + 1..];
  }

  lemma {:induction false} WithoutIndex(cells: seq<Cell>, j: nat)
    requires j < |cells|
    ensures forall i :: 0 <= i < |cells| - 1 ==> Without(cells, j)[i] == cells[if i < j then i else i + 1]
  {
  }

  lemma {:induction false} RemoveCell(cells: seq<Cell>, j: nat)
    requires UniqueKeys(cells) && j < |cells|
    ensures UniqueKeys(Without(cells, j))
    ensures forall c :: c in Without(cells, j) <==> c in cells && c.key != cells[j].key
  {
    WithoutIndex(cells, j);
    forall c | c in cells && c.key != cells[j].key ensures c in Without(cells, j) {
      var i :| 0 <= i < |cells| && cells[i] == c;
      assert Without(cells, j)[if i < j then i else i - 1] == c;
    }
  }

  /** The space of a page depends only on which cells it holds, not on their order. */
  lemma {:induction false} SpaceOfSet(a: seq<Cell>, b: seq<Cell>)
    requires UniqueKeys(a) && UniqueKeys(b) && CellSet(a) == CellSet(b)
    ensures Space(a) == Space(b)
    decreases |a|
  {
    if a == [] {
      assert forall i :: 0 <= i < |b| ==> b[i] in CellSet(a);
    } else {
      var front, x := a[..|a| - 1], a[|a| - 1];
      assert x in CellSet(b);
      var j :| 0 <= j < |b| && b[j] == x;
      RemoveCell(b, j);
      WithoutSpace(b, j);
      UniqueFront(a);
      assert CellSet(Without(b, j)) == CellSet(b) - {x};
      assert CellSet(front) == CellSet(a) - {x};
      SpaceOfSet(front, Without(b, j));
    }
  }

  /** A list that does not fit loses some cell. */
  lemma {:induction false} FillDrops(cells: seq<Cell>) returns (c: Cell)
    requires UniqueKeys(cells) && !Fits(cells)
    ensures c in cells && c !in Fill(cells)
  {
    var front, last := cells[..|cells| - 1], cells[|cells| - 1];
    assert cells == front + [last];
    UniqueFront(cells);
    FillSubset(front);
    FillKeepsAllIffFits(front);
    if Fits(front) {
      c := last;
    } else {
      c := FillDrops(front);
      assert c.key != last.key;
    }
  }

  // ---- Rewriting a list: upsert, tombstone, erase ----

  /** The extraction loop shared by upsertCell and redoUpsertOnPage: the cell with `key` is
      swapped for the new one, or left out when there is none. */
  function Swap(cells: seq<Cell>, key: Bytes, new_: Option<Cell>): seq<Cell> {
    if cells == [] then []
    else
      var front, c := Swap(cells[..|cells| - 1], key, new_), cells[|cells| - 1];
      if c.key != key then front + [c]
      else if new_.Some? then front + [new_.value]
      else front
  }

  /** Swap, and append the new cell when its key was absent. */
  function Rewrite(cells: seq<Cell>, key: Bytes, new_: Option<Cell>): seq<Cell> {
    if new_.Some? && !HasKey(cells, key) then Swap(cells, key, new_) + [new_.value]
    else Swap(cells, key, new_)
  }

  lemma {:induction false} SwapMembers(cells: seq<Cell>, key: Bytes, new_: Option<Cell>)
    ensures forall c :: c in Swap(cells, key, new_) <==>
      (c in cells && c.key != key) || (new_ == Some(c) && HasKey(cells, key))
  {
    if cells != [] {
      SwapMembers(cells[..|cells| - 1], key, new_);
      assert cells == cells[..|cells| - 1] + [cells[|cells| - 1]];
    }
  }

  /** Seen as a set, a rewrite replaces whatever the key had and touches nothing else. */
  lemma {:induction false} RewriteSet(cells: seq<Cell>, key: Bytes, new_: Option<Cell>)
    ensures CellSet(Rewrite(cells, key, new_)) ==
      (set c | c in cells && c.key != key) + (if new_.Some? then {new_.value} else {})
  {
    SwapMembers(cells, key, new_);
    if new_.Some? && HasKey(cells, key) {
      assert new_.value in Swap(cells, key, new_);
    }
  }

  lemma {:induction false} UniqueSnoc(cells: seq<Cell>, c: Cell)
    requires UniqueKeys(cells) && !HasKey(cells, c.key)
    ensures UniqueKeys(cells + [c])
  {
    forall i | 0 <= i < |cells| ensures cells[i].key != c.key {
      assert cells[i] in cells;
    }
  }

  lemma {:induction false} UniqueFront(cells: seq<Cell>)
    requires UniqueKeys(cells) && cells != []
    ensures UniqueKeys(cells[..|cells| - 1]) && !HasKey(cells[..|cells| - 1], cells[|cells| - 1].key)
  {
  }

  lemma {:induction false} SwapUnique(cells: seq<Cell>, key: Bytes, new_: Option<Cell>)
    requires UniqueKeys(cells) && (new_.Some? ==> new_.value.key == key)
    ensures UniqueKeys(Swap(cells, key, new_))
  {
    if cells != [] {
      var front, c := cells[..|cells| - 1], cells[|cells| - 1];
      UniqueFront(cells);
      SwapUnique(front, key, new_);
      SwapMembers(front, key, new_);
      if c.key != key {
        UniqueSnoc(Swap(front, key, new_), c);
      } else if new_.Some? {
        UniqueSnoc(Swap(front, key, new_), new_.value);
      }
    }
  }

  lemma {:induction false} RewriteUnique(cells: seq<Cell>, key: Bytes, new_: Option<Cell>)
    requires UniqueKeys(cells) && (new_.Some? ==> new_.value.key == key)
    ensures UniqueKeys(Rewrite(cells, key, new_))
  {
    SwapUnique(cells, key, new_);
    if new_.Some? && !HasKey(cells, key) {
      SwapMembers(cells, key, new_);
      UniqueSnoc(Swap(cells, key, new_), new_.value);
    }
  }

  lemma {:induction false} SameCellRewritten(cells: seq<Cell>, c: Cell)
    requires UniqueKeys(cells) && c in cells
    ensures Rewrite(cells, c.key, Some(c)) == cells
  {
    SwapSame(cells, c);
  }

  lemma {:induction false} SwapSame(cells: seq<Cell>, c: Cell)
    requires forall d :: d in cells && d.key == c.key ==> d == c
    ensures Swap(cells, c.key, Some(c)) == cells
  {
    if cells != [] {
      SwapSame(cells[..|cells| - 1], c);
      assert cells == cells[..|cells| - 1] + [cells[|cells| - 1]];
    }
  }

  lemma {:induction false} NewCellRewritten(cells: seq<Cell>, c: Cell)
    requires !HasKey(cells, c.key)
    ensures Rewrite(cells, c.key, Some(c)) == cells + [c]
  {
    SwapSame(cells, c);
  }

  // ---- Sorting (sort.Slice with bytes.Compare on the keys) ----

  function InsertSorted(c: Cell, cells: seq<Cell>): seq<Cell> {
    if cells == [] then [c]
    else if Less(cells[|cells| - 1].key, c.key) then cells + [c]
    else InsertSorted(c, cells[..|cells| - 1]) + [cells[|cells| - 1]]
  }

  function SortCells(cells: seq<Cell>): seq<Cell> {
    if cells == [] then [] else InsertSorted(cells[|cells| - 1], SortCells(cells[..|cells| - 1]))
  }

  lemma {:induction false} InsertSortedMembers(c: Cell, cells: seq<Cell>)
    ensures multiset(InsertSorted(c, cells)) == multiset(cells) + multiset{c}
    ensures forall x :: x in InsertSorted(c, cells) <==> x == c || x in cells
  {
    if cells != [] {
      InsertSortedMembers(c, cells[..|cells| - 1]);
      assert cells == cells[..|cells| - 1] + [cells[|cells| - 1]];
    }
  }

  lemma {:induction false} SortedSnoc(cells: seq<Cell>, c: Cell)
    requires Sorted(cells) && forall x :: x in cells ==> Less(x.key, c.key)
    ensures Sorted(cells + [c])
  {
  }

  lemma {:induction false} InsertSortedCorrect(c: Cell, cells: seq<Cell>)
    requires Sorted(cells) && !HasKey(cells, c.key)
    ensures Sorted(InsertSorted(c, cells))
  {
    if cells != [] {
      var front, last := cells[..|cells| - 1], cells[|cells| - 1];
      assert cells == front + [last];
      if Less(last.key, c.key) {
        forall x | x in cells ensures Less(x.key, c.key) {
          if x != last { LessTransitive(x.key, last.key, c.key); }
        }
        SortedSnoc(cells, c);
      } else {
        LessTotal(last.key, c.key);
        assert !HasKey(front, c.key);
        InsertSortedCorrect(c, front);
        InsertSortedMembers(c, front);
        SortedSnoc(InsertSorted(c, front), last);
      }
    }
  }

  /** The result is sorted and a permutation of the input. */
  lemma {:induction false} SortCorrect(cells: seq<Cell>)
    requires UniqueKeys(cells)
    ensures Sorted(SortCells(cells))
    ensures multiset(SortCells(cells)) == multiset(cells)
    ensures CellSet(SortCells(cells)) == CellSet(cells)
    ensures |SortCells(cells)| == |cells|
  {
    if cells != [] {
      var front, last := cells[..|cells| - 1], cells[|cells| - 1];
      assert cells == front + [last];
      UniqueFront(cells);
      SortCorrect(front);
      forall x | x in SortCells(front) ensures x.key != last.key {
        assert x in CellSet(front);
      }
      InsertSortedMembers(last, SortCells(front));
      InsertSortedCorrect(last, SortCells(front));
    }
    SameMembers(SortCells(cells), cells);
  }

  /** Sorting changes nothing that is in order. */
  lemma {:induction false} SortedStays(cells: seq<Cell>)
    requires Sorted(cells)
    ensures SortCells(cells) == cells
  {
    if cells != [] {
      var front, last := cells[..|cells| - 1], cells[|cells| - 1];
      SortedStays(front);
      assert cells == front + [last];
      if front != [] { assert Less(cells[|cells| - 2].key, cells[|cells| - 1].key); }
    }
  }

  lemma {:induction false} TwoCells(c1: Cell, c2: Cell)
    requires Less(c1.key, c2.key)
    ensures Rewrite([c1], c2.key, Some(c2)) == [c1, c2] && SortCells([c1, c2]) == [c1, c2]
  {
    LessAsymmetric(c1.key, c2.key);
    NewCellRewritten([c1], c2);
    assert [c1] + [c2] == [c1, c2];
    SortedStays([c1, c2]);
  }

  lemma {:induction false} SameMembers(a: seq<Cell>, b: seq<Cell>)
    requires multiset(a) == multiset(b)
    ensures CellSet(a) == CellSet(b) && |a| == |b|
  {
    assert |a| == |multiset(a)| == |multiset(b)| == |b|;
    forall c ensures c in a <==> c in b {
      assert c in a <==> c in multiset(a);
      assert c in b <==> c in multiset(b);
    }
  }
}
