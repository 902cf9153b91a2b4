/** The B-tree over pages (btree.go): search, upsert, leaf and internal splits, root growth.
    It refines a map: the contents are the cells of all leaves. */
module BTree {
  import opened Bytes
  import opened Cells
  import opened Folding
  import opened Splits
  import opened TreeShape

  // ---- Sorting routing cells (the empty key is the smallest) ----

  predicate KeyBefore(a: Bytes, b: Bytes) {
    a == [] || (b != [] && Less(a, b))
  }

  function InsertKey(k: KeyCell, keys: seq<KeyCell>): seq<KeyCell> {
    if keys == [] then [k]
    else if KeyBefore(keys[|keys| - 1].key, k.key) then keys + [k]
    else InsertKey(k, keys[..|keys| - 1]) + [keys[|keys| - 1]]
  }

  function SortKeys(keys: seq<KeyCell>): seq<KeyCell> {
    if keys == [] then [] else InsertKey(keys[|keys| - 1], SortKeys(keys[..|keys| - 1]))
  }

  lemma {:induction false} SortedKeysStay(keys: seq<KeyCell>)
    requires KeysAscend(keys)
    ensures SortKeys(keys) == keys
  {
    if keys != [] {
      var front := keys[..|keys| - 1];
      SortedKeysStay(front);
      assert keys == front + [keys[|keys| - 1]];
      if front != [] { assert Less(keys[|keys| - 2].key, keys[|keys| - 1].key); }
    }
  }

  lemma {:induction false} InsertKeyPlace(k: KeyCell, keys: seq<KeyCell>, i: nat)
    requires KeysAscend(keys) && i < |keys| && Less(keys[i].key, k.key)
    requires i + 1 < |keys| ==> Less(k.key, keys[i + 1].key)
    ensures InsertKey(k, keys) == WithKey(keys, i, k)
  {
    var last := keys[|keys| - 1];
    if i + 1 < |keys| {
      if i + 2 < |keys| { LessTransitive(k.key, keys[i + 1].key, last.key); }
      LessAsymmetric(k.key, last.key);
      InsertKeyPlace(k, keys[..|keys| - 1], i);
    }
  }

  /** Appending the routing cell and sorting puts it behind the slot of the left half. */
  lemma {:induction false} SortPlacesKey(k: KeyCell, keys: seq<KeyCell>, i: nat)
    requires KeysAscend(keys) && i < |keys| && Less(keys[i].key, k.key)
    requires i + 1 < |keys| ==> Less(k.key, keys[i + 1].key)
    ensures SortKeys(keys + [k]) == WithKey(keys, i, k)
  {
    assert (keys + [k])[..|keys|] == keys;
    SortedKeysStay(keys);
    InsertKeyPlace(k, keys, i);
  }

  lemma {:induction false} WithKeySpace(keys: seq<KeyCell>, i: nat, k: KeyCell)
    requires i < |keys|
    ensures KeySpace(WithKey(keys, i, k)) == KeySpace(keys) + SLOT_SIZE + k.Size()
    ensures KeySpace(keys + [k]) == KeySpace(keys) + SLOT_SIZE + k.Size()
  {
    KeySpaceCut(keys, i + 1);
    KeySpaceConcat(keys[..i + 1] + [k], keys[i + 1..]);
    KeySpaceConcat(keys[..i + 1], [k]);
    KeySpaceConcat(keys, [k]);
    KeySpaceCons(k, []);
    assert [k] + [] == [k];
  }

  // ---- The tree invariant, kept folded ----

  /** TreeOk, folded: the methods below pass it around without looking inside. */
  ghost predicate Ordered(t: Tree, pend: Option<Pending>) {
    forall n: nat :: Unfold(n) ==> TreeOk(t, pend)
  }

  /** Page `p` covers the key. */
  ghost predicate Reaches(t: Tree, p: PageId, key: Bytes) {
    p in t.pages && p in t.lo && p in t.hi && p in t.level && TreeShape.Covers(t, p, key)
  }

  // ---- Paths ----

  ghost predicate IsChild(t: Tree, par: PageId, p: PageId) {
    par in t.pages && t.pages[par].Internal? &&
    exists i :: 0 <= i < |t.pages[par].keys| && t.pages[par].keys[i].child == p
  }

  /** The breadcrumbs: each page of the path is the parent of the next, from the root down. */
  ghost predicate PathTo(t: Tree, path: seq<PageId>, p: PageId)
    decreases |path|
  {
    if path == [] then p == t.root
    else IsChild(t, path[|path| - 1], p) && PathTo(t, path[..|path| - 1], path[|path| - 1])
  }

  lemma {:induction false} PathLevels(t: Tree, pend: Option<Pending>, path: seq<PageId>, p: PageId)
    requires TreeOk(t, pend) && p in t.pages && PathTo(t, path, p)
    ensures forall x :: x in path ==> x in t.pages && t.level[x] > t.level[p]
    decreases |path|
  {
    if path != [] {
      var par := path[|path| - 1];
      var i :| 0 <= i < |t.pages[par].keys| && t.pages[par].keys[i].child == p;
      assert NodeOk(t, par, pend);
      assert SlotOk(t, par, t.pages[par].keys, i, pend);
      PathLevels(t, pend, path[..|path| - 1], par);
      assert path == path[..|path| - 1] + [par];
    }
  }

  lemma {:induction false} PathSame(t: Tree, t': Tree, path: seq<PageId>, p: PageId)
    requires PathTo(t, path, p) && t'.root == t.root
    requires forall x :: x in path && x in t.pages ==> x in t'.pages && t'.pages[x] == t.pages[x]
    ensures PathTo(t', path, p)
    decreases |path|
  {
    if path != [] {
      assert path == path[..|path| - 1] + [path[|path| - 1]];
      PathSame(t, t', path[..|path| - 1], path[|path| - 1]);
    }
  }

  // ---- Sizes ----

  ghost predicate NodeSmall(n: Node) {
    match n
    case LeafNode(cells) => Fits(cells) && InlineCells(cells)
    case Internal(keys) => KeyFits(keys) && SmallKeys(keys)
  }

  ghost predicate AllSmall(pages: map<PageId, Node>) {
    forall p :: p in pages ==> NodeSmall(pages[p])
  }

  ghost predicate Below(pages: map<PageId, Node>, n: nat) {
    forall p :: p in pages ==> 0 < p < n
  }

  /** The scan of an internal node: the child of the largest key that is at most `key`. */
  method ScanSlots(keys: seq<KeyCell>, key: Bytes) returns (child: PageId, ghost slot: nat)
    requires keys != [] && keys[0].key == [] && KeysAscend(keys)
    ensures IsSlot(keys, key, slot) && child == keys[slot].child
    ensures exists i :: 0 <= i < |keys| && IsSlot(keys, key, i) && child == keys[i].child
  {
    var maxMatched: Option<Bytes> := None;
    child, slot := 0, 0;
    for i := 0 to |keys|
      invariant i == 0 ==> maxMatched.None?
      invariant i > 0 ==> slot < i && maxMatched == Some(keys[slot].key) && child == keys[slot].child
      invariant i > 0 ==> AtMost(keys[slot].key, key)
      invariant forall j :: slot < j < i ==> !AtMost(keys[j].key, key)
    {
      var k := keys[i];
      if AtMost(k.key, key) && (maxMatched.None? || Less(maxMatched.value, k.key)) {
        maxMatched, child, slot := Some(k.key), k.child, i;
      }
    }
    if slot + 1 < |keys| { Comparable(keys[slot + 1].key, key); }
  }

  class BTree {
    var pages: map<PageId, Node>
    var root: PageId
    var next: PageId  // pages in the file
    ghost var level: map<PageId, nat>
    ghost var lo: map<PageId, Bytes>
    ghost var hi: map<PageId, Option<Bytes>>

    ghost function Abs(): Tree
      reads this
    {
      Tree(pages, root, level, lo, hi)
    }

    ghost predicate InFile()
      reads this
    {
      0 < next && Below(pages, next)
    }

    ghost predicate Valid()
      reads this
    {
      Ordered(Abs(), None) && AllSmall(pages) && InFile()
    }

    /** Page 0 is the meta page, page 1 the empty root leaf. */
    constructor ()
      ensures Valid() && pages == map[1 := LeafNode([])] && forall c :: !Stores(Abs(), c)
    {
      pages, root, next := map[1 := LeafNode([])], 1, 2;
      level, lo, hi := map[1 := 0], map[1 := []], map[1 := None];
      new;
      assert TreeOk(Abs(), None) by { assert NodeOk(Abs(), 1, None); }
    }

    /** pager.AllocatePage: the next page of the file. */
    method AllocatePage() returns (p: PageId)
      requires InFile()
      modifies this`next
      ensures InFile() && p == old(next) && next == p + 1 && p !in pages
    {
      p := next;
      next := next + 1;
    }

    /** findLeafPage: the leaf that covers the key, with the path to it. */
    method FindLeaf(key: Bytes) returns (p: PageId, path: seq<PageId>)
      requires Valid()
      ensures Reaches(Abs(), p, key) && pages[p].LeafNode? && PathTo(Abs(), path, p)
    {
      p, path := root, [];
      RootCovers(Abs(), key);
      while pages[p].Internal?
        invariant Reaches(Abs(), p, key) && PathTo(Abs(), path, p)
        decreases level[p]
      {
        InternalKeys(Abs(), p);
        var child, slot := ScanSlots(pages[p].keys, key);
        Descend(Abs(), p, key, slot);
        assert IsChild(Abs(), p, child);
        assert (path + [p])[..|path|] == path;
        p, path := child, path + [p];
      }
    }

    /** Find: the value stored for the key, unless absent or tombstoned. */
    method Find(key: Bytes) returns (r: Option<Bytes>)
      requires Valid()
      ensures r.Some? ==> exists c :: Stores(Abs(), c) && c.key == key && !c.IsDeleted() && c.value == r.value
      ensures r.None? ==> forall c :: Stores(Abs(), c) && c.key == key ==> c.IsDeleted()
    {
      var p, _ := FindLeaf(key);
      var cells := pages[p].cells;
      for i := 0 to |cells|
        invariant forall j :: 0 <= j < i ==> cells[j].key != key
      {
        if cells[i].key == key {
          FoundInLeaf(Abs(), p, cells[i]);
          if cells[i].IsDeleted() { return None; }
          return Some(cells[i].value);
        }
      }
      forall c: Cell | c.key == key ensures !Stores(Abs(), c) {
        assert Unfold(0);
        LeafDecides(Abs(), p, c);
      }
      return None;
    }

    /** upsertCell without conflicts: insert, update or tombstone one key. Splitting by count ignores
        cells that find no room in their half: `lost` is exactly what a reader misses afterwards. */
    method Upsert(key: Bytes, value: Bytes, deleted: bool) returns (ghost lost: set<Cell>)
      requires Valid() && InlineCell(CellFor(deleted, key, value))
      modifies this
      ensures Valid()
      ensures forall c :: Stores(Abs(), c) <==>
        (c == CellFor(deleted, key, value) || (Stores(old(Abs()), c) && c.key != key)) && c !in lost
      ensures Loses(old(Abs()), CellFor(deleted, key, value), lost)
    {
      var p, path := FindLeaf(key);
      var c := CellFor(deleted, key, value);
      var cells := SortCells(Rewrite(pages[p].cells, key, Some(c)));
      ghost var t0, t1 := Abs(), WithLeaf(Abs(), p, cells);
      assert NodeSmall(pages[p]);
      LeafUpsert(t0, p, path, c);
      lost := Lost(cells);
      assert UpsertedAt(t0, p, c, lost);
      if Fits(cells) {
        StoreNode(p, LeafNode(cells), t1);
      } else {
        SplitLeaf(p, path, cells, t1);
      }
    }

    /** The rewritten node fits its page. */
    method StoreNode(p: PageId, node: Node, ghost t1: Tree)
      requires AllSmall(pages) && InFile() && p in pages && NodeSmall(node)
      requires t1 == Abs().(pages := pages[p := node]) && Ordered(t1, None)
      modifies this
      ensures Valid() && Abs() == t1
    {
      OnePageWritten(pages, p, node, next);
      pages := pages[p := node];
    }

    /** Both halves of a split are written. */
    method StoreHalves(p: PageId, ghost whole: Node, left: Node, q: PageId, right: Node, ghost t2: Tree)
      requires AllSmall(pages) && InFile() && p in pages && 0 < q < next && NodeSmall(left) && NodeSmall(right)
      requires t2.pages == pages[p := whole][p := left][q := right] && t2.root == root
      modifies this
      ensures AllSmall(pages) && InFile() && Abs() == t2 && next == old(next)
    {
      TwoPagesWritten(pages, p, whole, left, q, right, next);
      pages := pages[p := left][q := right];
      level, lo, hi := t2.level, t2.lo, t2.hi;
    }

    /** splitLeafCells: the sorted cells are divided by count between the leaf and a new page. */
    method SplitLeaf(p: PageId, path: seq<PageId>, cells: seq<Cell>, ghost t1: Tree)
      requires AllSmall(pages) && InFile() && p in pages
      requires t1 == WithLeaf(Abs(), p, cells) && Ordered(t1, None) && PathTo(t1, path, p)
      requires InlineCells(cells) && !Fits(cells)
      modifies this
      ensures Valid() && forall c :: Stores(Abs(), c) <==> Stores(t1, c) && c !in Lost(cells)
    {
      var q := AllocatePage();
      var mid := |cells| / 2;
      InlineCellsSplit(cells);
      LeafSplit(t1, p, q, path, mid);
      ghost var t2 := SplitLeafTree(t1, p, q, mid);
      var left, right := Fill(cells[..mid]), Fill(cells[mid..]);
      var sep := cells[mid].key;
      assert cells[mid] in cells;
      StoreHalves(p, LeafNode(cells), LeafNode(left), q, LeafNode(right), t2);
      InsertIntoParent(p, sep, q, path);
    }

    /** insertIntoParent: route the new right page, splitting upwards as needed. */
    method InsertIntoParent(left: PageId, sep: Bytes, right: PageId, path: seq<PageId>)
      requires Ordered(Abs(), Some(Pending(left, sep, right))) && AllSmall(pages) && InFile()
      requires PathTo(Abs(), path, left) && SmallKey(sep)
      modifies this
      ensures Valid() && forall c :: Stores(Abs(), c) <==> Stores(old(Abs()), c)
      decreases |path|, 1
    {
      if path == [] {
        NewRoot(left, KeyCell(sep, right));
      } else {
        RouteInParent(path[|path| - 1], path[..|path| - 1], left, KeyCell(sep, right));
      }
    }

    /** The parent takes the routing cell; it is split when it overflows. */
    method RouteInParent(par: PageId, rest: seq<PageId>, left: PageId, routing: KeyCell)
      requires Ordered(Abs(), Some(Pending(left, routing.key, routing.child))) && AllSmall(pages) && InFile()
      requires IsChild(Abs(), par, left) && PathTo(Abs(), rest, par) && SmallKey(routing.key)
      modifies this
      ensures Valid() && forall c :: Stores(Abs(), c) <==> Stores(old(Abs()), c)
      decreases |rest|, 3
    {
      ghost var t0, pend := Abs(), Pending(left, routing.key, routing.child);
      var keys := pages[par].keys;
      ghost var i :| 0 <= i < |keys| && keys[i].child == left;
      assert NodeSmall(pages[par]);
      Routing(t0, par, i, pend, rest);
      RoutingKeys(t0, par, i, pend);
      ghost var t1 := RouteTree(t0, par, i, pend);
      var sorted := SortKeys(keys + [routing]);
      if KeyFits(keys + [routing]) {
        StoreNode(par, Internal(KeyFill(sorted)), t1);
      } else {
        SmallKeysSplit(keys, routing, sorted);
        SplitInternal(par, rest, sorted, t1);
      }
    }

    /** The root was split: a new root takes both halves. */
    method NewRoot(left: PageId, routing: KeyCell)
      requires Ordered(Abs(), Some(Pending(left, routing.key, routing.child))) && AllSmall(pages) && InFile()
      requires left == root && SmallKey(routing.key)
      modifies this
      ensures Valid() && forall c :: Stores(Abs(), c) <==> Stores(old(Abs()), c)
    {
      ghost var t0, pend := Abs(), Pending(left, routing.key, routing.child);
      var r := AllocatePage();
      Growing(t0, r, pend);
      ghost var t1 := GrowTree(t0, r, pend);
      TwoKeysFit(left, routing);
      OnePageWritten(pages, r, Internal(KeyFill([KeyCell([], left), routing])), next);
      pages, root := pages[r := Internal(KeyFill([KeyCell([], left), routing]))], r;
      level, lo, hi := t1.level, t1.lo, t1.hi;
      assert Abs() == t1;
    }

    /** splitInternal: the middle key moves up, its child becomes the left-most one of the new page. */
    method SplitInternal(p: PageId, path: seq<PageId>, keys: seq<KeyCell>, ghost t1: Tree)
      requires AllSmall(pages) && InFile() && p in pages
      requires t1 == Abs().(pages := pages[p := Internal(keys)]) && Ordered(t1, None) && PathTo(t1, path, p)
      requires SmallKeys(keys) && 1 <= |keys| / 2 < |keys|
      requires KeyFits(keys[..|keys| / 2]) && KeyFits(RightHalf(keys, |keys| / 2))
      modifies this
      ensures Valid() && forall c :: Stores(Abs(), c) <==> Stores(t1, c)
      decreases |path|, 2
    {
      var q := AllocatePage();
      var mid := |keys| / 2;
      InternalSplit(t1, p, q, path, mid);
      ghost var t2 := SplitInternalTree(t1, p, q, mid);
      var left, right := KeyFill(keys[..mid]), KeyFill(RightHalf(keys, mid));
      var sep := keys[mid].key;
      assert keys[mid] in keys;
      StoreHalves(p, Internal(keys), Internal(left), q, Internal(right), t2);
      InsertIntoParent(p, sep, q, path);
    }
  }

  /** Page `p` is rewritten and page `q` added. */
  lemma {:induction false} TwoPagesWritten(pages: map<PageId, Node>, p: PageId, a: Node, l: Node, q: PageId, r: Node,
        n: nat)
    requires AllSmall(pages) && Below(pages, n) && p in pages && NodeSmall(l) && NodeSmall(r) && 0 < q < n
    ensures pages[p := a][p := l][q := r] == pages[p := l][q := r]
    ensures AllSmall(pages[p := l][q := r]) && Below(pages[p := l][q := r], n)
  {
    assert pages[p := a][p := l] == pages[p := l];
  }

  lemma {:induction false} OnePageWritten(pages: map<PageId, Node>, p: PageId, a: Node, n: nat)
    requires AllSmall(pages) && Below(pages, n) && NodeSmall(a) && 0 < p < n
    ensures AllSmall(pages[p := a]) && Below(pages[p := a], n)
  {
  }

  /** Facts about the rewritten and sorted cell list of a leaf. */
  lemma {:induction false} UpsertedCells(cells: seq<Cell>, c: Cell)
    requires Sorted(cells)
    ensures var cells' := SortCells(Rewrite(cells, c.key, Some(c)));
      && Sorted(cells')
      && Space(cells') <= Space(cells) + SLOT_SIZE + c.Size()
      && forall x :: x in cells' <==> x == c || (x in cells && x.key != c.key)
  {
    var all := Rewrite(cells, c.key, Some(c));
    SortedIsUnique(cells);
    RewriteUnique(cells, c.key, Some(c));
    RewriteSet(cells, c.key, Some(c));
    RewriteSpace(cells, c.key, c);
    SortCorrect(all);
    SortedIsUnique(SortCells(all));
    SpaceOfSet(SortCells(all), all);
    assert forall x :: x in SortCells(all) <==> x in CellSet(SortCells(all));
  }

  // ---- The steps as the methods use them ----

  lemma {:induction false} RootCovers(t: Tree, key: Bytes)
    requires Ordered(t, None)
    ensures Reaches(t, t.root, key)
  {
    assert Unfold(0);
    Comparable([], key);
  }

  lemma {:induction false} InternalKeys(t: Tree, p: PageId)
    requires Ordered(t, None) && p in t.pages && t.pages[p].Internal?
    ensures t.pages[p].keys != [] && t.pages[p].keys[0].key == [] && KeysAscend(t.pages[p].keys)
  {
    assert Unfold(0);
    assert NodeOk(t, p, None);
  }

  lemma {:induction false} Descend(t: Tree, p: PageId, key: Bytes, slot: nat)
    requires Ordered(t, None) && Reaches(t, p, key) && t.pages[p].Internal? && IsSlot(t.pages[p].keys, key, slot)
    ensures var c := t.pages[p].keys[slot].child;
      Reaches(t, c, key) && t.level[c] < t.level[p]
  {
    assert Unfold(0);
    RoutesIntoRange(t, p, key, slot);
  }

  lemma {:induction false} FoundInLeaf(t: Tree, p: PageId, c: Cell)
    requires Ordered(t, None) && p in t.pages && t.pages[p].LeafNode? && c in t.pages[p].cells
    ensures Stores(t, c) && forall d :: Stores(t, d) && d.key == c.key ==> d == c
  {
    assert Unfold(0);
    assert Stores(t, c);
    forall d | Stores(t, d) && d.key == c.key ensures d == c {
      StoredOnce(t, c, d);
    }
  }

  /** The leaf that the cell goes to, and what is lost there. */
  ghost predicate UpsertedAt(t: Tree, p: PageId, c: Cell, lost: set<Cell>) {
    && Reaches(t, p, c.key) && t.pages[p].LeafNode?
    && lost == Lost(SortCells(Rewrite(t.pages[p].cells, c.key, Some(c))))
  }

  /** The upsert of the cell loses these cells. */
  ghost predicate Loses(t: Tree, c: Cell, lost: set<Cell>) {
    exists p :: UpsertedAt(t, p, c, lost)
  }

  /** Upsert into the covering leaf, before any split. */
  lemma {:induction false} LeafUpsert(t: Tree, p: PageId, path: seq<PageId>, c: Cell)
    requires Ordered(t, None) && Reaches(t, p, c.key) && t.pages[p].LeafNode? && PathTo(t, path, p)
    requires InlineCells(t.pages[p].cells) && InlineCell(c)
    ensures var cells := SortCells(Rewrite(t.pages[p].cells, c.key, Some(c)));
      var t1 := WithLeaf(t, p, cells);
      && Ordered(t1, None) && PathTo(t1, path, p) && InlineCells(cells)
      && forall x :: Stores(t1, x) <==> x == c || (Stores(t, x) && x.key != c.key)
  {
    assert Unfold(0);
    var cells := SortCells(Rewrite(t.pages[p].cells, c.key, Some(c)));
    assert NodeOk(t, p, None);
    UpsertedCells(t.pages[p].cells, c);
    LeafRewriteOk(t, p, cells);
    PathLevels(t, None, path, p);
    PathSame(t, WithLeaf(t, p, cells), path, p);
    forall x ensures Stores(WithLeaf(t, p, cells), x) <==> x == c || (Stores(t, x) && x.key != c.key) {
      LeafRewriteStores(t, p, cells, c, x);
    }
  }

  /** A leaf split as a whole: shape, contents and path. */
  lemma {:induction false} LeafSplit(t: Tree, p: PageId, q: PageId, path: seq<PageId>, mid: nat)
    requires Ordered(t, None) && p in t.pages && q !in t.pages && PathTo(t, path, p)
    requires t.pages[p].LeafNode? && 1 <= mid < |t.pages[p].cells|
    requires InlineCells(t.pages[p].cells) && mid == |t.pages[p].cells| / 2 && !Fits(t.pages[p].cells)
    ensures p in t.hi && p in t.level
    ensures var cells, t' := t.pages[p].cells, SplitLeafTree(t, p, q, mid);
      && Ordered(t', Some(Pending(p, cells[mid].key, q))) && PathTo(t', path, p)
      && (forall c :: Stores(t', c) <==> Stores(t, c) && c !in Lost(cells))
      && NodeSmall(LeafNode(Fill(cells[..mid]))) && NodeSmall(LeafNode(Fill(cells[mid..])))
  {
    assert Unfold(0);
    var cells := t.pages[p].cells;
    FillSubset(cells[..mid]);
    FillSubset(cells[mid..]);
    SplitLeafOk(t, p, q, mid);
    SplitStores(t, p, q, mid);
    PathLevels(t, None, path, p);
    PathSame(t, SplitLeafTree(t, p, q, mid), path, p);
  }

  /** An internal split as a whole. */
  lemma {:induction false} InternalSplit(t: Tree, p: PageId, q: PageId, path: seq<PageId>, mid: nat)
    requires Ordered(t, None) && p in t.pages && q !in t.pages && PathTo(t, path, p)
    requires t.pages[p].Internal? && 1 <= mid < |t.pages[p].keys|
    requires SmallKeys(t.pages[p].keys) && KeyFits(t.pages[p].keys[..mid]) && KeyFits(RightHalf(t.pages[p].keys, mid))
    ensures p in t.hi && p in t.level
    ensures var keys, t' := t.pages[p].keys, SplitInternalTree(t, p, q, mid);
      && Ordered(t', Some(Pending(p, keys[mid].key, q))) && PathTo(t', path, p)
      && (forall c :: Stores(t', c) <==> Stores(t, c))
      && KeyFill(keys[..mid]) == keys[..mid] && KeyFill(RightHalf(keys, mid)) == RightHalf(keys, mid)
      && NodeSmall(Internal(keys[..mid])) && NodeSmall(Internal(RightHalf(keys, mid)))
  {
    assert Unfold(0);
    var keys := t.pages[p].keys;
    KeyFillKeepsAllIfFits(keys[..mid]);
    KeyFillKeepsAllIfFits(RightHalf(keys, mid));
    SplitInternalOk(t, p, q, mid);
    SplitInternalStores(t, p, q, mid);
    PathLevels(t, None, path, p);
    PathSame(t, SplitInternalTree(t, p, q, mid), path, p);
  }

  /** The key list of the parent once the routing cell is sorted in. */
  lemma {:induction false} RoutingKeys(t: Tree, par: PageId, i: nat, pend: Pending)
    requires Ordered(t, Some(pend)) && par in t.pages && t.pages[par].Internal?
    requires i < |t.pages[par].keys| && t.pages[par].keys[i].child == pend.left
    requires SmallKeys(t.pages[par].keys) && SmallKey(pend.sep)
    ensures var keys, k := t.pages[par].keys, KeyCell(pend.sep, pend.right);
      var sorted := SortKeys(keys + [k]);
      && sorted == WithKey(keys, i, k)
      && SmallKeys(sorted) && KeySpace(sorted) == KeySpace(keys) + SLOT_SIZE + k.Size()
      && KeySpace(keys + [k]) == KeySpace(sorted)
      && (KeyFits(sorted) ==> KeyFill(sorted) == sorted)
  {
    var keys, k := t.pages[par].keys, KeyCell(pend.sep, pend.right);
    RoutingPlace(t, par, i, pend);
    SortPlacesKey(k, keys, i);
    WithKeySpace(keys, i, k);
    WithKeySmall(keys, i, k);
    if KeyFits(WithKey(keys, i, k)) { KeyFillKeepsAllIfFits(WithKey(keys, i, k)); }
  }

  lemma {:induction false} WithKeySmall(keys: seq<KeyCell>, i: nat, k: KeyCell)
    requires i < |keys| && SmallKeys(keys) && SmallKey(k.key)
    ensures SmallKeys(WithKey(keys, i, k))
  {
  }

  lemma {:induction false} RoutingPlace(t: Tree, par: PageId, i: nat, pend: Pending)
    requires Ordered(t, Some(pend)) && par in t.pages && t.pages[par].Internal?
    requires i < |t.pages[par].keys| && t.pages[par].keys[i].child == pend.left
    ensures var keys := t.pages[par].keys;
      && KeysAscend(keys) && Less(keys[i].key, pend.sep)
      && (i + 1 < |keys| ==> Less(pend.sep, keys[i + 1].key))
  {
    assert Unfold(0);
    assert NodeOk(t, par, Some(pend));
    SepInSlot(t, par, i, pend);
  }

  /** The routing step as a whole: the tree it gives and the path above. */
  lemma {:induction false} Routing(t: Tree, par: PageId, i: nat, pend: Pending, rest: seq<PageId>)
    requires Ordered(t, Some(pend)) && par in t.pages && t.pages[par].Internal? && PathTo(t, rest, par)
    requires i < |t.pages[par].keys| && t.pages[par].keys[i].child == pend.left
    ensures var t1 := RouteTree(t, par, i, pend);
      Ordered(t1, None) && PathTo(t1, rest, par) && forall c :: Stores(t1, c) <==> Stores(t, c)
  {
    assert Unfold(0);
    RouteOk(t, par, i, pend);
    PathLevels(t, Some(pend), rest, par);
    PathSame(t, RouteTree(t, par, i, pend), rest, par);
  }

  lemma {:induction false} Growing(t: Tree, r: PageId, pend: Pending)
    requires Ordered(t, Some(pend)) && pend.left == t.root && r !in t.pages
    ensures t.root in t.level
    ensures var t1 := GrowTree(t, r, pend);
      Ordered(t1, None) && forall c :: Stores(t1, c) <==> Stores(t, c)
  {
    assert Unfold(0);
    GrowOk(t, r, pend);
    GrowStores(t, r, pend);
  }

  lemma {:induction false} TwoKeysFit(left: PageId, routing: KeyCell)
    requires SmallKey(routing.key)
    ensures var keys := [KeyCell([], left), routing];
      KeyFill(keys) == keys && KeyFits(keys) && SmallKeys(keys)
  {
    var keys := [KeyCell([], left), routing];
    KeySpaceCons(KeyCell([], left), [routing]);
    KeySpaceCons(routing, []);
    assert [KeyCell([], left)] + [routing] == keys && [routing] + [] == [routing];
    KeyFillKeepsAllIfFits(keys);
  }

  // ---- Whole runs ----

  datatype Put = Put(key: Bytes, value: Bytes, deleted: bool)

  /** What a plain map holds for the key after the operations. */
  function LastPut(ops: seq<Put>, key: Bytes): Option<Cell> {
    if ops == [] then None
    else
      var op := ops[|ops| - 1];
      if op.key == key then Some(CellFor(op.deleted, op.key, op.value)) else LastPut(ops[..|ops| - 1], key)
  }

  /** What Find should return, given the last write to the key and what splits have lost. */
  function Expected(last: Option<Cell>, lost: set<Cell>): Option<Bytes> {
    match last
    case None => None
    case Some(c) => if c.IsDeleted() || c in lost then None else Some(c.value)
  }

  ghost predicate AllInline(ops: seq<Put>) {
    forall op :: op in ops ==> InlineCell(CellFor(op.deleted, op.key, op.value))
  }

  ghost predicate AllSmallPuts(ops: seq<Put>) {
    forall op :: op in ops ==> SmallCell(CellFor(op.deleted, op.key, op.value))
  }

  function CellOf(op: Put): Cell {
    CellFor(op.deleted, op.key, op.value)
  }

  /** The tree afterwards stores the new cell and the old cells of other keys, but for the lost ones. */
  ghost predicate Replaces(t: Tree, t': Tree, new_: Cell, lost: set<Cell>) {
    forall c :: Stores(t', c) <==> (c == new_ || (Stores(t, c) && c.key != new_.key)) && c !in lost
  }

  /** One upsert of a run: the tree before, the tree after, and the cells it lost. */
  datatype Move = Move(before: Tree, after: Tree, lost: set<Cell>)

  /** The upsert reaches a leaf, loses exactly what the split of that leaf drops, and changes nothing
      else. */
  ghost predicate MoveOk(m: Move, op: Put) {
    forall n: nat :: Expand(n) ==>
      && Ordered(m.before, None) && AllSmall(m.before.pages)
      && Loses(m.before, CellOf(op), m.lost)
      && Replaces(m.before, m.after, CellOf(op), m.lost)
  }

  lemma {:induction false} MoveIsOk(m: Move, op: Put)
    requires Ordered(m.before, None) && AllSmall(m.before.pages)
    requires Loses(m.before, CellOf(op), m.lost) && Replaces(m.before, m.after, CellOf(op), m.lost)
    ensures MoveOk(m, op)
  {
  }

  /** The tree a run ends with is where the next move starts: the empty tree before the first. */
  ghost predicate Leads(run: seq<Move>, t: Tree) {
    if run == [] then t.pages == map[1 := LeafNode([])] else t == run[|run| - 1].after
  }

  /** The moves of a run from the empty tree, one for each operation. */
  ghost predicate Trace(run: seq<Move>, ops: seq<Put>)
    decreases |run|
  {
    && |run| == |ops|
    && (run != [] ==>
          var front := run[..|run| - 1];
          var m := run[|run| - 1];
          Trace(front, ops[..|run| - 1]) && Leads(front, m.before) && MoveOk(m, ops[|run| - 1]))
  }

  /** What is lost in the end: a cell that a move lost and no later one wrote again. */
  function LostIn(run: seq<Move>, ops: seq<Put>): set<Cell>
    requires |run| == |ops|
  {
    if ops == [] then {}
    else LostAfter(LostIn(run[..|ops| - 1], ops[..|ops| - 1]), ops[|ops| - 1].key, run[|ops| - 1].lost)
  }

  function LostAfter(lost: set<Cell>, key: Bytes, gone: set<Cell>): set<Cell> {
    (set c | c in lost && c.key != key) + gone
  }

  /** For every sequence of inserts and deletes, through leaf, internal and root splits, Find returns
      exactly the last value written, and nothing for a key that was never written, was last deleted
      or whose cell the split of its leaf dropped. With cells of at most 199 bytes nothing is lost. */
  method RunThenFind(ops: seq<Put>, key: Bytes) returns (r: Option<Bytes>, ghost run: seq<Move>)
    requires AllInline(ops)
    ensures Trace(run, ops) && r == Expected(LastPut(ops, key), LostIn(run, ops))
    ensures AllSmallPuts(ops) ==> r == Expected(LastPut(ops, key), {})
  {
    var tree := new BTree();
    run := [];
    ghost var lost: set<Cell> := {};
    for i := 0 to |ops|
      invariant tree.Valid() && fresh(tree) && AllInline(ops)
      invariant RunTo(run, ops, i, tree.Abs(), lost)
      invariant AllSmallPuts(ops) ==> lost == {}
    {
      ghost var before := tree.Abs();
      ghost var gone := tree.Upsert(ops[i].key, ops[i].value, ops[i].deleted);
      if AllSmallPuts(ops) { SmallLoseNothing(before, ops, i, lost, gone); }
      MoveIsOk(Move(before, tree.Abs(), gone), ops[i]);
      RunOn(run, ops, i, before, lost, Move(before, tree.Abs(), gone));
      run, lost := run + [Move(before, tree.Abs(), gone)], LostAfter(lost, ops[i].key, gone);
    }
    LastPutKey(ops, key);
    RunEnds(run, ops, tree.Abs(), lost);
    r := tree.Find(key);
  }

  /** The tree stores the last writes but for the lost ones. */
  ghost predicate StoredIs(t: Tree, ops: seq<Put>, lost: set<Cell>) {
    forall c :: Stores(t, c) <==> LastPut(ops, c.key) == Some(c) && c !in lost
  }

  /** The run after `i` operations, folded. */
  ghost predicate RunTo(run: seq<Move>, ops: seq<Put>, i: nat, t: Tree, lost: set<Cell>)
    requires i <= |ops|
  {
    forall n: nat :: Expand(n) ==>
      && Trace(run, ops[..i]) && lost == LostIn(run, ops[..i]) && StoredIs(t, ops[..i], lost)
      && Leads(run, t)
  }

  lemma {:induction false} RunOn(run: seq<Move>, ops: seq<Put>, i: nat, t: Tree, lost: set<Cell>, m: Move)
    requires i < |ops| && RunTo(run, ops, i, t, lost) && m.before == t && MoveOk(m, ops[i])
    ensures RunTo(run + [m], ops, i + 1, m.after, LostAfter(lost, ops[i].key, m.lost))
  {
    assert Expand(0);
    TraceNext(run, ops, i, m);
    LostNext(run, ops, i, m);
    StoredNext(t, m.after, ops, i, lost, m.lost);
  }

  lemma {:induction false} RunEnds(run: seq<Move>, ops: seq<Put>, t: Tree, lost: set<Cell>)
    requires RunTo(run, ops, |ops|, t, lost)
    ensures Trace(run, ops) && lost == LostIn(run, ops) && StoredIs(t, ops, lost)
  {
    assert Expand(0);
    assert ops[..|ops|] == ops;
  }

  lemma {:induction false} TraceNext(run: seq<Move>, ops: seq<Put>, i: nat, m: Move)
    requires i < |ops| && Trace(run, ops[..i]) && Leads(run, m.before) && MoveOk(m, ops[i])
    ensures Trace(run + [m], ops[..i + 1])
  {
    assert ops[..i + 1][..i] == ops[..i] && (run + [m])[..i] == run;
  }

  lemma {:induction false} LostNext(run: seq<Move>, ops: seq<Put>, i: nat, m: Move)
    requires i < |ops| && |run| == i
    ensures LostIn(run + [m], ops[..i + 1]) == LostAfter(LostIn(run, ops[..i]), ops[i].key, m.lost)
  {
    assert ops[..i + 1][..i] == ops[..i] && (run + [m])[..i] == run;
  }

  lemma {:induction false} StoredNext(t: Tree, t': Tree, ops: seq<Put>, i: nat, before: set<Cell>, lost: set<Cell>)
    requires i < |ops| && StoredIs(t, ops[..i], before) && Replaces(t, t', CellOf(ops[i]), lost)
    ensures StoredIs(t', ops[..i + 1], LostAfter(before, ops[i].key, lost))
  {
    assert ops[..i + 1][..i] == ops[..i];
  }

  lemma {:induction false} LastPutSmall(ops: seq<Put>, key: Bytes)
    requires AllSmallPuts(ops) && LastPut(ops, key).Some?
    ensures SmallCell(LastPut(ops, key).value)
  {
    if ops[|ops| - 1].key == key {
      assert ops[|ops| - 1] in ops;
    } else {
      LastPutSmall(ops[..|ops| - 1], key);
    }
  }

  lemma {:induction false} SmallLoseNothing(t: Tree, ops: seq<Put>, i: nat, lost: set<Cell>, gone: set<Cell>)
    requires AllSmallPuts(ops) && i < |ops| && Ordered(t, None) && AllSmall(t.pages)
    requires exists run :: RunTo(run, ops, i, t, lost)
    requires Loses(t, CellOf(ops[i]), gone)
    ensures gone == {}
  {
    var c := CellFor(ops[i].deleted, ops[i].key, ops[i].value);
    var p :| UpsertedAt(t, p, c, gone);
    assert Expand(0);
    var old_ := t.pages[p].cells;
    var cells := SortCells(Rewrite(old_, c.key, Some(c)));
    assert ops[i] in ops;
    assert AllSmallPuts(ops[..i]);
    LeafIsSorted(t, p);
    UpsertedCells(old_, c);
    forall x | x in old_ ensures SmallCell(x) {
      assert Stores(t, x);
      LastPutSmall(ops[..i], x.key);
    }
    SortedIsUnique(cells);
    assert NodeSmall(t.pages[p]);
    if !Fits(cells) { SmallCellsSplit(old_, c, cells); }
    LostNothingIff(cells);
  }

  lemma {:induction false} LeafIsSorted(t: Tree, p: PageId)
    requires Ordered(t, None) && p in t.pages && t.pages[p].LeafNode?
    ensures Sorted(t.pages[p].cells)
  {
    assert Unfold(0);
    assert NodeOk(t, p, None);
  }

  lemma {:induction false} LastPutKey(ops: seq<Put>, key: Bytes)
    ensures LastPut(ops, key).Some? ==> LastPut(ops, key).value.key == key
  {
    if ops != [] { LastPutKey(ops[..|ops| - 1], key); }
  }
}
