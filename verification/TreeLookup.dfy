/** FindLatest looks into a single leaf of the tree: when that is enough. */
module TreeLookup {
  import opened Bytes
  import opened Cells
  import opened Splits
  import opened MvccKeys
  import opened IdealStore
  import opened Mvcc
  import opened TreeShape
  import MvccRefinement

  /** All stored cells are versions of NUL-free user keys. */
  ghost predicate StoresVersions(t: Tree, next: nat) {
    forall c :: Stores(t, c) ==> MvccRefinement.VersionCell(c, next)
  }

  /** The leaf holds a version the reader may see. */
  ghost predicate LeafShows(cells: seq<Cell>, key: Bytes, table: map<nat, Status>) {
    exists c :: c in cells && Visible(c.key, key, table)
  }

  ghost predicate TreeShows(t: Tree, key: Bytes, table: map<nat, Status>) {
    exists c :: Stores(t, c) && Visible(c.key, key, table)
  }

  /** The best cell of the whole tree, or none when nothing is visible anywhere. */
  ghost predicate IsGlobalBest(t: Tree, key: Bytes, table: map<nat, Status>, best: Option<Cell>) {
    match best
    case None => !TreeShows(t, key, table)
    case Some(b) =>
      && Stores(t, b) && Visible(b.key, key, table)
      && forall c :: Stores(t, c) && Visible(c.key, key, table) ==> AtMost(c.key, b.key)
  }

  /** What a reader may see sorts at or below the key it searches with. */
  lemma {:induction false} VisibleAtMost(c: Cell, next: nat, u: Bytes, r: TxnId, table: map<nat, Status>)
    requires MvccRefinement.VersionCell(c, next) && NulFree(u) && Visible(c.key, BuildMvccKey(u, r), table)
    ensures AtMost(c.key, BuildMvccKey(u, r))
  {
    ExtractInvertsBuild(u, r);
    KeyOrderEmbedding(User(c), Tx(c), u, r);
  }

  /** A visible version outside the leaf of the search key lies in an earlier leaf. */
  lemma {:induction false} OutsideIsEarlier(t: Tree, p: PageId, next: nat, u: Bytes, r: TxnId, table: map<nat, Status>,
        c: Cell)
    requires TreeOk(t, None) && p in t.pages && t.pages[p].LeafNode? && StoresVersions(t, next) && NulFree(u)
    requires Covers(t, p, BuildMvccKey(u, r))
    requires Stores(t, c) && Visible(c.key, BuildMvccKey(u, r), table) && c !in t.pages[p].cells
    ensures Less(c.key, t.lo[p])
  {
    var key := BuildMvccKey(u, r);
    VisibleAtMost(c, next, u, r, table);
    if t.hi[p].Some? { LessAtMost(c.key, key, t.hi[p].value); }
    Comparable(t.lo[p], c.key);
    if AtMost(t.lo[p], c.key) { LeafDecides(t, p, c); }
  }

  /** Looking into the one leaf that covers (user key, reader) finds the newest visible version of
      the whole tree exactly when that leaf shows some visible version, or no leaf does. */
  lemma {:induction false} SingleLeafLookupExact(t: Tree, p: PageId, next: nat, u: Bytes, r: TxnId,
        table: map<nat, Status>)
    requires TreeOk(t, None) && p in t.pages && t.pages[p].LeafNode? && StoresVersions(t, next) && NulFree(u)
    requires Covers(t, p, BuildMvccKey(u, r))
    ensures var key := BuildMvccKey(u, r);
      IsGlobalBest(t, key, table, FindBest(t.pages[p].cells, key, table)) <==>
      LeafShows(t.pages[p].cells, key, table) || !TreeShows(t, key, table)
  {
    var key, cells := BuildMvccKey(u, r), t.pages[p].cells;
    FindBestCorrect(cells, key, table);
    var best := FindBest(cells, key, table);
    if best.Some? {
      var b := best.value;
      assert Stores(t, b);
      assert NodeOk(t, p, None);
      forall c | Stores(t, c) && Visible(c.key, key, table) ensures AtMost(c.key, b.key) {
        if c !in cells {
          OutsideIsEarlier(t, p, next, u, r, table, c);
          LessAtMost(c.key, t.lo[p], b.key);
        }
      }
    }
  }

  // ---- A split between the versions of one key ----

  function OneLeaf(cells: seq<Cell>): Tree {
    Tree(map[1 := LeafNode(cells)], 1, map[1 := 0], map[1 := []], map[1 := None])
  }

  lemma {:induction false} OneLeafOk(cells: seq<Cell>)
    requires Sorted(cells)
    ensures TreeOk(OneLeaf(cells), None)
  {
    var t := OneLeaf(cells);
    forall c | c in cells ensures Covers(t, 1, c.key) {
      Comparable([], c.key);
    }
    assert NodeOk(t, 1, None);
  }

  function Version(u: Bytes, t: TxnId, v: Bytes): Cell {
    Cell(0, BuildMvccKey(u, t), v)
  }

  /** One version of the key fits a page and two do not; the value is stored inline and the key fits
      the new root. */
  predicate Wide(u: Bytes, v: Bytes) {
    NulFree(u) && 2014 < |u| + |v| <= 4046 && |u| <= 4035 && |v| <= 1024
  }

  lemma {:induction false} SomeKeyIsWide()
    ensures Wide(seq(2015, _ => 97), [])
  {
  }

  /** The root leaf with the versions `t1` and `t2` of a key is split between them: page 1 keeps
      the first, page 2 gets the second, page 3 becomes the root. */
  function SplitVersions(u: Bytes, t1: TxnId, t2: TxnId, v: Bytes): Tree {
    var cells := [Version(u, t1, v), Version(u, t2, v)];
    GrowTree(SplitLeafTree(OneLeaf(cells), 1, 2, 1), 3, Pending(1, BuildMvccKey(u, t2), 2))
  }

  /** This is what upsertCell does with the second version when the root leaf holds the first: the
      rewritten list does not fit, the split by count puts one version into each page, and neither
      page nor the new root drops a cell. */
  lemma {:induction false} SecondVersionSplits(u: Bytes, t1: TxnId, t2: TxnId, v: Bytes)
    requires Wide(u, v) && t1 < t2
    ensures var c1, c2 := Version(u, t1, v), Version(u, t2, v);
      && SortCells(Rewrite([c1], c2.key, Some(c2))) == [c1, c2] && !Fits([c1, c2]) && |[c1, c2]| / 2 == 1
      && Fill([c1, c2][..1]) == [c1] && Fill([c1, c2][1..]) == [c2]
      && KeyFits([KeyCell([], 1), KeyCell(c2.key, 2)])
  {
    var c1, c2 := Version(u, t1, v), Version(u, t2, v);
    KeyOrderEmbedding(u, t1, u, t2);
    SecondCellSorted(c1, c2);
    WideSpaces(c1, c2);
    RootKeysFit(c2.key);
  }

  lemma {:induction false} SecondCellSorted(c1: Cell, c2: Cell)
    requires Less(c1.key, c2.key)
    ensures SortCells(Rewrite([c1], c2.key, Some(c2))) == [c1, c2] && [c1, c2][..1] == [c1] && [c1, c2][1..] == [c2]
  {
    TwoCells(c1, c2);
  }

  lemma {:induction false} RootKeysFit(key: Bytes)
    requires |key| <= 4044
    ensures KeyFits([KeyCell([], 1), KeyCell(key, 2)])
  {
    KeySpaceCons(KeyCell([], 1), [KeyCell(key, 2)]);
    KeySpaceCons(KeyCell(key, 2), []);
    assert [KeyCell([], 1)] + [KeyCell(key, 2)] == [KeyCell([], 1), KeyCell(key, 2)];
    assert [KeyCell(key, 2)] + [] == [KeyCell(key, 2)];
  }

  lemma {:induction false} WideSpaces(c1: Cell, c2: Cell)
    requires 2028 < c1.Size() == c2.Size() <= 4060
    ensures !Fits([c1, c2]) && Fill([c1]) == [c1] && Fill([c2]) == [c2]
  {
    assert [c1] + [c2] == [c1, c2];
    SpaceConcat([c1], [c2]);
    SpaceOfOne(c1);
    SpaceOfOne(c2);
    FillKeepsAllIffFits([c1]);
    FillKeepsAllIffFits([c2]);
  }

  lemma {:induction false} RootSplitOk(c1: Cell, c2: Cell)
    requires Less(c1.key, c2.key)
    ensures TreeOk(GrowTree(SplitLeafTree(OneLeaf([c1, c2]), 1, 2, 1), 3, Pending(1, c2.key, 2)), None)
  {
    OneLeafOk([c1, c2]);
    SplitLeafOk(OneLeaf([c1, c2]), 1, 2, 1);
    GrowOk(SplitLeafTree(OneLeaf([c1, c2]), 1, 2, 1), 3, Pending(1, c2.key, 2));
  }

  lemma {:induction false} RootSplitPages(c1: Cell, c2: Cell)
    requires Fill([c1, c2][..1]) == [c1] && Fill([c1, c2][1..]) == [c2]
    ensures var t := GrowTree(SplitLeafTree(OneLeaf([c1, c2]), 1, 2, 1), 3, Pending(1, c2.key, 2));
      && 1 in t.pages && t.pages[1] == LeafNode([c1]) && 2 in t.pages && t.pages[2] == LeafNode([c2])
      && 2 in t.lo && t.lo[2] == c2.key && 2 in t.hi && t.hi[2] == None
  {
  }

  lemma {:induction false} SplitVersionsOk(u: Bytes, t1: TxnId, t2: TxnId, v: Bytes)
    requires Wide(u, v) && t1 < t2
    ensures var t := SplitVersions(u, t1, t2, v);
      && TreeOk(t, None) && 1 in t.pages && t.pages[1] == LeafNode([Version(u, t1, v)])
      && 2 in t.pages && t.pages[2] == LeafNode([Version(u, t2, v)])
      && t.lo[2] == BuildMvccKey(u, t2) && t.hi[2] == None
  {
    KeyOrderEmbedding(u, t1, u, t2);
    SecondVersionSplits(u, t1, t2, v);
    RootSplitOk(Version(u, t1, v), Version(u, t2, v));
    RootSplitPages(Version(u, t1, v), Version(u, t2, v));
  }

  /** After this split a reader routed to the right leaf finds nothing while the newer version is
      uncommitted, although the older one is committed and visible to it. */
  lemma {:induction false} SplitHidesCommittedVersion(u: Bytes, t1: TxnId, t2: TxnId, r: TxnId, v: Bytes,
        table: map<nat, Status>)
    requires Wide(u, v) && t1 < t2 < r
    requires StatusOf(table, t1) == Committed && StatusOf(table, t2) == Running
    ensures var t, key := SplitVersions(u, t1, t2, v), BuildMvccKey(u, r);
      && TreeOk(t, None) && Covers(t, 2, key) && t.pages[2].LeafNode?
      && FindBest(t.pages[2].cells, key, table) == None
      && Stores(t, Version(u, t1, v)) && Visible(Version(u, t1, v).key, key, table)
  {
    var t, key := SplitVersions(u, t1, t2, v), BuildMvccKey(u, r);
    ExtractInvertsBuild(u, t1);
    ExtractInvertsBuild(u, t2);
    ExtractInvertsBuild(u, r);
    SplitVersionsOk(u, t1, t2, v);
    KeyOrderEmbedding(u, t2, u, r);
    FindBestCorrect(t.pages[2].cells, key, table);
    assert Version(u, t1, v) in t.pages[1].cells;
  }
}
