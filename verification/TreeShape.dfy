/** The page-based B-tree as a value: pages, root, and for each page the level and the key range
    that the routing above it sends there. The structural steps of btree.go keep it in order. */
module TreeShape {
  import opened Bytes
  import opened Cells
  import opened Splits

  type PageId = nat

  datatype Node = LeafNode(cells: seq<Cell>) | Internal(keys: seq<KeyCell>)

  /** `level`, `lo` and `hi` are not stored in pages; they say what the pages mean. Keys of page
      `p` lie in [lo, hi), where no upper bound means infinity and [] is the least key. */
  datatype Tree = Tree(pages: map<PageId, Node>, root: PageId, level: map<PageId, nat>,
                       lo: map<PageId, Bytes>, hi: map<PageId, Option<Bytes>>)

  /** A split whose routing cell has not reached the parent yet. */
  datatype Pending = Pending(left: PageId, sep: Bytes, right: PageId)

  ghost predicate Above(hi: Option<Bytes>, k: Bytes) {
    hi.None? || Less(k, hi.value)
  }

  ghost predicate Covers(t: Tree, p: PageId, k: Bytes)
    requires p in t.lo && p in t.hi
  {
    AtMost(t.lo[p], k) && Above(t.hi[p], k)
  }

  ghost predicate Domains(t: Tree) {
    t.pages.Keys == t.level.Keys && t.pages.Keys == t.lo.Keys && t.pages.Keys == t.hi.Keys
  }

  // ---- Internal nodes ----

  ghost predicate KeysAscend(keys: seq<KeyCell>) {
    forall i, j :: 0 <= i < j < |keys| ==> Less(keys[i].key, keys[j].key)
  }

  /** Range that node `p` assigns to its `i`-th child. */
  ghost function SlotLo(t: Tree, p: PageId, keys: seq<KeyCell>, i: nat): Bytes
    requires p in t.lo && i < |keys|
  {
    if i == 0 then t.lo[p] else keys[i].key
  }

  ghost function SlotHi(t: Tree, p: PageId, keys: seq<KeyCell>, i: nat): Option<Bytes>
    requires p in t.hi && i < |keys|
  {
    if i + 1 < |keys| then Some(keys[i + 1].key) else t.hi[p]
  }

  /** The child has exactly the range of its slot; the left half of a pending split shares it
      with the right half. */
  ghost predicate SlotOk(t: Tree, p: PageId, keys: seq<KeyCell>, i: nat, pend: Option<Pending>)
    requires Domains(t) && p in t.pages && i < |keys|
  {
    var c := keys[i].child;
    && c in t.pages && t.level[c] + 1 == t.level[p] && t.lo[c] == SlotLo(t, p, keys, i)
    && if pend.Some? && pend.value.left == c
       then pend.value.right in t.pages && t.hi[pend.value.right] == SlotHi(t, p, keys, i)
       else t.hi[c] == SlotHi(t, p, keys, i)
  }

  ghost predicate InternalOk(t: Tree, p: PageId, keys: seq<KeyCell>, pend: Option<Pending>)
    requires Domains(t) && p in t.pages
  {
    && t.level[p] > 0 && |keys| >= 1 && keys[0].key == [] && KeysAscend(keys)
    && (forall i :: 1 <= i < |keys| ==> Less(t.lo[p], keys[i].key) && Above(t.hi[p], keys[i].key))
    && (forall i :: 0 <= i < |keys| ==> SlotOk(t, p, keys, i, pend))
  }

  ghost predicate LeafOk(t: Tree, p: PageId, cells: seq<Cell>)
    requires Domains(t) && p in t.pages
  {
    t.level[p] == 0 && Sorted(cells) && forall c :: c in cells ==> Covers(t, p, c.key)
  }

  ghost predicate NodeOk(t: Tree, p: PageId, pend: Option<Pending>)
    requires Domains(t) && p in t.pages
  {
    && Above(t.hi[p], t.lo[p]) && (t.root in t.pages ==> t.level[p] <= t.level[t.root])
    && match t.pages[p]
       case LeafNode(cells) => LeafOk(t, p, cells)
       case Internal(keys) => InternalOk(t, p, keys, pend)
  }

  /** Pages of the same level have disjoint ranges. */
  ghost predicate Separate(t: Tree, p: PageId, q: PageId)
    requires Domains(t) && p in t.pages && q in t.pages
  {
    || (t.hi[p].Some? && AtMost(t.hi[p].value, t.lo[q]))
    || (t.hi[q].Some? && AtMost(t.hi[q].value, t.lo[p]))
  }

  ghost predicate PendOk(t: Tree, pend: Pending)
    requires Domains(t)
  {
    && pend.left in t.pages && pend.right in t.pages && pend.left != pend.right
    && t.level[pend.left] == t.level[pend.right] && pend.sep != []
    && t.lo[pend.right] == pend.sep && t.hi[pend.left] == Some(pend.sep)
    && pend.right != t.root
  }

  /** The root covers every key, alone or together with the right half of its pending split. */
  ghost predicate RootOk(t: Tree, pend: Option<Pending>)
    requires Domains(t)
  {
    && t.root in t.pages && t.lo[t.root] == []
    && if pend.Some? && pend.value.left == t.root
       then pend.value.right in t.pages && t.hi[pend.value.right].None?
       else t.hi[t.root].None?
  }

  ghost predicate TreeOk(t: Tree, pend: Option<Pending>) {
    && Domains(t) && RootOk(t, pend)
    && (pend.Some? ==> PendOk(t, pend.value))
    && (forall p :: p in t.pages ==> NodeOk(t, p, pend))
    && (forall p, q :: p in t.pages && q in t.pages && p != q && t.level[p] == t.level[q] ==> Separate(t, p, q))
  }

  /** The contents of the tree: the cells of all its leaves. */
  ghost predicate Stores(t: Tree, c: Cell) {
    exists p :: p in t.pages && t.pages[p].LeafNode? && c in t.pages[p].cells
  }

  // ---- Orders and ranges ----

  lemma {:induction false} LessAtMost(a: Bytes, b: Bytes, c: Bytes)
    requires (Less(a, b) && AtMost(b, c)) || (AtMost(a, b) && Less(b, c))
    ensures Less(a, c)
  {
    if a != b && b != c { LessTransitive(a, b, c); }
  }

  lemma {:induction false} NotBoth(a: Bytes, b: Bytes)
    requires Less(a, b)
    ensures !AtMost(b, a)
  {
    LessAsymmetric(a, b);
  }

  lemma {:induction false} Comparable(a: Bytes, b: Bytes)
    ensures AtMost(a, b) || Less(b, a)
  {
    LessTotal(a, b);
  }

  /** A key is covered by at most one page of each level. */
  lemma {:induction false} OneCoversAtLevel(t: Tree, pend: Option<Pending>, p: PageId, q: PageId, k: Bytes)
    requires TreeOk(t, pend) && p in t.pages && q in t.pages && t.level[p] == t.level[q]
    requires Covers(t, p, k) && Covers(t, q, k)
    ensures p == q
  {
    if p != q {
      assert Separate(t, p, q);
      if t.hi[p].Some? && AtMost(t.hi[p].value, t.lo[q]) {
        LessAtMost(k, t.hi[p].value, t.lo[q]);
        NotBoth(k, t.lo[q]);
      } else {
        LessAtMost(k, t.hi[q].value, t.lo[p]);
        NotBoth(k, t.lo[p]);
      }
    }
  }

  /** The lower end of a slot lies in the range of the node. */
  lemma {:induction false} SlotLoCovered(t: Tree, pend: Option<Pending>, p: PageId, i: nat)
    requires TreeOk(t, pend) && p in t.pages && t.pages[p].Internal? && i < |t.pages[p].keys|
    ensures Covers(t, p, SlotLo(t, p, t.pages[p].keys, i))
  {
    assert NodeOk(t, p, pend);
  }

  /** A page is the child of at most one slot of at most one node. */
  lemma {:induction false} UniqueParent(t: Tree, pend: Option<Pending>, p: PageId, i: nat, q: PageId, j: nat)
    requires TreeOk(t, pend) && p in t.pages && q in t.pages && t.pages[p].Internal? && t.pages[q].Internal?
    requires i < |t.pages[p].keys| && j < |t.pages[q].keys|
    requires t.pages[p].keys[i].child == t.pages[q].keys[j].child
    ensures p == q && i == j
  {
    assert NodeOk(t, p, pend) && NodeOk(t, q, pend);
    var c := t.pages[p].keys[i].child;
    assert SlotOk(t, p, t.pages[p].keys, i, pend) && SlotOk(t, q, t.pages[q].keys, j, pend);
    SlotLoCovered(t, pend, p, i);
    SlotLoCovered(t, pend, q, j);
    OneCoversAtLevel(t, pend, p, q, t.lo[c]);
    SlotsDiffer(t, pend, p, i, j);
  }

  lemma {:induction false} SlotsDiffer(t: Tree, pend: Option<Pending>, p: PageId, i: nat, j: nat)
    requires TreeOk(t, pend) && p in t.pages && t.pages[p].Internal?
    requires i < |t.pages[p].keys| && j < |t.pages[p].keys|
    requires SlotLo(t, p, t.pages[p].keys, i) == SlotLo(t, p, t.pages[p].keys, j)
    ensures i == j
  {
    assert NodeOk(t, p, pend);
    var keys := t.pages[p].keys;
    if i < j {
      LessIrreflexive(keys[j].key);
    } else if j < i {
      LessIrreflexive(keys[i].key);
    }
  }

  // ---- Routing ----

  /** The slot findLeafPage follows: the last one whose key is at most `k`. */
  ghost predicate IsSlot(keys: seq<KeyCell>, k: Bytes, i: nat) {
    && i < |keys| && AtMost(keys[i].key, k)
    && (i + 1 < |keys| ==> Less(k, keys[i + 1].key))
  }

  lemma {:induction false} RoutesIntoRange(t: Tree, p: PageId, k: Bytes, i: nat)
    requires TreeOk(t, None) && p in t.pages && t.pages[p].Internal? && Covers(t, p, k)
    requires IsSlot(t.pages[p].keys, k, i)
    ensures var c := t.pages[p].keys[i].child;
      c in t.pages && t.level[c] + 1 == t.level[p] && Covers(t, c, k)
  {
    assert NodeOk(t, p, None);
    assert SlotOk(t, p, t.pages[p].keys, i, None);
  }

  /** Looking into the leaf that covers the key finds whatever the tree stores for it. */
  lemma {:induction false} LeafDecides(t: Tree, p: PageId, c: Cell)
    requires TreeOk(t, None) && p in t.pages && t.pages[p].LeafNode? && Covers(t, p, c.key)
    ensures Stores(t, c) <==> c in t.pages[p].cells
  {
    if q :| q in t.pages && t.pages[q].LeafNode? && c in t.pages[q].cells {
      assert NodeOk(t, p, None) && NodeOk(t, q, None);
      OneCoversAtLevel(t, None, p, q, c.key);
    }
  }

  /** A key is stored at most once. */
  lemma {:induction false} StoredOnce(t: Tree, c: Cell, d: Cell)
    requires TreeOk(t, None) && Stores(t, c) && Stores(t, d) && c.key == d.key
    ensures c == d
  {
    var p :| p in t.pages && t.pages[p].LeafNode? && c in t.pages[p].cells;
    assert NodeOk(t, p, None);
    LeafDecides(t, p, d);
    SortedIsUnique(t.pages[p].cells);
  }

  // ---- Writing a leaf ----

  function WithLeaf(t: Tree, p: PageId, cells: seq<Cell>): Tree {
    t.(pages := t.pages[p := LeafNode(cells)])
  }

  lemma {:induction false} LeafRewriteOk(t: Tree, p: PageId, cells: seq<Cell>)
    requires TreeOk(t, None) && p in t.pages && t.pages[p].LeafNode?
    requires Sorted(cells) && forall c :: c in cells ==> Covers(t, p, c.key)
    ensures TreeOk(WithLeaf(t, p, cells), None)
  {
    var t' := WithLeaf(t, p, cells);
    assert Domains(t') by { assert t'.pages.Keys == t.pages.Keys; }
    forall x | x in t'.pages ensures NodeOk(t', x, None) {
      assert NodeOk(t, x, None);
      if x != p && t.pages[x].Internal? { SameSlots(t, t', x, None); }
    }
    forall x, y | x in t'.pages && y in t'.pages && x != y && t'.level[x] == t'.level[y] ensures Separate(t', x, y) {
      assert Separate(t, x, y);
    }
  }

  /** Nodes whose surroundings kept their ranges stay in order. */
  lemma {:induction false} SameSlots(t: Tree, t': Tree, x: PageId, pend: Option<Pending>)
    requires Domains(t) && Domains(t') && x in t.pages && x in t'.pages && t.pages[x].Internal?
    requires t'.level == t.level && t'.lo == t.lo && t'.hi == t.hi
    requires InternalOk(t, x, t.pages[x].keys, pend)
    ensures InternalOk(t', x, t.pages[x].keys, pend)
  {
    forall i | 0 <= i < |t.pages[x].keys| ensures SlotOk(t', x, t.pages[x].keys, i, pend) {
      assert SlotOk(t, x, t.pages[x].keys, i, pend);
    }
  }

  /** Upsert into the covering leaf is upsert into the contents. */
  lemma {:induction false} LeafRewriteStores(t: Tree, p: PageId, cells: seq<Cell>, c: Cell, x: Cell)
    requires TreeOk(t, None) && p in t.pages && t.pages[p].LeafNode? && Covers(t, p, c.key)
    requires forall y :: y in cells <==> y == c || (y in t.pages[p].cells && y.key != c.key)
    ensures Stores(WithLeaf(t, p, cells), x) <==> x == c || (Stores(t, x) && x.key != c.key)
  {
    var t' := WithLeaf(t, p, cells);
    if Stores(t', x) {
      var q :| q in t'.pages && t'.pages[q].LeafNode? && x in t'.pages[q].cells;
      if q != p {
        assert Stores(t, x);
        if x.key == c.key {
          LeafDecides(t, p, x);
          assert NodeOk(t, p, None) && NodeOk(t, q, None);
          OneCoversAtLevel(t, None, p, q, x.key);
        }
      } else if x != c {
        assert x in t.pages[p].cells;
        assert Stores(t, x);
      }
    }
    if x == c {
      assert p in t'.pages && t'.pages[p].LeafNode? && x in t'.pages[p].cells;
    } else if Stores(t, x) && x.key != c.key {
      var q :| q in t.pages && t.pages[q].LeafNode? && x in t.pages[q].cells;
      assert q in t'.pages && t'.pages[q].LeafNode? && x in t'.pages[q].cells;
    }
  }

  // ---- Cutting a page in two ----

  /** Page `p` keeps the keys below `sep` and the fresh page `q` takes the rest. */
  function Cut(t: Tree, p: PageId, q: PageId, sep: Bytes, left: Node, right: Node): Tree
    requires p in t.hi && p in t.level
  {
    Tree(t.pages[p := left][q := right], t.root, t.level[q := t.level[p]],
         t.lo[q := sep], t.hi[q := t.hi[p]][p := Some(sep)])
  }

  lemma {:induction false} CutSeparate(t: Tree, p: PageId, q: PageId, sep: Bytes, left: Node, right: Node, x: PageId,
        y: PageId)
    requires TreeOk(t, None) && p in t.pages && q !in t.pages
    requires Less(t.lo[p], sep) && Above(t.hi[p], sep)
    requires var t' := Cut(t, p, q, sep, left, right);
      Domains(t') && x in t'.pages && y in t'.pages && x != y && t'.level[x] == t'.level[y]
    ensures Separate(Cut(t, p, q, sep, left, right), x, y)
  {
    if x in {p, q} && y in {p, q} {
    } else if x in {p, q} {
      CutSeparateOther(t, p, q, sep, left, right, x, y);
    } else if y in {p, q} {
      CutSeparateOther(t, p, q, sep, left, right, y, x);
    } else {
      assert Separate(t, x, y);
    }
  }

  lemma {:induction false} CutSeparateOther(t: Tree, p: PageId, q: PageId, sep: Bytes, left: Node, right: Node,
        x: PageId, y: PageId)
    requires TreeOk(t, None) && p in t.pages && q !in t.pages
    requires Less(t.lo[p], sep) && Above(t.hi[p], sep)
    requires Domains(Cut(t, p, q, sep, left, right))
    requires x in {p, q} && y in t.pages && y != p && t.level[y] == t.level[p]
    ensures Separate(Cut(t, p, q, sep, left, right), x, y)
  {
    assert Separate(t, p, y);
    if t.hi[p].Some? && AtMost(t.hi[p].value, t.lo[y]) {
      LessAtMost(sep, t.hi[p].value, t.lo[y]);
    } else {
      LessAtMost(t.hi[y].value, t.lo[p], sep);
    }
  }

  lemma {:induction false} CutKeepsNode(t: Tree, p: PageId, q: PageId, sep: Bytes, left: Node, right: Node, x: PageId)
    requires TreeOk(t, None) && p in t.pages && q !in t.pages && x in t.pages && x != p
    requires Domains(Cut(t, p, q, sep, left, right))
    ensures NodeOk(Cut(t, p, q, sep, left, right), x, Some(Pending(p, sep, q)))
  {
    var t' := Cut(t, p, q, sep, left, right);
    assert NodeOk(t, x, None) && t'.pages[x] == t.pages[x];
    if t.pages[x].Internal? {
      var keys := t.pages[x].keys;
      forall i | 0 <= i < |keys| ensures SlotOk(t', x, keys, i, Some(Pending(p, sep, q))) {
        assert SlotOk(t, x, keys, i, None);
      }
    }
  }

  lemma {:induction false} CutDomains(t: Tree, p: PageId, q: PageId, sep: Bytes, left: Node, right: Node)
    requires Domains(t) && p in t.pages
    ensures Domains(Cut(t, p, q, sep, left, right))
  {
    var t' := Cut(t, p, q, sep, left, right);
    assert t'.pages.Keys == t.pages.Keys + {q} && t'.level.Keys == t.level.Keys + {q};
    assert t'.lo.Keys == t.lo.Keys + {q} && t'.hi.Keys == t.hi.Keys + {q};
  }

  /** After the cut the tree is in order but for the routing cell of `q`. */
  lemma {:induction false} CutOk(t: Tree, p: PageId, q: PageId, sep: Bytes, left: Node, right: Node)
    requires TreeOk(t, None) && p in t.pages && q !in t.pages
    requires Less(t.lo[p], sep) && Above(t.hi[p], sep)
    requires var t' := Cut(t, p, q, sep, left, right);
      Domains(t') && NodeOk(t', p, Some(Pending(p, sep, q))) && NodeOk(t', q, Some(Pending(p, sep, q)))
    ensures TreeOk(Cut(t, p, q, sep, left, right), Some(Pending(p, sep, q)))
  {
    var t' := Cut(t, p, q, sep, left, right);
    forall x | x in t'.pages ensures NodeOk(t', x, Some(Pending(p, sep, q))) {
      if x != p && x != q { CutKeepsNode(t, p, q, sep, left, right, x); }
    }
    forall x, y | x in t'.pages && y in t'.pages && x != y && t'.level[x] == t'.level[y] ensures Separate(t', x, y) {
      CutSeparate(t, p, q, sep, left, right, x, y);
    }
  }

  // ---- Leaf split ----

  /** The halves keep what finds room in their pages. */
  function SplitLeafTree(t: Tree, p: PageId, q: PageId, mid: nat): Tree
    requires p in t.pages && t.pages[p].LeafNode? && mid < |t.pages[p].cells|
    requires p in t.hi && p in t.level
  {
    var cells := t.pages[p].cells;
    Cut(t, p, q, cells[mid].key, LeafNode(Fill(cells[..mid])), LeafNode(Fill(cells[mid..])))
  }

  lemma {:induction false} SepInside(t: Tree, p: PageId, mid: nat)
    requires TreeOk(t, None) && p in t.pages && t.pages[p].LeafNode? && 1 <= mid < |t.pages[p].cells|
    ensures var sep := t.pages[p].cells[mid].key; Less(t.lo[p], sep) && Above(t.hi[p], sep)
  {
    var cells := t.pages[p].cells;
    assert NodeOk(t, p, None);
    assert cells[0] in cells && cells[mid] in cells;
    LessAtMost(t.lo[p], cells[0].key, cells[mid].key);
  }

  lemma {:induction false} LeafHalvesOk(t: Tree, p: PageId, q: PageId, mid: nat)
    requires TreeOk(t, None) && p in t.pages && q !in t.pages
    requires t.pages[p].LeafNode? && 1 <= mid < |t.pages[p].cells|
    requires Domains(SplitLeafTree(t, p, q, mid))
    ensures LeafOk(SplitLeafTree(t, p, q, mid), p, Fill(t.pages[p].cells[..mid]))
    ensures LeafOk(SplitLeafTree(t, p, q, mid), q, Fill(t.pages[p].cells[mid..]))
  {
    var cells, t' := t.pages[p].cells, SplitLeafTree(t, p, q, mid);
    assert NodeOk(t, p, None);
    HalvesCovered(t, t', p, q, cells, mid);
    FillSubset(cells[..mid]);
    FillSubset(cells[mid..]);
    FillSorted(cells[..mid]);
    FillSorted(cells[mid..]);
  }

  lemma {:induction false} HalvesCovered(t: Tree, t': Tree, p: PageId, q: PageId, cells: seq<Cell>, mid: nat)
    requires Domains(t) && Domains(t') && p in t.pages && p in t'.pages && q in t'.pages && 1 <= mid < |cells|
    requires Sorted(cells) && forall c :: c in cells ==> Covers(t, p, c.key)
    requires t'.lo[p] == t.lo[p] && t'.hi[p] == Some(cells[mid].key)
    requires t'.lo[q] == cells[mid].key && t'.hi[q] == t.hi[p]
    ensures forall c :: c in cells[..mid] ==> Covers(t', p, c.key)
    ensures forall c :: c in cells[mid..] ==> Covers(t', q, c.key)
  {
    forall c | c in cells[..mid] ensures Covers(t', p, c.key) {
      var i :| 0 <= i < mid && cells[i] == c;
      assert c in cells && Less(cells[i].key, cells[mid].key);
    }
    forall c | c in cells[mid..] ensures Covers(t', q, c.key) {
      var i :| mid <= i < |cells| && cells[i] == c;
      assert c in cells && (i > mid ==> Less(cells[mid].key, cells[i].key));
    }
  }

  lemma {:induction false} SplitLeafOk(t: Tree, p: PageId, q: PageId, mid: nat)
    requires TreeOk(t, None) && p in t.pages && q !in t.pages
    requires t.pages[p].LeafNode? && 1 <= mid < |t.pages[p].cells|
    ensures TreeOk(SplitLeafTree(t, p, q, mid), Some(Pending(p, t.pages[p].cells[mid].key, q)))
  {
    var cells := t.pages[p].cells;
    SepInside(t, p, mid);
    var left, right := LeafNode(Fill(cells[..mid])), LeafNode(Fill(cells[mid..]));
    CutDomains(t, p, q, cells[mid].key, left, right);
    LeafHalvesOk(t, p, q, mid);
    CutOk(t, p, q, cells[mid].key, left, right);
  }

  /** A split stores the same cells but for those that find no room in their half. */
  lemma {:induction false} SplitStores(t: Tree, p: PageId, q: PageId, mid: nat)
    requires TreeOk(t, None) && p in t.pages && q !in t.pages
    requires t.pages[p].LeafNode? && mid == |t.pages[p].cells| / 2 < |t.pages[p].cells| && !Fits(t.pages[p].cells)
    ensures forall c :: Stores(SplitLeafTree(t, p, q, mid), c) <==> Stores(t, c) && c !in Lost(t.pages[p].cells)
  {
    var cells, t' := t.pages[p].cells, SplitLeafTree(t, p, q, mid);
    forall c | Stores(t, c) && c !in Lost(cells) ensures Stores(t', c) {
      SplitKeeps(t, p, q, mid, c);
    }
    forall c | Stores(t', c) ensures Stores(t, c) && c !in Lost(cells) {
      SplitAddsNothing(t, p, q, mid, c);
    }
  }

  lemma {:induction false} SplitKeeps(t: Tree, p: PageId, q: PageId, mid: nat, c: Cell)
    requires p in t.pages && q !in t.pages && p in t.hi && p in t.level
    requires t.pages[p].LeafNode? && mid == |t.pages[p].cells| / 2 < |t.pages[p].cells| && !Fits(t.pages[p].cells)
    requires Stores(t, c) && c !in Lost(t.pages[p].cells)
    ensures Stores(SplitLeafTree(t, p, q, mid), c)
  {
    var cells, t' := t.pages[p].cells, SplitLeafTree(t, p, q, mid);
    var x :| x in t.pages && t.pages[x].LeafNode? && c in t.pages[x].cells;
    if x != p {
      assert x in t'.pages && t'.pages[x] == t.pages[x];
    } else if c in Fill(cells[..mid]) {
      assert c in t'.pages[p].cells;
    } else {
      assert c in t'.pages[q].cells;
    }
  }

  lemma {:induction false} SplitAddsNothing(t: Tree, p: PageId, q: PageId, mid: nat, c: Cell)
    requires TreeOk(t, None) && p in t.pages && q !in t.pages
    requires t.pages[p].LeafNode? && mid == |t.pages[p].cells| / 2 < |t.pages[p].cells| && !Fits(t.pages[p].cells)
    requires Stores(SplitLeafTree(t, p, q, mid), c)
    ensures Stores(t, c) && c !in Lost(t.pages[p].cells)
  {
    var cells, t' := t.pages[p].cells, SplitLeafTree(t, p, q, mid);
    var x :| x in t'.pages && t'.pages[x].LeafNode? && c in t'.pages[x].cells;
    if x == p || x == q {
      HalfMember(cells, c);
      assert c in t.pages[p].cells;
    } else {
      assert x in t.pages && t.pages[x] == t'.pages[x];
      if c in cells { InOneLeaf(t, p, x, c); }
    }
  }

  lemma {:induction false} HalfMember(cells: seq<Cell>, c: Cell)
    requires c in Fill(cells[..|cells| / 2]) || c in Fill(cells[|cells| / 2..])
    ensures c in cells && c !in Lost(cells)
  {
    FillSubset(cells[..|cells| / 2]);
    FillSubset(cells[|cells| / 2..]);
  }

  lemma {:induction false} InOneLeaf(t: Tree, p: PageId, x: PageId, c: Cell)
    requires TreeOk(t, None) && p in t.pages && x in t.pages && t.pages[p].LeafNode? && t.pages[x].LeafNode?
    requires c in t.pages[p].cells && c in t.pages[x].cells
    ensures p == x
  {
    assert NodeOk(t, p, None) && NodeOk(t, x, None);
    OneCoversAtLevel(t, None, p, x, c.key);
  }

  // ---- Routing cells ----

  /** `keys` with the routing cell put behind slot `i`. */
  function WithKey(keys: seq<KeyCell>, i: nat, k: KeyCell): seq<KeyCell>
    requires i < |keys|
  {
    keys[..i + 1] + [k] + keys[i + 1..]
  }

  /** The parent of the left half takes the routing cell of the right half. */
  function RouteTree(t: Tree, par: PageId, i: nat, pend: Pending): Tree
    requires par in t.pages && t.pages[par].Internal? && i < |t.pages[par].keys|
  {
    t.(pages := t.pages[par := Internal(WithKey(t.pages[par].keys, i, KeyCell(pend.sep, pend.right)))])
  }

  /** The separator lies strictly inside the slot of the left half. */
  lemma {:induction false} SepInSlot(t: Tree, par: PageId, i: nat, pend: Pending)
    requires TreeOk(t, Some(pend)) && par in t.pages && t.pages[par].Internal?
    requires i < |t.pages[par].keys| && t.pages[par].keys[i].child == pend.left
    ensures var keys := t.pages[par].keys;
      && Less(SlotLo(t, par, keys, i), pend.sep) && Less(keys[i].key, pend.sep)
      && Above(SlotHi(t, par, keys, i), pend.sep)
      && Less(t.lo[par], pend.sep) && Above(t.hi[par], pend.sep)
  {
    var keys := t.pages[par].keys;
    assert NodeOk(t, par, Some(pend)) && NodeOk(t, pend.left, Some(pend)) && NodeOk(t, pend.right, Some(pend));
    assert SlotOk(t, par, keys, i, Some(pend));
    if i + 1 < |keys| && t.hi[par].Some? { LessTransitive(pend.sep, keys[i + 1].key, t.hi[par].value); }
    if i > 0 { LessTransitive(t.lo[par], keys[i].key, pend.sep); }
  }

  lemma {:induction false} WithKeyAscends(keys: seq<KeyCell>, i: nat, k: KeyCell)
    requires KeysAscend(keys) && i < |keys| && Less(keys[i].key, k.key)
    requires i + 1 < |keys| ==> Less(k.key, keys[i + 1].key)
    ensures KeysAscend(WithKey(keys, i, k))
  {
    var ks := WithKey(keys, i, k);
    forall a, b | 0 <= a < b < |ks| ensures Less(ks[a].key, ks[b].key) {
      if b == i + 1 {
        if a < i { LessTransitive(keys[a].key, keys[i].key, k.key); }
      } else if a == i + 1 {
        if b > i + 2 { LessTransitive(k.key, keys[i + 1].key, keys[b - 1].key); }
      }
    }
  }

  /** Slot of the old parent from which slot `j` of the new one comes. */
  function OldSlot(i: nat, j: nat): nat {
    if j <= i then j else j - 1
  }

  lemma {:induction false} RoutedSlot(t: Tree, par: PageId, i: nat, pend: Pending, j: nat)
    requires Domains(t) && PendOk(t, pend) && par in t.pages && t.pages[par].Internal?
    requires var keys := t.pages[par].keys;
      && i < |keys| && keys[i].child == pend.left && j <= |keys|
      && SlotOk(t, par, keys, OldSlot(i, j), Some(pend))
      && (keys[OldSlot(i, j)].child == pend.left ==> OldSlot(i, j) == i)
    ensures Domains(RouteTree(t, par, i, pend))
    ensures SlotOk(RouteTree(t, par, i, pend), par,
                   WithKey(t.pages[par].keys, i, KeyCell(pend.sep, pend.right)), j, None)
  {
    assert RouteTree(t, par, i, pend).pages.Keys == t.pages.Keys;
  }

  lemma {:induction false} RoutedSlots(t: Tree, par: PageId, i: nat, pend: Pending, j: nat)
    requires TreeOk(t, Some(pend)) && par in t.pages && t.pages[par].Internal?
    requires i < |t.pages[par].keys| && t.pages[par].keys[i].child == pend.left
    requires j < |t.pages[par].keys| + 1
    ensures Domains(RouteTree(t, par, i, pend))
    ensures SlotOk(RouteTree(t, par, i, pend), par,
                   WithKey(t.pages[par].keys, i, KeyCell(pend.sep, pend.right)), j, None)
  {
    var keys, old_ := t.pages[par].keys, OldSlot(i, j);
    assert NodeOk(t, par, Some(pend));
    assert SlotOk(t, par, keys, i, Some(pend));
    assert SlotOk(t, par, keys, old_, Some(pend));
    if old_ != i && keys[old_].child == pend.left { UniqueParent(t, Some(pend), par, old_, par, i); }
    RoutedSlot(t, par, i, pend, j);
  }

  lemma {:induction false} WithKeyBounds(lo: Bytes, hi: Option<Bytes>, keys: seq<KeyCell>, i: nat, k: KeyCell)
    requires i < |keys| && Less(lo, k.key) && Above(hi, k.key)
    requires forall j :: 1 <= j < |keys| ==> Less(lo, keys[j].key) && Above(hi, keys[j].key)
    ensures var ks := WithKey(keys, i, k); forall j :: 1 <= j < |ks| ==> Less(lo, ks[j].key) && Above(hi, ks[j].key)
  {
    var ks := WithKey(keys, i, k);
    forall j | 1 <= j < |ks| ensures Less(lo, ks[j].key) && Above(hi, ks[j].key) {
      if j != i + 1 { assert ks[j] == keys[OldSlot(i, j)]; }
    }
  }

  lemma {:induction false} RoutedParentOk(t: Tree, par: PageId, i: nat, pend: Pending)
    requires TreeOk(t, Some(pend)) && par in t.pages && t.pages[par].Internal?
    requires i < |t.pages[par].keys| && t.pages[par].keys[i].child == pend.left
    ensures Domains(RouteTree(t, par, i, pend)) && NodeOk(RouteTree(t, par, i, pend), par, None)
  {
    var t', keys := RouteTree(t, par, i, pend), t.pages[par].keys;
    var keys' := WithKey(keys, i, KeyCell(pend.sep, pend.right));
    assert NodeOk(t, par, Some(pend));
    SepInSlot(t, par, i, pend);
    WithKeyAscends(keys, i, KeyCell(pend.sep, pend.right));
    assert t'.pages.Keys == t.pages.Keys;
    forall j | 0 <= j < |keys'| ensures SlotOk(t', par, keys', j, None) {
      RoutedSlots(t, par, i, pend, j);
    }
    WithKeyBounds(t.lo[par], t.hi[par], keys, i, KeyCell(pend.sep, pend.right));
  }

  lemma {:induction false} RouteKeepsOther(t: Tree, par: PageId, i: nat, pend: Pending, x: PageId)
    requires TreeOk(t, Some(pend)) && par in t.pages && t.pages[par].Internal?
    requires i < |t.pages[par].keys| && t.pages[par].keys[i].child == pend.left
    requires x in t.pages && x != par && Domains(RouteTree(t, par, i, pend))
    ensures NodeOk(RouteTree(t, par, i, pend), x, None)
  {
    var t' := RouteTree(t, par, i, pend);
    assert NodeOk(t, x, Some(pend));
    if t.pages[x].Internal? {
      var keys := t.pages[x].keys;
      forall j | 0 <= j < |keys| ensures SlotOk(t', x, keys, j, None) {
        assert SlotOk(t, x, keys, j, Some(pend));
        if keys[j].child == pend.left { UniqueParent(t, Some(pend), x, j, par, i); }
      }
    }
  }

  /** Routing the right half completes the split. */
  lemma {:induction false} RouteOk(t: Tree, par: PageId, i: nat, pend: Pending)
    requires TreeOk(t, Some(pend)) && par in t.pages && t.pages[par].Internal?
    requires i < |t.pages[par].keys| && t.pages[par].keys[i].child == pend.left
    ensures TreeOk(RouteTree(t, par, i, pend), None)
    ensures forall c :: Stores(RouteTree(t, par, i, pend), c) <==> Stores(t, c)
  {
    var t' := RouteTree(t, par, i, pend);
    RoutedParentOk(t, par, i, pend);
    RoutedRootOk(t, par, i, pend);
    forall x | x in t'.pages ensures NodeOk(t', x, None) {
      if x != par { RouteKeepsOther(t, par, i, pend, x); }
    }
    forall x, y | x in t'.pages && y in t'.pages && x != y && t'.level[x] == t'.level[y] ensures Separate(t', x, y) {
      assert Separate(t, x, y);
    }
    SameLeaves(t, t');
  }

  /** The left half is a child, so it is not the root. */
  lemma {:induction false} RoutedRootOk(t: Tree, par: PageId, i: nat, pend: Pending)
    requires TreeOk(t, Some(pend)) && par in t.pages && t.pages[par].Internal?
    requires i < |t.pages[par].keys| && t.pages[par].keys[i].child == pend.left
    requires Domains(RouteTree(t, par, i, pend))
    ensures RootOk(RouteTree(t, par, i, pend), None)
  {
    assert NodeOk(t, par, Some(pend));
    assert SlotOk(t, par, t.pages[par].keys, i, Some(pend));
  }

  lemma {:induction false} SameLeaves(t: Tree, t': Tree)
    requires forall p :: p in t.pages && t.pages[p].LeafNode? ==> p in t'.pages && t'.pages[p] == t.pages[p]
    requires forall p :: p in t'.pages && t'.pages[p].LeafNode? ==> p in t.pages && t.pages[p] == t'.pages[p]
    ensures forall c :: Stores(t', c) <==> Stores(t, c)
  {
    forall c | Stores(t, c) ensures Stores(t', c) {
      var p :| p in t.pages && t.pages[p].LeafNode? && c in t.pages[p].cells;
      assert p in t'.pages && t'.pages[p].LeafNode? && c in t'.pages[p].cells;
    }
    forall c | Stores(t', c) ensures Stores(t, c) {
      var p :| p in t'.pages && t'.pages[p].LeafNode? && c in t'.pages[p].cells;
      assert p in t.pages && t.pages[p].LeafNode? && c in t.pages[p].cells;
    }
  }

  // ---- Internal split ----

  function SplitInternalTree(t: Tree, p: PageId, q: PageId, mid: nat): Tree
    requires p in t.pages && t.pages[p].Internal? && mid < |t.pages[p].keys|
    requires p in t.hi && p in t.level
  {
    var keys := t.pages[p].keys;
    Cut(t, p, q, keys[mid].key, Internal(keys[..mid]), Internal(RightHalf(keys, mid)))
  }

  lemma {:induction false} LeftHalfOk(t: Tree, p: PageId, q: PageId, mid: nat)
    requires TreeOk(t, None) && p in t.pages && q !in t.pages
    requires t.pages[p].Internal? && 1 <= mid < |t.pages[p].keys|
    requires Domains(SplitInternalTree(t, p, q, mid))
    ensures InternalOk(SplitInternalTree(t, p, q, mid), p, t.pages[p].keys[..mid],
                       Some(Pending(p, t.pages[p].keys[mid].key, q)))
  {
    var keys, t' := t.pages[p].keys, SplitInternalTree(t, p, q, mid);
    assert NodeOk(t, p, None);
    forall i | 0 <= i < mid ensures SlotOk(t', p, keys[..mid], i, Some(Pending(p, keys[mid].key, q))) {
      assert SlotOk(t, p, keys, i, None);
    }
  }

  lemma {:induction false} RightSlot(t: Tree, p: PageId, q: PageId, mid: nat, i: nat)
    requires Domains(t) && p in t.pages && q !in t.pages && t.pages[p].Internal?
    requires 1 <= mid && mid + i < |t.pages[p].keys|
    requires SlotOk(t, p, t.pages[p].keys, mid + i, None)
    requires Domains(SplitInternalTree(t, p, q, mid))
    ensures SlotOk(SplitInternalTree(t, p, q, mid), q, RightHalf(t.pages[p].keys, mid), i,
                   Some(Pending(p, t.pages[p].keys[mid].key, q)))
  {
    var keys := t.pages[p].keys;
    RightHalfCells(keys, mid, i);
    if mid + i + 1 < |keys| { RightHalfCells(keys, mid, i + 1); }
    var c := keys[mid + i].child;
    assert c != p && c != q;
  }

  lemma {:induction false} RightHalfCells(keys: seq<KeyCell>, mid: nat, i: nat)
    requires mid + i < |keys|
    ensures var right := RightHalf(keys, mid);
      && |right| == |keys| - mid && right[i].child == keys[mid + i].child
      && right[i].key == if i == 0 then [] else keys[mid + i].key
  {
  }

  lemma {:induction false} RightHalfAscends(keys: seq<KeyCell>, mid: nat)
    requires KeysAscend(keys) && 1 <= mid < |keys| && keys[0].key == []
    ensures KeysAscend(RightHalf(keys, mid))
  {
    var right := RightHalf(keys, mid);
    forall i, j | 0 <= i < j < |right| ensures Less(right[i].key, right[j].key) {
      RightHalfCells(keys, mid, i);
      RightHalfCells(keys, mid, j);
      assert Less(keys[0].key, keys[mid + j].key) && Less(keys[mid + i].key, keys[mid + j].key);
    }
  }

  lemma {:induction false} RightHalfOk(t: Tree, p: PageId, q: PageId, mid: nat)
    requires TreeOk(t, None) && p in t.pages && q !in t.pages
    requires t.pages[p].Internal? && 1 <= mid < |t.pages[p].keys|
    requires Domains(SplitInternalTree(t, p, q, mid))
    ensures InternalOk(SplitInternalTree(t, p, q, mid), q, RightHalf(t.pages[p].keys, mid),
                       Some(Pending(p, t.pages[p].keys[mid].key, q)))
  {
    var keys, t' := t.pages[p].keys, SplitInternalTree(t, p, q, mid);
    var right, pend := RightHalf(keys, mid), Some(Pending(p, keys[mid].key, q));
    assert NodeOk(t, p, None);
    RightHalfCells(keys, mid, 0);
    RightHalfAscends(keys, mid);
    forall i | 0 <= i < |right| ensures SlotOk(t', q, right, i, pend) {
      assert SlotOk(t, p, keys, mid + i, None);
      RightSlot(t, p, q, mid, i);
    }
    forall i | 1 <= i < |right| ensures Less(t'.lo[q], right[i].key) && Above(t'.hi[q], right[i].key) {
      RightHalfCells(keys, mid, i);
    }
  }

  lemma {:induction false} SplitInternalOk(t: Tree, p: PageId, q: PageId, mid: nat)
    requires TreeOk(t, None) && p in t.pages && q !in t.pages
    requires t.pages[p].Internal? && 1 <= mid < |t.pages[p].keys|
    ensures TreeOk(SplitInternalTree(t, p, q, mid), Some(Pending(p, t.pages[p].keys[mid].key, q)))
  {
    var keys := t.pages[p].keys;
    MiddleInside(t, p, mid);
    CutDomains(t, p, q, keys[mid].key, Internal(keys[..mid]), Internal(RightHalf(keys, mid)));
    HalvesOk(t, p, q, mid);
    CutOk(t, p, q, keys[mid].key, Internal(keys[..mid]), Internal(RightHalf(keys, mid)));
  }

  lemma {:induction false} SplitInternalStores(t: Tree, p: PageId, q: PageId, mid: nat)
    requires p in t.pages && q !in t.pages && p in t.hi && p in t.level
    requires t.pages[p].Internal? && mid < |t.pages[p].keys|
    ensures forall c :: Stores(SplitInternalTree(t, p, q, mid), c) <==> Stores(t, c)
  {
    SameLeaves(t, SplitInternalTree(t, p, q, mid));
  }

  lemma {:induction false} MiddleInside(t: Tree, p: PageId, mid: nat)
    requires TreeOk(t, None) && p in t.pages && t.pages[p].Internal? && 1 <= mid < |t.pages[p].keys|
    ensures var sep := t.pages[p].keys[mid].key; Less(t.lo[p], sep) && Above(t.hi[p], sep) && sep != []
  {
    assert NodeOk(t, p, None);
  }

  lemma {:induction false} HalvesOk(t: Tree, p: PageId, q: PageId, mid: nat)
    requires TreeOk(t, None) && p in t.pages && q !in t.pages
    requires t.pages[p].Internal? && 1 <= mid < |t.pages[p].keys|
    requires Domains(SplitInternalTree(t, p, q, mid))
    ensures var t', pend := SplitInternalTree(t, p, q, mid), Some(Pending(p, t.pages[p].keys[mid].key, q));
      NodeOk(t', p, pend) && NodeOk(t', q, pend)
  {
    assert NodeOk(t, p, None);
    MiddleInside(t, p, mid);
    LeftHalfOk(t, p, q, mid);
    RightHalfOk(t, p, q, mid);
  }

  // ---- New root ----

  function GrowTree(t: Tree, r: PageId, pend: Pending): Tree
    requires t.root in t.level
  {
    Tree(t.pages[r := Internal([KeyCell([], pend.left), KeyCell(pend.sep, pend.right)])], r,
         t.level[r := t.level[t.root] + 1], t.lo[r := []], t.hi[r := None])
  }

  lemma {:induction false} GrowKeepsOther(t: Tree, r: PageId, pend: Pending, x: PageId)
    requires TreeOk(t, Some(pend)) && pend.left == t.root && r !in t.pages && x in t.pages
    requires Domains(GrowTree(t, r, pend))
    ensures NodeOk(GrowTree(t, r, pend), x, None)
  {
    var t' := GrowTree(t, r, pend);
    assert NodeOk(t, x, Some(pend));
    if t.pages[x].Internal? {
      var keys := t.pages[x].keys;
      forall j | 0 <= j < |keys| ensures SlotOk(t', x, keys, j, None) {
        assert SlotOk(t, x, keys, j, Some(pend));
      }
    }
  }

  lemma {:induction false} GrowDomains(t: Tree, r: PageId, pend: Pending)
    requires Domains(t) && t.root in t.pages
    ensures Domains(GrowTree(t, r, pend))
  {
    var t' := GrowTree(t, r, pend);
    assert t'.pages.Keys == t.pages.Keys + {r} && t'.level.Keys == t.level.Keys + {r};
    assert t'.lo.Keys == t.lo.Keys + {r} && t'.hi.Keys == t.hi.Keys + {r};
  }

  lemma {:induction false} GrowRootOk(t: Tree, r: PageId, pend: Pending)
    requires TreeOk(t, Some(pend)) && pend.left == t.root && r !in t.pages
    requires Domains(GrowTree(t, r, pend))
    ensures NodeOk(GrowTree(t, r, pend), r, None)
  {
    var t' := GrowTree(t, r, pend);
    var keys := [KeyCell([], pend.left), KeyCell(pend.sep, pend.right)];
    assert SlotOk(t', r, keys, 0, None);
    assert SlotOk(t', r, keys, 1, None);
  }

  lemma {:induction false} GrowSeparate(t: Tree, r: PageId, pend: Pending, x: PageId, y: PageId)
    requires TreeOk(t, Some(pend)) && r !in t.pages && Domains(GrowTree(t, r, pend))
    requires var t' := GrowTree(t, r, pend);
      x in t'.pages && y in t'.pages && x != y && t'.level[x] == t'.level[y]
    ensures Separate(GrowTree(t, r, pend), x, y)
  {
    if x in t.pages { assert NodeOk(t, x, Some(pend)); }
    if y in t.pages { assert NodeOk(t, y, Some(pend)); }
    assert Separate(t, x, y);
  }

  /** A split of the root puts a new root above both halves. */
  lemma {:induction false} GrowOk(t: Tree, r: PageId, pend: Pending)
    requires TreeOk(t, Some(pend)) && pend.left == t.root && r !in t.pages
    ensures TreeOk(GrowTree(t, r, pend), None)
  {
    var t' := GrowTree(t, r, pend);
    GrowDomains(t, r, pend);
    forall x | x in t'.pages ensures NodeOk(t', x, None) {
      if x == r { GrowRootOk(t, r, pend); } else { GrowKeepsOther(t, r, pend, x); }
    }
    forall x, y | x in t'.pages && y in t'.pages && x != y && t'.level[x] == t'.level[y] ensures Separate(t', x, y) {
      GrowSeparate(t, r, pend, x, y);
    }
  }

  lemma {:induction false} GrowStores(t: Tree, r: PageId, pend: Pending)
    requires t.root in t.level && r !in t.pages
    ensures forall c :: Stores(GrowTree(t, r, pend), c) <==> Stores(t, c)
  {
    SameLeaves(t, GrowTree(t, r, pend));
  }
}
