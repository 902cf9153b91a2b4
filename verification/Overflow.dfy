/** Overflow chains and the free-page stack: linked lists through the pages of the file
    (allocatePage, deallocatePage, createOverflowChain, readOverflowChain, freeOverflowChain). */
module Overflow {
  import opened Bytes
  import opened Folding

  type PageId = nat

  /** Bytes of value data in an overflow page. */
  const CHUNK: nat := 4060

  datatype Kind = Meta | Tree | OverflowPage | FreePage

  /** `link` is the page ID at offset 32, which free and overflow pages share as their next
      pointer; `data` is everything behind it. Init changes the kind only. */
  datatype Page = Page(kind: Kind, link: PageId, data: Bytes)

  /** What a page is used for. The free list and the chains are lists of page IDs. */
  datatype Use = MetaUse | InUse | FreeUse | ChainUse(first: PageId)

  const META_PAGE_ID: PageId := 0

  // ---- Lists of pages ----

  ghost predicate Distinct(ids: seq<PageId>) {
    forall i, j :: 0 <= i < j < |ids| ==> ids[i] != ids[j]
  }

  /** The `i`-th page points to the next one, the last one to 0. */
  ghost predicate LinkedAt(pages: seq<Page>, ids: seq<PageId>, i: nat) {
    i < |ids| && 0 < ids[i] < |pages| && pages[ids[i]].link == if i + 1 < |ids| then ids[i + 1] else 0
  }

  ghost predicate Linked(pages: seq<Page>, ids: seq<PageId>) {
    && (forall i :: 0 <= i < |ids| ==> 0 < ids[i] < |pages|)
    && (forall i :: 0 <= i < |ids| ==> LinkedAt(pages, ids, i))
  }

  ghost predicate OfKind(pages: seq<Page>, ids: seq<PageId>, kind: Kind) {
    forall i :: 0 <= i < |ids| && ids[i] < |pages| ==> pages[ids[i]].kind == kind
  }

  /** The list holds exactly the pages with this use, each once. */
  ghost predicate Holds(ids: seq<PageId>, uses: seq<Use>, use: Use) {
    Distinct(ids) && forall p :: p in ids <==> 0 <= p < |uses| && uses[p] == use
  }

  function First(ids: seq<PageId>): PageId {
    if ids == [] then 0 else ids[0]
  }

  function Min(a: nat, b: nat): nat {
    if a < b then a else b
  }

  /** The bytes a reader collects along the list for a value of the given length. */
  function Reads(pages: seq<Page>, ids: seq<PageId>, length: nat): Bytes
    requires Readable(pages, ids)
  {
    if ids == [] then []
    else
      var n := Min(length, CHUNK);
      pages[ids[0]].data[..n] + Reads(pages, ids[1..], length - n)
  }

  function Excess(a: nat, b: nat): nat {
    if a > b then a - b else 0
  }

  /** Pages a value needs. */
  function PagesFor(length: nat): nat {
    (length + CHUNK - 1) / CHUNK
  }

  // ---- Facts about lists ----

  lemma {:induction false} ReadsSame(pages: seq<Page>, pages': seq<Page>, ids: seq<PageId>, length: nat)
    requires forall i :: 0 <= i < |ids| ==> ids[i] < |pages| && |pages[ids[i]].data| == CHUNK
    requires forall i :: 0 <= i < |ids| ==> ids[i] < |pages'| && pages'[ids[i]].data == pages[ids[i]].data
    ensures Reads(pages', ids, length) == Reads(pages, ids, length)
    decreases |ids|
  {
    if ids != [] { ReadsSame(pages, pages', ids[1..], length - Min(length, CHUNK)); }
  }

  /** A chain of full pages followed by one more page. */
  lemma {:induction false} ReadsSnoc(pages: seq<Page>, ids: seq<PageId>, last: PageId, length: nat)
    requires forall i :: 0 <= i < |ids| ==> ids[i] < |pages| && |pages[ids[i]].data| == CHUNK
    requires last < |pages| && |pages[last].data| == CHUNK && length <= CHUNK
    ensures Reads(pages, ids + [last], CHUNK * |ids| + length) ==
      Reads(pages, ids, CHUNK * |ids|) + pages[last].data[..length]
    decreases |ids|
  {
    if ids == [] {
      assert ids + [last] == [last];
      assert [last][1..] == [];
    } else {
      var rest, chunk := ids[1..], pages[ids[0]].data[..CHUNK];
      assert (ids + [last])[1..] == rest + [last];
      ReadsSnoc(pages, rest, last, length);
      assert Reads(pages, ids + [last], CHUNK * |ids| + length) ==
             chunk + Reads(pages, rest + [last], CHUNK * |rest| + length);
      assert Reads(pages, ids, CHUNK * |ids|) == chunk + Reads(pages, rest, CHUNK * |rest|);
    }
  }

  // ---- The invariant ----

  ghost predicate FreeListOk(pages: seq<Page>, uses: seq<Use>, free: seq<PageId>, firstFree: PageId) {
    && Linked(pages, free) && OfKind(pages, free, FreePage) && Holds(free, uses, FreeUse)
    && firstFree == First(free)
  }

  ghost predicate ChainOk(pages: seq<Page>, uses: seq<Use>, first: PageId, ids: seq<PageId>) {
    && ids != [] && ids[0] == first
    && Linked(pages, ids) && OfKind(pages, ids, OverflowPage) && Holds(ids, uses, ChainUse(first))
  }

  ghost predicate ChainsOk(pages: seq<Page>, uses: seq<Use>, chains: map<PageId, seq<PageId>>) {
    && (forall f :: f in chains ==> ChainOk(pages, uses, f, chains[f]))
    && (forall p :: 0 <= p < |uses| && uses[p].ChainUse? ==> uses[p].first in chains)
  }

  ghost predicate PagesOk(pages: seq<Page>, uses: seq<Use>) {
    && |pages| >= 1 && |uses| == |pages| && uses[META_PAGE_ID] == MetaUse
    && (forall p :: 0 < p < |uses| ==> uses[p] != MetaUse)
    && forall p :: 0 <= p < |pages| ==> |pages[p].data| == CHUNK
  }

  ghost predicate FileOk(pages: seq<Page>, uses: seq<Use>, free: seq<PageId>, firstFree: PageId,
        chains: map<PageId, seq<PageId>>)
  {
    PagesOk(pages, uses) && FreeListOk(pages, uses, free, firstFree) && ChainsOk(pages, uses, chains)
  }

  ghost predicate Folded(pages: seq<Page>, uses: seq<Use>, free: seq<PageId>, firstFree: PageId,
        chains: map<PageId, seq<PageId>>)
  {
    forall n: nat :: Unfold(n) ==> FileOk(pages, uses, free, firstFree, chains)
  }

  /** Chains other than the touched pages' stay what they were. */
  lemma {:induction false} ChainsKept(pages: seq<Page>, uses: seq<Use>, chains: map<PageId, seq<PageId>>,
        pages': seq<Page>, uses': seq<Use>)
    requires ChainsOk(pages, uses, chains) && |pages'| >= |pages| && |uses| == |pages| && |uses'| == |pages'|
    requires forall p :: 0 <= p < |pages| && uses[p].ChainUse? ==> pages'[p] == pages[p] && uses'[p] == uses[p]
    requires forall p :: 0 <= p < |uses'| && uses'[p].ChainUse? ==> p < |uses| && uses[p] == uses'[p]
    ensures ChainsOk(pages', uses', chains)
  {
    forall f | f in chains ensures ChainOk(pages', uses', f, chains[f]) {
      var ids := chains[f];
      assert ChainOk(pages, uses, f, ids);
      forall i | 0 <= i < |ids| ensures LinkedAt(pages', ids, i) && pages'[ids[i]] == pages[ids[i]] {
        assert LinkedAt(pages, ids, i);
        assert ids[i] in ids;
      }
    }
  }

  ghost predicate Readable(pages: seq<Page>, ids: seq<PageId>) {
    forall i :: 0 <= i < |ids| ==> ids[i] < |pages| && |pages[ids[i]].data| == CHUNK
  }

  /** Pages that were not free before keep contents and use. */
  ghost predicate KeepsBusy(pages: seq<Page>, uses: seq<Use>, pages': seq<Page>, uses': seq<Use>) {
    && |pages| <= |pages'| && |uses| == |pages| && |uses'| == |pages'|
    && forall q :: 0 <= q < |pages| && uses[q] != FreeUse ==> pages'[q] == pages[q] && uses'[q] == uses[q]
  }

  /** The pages were free or did not exist yet. */
  ghost predicate WereFree(ids: seq<PageId>, uses: seq<Use>) {
    forall i :: 0 <= i < |ids| ==> ids[i] >= |uses| || uses[ids[i]] == FreeUse
  }

  /** The pages once `p` holds the chunk and, if there is one, `prev` points to it. */
  function Extended(pages: seq<Page>, prev: PageId, p: PageId, chunk: Bytes): seq<Page>
    requires p < |pages| && prev < |pages| && |chunk| <= |pages[p].data|
  {
    var linked := if prev != 0 then pages[prev := pages[prev].(link := p)] else pages;
    linked[p := linked[p].(link := 0, data := chunk + linked[p].data[|chunk|..])]
  }

  function Zeros(): (z: Bytes)
    ensures |z| == CHUNK
  {
    seq(CHUNK, _ => 0)
  }

  /** InUse for every page of one chain. */
  function Unchained(uses: seq<Use>, first: PageId): seq<Use> {
    seq(|uses|, i requires 0 <= i < |uses| => if uses[i] == ChainUse(first) then InUse else uses[i])
  }

  function Reverse(ids: seq<PageId>): seq<PageId> {
    if ids == [] then [] else [ids[|ids| - 1]] + Reverse(ids[..|ids| - 1])
  }

  lemma {:induction false} ReverseStep(ids: seq<PageId>, k: nat, rest: seq<PageId>)
    requires k < |ids|
    ensures Reverse(ids[..k + 1]) + rest == [ids[k]] + (Reverse(ids[..k]) + rest)
  {
    assert ids[..k + 1][..k] == ids[..k];
  }

  class PageFile {
    var pages: seq<Page>
    var firstFree: PageId  // stored in the meta page
    ghost var uses: seq<Use>
    ghost var free: seq<PageId>
    ghost var chains: map<PageId, seq<PageId>>

    /** Every page of the file has exactly one use: meta page, handed out, on the free list or in
        one chain; the lists are what the links say, without repetition, and end in 0. */
    ghost predicate Valid()
      reads this
    {
      Folded(pages, uses, free, firstFree, chains)
    }

    constructor ()
      ensures Valid() && |pages| == 1 && free == [] && chains == map[]
    {
      pages, firstFree := [Page(Meta, 0, Zeros())], 0;
      uses, free, chains := [MetaUse], [], map[];
    }

    /** The first page of the free list is taken over. */
    method TakeFree(kind: Kind) returns (p: PageId)
      requires Valid() && firstFree != 0
      modifies this
      ensures Valid() && chains == old(chains) && 0 < p < |pages| == |uses| == |old(pages)| && pages[p].kind == kind
      ensures old(free) != [] && p == old(free)[0] && free == old(free)[1..] && |old(uses)| == |uses|
      ensures uses == old(uses)[p := InUse] && old(uses)[p] == FreeUse
      ensures forall q :: 0 <= q < |pages| && q != p ==> pages[q] == old(pages)[q]
      ensures |pages[p].data| == CHUNK
    {
      assert Unfold(0);
      ghost var pages0, uses0 := pages, uses;
      p := firstFree;
      assert LinkedAt(pages, free, 0) && free[0] in free;
      firstFree := pages[p].link;
      pages := pages[p := pages[p].(kind := kind)];
      uses := uses[p := InUse];
      Popped(pages0, uses0, free, kind);
      free := free[1..];
      ChainsKept(pages0, uses0, chains, pages, uses);
    }

    /** pager.AllocatePage: the file grows by one page. */
    method ExtendFile(kind: Kind) returns (p: PageId)
      requires Valid() && firstFree == 0
      modifies this
      ensures Valid() && chains == old(chains) && 0 < p < |pages| == |uses| && pages[p].kind == kind
      ensures p == |old(pages)| == |pages| - 1 && old(free) == free == []
      ensures uses == old(uses) + [InUse] && |old(uses)| == |old(pages)|
      ensures forall q :: 0 <= q < |old(pages)| ==> pages[q] == old(pages)[q]
      ensures |pages[p].data| == CHUNK
    {
      assert Unfold(0);
      ghost var pages0, uses0 := pages, uses;
      p := |pages|;
      pages := pages + [Page(kind, 0, Zeros())];
      uses := uses + [InUse];
      assert free == [];
      ChainsKept(pages0, uses0, chains, pages, uses);
    }

    /** allocatePage: pop the free list, or append to the file when it is empty. */
    method AllocatePage(kind: Kind) returns (p: PageId)
      requires Valid()
      modifies this
      ensures Valid() && chains == old(chains) && 0 < p < |pages| == |uses| && pages[p].kind == kind
      ensures if old(free) == []
              then p == |old(pages)| == |pages| - 1 && free == [] && uses == old(uses) + [InUse]
              else p == old(free)[0] && free == old(free)[1..] && |pages| == |old(pages)| && p < |old(uses)| &&
                   uses == old(uses)[p := InUse]
      ensures forall q :: 0 <= q < |old(pages)| && q != p ==> pages[q] == old(pages)[q]
      ensures |pages[p].data| == CHUNK && |old(uses)| == |old(pages)| && (p < |old(uses)| ==> old(uses)[p] == FreeUse)
    {
      if firstFree != 0 {
        p := TakeFree(kind);
      } else {
        p := ExtendFile(kind);
      }
    }

    /** deallocatePage: push the page onto the free list. */
    method DeallocatePage(p: PageId)
      requires Valid() && 0 < p < |pages| == |uses| && uses[p] == InUse
      modifies this
      ensures Valid() && chains == old(chains) && free == [p] + old(free)
      ensures |pages| == |old(pages)| && uses == old(uses)[p := FreeUse]
      ensures forall q :: 0 <= q < |pages| && q != p ==> pages[q] == old(pages)[q]
    {
      assert Unfold(0);
      ghost var pages0, uses0 := pages, uses;
      Pushed(pages, uses, free, p);
      pages := pages[p := pages[p].(kind := FreePage, link := firstFree)];
      firstFree := p;
      uses := uses[p := FreeUse];
      free := [p] + free;
      ChainsKept(pages0, uses0, chains, pages, uses);
    }

    /** readOverflowChain */
    method ReadOverflowChain(first: PageId, length: nat) returns (value: Bytes)
      requires Valid() && (first == 0 || first in chains)
      ensures first == 0 ==> value == []
      ensures first != 0 ==> Readable(pages, chains[first]) && value == Reads(pages, chains[first], length)
    {
      value := [];
      var curr, bytesRead := first, 0;
      if first == 0 { return; }
      ghost var ids := chains[first];
      ghost var k := 0;
      ChainFacts(pages, uses, free, firstFree, chains, first);
      ReadStarts(pages, ids, length);
      while curr != 0
        invariant ReadSoFar(pages, ids, length, k, curr, bytesRead, value)
        decreases |ids| - k
      {
        var n := Min(length - bytesRead, CHUNK);
        ReadOn(pages, ids, length, k, curr, bytesRead, value);
        value := value + pages[curr].data[..n];
        bytesRead := bytesRead + n;
        curr := pages[curr].link;
        k := k + 1;
      }
      ReadEnds(pages, ids, length, k, bytesRead, value);
    }

    /** createOverflowChain: the value is cut into chunks, one page each. */
    method CreateOverflowChain(value: Bytes) returns (first: PageId)
      requires Valid()
      modifies this
      ensures Valid() && (first == 0 <==> value == [])
      ensures value == [] ==> chains == old(chains) && pages == old(pages)
      ensures value != [] ==>
        && first in chains && first !in old(chains) && chains == old(chains)[first := chains[first]]
        && |chains[first]| == PagesFor(|value|) && ChainOk(pages, uses, first, chains[first])
        && Readable(pages, chains[first]) && Reads(pages, chains[first], |value|) == value
      ensures |pages| == |old(pages)| + Excess(PagesFor(|value|), |old(free)|)
      ensures |free| == Excess(|old(free)|, PagesFor(|value|))
      ensures KeepsBusy(old(pages), old(uses), pages, uses)
    {
      first := 0;
      var rest, prev := value, 0;
      ghost var ids, done := [], 0;
      assert |uses| == |pages| by { assert Unfold(0); }
      while rest != []
        invariant Valid() && ChainSoFar(first, prev, ids, old(chains))
        invariant Chunked(value, rest, |ids|, done)
        invariant ReadsBack(pages, ids, value, done)
        invariant Grown(|old(pages)|, |old(free)|, |ids|, |pages|, |free|)
        invariant WereFree(ids, old(uses))
        invariant KeepsBusy(old(pages), old(uses), pages, uses) && (ids == [] ==> pages == old(pages))
        decreases |rest|
      {
        var n := Min(|rest|, CHUNK);
        ChunkStep(value, rest, |ids|, done);
        first, prev := NextChunk(first, prev, rest[..n], ids, value, done, old(chains), old(pages), old(uses),
                                 |old(free)|);
        ids, done := ids + [prev], done + n;
        rest := rest[n..];
      }
      assert value[..|value|] == value;
    }

    /** One round of the loop, seen from the whole value. */
    method NextChunk(first: PageId, prev: PageId, chunk: Bytes, ghost ids: seq<PageId>, ghost value: Bytes,
          ghost done: nat, ghost chains0: map<PageId, seq<PageId>>, ghost pages0: seq<Page>, ghost uses0: seq<Use>,
          ghost free0: nat)
      returns (first': PageId, p: PageId)
      requires Valid() && ChainSoFar(first, prev, ids, chains0) && 0 < |chunk| <= CHUNK
      requires KeepsBusy(pages0, uses0, pages, uses) && WereFree(ids, uses0)
      requires ReadsBack(pages, ids, value, done) && done == CHUNK * |ids| && done + |chunk| <= |value|
      requires chunk == value[done..done + |chunk|] && Grown(|pages0|, free0, |ids|, |pages|, |free|)
      modifies this
      ensures Valid() && ChainSoFar(first', p, ids + [p], chains0)
      ensures KeepsBusy(pages0, uses0, pages, uses) && WereFree(ids + [p], uses0)
      ensures ReadsBack(pages, ids + [p], value, done + |chunk|)
      ensures Grown(|pages0|, free0, |ids| + 1, |pages|, |free|)
    {
      first', p := AddChunk(first, prev, chunk, ids, chains0, pages0, uses0);
      assert value[..done + |chunk|] == value[..done] + chunk;
    }

    /** One round of the loop: a new page with the next chunk at the end of the chain. */
    method AddChunk(first: PageId, prev: PageId, chunk: Bytes, ghost ids: seq<PageId>,
          ghost chains0: map<PageId, seq<PageId>>, ghost pages0: seq<Page>, ghost uses0: seq<Use>)
      returns (first': PageId, p: PageId)
      requires Valid() && ChainSoFar(first, prev, ids, chains0) && 0 < |chunk| <= CHUNK && Readable(pages, ids)
      requires KeepsBusy(pages0, uses0, pages, uses) && WereFree(ids, uses0)
      modifies this
      ensures Valid() && ChainSoFar(first', p, ids + [p], chains0) && Readable(pages, ids + [p])
      ensures Reads(pages, ids + [p], CHUNK * |ids| + |chunk|) == old(Reads(pages, ids, CHUNK * |ids|)) + chunk
      ensures if old(free) == []
              then |pages| == |old(pages)| + 1 && free == []
              else |pages| == |old(pages)| && free == old(free)[1..]
      ensures KeepsBusy(pages0, uses0, pages, uses) && WereFree(ids + [p], uses0)
    {
      p := AllocatePage(OverflowPage);
      first' := if first == 0 then p else first;
      LinkPage(first', prev, p, chunk, ids);
      StillBusy(pages0, uses0, old(pages), old(uses), pages, uses, p, ids);
      ChunkRead(old(pages), pages, ids, p, chunk);
    }

    /** Up to `prev`, the chain from `first` is complete. */
    ghost predicate ChainSoFar(first: PageId, prev: PageId, ids: seq<PageId>, chains0: map<PageId, seq<PageId>>)
      reads this
    {
      if ids == [] then first == 0 && prev == 0 && chains == chains0
      else
        && first == ids[0] && prev == ids[|ids| - 1] && first !in chains0
        && chains == chains0[first := ids] && ChainOk(pages, uses, first, ids)
    }

    /** Link a fresh page behind the chain and write its chunk. */
    method LinkPage(first: PageId, prev: PageId, p: PageId, chunk: Bytes, ghost ids: seq<PageId>)
      requires Valid() && 0 < p < |pages| == |uses| && uses[p] == InUse && pages[p].kind == OverflowPage
      requires |chunk| <= CHUNK == |pages[p].data|
      requires if ids == [] then prev == 0 && first == p
               else first in chains && chains[first] == ids && prev == ids[|ids| - 1] && 0 < prev < |pages|
      modifies this
      ensures Valid() && free == old(free) && chains == old(chains)[first := ids + [p]]
      ensures (ids == [] ==> first !in old(chains)) && (ids != [] ==> prev != p)
      ensures uses == old(uses)[p := ChainUse(first)]
      ensures |pages| == |old(pages)| && pages[p].data == chunk + old(pages)[p].data[|chunk|..]
      ensures forall q :: 0 <= q < |pages| && q != p ==> pages[q].data == old(pages)[q].data
      ensures forall q :: 0 <= q < |pages| && q != p && (ids == [] || q != prev) ==> pages[q] == old(pages)[q]
      ensures ChainOk(pages, uses, first, ids + [p])
    {
      Extending(pages, uses, free, firstFree, chains, first, prev, p, chunk, ids);
      if prev != 0 {
        pages := pages[prev := pages[prev].(link := p)];
      }
      pages := pages[p := pages[p].(link := 0, data := chunk + pages[p].data[|chunk|..])];
      uses := uses[p := ChainUse(first)];
      chains := chains[first := ids + [p]];
    }

    /** freeOverflowChain: all pages of the chain go to the free list, the file does not grow. */
    method FreeOverflowChain(first: PageId)
      requires Valid() && (first == 0 || first in chains)
      modifies this
      ensures Valid() && |pages| == |old(pages)| && (first != 0 ==> |uses| == |pages| == |old(uses)|)
      ensures first == 0 ==> free == old(free) && chains == old(chains) && pages == old(pages)
      ensures first != 0 ==> chains == old(chains) - {first} && free == Reverse(old(chains)[first]) + old(free)
      ensures first != 0 ==> forall q :: 0 <= q < |pages| && old(uses)[q] != ChainUse(first) ==>
                               pages[q] == old(pages)[q] && uses[q] == old(uses)[q]
    {
      if first == 0 { return; }
      ghost var ids := chains[first];
      assert ChainOk(pages, uses, first, ids) && |uses| == |pages| by { assert Unfold(0); }
      DropChain(first);
      FreePages(first, ids);
    }

    /** The chain is given up: its pages are handed out but in no list. */
    ghost method DropChain(first: PageId)
      requires Valid()
      modifies this`uses, this`chains
      ensures Valid() && uses == Unchained(old(uses), first) && chains == old(chains) - {first}
    {
      assert Unfold(0);
      Unchain(pages, uses, chains, first);
      UnchainedFree(uses, free, first);
      uses := Unchained(uses, first);
      chains := chains - {first};
    }

    /** The loop of freeOverflowChain over the linked pages `ids`. */
    method FreePages(first: PageId, ghost ids: seq<PageId>)
      requires Valid() && Linked(pages, ids) && Distinct(ids) && first == First(ids) && |uses| == |pages|
      requires forall j :: 0 <= j < |ids| ==> uses[ids[j]] == InUse
      modifies this
      ensures Valid() && |pages| == |old(pages)| == |uses| && chains == old(chains)
      ensures free == Reverse(ids) + old(free)
      ensures forall q :: 0 <= q < |pages| && q !in ids ==> pages[q] == old(pages)[q] && uses[q] == old(uses)[q]
    {
      var curr := first;
      ghost var k := 0;
      assert ids[..0] == [];
      while curr != 0
        invariant 0 <= k <= |ids| && curr == (if k < |ids| then ids[k] else 0)
        invariant Valid() && chains == old(chains) && |pages| == |old(pages)| == |uses|
        invariant free == Reverse(ids[..k]) + old(free)
        invariant forall j :: k <= j < |ids| ==> pages[ids[j]] == old(pages)[ids[j]] && uses[ids[j]] == InUse
        invariant forall q :: 0 <= q < |pages| && q !in ids ==> pages[q] == old(pages)[q] && uses[q] == old(uses)[q]
        decreases |ids| - k
      {
        assert LinkedAt(old(pages), ids, k);
        var next := pages[curr].link;
        ReverseStep(ids, k, old(free));
        DeallocatePage(curr);
        curr := next;
        k := k + 1;
      }
      assert ids[..k] == ids;
    }
  }

  /** Only page `p`, free or new, and the last page of the growing chain were touched. */
  lemma {:induction false} StillBusy(pages0: seq<Page>, uses0: seq<Use>, a: seq<Page>, ua: seq<Use>, b: seq<Page>,
        ub: seq<Use>, p: PageId, ids: seq<PageId>)
    requires KeepsBusy(pages0, uses0, a, ua) && WereFree(ids, uses0) && |a| <= |b| == |ub|
    requires p >= |ua| || ua[p] == FreeUse
    requires forall q :: 0 <= q < |a| && q != p && (ids == [] || q != ids[|ids| - 1]) ==> b[q] == a[q]
    requires forall q :: 0 <= q < |a| && q != p ==> ub[q] == ua[q]
    ensures KeepsBusy(pages0, uses0, b, ub) && WereFree(ids + [p], uses0)
  {
    forall q | 0 <= q < |pages0| && uses0[q] != FreeUse ensures b[q] == pages0[q] && ub[q] == uses0[q] {
      assert a[q] == pages0[q] && ua[q] == uses0[q];
    }
  }

  /** Reading along the longer chain yields the old bytes and the chunk. */
  lemma {:induction false} ChunkRead(pages: seq<Page>, pages': seq<Page>, ids: seq<PageId>, p: PageId, chunk: Bytes)
    requires Readable(pages, ids) && |pages| <= |pages'| && p < |pages'| && |chunk| <= CHUNK
    requires forall i :: 0 <= i < |ids| ==> pages'[ids[i]].data == pages[ids[i]].data
    requires |pages'[p].data| == CHUNK && pages'[p].data[..|chunk|] == chunk
    ensures Readable(pages', ids + [p])
    ensures Reads(pages', ids + [p], CHUNK * |ids| + |chunk|) == Reads(pages, ids, CHUNK * |ids|) + chunk
  {
    ReadsSame(pages, pages', ids, CHUNK * |ids|);
    ReadsSnoc(pages', ids, p, |chunk|);
  }

  lemma {:induction false} ChainFacts(pages: seq<Page>, uses: seq<Use>, free: seq<PageId>, firstFree: PageId,
        chains: map<PageId, seq<PageId>>, first: PageId)
    requires Folded(pages, uses, free, firstFree, chains) && first in chains
    ensures var ids := chains[first];
      ids != [] && ids[0] == first && Readable(pages, ids) && forall k :: 0 <= k < |ids| ==> LinkedAt(pages, ids, k)
  {
    assert Unfold(0);
    var ids := chains[first];
    assert ChainOk(pages, uses, first, ids);
    forall k | 0 <= k < |ids| ensures ids[k] < |pages| {
      assert LinkedAt(pages, ids, k) && ids[k] in ids;
    }
  }

  /** The reading loop after `k` pages. */
  ghost predicate ReadSoFar(pages: seq<Page>, ids: seq<PageId>, length: nat, k: nat, curr: PageId, bytesRead: nat,
        value: Bytes)
  {
    && Readable(pages, ids) && (forall i :: 0 <= i < |ids| ==> LinkedAt(pages, ids, i))
    && k <= |ids| && curr == (if k < |ids| then ids[k] else 0) && bytesRead <= length
    && value + Reads(pages, ids[k..], length - bytesRead) == Reads(pages, ids, length)
  }

  lemma {:induction false} ReadStarts(pages: seq<Page>, ids: seq<PageId>, length: nat)
    requires Readable(pages, ids) && ids != [] && forall i :: 0 <= i < |ids| ==> LinkedAt(pages, ids, i)
    ensures ReadSoFar(pages, ids, length, 0, ids[0], 0, [])
  {
    assert ids[0..] == ids && [] + Reads(pages, ids, length) == Reads(pages, ids, length);
  }

  lemma {:induction false} ReadOn(pages: seq<Page>, ids: seq<PageId>, length: nat, k: nat, curr: PageId, bytesRead: nat,
        value: Bytes)
    requires ReadSoFar(pages, ids, length, k, curr, bytesRead, value) && curr != 0
    ensures k < |ids| && curr < |pages| && |pages[curr].data| == CHUNK
    ensures var n := Min(length - bytesRead, CHUNK);
      ReadSoFar(pages, ids, length, k + 1, pages[curr].link, bytesRead + n, value + pages[curr].data[..n])
  {
    var n := Min(length - bytesRead, CHUNK);
    assert LinkedAt(pages, ids, k);
    ReadsNext(pages, ids, k, length - bytesRead);
    var rest := Reads(pages, ids[k + 1..], length - bytesRead - n);
    assert value + (pages[curr].data[..n] + rest) == value + pages[curr].data[..n] + rest;
  }

  lemma {:induction false} ReadEnds(pages: seq<Page>, ids: seq<PageId>, length: nat, k: nat, bytesRead: nat,
        value: Bytes)
    requires ReadSoFar(pages, ids, length, k, 0, bytesRead, value)
    ensures Readable(pages, ids) && value == Reads(pages, ids, length)
  {
    assert k == |ids| by { assert k < |ids| ==> LinkedAt(pages, ids, k); }
    assert ids[k..] == [];
    assert value + [] == value;
  }

  lemma {:induction false} ReadsNext(pages: seq<Page>, ids: seq<PageId>, k: nat, length: nat)
    requires Readable(pages, ids) && k < |ids|
    ensures var n := Min(length, CHUNK);
      Reads(pages, ids[k..], length) == pages[ids[k]].data[..n] + Reads(pages, ids[k + 1..], length - n)
  {
    assert ids[k..][1..] == ids[k + 1..];
  }

  lemma {:induction false} FreshForChain(pages: seq<Page>, uses: seq<Use>, chains: map<PageId, seq<PageId>>, p: PageId)
    requires ChainsOk(pages, uses, chains) && p < |uses| && uses[p] == InUse
    ensures p !in chains && forall f :: f in chains ==> p !in chains[f]
  {
    forall f | f in chains ensures p != f && p !in chains[f] {
      assert ChainOk(pages, uses, f, chains[f]) && chains[f][0] in chains[f];
    }
  }

  /** Extending a chain keeps the whole file in order. */
  lemma {:induction false} Extending(pages: seq<Page>, uses: seq<Use>, free: seq<PageId>, firstFree: PageId,
        chains: map<PageId, seq<PageId>>, first: PageId, prev: PageId, p: PageId, chunk: Bytes, ids: seq<PageId>)
    requires Folded(pages, uses, free, firstFree, chains)
    requires 0 < p < |pages| == |uses| && uses[p] == InUse && pages[p].kind == OverflowPage
    requires |chunk| <= CHUNK == |pages[p].data|
    requires if ids == [] then prev == 0 && first == p
             else first in chains && chains[first] == ids && prev == ids[|ids| - 1] && 0 < prev < |pages|
    ensures var pages', uses' := Extended(pages, prev, p, chunk), uses[p := ChainUse(first)];
      var chains' := chains[first := ids + [p]];
      Folded(pages', uses', free, firstFree, chains') && ChainOk(pages', uses', first, ids + [p])
    ensures (ids == [] ==> first !in chains) && (ids != [] ==> prev != p)
  {
    assert Unfold(0);
    var pages', uses' := Extended(pages, prev, p, chunk), uses[p := ChainUse(first)];
    var chains' := chains[first := ids + [p]];
    FreshForChain(pages, uses, chains, p);
    if ids != [] {
      assert ChainOk(pages, uses, first, ids) && ids[|ids| - 1] in ids;
      assert uses[prev] == ChainUse(first);
    }
    FreeListKept(pages, uses, free, firstFree, pages', uses');
    ChainExtended(pages, uses, chains, first, ids, p, pages', uses');
    PagesExtended(pages, uses, prev, p, chunk, first);
    assert chains'[first] == ids + [p];
  }

  lemma {:induction false} PagesExtended(pages: seq<Page>, uses: seq<Use>, prev: PageId, p: PageId, chunk: Bytes,
        first: PageId)
    requires PagesOk(pages, uses) && 0 < p < |pages| && prev < |pages| && |chunk| <= CHUNK == |pages[p].data|
    requires pages[p].kind == OverflowPage && uses[p] == InUse && (prev != 0 ==> uses[prev].ChainUse?)
    ensures PagesOk(Extended(pages, prev, p, chunk), uses[p := ChainUse(first)])
  {
  }

  /** The chain reads as the first `done` bytes of the value. */
  ghost predicate ReadsBack(pages: seq<Page>, ids: seq<PageId>, value: Bytes, done: nat) {
    done <= |value| && Readable(pages, ids) && Reads(pages, ids, done) == value[..done]
  }

  /** After `k` allocations: free pages went first, the file grew by the rest. */
  predicate Grown(pages0: nat, free0: nat, k: nat, pages: nat, free: nat) {
    pages == pages0 + Excess(k, free0) && free == Excess(free0, k)
  }

  /** The value cut into chunks: `k` pages hold its first `done` bytes, `rest` is still to come. */
  ghost predicate Chunked(value: Bytes, rest: Bytes, k: nat, done: nat) {
    && done <= |value| && rest == value[done..]
    && k == PagesFor(done) && (rest != [] ==> done == CHUNK * k)
  }

  lemma {:induction false} ChunkStep(value: Bytes, rest: Bytes, k: nat, done: nat)
    requires Chunked(value, rest, k, done) && rest != []
    ensures var n := Min(|rest|, CHUNK);
      Chunked(value, rest[n..], k + 1, done + n) && value[..done + n] == value[..done] + rest[..n]
  {
    CeilStep(k, Min(|rest|, CHUNK));
  }

  lemma {:induction false} CeilStep(k: nat, n: nat)
    requires 0 < n <= CHUNK
    ensures PagesFor(CHUNK * k + n) == k + 1
  {
  }

  lemma {:induction false} FreeListKept(pages: seq<Page>, uses: seq<Use>, free: seq<PageId>, firstFree: PageId,
        pages': seq<Page>, uses': seq<Use>)
    requires FreeListOk(pages, uses, free, firstFree) && |pages'| == |pages| == |uses| == |uses'|
    requires forall p :: 0 <= p < |pages| && uses[p] == FreeUse ==> pages'[p] == pages[p]
    requires forall p :: 0 <= p < |uses| ==> (uses'[p] == FreeUse <==> uses[p] == FreeUse)
    ensures FreeListOk(pages', uses', free, firstFree)
  {
    forall i | 0 <= i < |free| ensures LinkedAt(pages', free, i) && pages'[free[i]] == pages[free[i]] {
      assert LinkedAt(pages, free, i) && free[i] in free;
    }
  }

  /** Page `p` joins the chain `ids` (or starts it) and nothing else changes use. */
  lemma {:induction false} ChainExtended(pages: seq<Page>, uses: seq<Use>, chains: map<PageId, seq<PageId>>,
        first: PageId, ids: seq<PageId>, p: PageId, pages': seq<Page>, uses': seq<Use>)
    requires ChainsOk(pages, uses, chains) && |pages| == |uses| == |pages'|
    requires 0 < p < |pages| && uses[p] == InUse && uses' == uses[p := ChainUse(first)]
    requires if ids == [] then first == p && first !in chains else first in chains && chains[first] == ids
    requires pages'[p].kind == OverflowPage && pages'[p].link == 0
    requires ids != [] ==> pages'[ids[|ids| - 1]] == pages[ids[|ids| - 1]].(link := p)
    requires forall q :: 0 <= q < |pages| && q != p && (ids == [] || q != ids[|ids| - 1]) ==> pages'[q] == pages[q]
    ensures ChainsOk(pages', uses', chains[first := ids + [p]])
  {
    var chains' := chains[first := ids + [p]];
    forall f | f in chains' ensures ChainOk(pages', uses', f, chains'[f]) {
      if f == first {
        ChainGrown(pages, uses, chains, first, ids, p, pages', uses');
      } else {
        ChainUntouched(pages, uses, chains, first, ids, p, pages', uses', f);
      }
    }
  }

  lemma {:induction false} ChainGrown(pages: seq<Page>, uses: seq<Use>, chains: map<PageId, seq<PageId>>, first: PageId,
        ids: seq<PageId>, p: PageId, pages': seq<Page>, uses': seq<Use>)
    requires ChainsOk(pages, uses, chains) && |pages| == |uses| == |pages'|
    requires 0 < p < |pages| && uses[p] == InUse && uses' == uses[p := ChainUse(first)]
    requires if ids == [] then first == p && first !in chains else first in chains && chains[first] == ids
    requires pages'[p].kind == OverflowPage && pages'[p].link == 0
    requires ids != [] ==> ids[|ids| - 1] < |pages| && pages'[ids[|ids| - 1]] == pages[ids[|ids| - 1]].(link := p)
    requires forall q :: 0 <= q < |pages| && q != p && (ids == [] || q != ids[|ids| - 1]) ==> pages'[q] == pages[q]
    ensures ChainOk(pages', uses', first, ids + [p])
  {
    var ids' := ids + [p];
    if ids != [] { assert ChainOk(pages, uses, first, ids); }
    assert forall i :: 0 <= i < |ids| ==> ids[i] in ids;
    forall i | 0 <= i < |ids'| ensures LinkedAt(pages', ids', i) && pages'[ids'[i]].kind == OverflowPage {
      if i < |ids| { assert LinkedAt(pages, ids, i); }
    }
  }

  lemma {:induction false} ChainUntouched(pages: seq<Page>, uses: seq<Use>, chains: map<PageId, seq<PageId>>,
        first: PageId, ids: seq<PageId>, p: PageId, pages': seq<Page>, uses': seq<Use>, f: PageId)
    requires ChainsOk(pages, uses, chains) && |pages| == |uses| == |pages'| && f in chains && f != first
    requires 0 < p < |pages| && uses[p] == InUse && uses' == uses[p := ChainUse(first)]
    requires ids != [] ==> first in chains && chains[first] == ids
    requires forall q :: 0 <= q < |pages| && q != p && (ids == [] || q != ids[|ids| - 1]) ==> pages'[q] == pages[q]
    ensures ChainOk(pages', uses', f, chains[f])
  {
    var xs := chains[f];
    assert ChainOk(pages, uses, f, xs);
    if ids != [] { assert ChainOk(pages, uses, first, ids) && ids[|ids| - 1] in ids; }
    forall i | 0 <= i < |xs| ensures LinkedAt(pages', xs, i) && pages'[xs[i]] == pages[xs[i]] {
      assert LinkedAt(pages, xs, i) && xs[i] in xs;
    }
  }

  /** The free list without its head. */
  lemma {:induction false} Popped(pages: seq<Page>, uses: seq<Use>, free: seq<PageId>, kind: Kind)
    requires |uses| == |pages| && free != [] && FreeListOk(pages, uses, free, free[0])
    ensures free[0] < |pages|
    ensures var p := free[0];
      FreeListOk(pages[p := pages[p].(kind := kind)], uses[p := InUse], free[1..], pages[p].link)
  {
    var p, rest := free[0], free[1..];
    assert LinkedAt(pages, free, 0);
    var pages', uses' := pages[p := pages[p].(kind := kind)], uses[p := InUse];
    forall i | 0 <= i < |rest| ensures LinkedAt(pages', rest, i) && pages'[rest[i]].kind == FreePage {
      assert LinkedAt(pages, free, i + 1);
      assert free[i + 1] != free[0];
    }
    forall q ensures q in rest <==> 0 <= q < |uses'| && uses'[q] == FreeUse {
      assert q in free <==> q == p || q in rest by { assert free == [p] + rest; }
    }
  }

  /** The free list with a page pushed onto it. */
  lemma {:induction false} Pushed(pages: seq<Page>, uses: seq<Use>, free: seq<PageId>, p: PageId)
    requires |uses| == |pages| && FreeListOk(pages, uses, free, First(free)) && 0 < p < |pages| && uses[p] != FreeUse
    ensures FreeListOk(pages[p := pages[p].(kind := FreePage, link := First(free))], uses[p := FreeUse], [p] + free, p)
  {
    var pages', uses' := pages[p := pages[p].(kind := FreePage, link := First(free))], uses[p := FreeUse];
    var free' := [p] + free;
    forall i | 0 <= i < |free'| ensures LinkedAt(pages', free', i) && pages'[free'[i]].kind == FreePage {
      if i > 0 {
        assert LinkedAt(pages, free, i - 1) && free[i - 1] in free;
      }
    }
    assert forall i :: 0 <= i < |free| ==> free[i] in free;
  }

  lemma {:induction false} Unchain(pages: seq<Page>, uses: seq<Use>, chains: map<PageId, seq<PageId>>, first: PageId)
    requires ChainsOk(pages, uses, chains)
    ensures ChainsOk(pages, Unchained(uses, first), chains - {first})
  {
    forall f | f in chains - {first} ensures ChainOk(pages, Unchained(uses, first), f, chains[f]) {
      assert ChainOk(pages, uses, f, chains[f]);
    }
  }

  lemma {:induction false} UnchainedFree(uses: seq<Use>, free: seq<PageId>, first: PageId)
    requires Holds(free, uses, FreeUse)
    ensures Holds(free, Unchained(uses, first), FreeUse)
  {
  }

  // ---- Whole runs ----

  /** Store a value under the next number, or free the value stored under a number. */
  datatype Op = Put(value: Bytes) | Drop(number: nat)

  /** The values that are stored after the operations, by number. */
  function Live(ops: seq<Op>): map<nat, Bytes> {
    if ops == [] then map[]
    else
      var before, op := Live(ops[..|ops| - 1]), ops[|ops| - 1];
      match op
      case Put(v) => before[|ops| - 1 := v]
      case Drop(n) => before - {n}
  }

  lemma {:induction false} LiveNumbers(ops: seq<Op>)
    ensures forall n :: n in Live(ops) ==> n < |ops|
  {
    if ops != [] { LiveNumbers(ops[..|ops| - 1]); }
  }

  /** A stored value: its first page and what reading the chain gives. */
  ghost predicate Stored(pages: seq<Page>, chains: map<PageId, seq<PageId>>, first: PageId, v: Bytes) {
    if first == 0 then v == []
    else first in chains && Readable(pages, chains[first]) && Reads(pages, chains[first], |v|) == v
  }

  /** A chain whose pages keep their contents still reads the same. */
  lemma {:induction false} ReadsKept(pages: seq<Page>, uses: seq<Use>, f: PageId, ids: seq<PageId>, pages': seq<Page>,
        length: nat)
    requires ChainOk(pages, uses, f, ids) && Readable(pages, ids) && |uses| == |pages| <= |pages'|
    requires forall q :: 0 <= q < |pages| && uses[q] == ChainUse(f) ==> pages'[q] == pages[q]
    ensures Readable(pages', ids) && Reads(pages', ids, length) == Reads(pages, ids, length)
  {
    assert forall i :: 0 <= i < |ids| ==> ids[i] in ids;
    ReadsSame(pages, pages', ids, length);
  }

  /** Every live value is stored, and no two of them share a chain. */
  ghost predicate AllStored(file: PageFile, firsts: map<nat, PageId>, lengths: map<nat, nat>, live: map<nat, Bytes>)
    reads file
  {
    && firsts.Keys == live.Keys && lengths.Keys == live.Keys
    && (forall n :: n in live ==> lengths[n] == |live[n]| && Stored(file.pages, file.chains, firsts[n], live[n]))
    && (forall m, n :: m in live && n in live && m != n && firsts[m] != 0 ==> firsts[m] != firsts[n])
  }

  method DoPut(file: PageFile, n: nat, v: Bytes, firsts: map<nat, PageId>, lengths: map<nat, nat>,
        ghost live: map<nat, Bytes>)
    returns (firsts': map<nat, PageId>, lengths': map<nat, nat>)
    requires file.Valid() && AllStored(file, firsts, lengths, live) && n !in live
    modifies file
    ensures file.Valid() && AllStored(file, firsts', lengths', live[n := v])
  {
    ghost var pages0, uses0, chains0 := file.pages, file.uses, file.chains;
    ghost var free0, firstFree0 := file.free, file.firstFree;
    var first := file.CreateOverflowChain(v);
    forall m | m in live && firsts[m] != 0 ensures Stored(file.pages, file.chains, firsts[m], live[m]) {
      StoredKept(pages0, uses0, free0, firstFree0, chains0, file.pages, file.chains, firsts[m], live[m], 0);
    }
    firsts', lengths' := firsts[n := first], lengths[n := |v|];
    OneMoreStored(file, firsts, lengths, live, n, first, v);
  }

  lemma {:induction false} OneMoreStored(file: PageFile, firsts: map<nat, PageId>, lengths: map<nat, nat>,
        live: map<nat, Bytes>, n: nat, first: PageId, v: Bytes)
    requires AllStored(file, firsts, lengths, live) && n !in live && Stored(file.pages, file.chains, first, v)
    requires forall m :: m in live && firsts[m] != 0 ==> firsts[m] != first
    ensures AllStored(file, firsts[n := first], lengths[n := |v|], live[n := v])
  {
  }

  method DoDrop(file: PageFile, n: nat, firsts: map<nat, PageId>, lengths: map<nat, nat>, ghost live: map<nat, Bytes>)
    returns (firsts': map<nat, PageId>, lengths': map<nat, nat>)
    requires file.Valid() && AllStored(file, firsts, lengths, live)
    modifies file
    ensures file.Valid() && AllStored(file, firsts', lengths', live - {n})
  {
    ghost var pages0, uses0, chains0 := file.pages, file.uses, file.chains;
    ghost var free0, firstFree0 := file.free, file.firstFree;
    firsts', lengths' := firsts - {n}, lengths - {n};
    if n in firsts && firsts[n] != 0 {
      var first := firsts[n];
      file.FreeOverflowChain(first);
      forall m | m in live && m != n && firsts[m] != 0 ensures Stored(file.pages, file.chains, firsts[m], live[m]) {
        StoredKept(pages0, uses0, free0, firstFree0, chains0, file.pages, file.chains, firsts[m], live[m], first);
      }
    }
  }

  method ReadAll(file: PageFile, firsts: map<nat, PageId>, lengths: map<nat, nat>, ghost live: map<nat, Bytes>)
    returns (out: map<nat, Bytes>)
    requires file.Valid() && AllStored(file, firsts, lengths, live)
    ensures out == live
  {
    out := map[];
    var rest := firsts.Keys;
    while rest != {}
      invariant rest <= firsts.Keys && out.Keys == firsts.Keys - rest
      invariant forall n :: n in out ==> out[n] == live[n]
      decreases rest
    {
      var n :| n in rest;
      var v := file.ReadOverflowChain(firsts[n], lengths[n]);
      out := out[n := v];
      rest := rest - {n};
    }
  }

  /** Over any sequence of chain creations and frees in a fresh file, every value that was not
      freed is read back unchanged at the end. */
  method StoreAndRead(ops: seq<Op>) returns (out: map<nat, Bytes>)
    ensures out == Live(ops)
  {
    var file := new PageFile();
    var firsts: map<nat, PageId>, lengths: map<nat, nat> := map[], map[];
    for i := 0 to |ops|
      invariant file.Valid() && fresh(file) && AllStored(file, firsts, lengths, Live(ops[..i]))
    {
      assert ops[..i + 1][..i] == ops[..i];
      LiveNumbers(ops[..i]);
      match ops[i] {
        case Put(v) => firsts, lengths := DoPut(file, i, v, firsts, lengths, Live(ops[..i]));
        case Drop(n) => firsts, lengths := DoDrop(file, n, firsts, lengths, Live(ops[..i]));
      }
    }
    assert ops[..|ops|] == ops;
    out := ReadAll(file, firsts, lengths, Live(ops));
  }

  /** A stored value survives whatever left the pages of its chain alone. */
  lemma {:induction false} StoredKept(pages: seq<Page>, uses: seq<Use>, free: seq<PageId>, firstFree: PageId,
        chains: map<PageId, seq<PageId>>, pages': seq<Page>, chains': map<PageId, seq<PageId>>, first: PageId, v: Bytes,
        freed: PageId)
    requires Folded(pages, uses, free, firstFree, chains) && Stored(pages, chains, first, v)
    requires first != 0 && first != freed && first in chains' && chains'[first] == chains[first] && |pages'| >= |pages|
    requires forall q :: 0 <= q < |pages| && q < |uses| ==>
               uses[q] in {FreeUse, ChainUse(freed)} || pages'[q] == pages[q]
    ensures Stored(pages', chains', first, v)
  {
    assert Unfold(0);
    ReadsKept(pages, uses, first, chains[first], pages', |v|);
  }
}
