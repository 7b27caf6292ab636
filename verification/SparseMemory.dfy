/** The sparse memory of malloc/memlib.c: pages found through a hash table stand for a flat byte memory. */
module SparseMemory {
  import opened BoundaryTags
  import opened Bytes
  import opened FlatMemory

  /** `q` is the last of the first `upto` pages in chain `b`, or -1. */
  ghost predicate LastIn(q: int, ids: seq<nat>, upto: nat, b: nat, buckets: nat)
    requires upto <= |ids| && buckets > 0
  {
    && -1 <= q < upto && (q >= 0 ==> ids[q] % buckets == b)
    && forall p | q < p < upto :: ids[p] % buckets != b
  }

  /** The chains: each page links to the page before it in its own chain, and every id occurs once. */
  ghost predicate Chained(heads: seq<int>, ids: seq<nat>, nexts: seq<int>) {
    && |ids| == |nexts| && |heads| > 0
    && (forall b | 0 <= b < |heads| :: LastIn(heads[b], ids, |ids|, b, |heads|))
    && (forall p | 0 <= p < |ids| :: LastIn(nexts[p], ids, p, ids[p] % |heads|, |heads|))
    && (forall p, q | 0 <= p < q < |ids| :: ids[p] != ids[q])
  }

  /** A new page in front of its chain keeps the chains. */
  lemma ChainGrows(heads: seq<int>, ids: seq<nat>, nexts: seq<int>, id: nat)
    requires Chained(heads, ids, nexts) && id !in ids
    ensures Chained(heads[id % |heads| := |ids|], ids + [id], nexts + [heads[id % |heads|]])
  {
    var h, i, n := heads[id % |heads| := |ids|], ids + [id], nexts + [heads[id % |heads|]];
    forall b | 0 <= b < |h| ensures LastIn(h[b], i, |i|, b, |h|) {
      assert LastIn(heads[b], ids, |ids|, b, |heads|);
      forall p | h[b] < p < |i| ensures i[p] % |h| != b {
      }
    }
    forall p | 0 <= p < |i| ensures LastIn(n[p], i, p, i[p] % |h|, |h|) {
      if p < |ids| {
        assert LastIn(nexts[p], ids, p, ids[p] % |heads|, |heads|);
        assert forall q | n[p] < q < p :: i[q] == ids[q];
      } else {
        assert LastIn(heads[id % |heads|], ids, |ids|, id % |heads|, |heads|);
        assert forall q | n[p] < q < p :: i[q] == ids[q];
      }
    }
  }

  /** The search for `id` has come to `p`: it is in the right chain, and no later page has that id. */
  ghost predicate PastIn(p: int, ids: seq<nat>, id: nat, buckets: nat)
    requires buckets > 0
  {
    && -1 <= p < |ids| && (p >= 0 ==> ids[p] % buckets == id % buckets)
    && forall q | p < q < |ids| :: ids[q] != id
  }

  lemma ChainStart(heads: seq<int>, ids: seq<nat>, nexts: seq<int>, id: nat)
    requires Chained(heads, ids, nexts)
    ensures PastIn(heads[id % |heads|], ids, id, |heads|)
  {
    assert LastIn(heads[id % |heads|], ids, |ids|, id % |heads|, |heads|);
  }

  lemma ChainStep(heads: seq<int>, ids: seq<nat>, nexts: seq<int>, id: nat, p: nat)
    requires Chained(heads, ids, nexts) && PastIn(p, ids, id, |heads|) && ids[p] != id
    ensures PastIn(nexts[p], ids, id, |heads|) && nexts[p] < p
  {
    assert LastIn(nexts[p], ids, p, ids[p] % |heads|, |heads|);
  }

  /** The bytes from offset `o + k` of a page on are those of `v`, as far as the page and eight bytes from `o` go. */
  ghost predicate Loaded(v: nat, page: seq<Byte>, o: nat, k: nat) {
    forall x: nat | o + k <= x < o + 8 && x < |page| :: page[x] == ByteOf(v, x - o - k)
  }

  lemma LoadedStep(v: nat, b: Byte, page: seq<Byte>, o: nat, k: nat)
    requires Loaded(v, page, o, k + 1) && (o + k < |page| ==> page[o + k] == b)
    ensures Loaded(b + 256 * v, page, o, k)
  {
    assert (b + 256 * v) / 256 == v && (b + 256 * v) % 256 == b;
    forall x: nat | o + k <= x < o + 8 && x < |page| ensures page[x] == ByteOf(b + 256 * v, x - o - k) {
      assert x > o + k ==> ByteOf(b + 256 * v, x - o - k) == ByteOf(v, x - o - (k + 1));
    }
  }

  /** A byte that is not the memory's own. */
  method AnyByte() returns (b: Byte) {
    b := *;
  }

  /** `memcpy` of `n` bytes of `w`, from byte `from` on, to offset `o` of block `p`. */
  method CopyIn(bytes: array2<Byte>, p: nat, o: nat, w: nat, from: nat, n: nat)
    requires p < bytes.Length0 && o + n <= bytes.Length1
    modifies bytes
    ensures forall q, x | 0 <= q < bytes.Length0 && 0 <= x < bytes.Length1 ::
      bytes[q, x] == if q == p && o <= x < o + n then ByteOf(w, from + x - o) else old(bytes[q, x])
  {
    var k := 0;
    while k < n
      invariant 0 <= k <= n
      invariant forall q, x | 0 <= q < bytes.Length0 && 0 <= x < bytes.Length1 ::
        bytes[q, x] == if q == p && o <= x < o + k then ByteOf(w, from + x - o) else old(bytes[q, x])
    {
      bytes[p, o + k] := ByteOf(w, from + k);
      k := k + 1;
    }
  }

  /** A word loaded from a page shows the bytes that lie within it. */
  lemma ReadOne(m: Pages, a: nat, w: Word, len: nat)
    requires WellPaged(m) && Has(m, a) && len <= 8 && Offset(a) + len <= PAGE_SIZE
             && Loaded(w, m[PageId(a)], Offset(a), 0)
    ensures Shows(m, a, w, len)
  {
    forall x: nat | a <= x < a + len ensures Has(m, x) && At(m, x) == ByteOf(w, x - a) {
      NearBy(a, x - a);
    }
  }

  /** Two words loaded from neighbouring pages show the bytes on both sides of the border. */
  lemma ReadTwo(m: Pages, a: nat, low: Word, high: Word, llen: nat, len: nat)
    requires WellPaged(m) && Has(m, a) && Has(m, a + llen) && llen == PAGE_SIZE - Offset(a) < len <= 8
    requires Loaded(low, m[PageId(a)], Offset(a), 0) && Loaded(high, m[PageId(a + llen)], 0, 0)
    ensures Shows(m, a, Combined(low, high, llen), len)
  {
    NearBy(a, llen);
    forall x: nat | a <= x < a + len ensures Has(m, x) && At(m, x) == ByteOf(Combined(low, high, llen), x - a) {
      NearBy(a, x - a);
      CombinedByte(low, high, llen, x - a);
    }
  }

  /** The mask at the end of a read leaves what the read shows. */
  lemma ReadMasked(m: Pages, a: nat, w: Word, len: nat)
    requires WellPaged(m) && Shows(m, a, w, len)
    ensures Shows(m, a, Masked(w, len), len)
  {
    forall x: nat | a <= x < a + len ensures Has(m, x) && At(m, x) == ByteOf(Masked(w, len), x - a) {
      MaskedByte(w, len, x - a);
    }
  }

  /** The free blocks that taking a page into use costs. */
  ghost function Price(m: Pages, id: nat): nat {
    if id in m then 0 else 1
  }

  /** The free blocks that an access costs. */
  ghost function Cost(m: Pages, a: nat, n: nat): nat
    requires a >= HEAP_START
  {
    if Crosses(a, n) then Price(m, PageId(a)) + Price(m, PageId(Border(a))) else Price(m, PageId(a))
  }

  /** The pages in use are those from before and `i` and `j`. */
  ghost predicate InUse(m: Pages, r: Pages, i: nat, j: nat) {
    (forall id | id in m :: id in r) && i in r && j in r && forall id | id in r :: id in m || id == i || id == j
  }

  /** The pages of an access are in use now, for their price. */
  ghost predicate UsedBy(m: Pages, r: Pages, a: nat, n: nat, free: nat, left: nat)
    requires a >= HEAP_START
  {
    InUse(m, r, PageId(a), LastPage(a, n)) && left + Cost(m, a, n) == free
  }

  /** The page `i` has been taken into use or not, and there was no block for `i` or none for `j`. */
  ghost predicate Stuck(m: Pages, r: Pages, i: nat, j: nat) {
    (forall id | id in m :: id in r) && (forall id | id in r :: id in m || id == i) && (i !in r || j !in r)
  }

  /** The page of the last of at most eight bytes. */
  function LastPage(a: nat, n: nat): nat
    requires a >= HEAP_START
  {
    if Crosses(a, n) then PageId(Border(a)) else PageId(a)
  }

  lemma PriceKept(m: Pages, r: Pages, i: nat, j: nat)
    requires InUse(m, r, i, i) && i != j
    ensures Price(r, j) == Price(m, j)
  {
  }

  lemma InUseTwice(m: Pages, r: Pages, s: Pages, i: nat, j: nat)
    requires InUse(m, r, i, i) && InUse(r, s, j, j)
    ensures InUse(m, s, i, j)
  {
  }

  /** The pages of an access of at most eight bytes. */
  lemma FewPages(a: nat, n: nat)
    requires a >= HEAP_START && 1 <= n <= PAGE_SIZE
    ensures forall id :: id in PagesOf(a, n) <==> id == PageId(a) || id == LastPage(a, n)
  {
    NearBy(a, n - 1);
    assert PageId(a + n - 1) == LastPage(a, n) <= PageId(a) + 1;
    forall id: nat ensures id in PagesOf(a, n) <==> id == PageId(a) || id == LastPage(a, n) {
      InPagesOf(a, n, id);
    }
  }

  lemma UsedGrew(m: Pages, r: Pages, a: nat, n: nat, free: nat, left: nat)
    requires a >= HEAP_START && 1 <= n <= PAGE_SIZE && UsedBy(m, r, a, n, free, left)
    ensures Grew(m, r, PagesOf(a, n))
  {
    FewPages(a, n);
  }

  lemma StuckHalted(m: Pages, r: Pages, a: nat, n: nat)
    requires a >= HEAP_START && 1 <= n <= PAGE_SIZE && Stuck(m, r, PageId(a), LastPage(a, n))
    ensures Halted(m, r, PagesOf(a, n))
  {
    FewPages(a, n);
    assert PageId(a) in PagesOf(a, n) && LastPage(a, n) in PagesOf(a, n);
    assert Missing(r, PagesOf(a, n), PageId(a)) || Missing(r, PagesOf(a, n), LastPage(a, n));
  }

  /** The pages of the source and of the copy after one word more. */
  lemma CopyPages(dst: nat, src: nat, d: nat, to: nat, from: nat, k: nat, n: nat)
    returns (t: set<nat>, u: set<nat>, v: set<nat>, all: set<nat>)
    requires dst >= HEAP_START && src >= HEAP_START && d + k <= n && to == dst + d && from == src + d
    ensures t == PagesOf(src, d) + PagesOf(dst, d) && u == t + PagesOf(from, k)
    ensures v == PagesOf(src, d + k) + PagesOf(dst, d + k) && v == u + PagesOf(to, k)
    ensures all == PagesOf(src, n) + PagesOf(dst, n) && v <= all
  {
    t, all := PagesOf(src, d) + PagesOf(dst, d), PagesOf(src, n) + PagesOf(dst, n);
    u := t + PagesOf(from, k);
    v := u + PagesOf(to, k);
    MorePages(src, d, from, k, n);
    MorePages(dst, d, to, k, n);
    Regrouped(PagesOf(src, d), PagesOf(dst, d), PagesOf(from, k), PagesOf(to, k));
  }

  lemma Regrouped(a: set<nat>, b: set<nat>, c: set<nat>, d: set<nat>)
    ensures ((a + b) + c) + d == (a + c) + (b + d)
  {
  }

  /** As many pages are in use as blocks are. */
  lemma {:induction false} DistinctIds(ids: seq<nat>, keys: set<nat>)
    requires (forall p, q | 0 <= p < q < |ids| :: ids[p] != ids[q]) && forall id :: id in keys <==> id in ids
    ensures |keys| == |ids|
  {
    if ids == [] {
      assert keys == {};
    } else {
      var id, rest := ids[|ids| - 1], ids[..|ids| - 1];
      assert ids == rest + [id];
      DistinctIds(rest, keys - {id});
    }
  }

  /** Each half of an access of sixteen bytes costs no more than the whole. */
  lemma HalfCheaper(m: Pages, a: nat, next: nat)
    requires a >= HEAP_START && next == a + 8
    ensures Cost(m, a, 8) <= Cost(m, a, 16) && Cost(m, next, 8) <= Cost(m, a, 16)
  {
    NearBy(a, 8);
  }

  /** An access of sixteen bytes costs what its halves cost one after the other, whichever comes first. */
  lemma HalvesCost(m: Pages, r: Pages, a: nat, next: nat, first: nat, second: nat, free: nat, left: nat)
    requires a >= HEAP_START && next == a + 8 && ((first == a && second == next) || (first == next && second == a))
    requires UsedBy(m, r, first, 8, free, left)
    ensures Cost(m, a, 16) == Cost(m, first, 8) + Cost(r, second, 8)
  {
    NearBy(a, 8);
  }

  /** The bytes of `w` from `from` on are at the `n` addresses from `a`, and no other byte changed. */
  ghost predicate Stored(m: Pages, r: Pages, a: nat, w: nat, from: nat, n: nat)
    requires WellPaged(m) && WellPaged(r)
  {
    KeptOutside(m, r, a, n) && forall x: nat | a <= x < a + n :: Has(r, x) && At(r, x) == ByteOf(w, from + x - a)
  }

  lemma StoredAfterGrowth(m: Pages, r: Pages, s: Pages, a: nat, w: nat, from: nat, n: nat)
    requires WellPaged(m) && WellPaged(r) && WellPaged(s) && Kept(m, r) && Stored(r, s, a, w, from, n)
    ensures Stored(m, s, a, w, from, n)
  {
    forall x: nat | Has(m, x) && !(a <= x < a + n) ensures Has(s, x) && At(s, x) == At(m, x) {
      KeptAt(m, r, x);
    }
  }

  /** Two stores side by side are one store. */
  lemma StoredTwice(m: Pages, r: Pages, s: Pages, a: nat, b: nat, w: nat, l: nat, k: nat, n: nat)
    requires WellPaged(m) && WellPaged(r) && WellPaged(s) && b == a + l && n == l + k
    requires Stored(m, r, a, w, 0, l) && Stored(r, s, b, w, l, k)
    ensures KeptOutside(m, s, a, n) && Shows(s, a, w, n)
  {
    forall x: nat | a <= x < a + n ensures Has(s, x) && At(s, x) == ByteOf(w, x - a) {
      assert x < a + l ==> Has(r, x) && At(r, x) == ByteOf(w, x - a);
    }
  }

  class SparseMemory {
    const heads: array<int>
    const ids: array<nat>
    const nexts: array<int>
    const bytes: array2<Byte>
    var nextFreePage: nat
    var numFreePages: nat
    var memBrk: nat
    /** The pages in use, by id. */
    ghost var pages: Pages

    /** The table and the page blocks hold exactly `pages`. */
    ghost predicate Holds()
      reads this, heads, ids, nexts, bytes
    {
      && heads != nexts && ids.Length == nexts.Length == bytes.Length0 && bytes.Length1 == PAGE_SIZE
      && nextFreePage + numFreePages == ids.Length
      && Chained(heads[..], ids[..nextFreePage], nexts[..nextFreePage])
      && WellPaged(pages)
      && (forall p | 0 <= p < nextFreePage :: ids[p] in pages && InBlock(p, pages[ids[p]]))
      && (forall id | id in pages :: id in ids[..nextFreePage])
    }

    ghost predicate InBlock(p: nat, page: seq<Byte>)
      requires p < bytes.Length0 && bytes.Length1 == PAGE_SIZE && |page| == PAGE_SIZE
      reads bytes
    {
      forall o | 0 <= o < PAGE_SIZE :: bytes[p, o] == page[o]
    }

    ghost predicate Valid()
      reads this, heads, ids, nexts, bytes
    {
      Holds() && HEAP_START <= memBrk <= HEAP_START + MAX_HEAP
    }

    /** `mem_init` for the sparse heap, then `mem_reset_brk`. */
    constructor (numPages: nat, numBuckets: nat)
      requires numBuckets > 0
      ensures Valid() && pages == map[] && memBrk == HEAP_START && numFreePages == numPages
      ensures fresh(heads) && fresh(ids) && fresh(nexts) && fresh(bytes)
    {
      heads := new int[numBuckets];
      ids := new nat[numPages];
      nexts := new int[numPages];
      bytes := new Byte[numPages, PAGE_SIZE];
      nextFreePage, numFreePages, memBrk, pages := 0, numPages, HEAP_START, map[];
      new;
      ResetBrk();
    }

    /** `mem_reset_brk`: no page is in use any more; the bytes stay where they are. */
    method ResetBrk()
      requires heads != nexts && ids.Length == nexts.Length == bytes.Length0 && bytes.Length1 == PAGE_SIZE
               && heads.Length > 0
      modifies this, heads
      ensures Valid() && pages == map[] && memBrk == HEAP_START && nextFreePage == 0
    {
      var b := 0;
      while b < heads.Length
        invariant 0 <= b <= heads.Length && forall c | 0 <= c < b :: heads[c] == -1
      {
        heads[b] := -1;
        b := b + 1;
      }
      nextFreePage := 0;
      numFreePages := ids.Length;
      memBrk := HEAP_START;
      pages := map[];
    }

    /** `mem_sbrk`: the old break, or -1 when `incr` is negative or leads past the largest heap. */
    method Sbrk(incr: int) returns (before: int)
      requires Valid()
      modifies `memBrk
      ensures Valid()
      ensures before == if incr < 0 || old(memBrk) + incr > HEAP_START + MAX_HEAP then -1 else old(memBrk)
      ensures memBrk == if before == -1 then old(memBrk) else old(memBrk) + incr
    {
      if incr < 0 {
        return -1;
      }
      if memBrk + incr > HEAP_START + MAX_HEAP {
        return -1;
      }
      before := memBrk;
      memBrk := memBrk + incr;
    }

    /** The search loop of `get_mem`: the block of a page, or -1. */
    method FindPage(id: nat) returns (p: int)
      requires Holds()
      ensures -1 <= p < nextFreePage && (p == -1 <==> id !in pages)
      ensures p >= 0 ==> ids[p] == id
    {
      ghost var i, n := ids[..nextFreePage], nexts[..nextFreePage];
      var b := id % heads.Length;
      p := heads[b];
      ChainStart(heads[..], i, n, id);
      while p != -1 && ids[p] != id
        invariant PastIn(p, i, id, heads.Length)
        decreases p
      {
        assert p >= 0 && i[p] == ids[p] && n[p] == nexts[p];
        ChainStep(heads[..], i, n, id, p);
        p := nexts[p];
      }
      assert p != -1 ==> i[p] == id;
    }

    /** `get_mem` without the offset: the block of a page, taken into use if it was not; no block is left when `!ok`. */
    method GetPage(id: nat) returns (ok: bool, p: nat)
      requires Valid()
      modifies `nextFreePage, `numFreePages, `pages, heads, ids, nexts
      ensures Valid() && ok == (id in old(pages) || old(numFreePages) > 0)
      ensures ok ==> p < nextFreePage && ids[p] == id && pages.Keys == old(pages).Keys + {id} && Kept(old(pages), pages)
      ensures ok ==> numFreePages == if id in old(pages) then old(numFreePages) else old(numFreePages) - 1
      ensures !ok || id in old(pages) ==> pages == old(pages) && numFreePages == old(numFreePages)
    {
      var q := FindPage(id);
      if q != -1 {
        return true, q;
      }
      if numFreePages == 0 {
        return false, 0;
      }
      ok, p := true, nextFreePage;
      AddPage(id);
    }

    /** The first `n` bytes of a block. */
    ghost function BlockBytes(p: nat, n: nat): (s: seq<Byte>)
      requires p < bytes.Length0 && n <= bytes.Length1
      reads bytes
      ensures |s| == n && forall o | 0 <= o < n :: s[o] == bytes[p, o]
    {
      if n == 0 then [] else BlockBytes(p, n - 1) + [bytes[p, n - 1]]
    }

    /** The end of `get_mem`'s allocation: the next free block goes in front of its chain. */
    method AddPage(id: nat)
      requires Valid() && id !in pages && numFreePages > 0
      modifies `nextFreePage, `numFreePages, `pages, heads, ids, nexts
      ensures Valid() && nextFreePage == old(nextFreePage) + 1 && numFreePages == old(numFreePages) - 1
      ensures ids[old(nextFreePage)] == id && pages.Keys == old(pages).Keys + {id} && Kept(old(pages), pages)
    {
      ghost var h, i, n := heads[..], ids[..nextFreePage], nexts[..nextFreePage];
      ChainGrows(h, i, n, id);
      var b := id % heads.Length;
      var p := nextFreePage;
      nextFreePage := nextFreePage + 1;
      numFreePages := numFreePages - 1;
      ids[p] := id;
      nexts[p] := heads[b];
      heads[b] := p;
      assert heads[..] == h[b := |i|] && ids[..nextFreePage] == i + [id] && nexts[..nextFreePage] == n + [h[b]];
      pages := pages[id := BlockBytes(p, PAGE_SIZE)];
      assert forall q | 0 <= q < p :: ids[q] == i[q];
      assert (i + [id])[p] == id;
    }

    /** `*(uint64_t *)paddr`: the eight bytes from offset `o` of a block; what lies behind the block can be anything. */
    method LoadWord(p: nat, o: nat) returns (w: Word)
      requires Holds() && p < nextFreePage && o < PAGE_SIZE
      ensures Loaded(w, pages[ids[p]], o, 0)
    {
      ghost var page := pages[ids[p]];
      var v: nat, k := 0, 8;
      while k > 0
        invariant 0 <= k <= 8 && v < Pow256(8 - k) && Loaded(v, page, o, k)
      {
        k := k - 1;
        var b := AnyByte();
        if o + k < PAGE_SIZE {
          b := bytes[p, o + k];
        }
        LoadedStep(v, b, page, o, k);
        v := b + 256 * v;
      }
      WordIsEightBytes();
      w := v;
    }

    /** A store of `n` bytes of `w`, from byte `from` on, to offset `o` of page `id` in block `p`. */
    method StoreBytes(p: nat, ghost id: nat, o: nat, w: Word, from: nat, n: nat)
      requires Holds() && p < nextFreePage && ids[p] == id && o + n <= PAGE_SIZE
      modifies `pages, bytes
      ensures Holds() && pages == old(pages)[id := Put(old(pages)[id], o, w, from, n)]
    {
      ghost var i := ids[..nextFreePage];
      CopyIn(bytes, p, o, w, from, n);
      pages := pages[id := Put(pages[id], o, w, from, n)];
      assert i[p] == id;
      forall q | 0 <= q < nextFreePage ensures ids[q] in pages && InBlock(q, pages[ids[q]]) {
        assert i[q] == ids[q] && old(InBlock(q, pages[ids[q]]));
        if q != p {
          assert i[q] != i[p];
        }
      }
    }

    /** The page of `addr` and the word loaded from there. */
    method LoadAt(addr: nat) returns (ok: bool, w: Word)
      requires Valid() && HEAP_START <= addr
      modifies `nextFreePage, `numFreePages, `pages, heads, ids, nexts
      ensures Valid() && ok == (Price(old(pages), PageId(addr)) <= old(numFreePages))
      ensures ok ==> Kept(old(pages), pages) && InUse(old(pages), pages, PageId(addr), PageId(addr))
      ensures ok ==> numFreePages + Price(old(pages), PageId(addr)) == old(numFreePages)
      ensures ok ==> Loaded(w, pages[PageId(addr)], Offset(addr), 0)
      ensures !ok ==> pages == old(pages) && numFreePages == 0
    {
      var p;
      ok, p := GetPage(PageId(addr));
      if ok {
        w := LoadWord(p, Offset(addr));
      } else {
        w := 0;
      }
    }

    /** The second half of a read that crosses into the next page; `m` and `free` are from before the first half. */
    method ReadRest(addr: nat, len: nat, low: Word, ghost m: Pages, ghost free: nat) returns (ok: bool, w: Word)
      requires Valid() && HEAP_START <= addr && Crosses(addr, len) && len <= 8
      requires Kept(m, pages) && InUse(m, pages, PageId(addr), PageId(addr))
               && numFreePages + Price(m, PageId(addr)) == free
      requires Loaded(low, pages[PageId(addr)], Offset(addr), 0)
      modifies `nextFreePage, `numFreePages, `pages, heads, ids, nexts
      ensures Valid() && ok == (Cost(m, addr, len) <= free)
      ensures ok ==> Kept(m, pages) && UsedBy(m, pages, addr, len, free, numFreePages) && Shows(pages, addr, w, len)
      ensures !ok ==> numFreePages == 0 && Stuck(m, pages, PageId(addr), LastPage(addr, len))
    {
      var llen := PAGE_SIZE - (addr - PageStart(PageId(addr)));
      var next := addr + llen;
      assert next == Border(addr) && llen < len;
      ok, w := ReadNext(addr, len, low, llen, next, m, free);
    }

    /** The read of the next page, which starts at `next`, and the joining of the two words. */
    method ReadNext(addr: nat, len: nat, low: Word, llen: nat, next: nat, ghost m: Pages, ghost free: nat)
      returns (ok: bool, w: Word)
      requires Valid() && HEAP_START <= addr && 0 < llen < len <= 8 && next == addr + llen == Border(addr)
      requires Kept(m, pages) && InUse(m, pages, PageId(addr), PageId(addr))
               && numFreePages + Price(m, PageId(addr)) == free
      requires Loaded(low, pages[PageId(addr)], Offset(addr), 0)
      modifies `nextFreePage, `numFreePages, `pages, heads, ids, nexts
      ensures Valid() && ok == (Price(m, PageId(addr)) + Price(m, PageId(next)) <= free)
      ensures ok ==> Kept(m, pages) && InUse(m, pages, PageId(addr), PageId(next)) && Shows(pages, addr, w, len)
      ensures ok ==> numFreePages + Price(m, PageId(addr)) + Price(m, PageId(next)) == free
      ensures !ok ==> numFreePages == 0 && Stuck(m, pages, PageId(addr), PageId(next))
    {
      ghost var r := pages;
      PriceKept(m, r, PageId(addr), PageId(next));
      ok, w := LoadAt(next);
      if ok {
        InUseTwice(m, r, pages, PageId(addr), PageId(next));
        ReadTwo(pages, addr, low, w, llen, len);
        w := Combined(low, w, llen);
      }
    }

    /** `mem_read`: the `len` bytes at `addr` as a number; `!ok` when the blocks have run out. */
    method Read(addr: nat, len: nat) returns (ok: bool, w: Word)
      requires Valid() && 1 <= len <= 8 && HEAP_START <= addr && addr + len <= memBrk
      modifies `nextFreePage, `numFreePages, `pages, heads, ids, nexts
      ensures Valid() && ok == (Cost(old(pages), addr, len) <= old(numFreePages))
      ensures ok ==> Kept(old(pages), pages) && UsedBy(old(pages), pages, addr, len, old(numFreePages), numFreePages)
      ensures ok ==> w < Pow256(len) && Shows(pages, addr, w, len)
      ensures !ok ==> numFreePages == 0 && Stuck(old(pages), pages, PageId(addr), LastPage(addr, len))
    {
      ghost var m, free := pages, numFreePages;
      LastByte(addr, len);
      ok, w := LoadAt(addr);
      if ok && PageId(addr) != PageId(addr + len - 1) {
        ok, w := ReadRest(addr, len, w, m, free);
      } else if ok {
        ReadOne(pages, addr, w, len);
      }
      if !ok {
        return;
      }
      ReadMasked(pages, addr, w, len);
      MaskedIfShort(w, len);
      if len < 8 {
        w := Masked(w, len);
      }
    }

    /** A store of `n` bytes of `w`, from byte `from` on, that stays in the page of `addr`. */
    method StoreAt(addr: nat, w: Word, from: nat, n: nat) returns (ok: bool)
      requires Valid() && HEAP_START <= addr && !Crosses(addr, n)
      modifies `nextFreePage, `numFreePages, `pages, heads, ids, nexts, bytes
      ensures Valid() && ok == (Price(old(pages), PageId(addr)) <= old(numFreePages))
      ensures ok ==> Stored(old(pages), pages, addr, w, from, n)
      ensures ok ==> InUse(old(pages), pages, PageId(addr), PageId(addr))
      ensures ok ==> numFreePages + Price(old(pages), PageId(addr)) == old(numFreePages)
      ensures !ok ==> pages == old(pages) && numFreePages == 0
    {
      var p;
      ok, p := GetPage(PageId(addr));
      if ok {
        ghost var r := pages;
        StoreBytes(p, PageId(addr), Offset(addr), w, from, n);
        PutShows(r, addr, w, from, n, pages);
        StoredAfterGrowth(old(pages), r, pages, addr, w, from, n);
      }
    }

    /** The two-page write of `mem_write`; `next` is where the second page starts. */
    method WriteTwo(addr: nat, w: Word, llen: nat, next: nat, len: nat) returns (ok: bool)
      requires Valid() && HEAP_START <= addr && 0 < llen < len <= 8 && next == addr + llen == Border(addr)
      modifies `nextFreePage, `numFreePages, `pages, heads, ids, nexts, bytes
      ensures Valid()
      ensures ok == (Price(old(pages), PageId(addr)) + Price(old(pages), PageId(next)) <= old(numFreePages))
      ensures ok ==> KeptOutside(old(pages), pages, addr, len) && Shows(pages, addr, w, len)
      ensures ok ==> InUse(old(pages), pages, PageId(addr), PageId(next))
      ensures ok ==>
              numFreePages + Price(old(pages), PageId(addr)) + Price(old(pages), PageId(next)) ==
              old(numFreePages)
      ensures !ok ==> numFreePages == 0 && Stuck(old(pages), pages, PageId(addr), PageId(next))
    {
      ghost var m := pages;
      ok := StoreAt(addr, w, 0, llen);
      if ok {
        ghost var r := pages;
        PriceKept(m, r, PageId(addr), PageId(next));
        var rest := len - llen;
        ok := StoreAt(next, w, llen, rest);
        if ok {
          StoredTwice(m, r, pages, addr, next, w, llen, rest, len);
          InUseTwice(m, r, pages, PageId(addr), PageId(next));
        }
      }
    }

    /**
     * `mem_write`: the low `len` bytes of `w` go to `addr`, nothing else changes; `!ok` when the blocks have run out.
     */
    method Write(addr: nat, w: Word, len: nat) returns (ok: bool)
      requires Valid() && 1 <= len <= 8 && HEAP_START <= addr && addr + len <= memBrk
      modifies `nextFreePage, `numFreePages, `pages, heads, ids, nexts, bytes
      ensures Valid() && ok == (Cost(old(pages), addr, len) <= old(numFreePages))
      ensures ok ==> KeptOutside(old(pages), pages, addr, len) && Shows(pages, addr, w, len)
      ensures ok ==> UsedBy(old(pages), pages, addr, len, old(numFreePages), numFreePages)
      ensures !ok ==> numFreePages == 0 && Stuck(old(pages), pages, PageId(addr), LastPage(addr, len))
    {
      var llen := PAGE_SIZE - (addr - PageStart(PageId(addr)));
      if llen < len {
        var next := addr + llen;
        assert next == Border(addr) && Crosses(addr, len);
        ok := WriteTwo(addr, w, llen, next, len);
      } else {
        ok := StoreAt(addr, w, 0, len);
      }
    }

    /** `mem_read128`. */
    method Read128(addr: nat) returns (ok: bool, v: nat)
      requires Valid() && HEAP_START <= addr && addr + 16 <= memBrk
      modifies `nextFreePage, `numFreePages, `pages, heads, ids, nexts
      ensures Valid() && ok == (Cost(old(pages), addr, 16) <= old(numFreePages))
      ensures ok ==> Kept(old(pages), pages) && v < Pow256(16) && Shows(pages, addr, v, 16)
    {
      var high, low;
      v := 0;
      var next := addr + 8;
      HalfCheaper(pages, addr, next);
      ok, high := Read(next, 8);
      if ok {
        ghost var r := pages;
        HalvesCost(old(pages), r, addr, next, next, addr, old(numFreePages), numFreePages);
        ok, low := Read(addr, 8);
        if ok {
          v := Joined128(low, high);
          ShowsBoth(r, pages, addr, next, low, high);
        }
      }
    }

    /** `mem_write128`, of the bit pattern `v`. */
    method Write128(addr: nat, v: nat) returns (ok: bool)
      requires Valid() && HEAP_START <= addr && addr + 16 <= memBrk && v < Pow256(16)
      modifies `nextFreePage, `numFreePages, `pages, heads, ids, nexts, bytes
      ensures Valid() && ok == (Cost(old(pages), addr, 16) <= old(numFreePages))
      ensures ok ==> KeptOutside(old(pages), pages, addr, 16) && Shows(pages, addr, v, 16)
    {
      var next := addr + 8;
      HalfCheaper(pages, addr, next);
      ok := Write(addr, Low64(v), 8);
      if ok {
        ghost var r := pages;
        HalvesCost(old(pages), r, addr, next, addr, next, old(numFreePages), numFreePages);
        ok := Write(next, High64(v), 8);
        if ok {
          StoredBoth(old(pages), r, pages, addr, next, v);
        }
      }
    }

    /** `mem_read`, told by the pages it takes into use. */
    method ReadPages(addr: nat, len: nat) returns (ok: bool, w: Word)
      requires Valid() && 1 <= len <= 8 && HEAP_START <= addr && addr + len <= memBrk
      modifies `nextFreePage, `numFreePages, `pages, heads, ids, nexts
      ensures Valid() && (!ok ==> numFreePages == 0 && Halted(old(pages), pages, PagesOf(addr, len)))
      ensures ok ==> Kept(old(pages), pages) && w < Pow256(len) && Shows(pages, addr, w, len)
      ensures ok ==> Grew(old(pages), pages, PagesOf(addr, len))
    {
      ghost var m, free := pages, numFreePages;
      ok, w := Read(addr, len);
      if ok {
        UsedGrew(m, pages, addr, len, free, numFreePages);
      } else {
        StuckHalted(m, pages, addr, len);
      }
    }

    /** `mem_write`, told by the pages it takes into use. */
    method WritePages(addr: nat, w: Word, len: nat) returns (ok: bool)
      requires Valid() && 1 <= len <= 8 && HEAP_START <= addr && addr + len <= memBrk
      modifies `nextFreePage, `numFreePages, `pages, heads, ids, nexts, bytes
      ensures Valid() && (!ok ==> numFreePages == 0 && Halted(old(pages), pages, PagesOf(addr, len)))
      ensures ok ==> KeptOutside(old(pages), pages, addr, len) && Shows(pages, addr, w, len)
      ensures ok ==> Grew(old(pages), pages, PagesOf(addr, len))
    {
      ghost var m, free := pages, numFreePages;
      ok := Write(addr, w, len);
      if ok {
        UsedGrew(m, pages, addr, len, free, numFreePages);
      } else {
        StuckHalted(m, pages, addr, len);
      }
    }

    /** Blocks in use are pages in use. */
    lemma PagesCounted()
      requires Valid()
      ensures |pages| + numFreePages == ids.Length
    {
      DistinctIds(ids[..nextFreePage], pages.Keys);
      assert |pages| == |pages.Keys|;
    }

    /** `mem_memcpy`: the copy of `n` bytes that reading and writing eight at a time comes to. */
    method Memcpy(dst: nat, src: nat, n: nat) returns (ok: bool)
      requires Valid() && HEAP_START <= dst && dst + n <= memBrk && HEAP_START <= src && src + n <= memBrk
      modifies `nextFreePage, `numFreePages, `pages, heads, ids, nexts, bytes
      ensures Valid()
      ensures ok == (|(PagesOf(src, n) + PagesOf(dst, n)) - old(pages).Keys| <= old(numFreePages))
      ensures ok ==> KeptOutside(old(pages), pages, dst, n) && Copied(old(pages), pages, dst, src, n)
      ensures ok ==> Grew(old(pages), pages, PagesOf(src, n) + PagesOf(dst, n))
    {
      ghost var m, free := pages, numFreePages;
      PagesCounted();
      ok := CopyLoop(dst, src, n);
      PagesCounted();
      if ok {
        BlocksSufficed(m, pages, PagesOf(src, n) + PagesOf(dst, n), free, numFreePages);
      } else {
        BlocksRanOut(m, pages, PagesOf(src, n) + PagesOf(dst, n), free);
      }
    }

    /** The loop of `mem_memcpy`: the whole words. */
    method CopyWords(dst: nat, src: nat, n: nat)
      returns (ok: bool, to: nat, from: nat, left: nat, ghost done: nat, ghost words: nat)
      requires Valid() && HEAP_START <= dst && dst + n <= memBrk && HEAP_START <= src && src + n <= memBrk
      modifies `nextFreePage, `numFreePages, `pages, heads, ids, nexts, bytes
      ensures Valid() && done + left == n && to == dst + done && from == src + done
      ensures !ok ==> numFreePages == 0 && Halted(old(pages), pages, PagesOf(src, n) + PagesOf(dst, n))
      ensures ok ==> left < 8 && done == 8 * words && CopyDone(old(pages), pages, dst, src, done)
    {
      ghost var m := pages;
      to, from, left, done, words := dst, src, n, 0, 0;
      ok := true;
      NothingCopied(m, dst, src);
      while left >= 8
        invariant Valid() && done + left == n && to == dst + done && from == src + done && done == 8 * words
        invariant CopyDone(m, pages, dst, src, done)
      {
        ok := CopyWord(to, from, 8, dst, src, done, done + 8, words, n, m);
        if !ok {
          return;
        }
        left := left - 8;
        from := from + 8;
        to := to + 8;
        done, words := done + 8, words + 1;
      }
    }

    /** The loop and the rest behind it. */
    method CopyLoop(dst: nat, src: nat, n: nat) returns (ok: bool)
      requires Valid() && HEAP_START <= dst && dst + n <= memBrk && HEAP_START <= src && src + n <= memBrk
      modifies `nextFreePage, `numFreePages, `pages, heads, ids, nexts, bytes
      ensures Valid()
      ensures !ok ==> numFreePages == 0 && Halted(old(pages), pages, PagesOf(src, n) + PagesOf(dst, n))
      ensures ok ==> CopyDone(old(pages), pages, dst, src, n)
    {
      ghost var m := pages;
      var to, from, left;
      ghost var done, words;
      ok, to, from, left, done, words := CopyWords(dst, src, n);
      if ok && left > 0 {
        ok := CopyWord(to, from, left, dst, src, done, n, words, n, m);
      } else if ok {
        assert done == n;
      }
    }

    /** One round of `mem_memcpy`: `mem_read`, then `mem_write`. */
    method CopyWord(to: nat, from: nat, k: nat, ghost dst: nat, ghost src: nat, ghost d: nat, ghost e: nat,
            ghost words: nat, ghost n: nat, ghost m: Pages)
      returns (ok: bool)
      requires Valid() && HEAP_START <= dst && HEAP_START <= src && 1 <= k <= 8 && e == d + k <= n && d == 8 * words
      requires to == dst + d && from == src + d && to + k <= memBrk && from + k <= memBrk
      requires CopyDone(m, pages, dst, src, d)
      modifies `nextFreePage, `numFreePages, `pages, heads, ids, nexts, bytes
      ensures Valid()
      ensures !ok ==> numFreePages == 0 && Halted(m, pages, PagesOf(src, n) + PagesOf(dst, n))
      ensures ok ==> CopyDone(m, pages, dst, src, e)
    {
      ghost var r := pages;
      var data;
      ok, data := ReadPages(from, k);
      if ok {
        ghost var s := pages;
        ok := WritePages(to, data, k);
        if ok {
          CopyWordDone(m, r, s, pages, dst, src, d, to, from, k, data, n);
        } else {
          CopyHaltedInWrite(m, r, s, pages, dst, src, d, to, from, k, n);
        }
      } else {
        CopyHaltedInRead(m, r, pages, dst, src, d, from, k, n);
      }
    }

    /** `mem_memset`: the low byte of `c` at `n` addresses. */
    method Memset(dst: nat, c: int, n: nat) returns (ok: bool)
      requires Valid() && HEAP_START <= dst && dst + n <= memBrk
      modifies `nextFreePage, `numFreePages, `pages, heads, ids, nexts, bytes
      ensures Valid() && ok == (|PagesOf(dst, n) - old(pages).Keys| <= old(numFreePages))
      ensures ok ==> KeptOutside(old(pages), pages, dst, n) && Filled(pages, dst, n, c % 256)
      ensures ok ==> Grew(old(pages), pages, PagesOf(dst, n))
    {
      ghost var m, free := pages, numFreePages;
      PagesCounted();
      ok := FillLoop(dst, c, n);
      PagesCounted();
      if ok {
        BlocksSufficed(m, pages, PagesOf(dst, n), free, numFreePages);
      } else {
        BlocksRanOut(m, pages, PagesOf(dst, n), free);
      }
    }

    /** The loop of `mem_memset` and the rest behind it. */
    method FillLoop(dst: nat, c: int, n: nat) returns (ok: bool)
      requires Valid() && HEAP_START <= dst && dst + n <= memBrk
      modifies `nextFreePage, `numFreePages, `pages, heads, ids, nexts, bytes
      ensures Valid() && (!ok ==> numFreePages == 0 && Halted(old(pages), pages, PagesOf(dst, n)))
      ensures ok ==> FillDone(old(pages), pages, dst, n, c % 256)
    {
      ghost var m, done := pages, 0;
      var data := EightTimes(c % 256);
      var to, left := dst, n;
      ok := true;
      while left >= 8
        invariant Valid() && left + done == n && to == dst + done
        invariant FillDone(m, pages, dst, done, c % 256)
      {
        ok := FillWord(to, data, 8, c % 256, dst, done, n, m);
        if !ok {
          return;
        }
        left := left - 8;
        to := to + 8;
        done := done + 8;
      }
      if left > 0 {
        ok := FillWord(to, data, left, c % 256, dst, done, n, m);
        done := done + left;
      }
      assert done == n;
    }

    /** One round of `mem_memset`. */
    method FillWord(to: nat, data: Word, k: nat, ghost c: Byte, ghost dst: nat, ghost d: nat, ghost n: nat,
            ghost m: Pages)
      returns (ok: bool)
      requires Valid() && HEAP_START <= dst && 1 <= k <= 8 && d + k <= n && to == dst + d && to + k <= memBrk
      requires (forall i | 0 <= i < 8 :: ByteOf(data, i) == c) && FillDone(m, pages, dst, d, c)
      modifies `nextFreePage, `numFreePages, `pages, heads, ids, nexts, bytes
      ensures Valid() && (!ok ==> numFreePages == 0 && Halted(m, pages, PagesOf(dst, n)))
      ensures ok ==> FillDone(m, pages, dst, d + k, c)
    {
      ghost var r := pages;
      ok := WritePages(to, data, k);
      if ok {
        FillWordDone(m, r, pages, dst, d, to, k, data, c, n);
      } else {
        FillHalted(m, r, pages, dst, d, to, k, n);
      }
    }
  }

  /** `d` bytes have been copied, and the pages of both ranges so far are in use. */
  ghost predicate CopyDone(m: Pages, r: Pages, dst: nat, src: nat, d: nat)
    requires dst >= HEAP_START && src >= HEAP_START
  {
    WellPaged(m) && WellPaged(r) && CopySoFar(m, r, dst, src, d) && Grew(m, r, PagesOf(src, d) + PagesOf(dst, d))
  }

  lemma NothingCopied(m: Pages, dst: nat, src: nat)
    requires dst >= HEAP_START && src >= HEAP_START && WellPaged(m)
    ensures CopyDone(m, m, dst, src, 0)
  {
    assert PagesOf(src, 0) == {} && PagesOf(dst, 0) == {};
  }

  lemma CopyWordDone(m: Pages, r: Pages, s: Pages, t: Pages, dst: nat, src: nat, d: nat, to: nat, from: nat, k: nat,
          w: nat, n: nat)
    requires dst >= HEAP_START && src >= HEAP_START && d % 8 == 0 && 1 <= k <= 8 && d + k <= n
    requires to == dst + d && from == src + d && WellPaged(s) && WellPaged(t)
    requires CopyDone(m, r, dst, src, d) && Kept(r, s) && Grew(r, s, PagesOf(from, k)) && Shows(s, from, w, k)
    requires Grew(s, t, PagesOf(to, k)) && KeptOutside(s, t, to, k) && Shows(t, to, w, k)
    ensures CopyDone(m, t, dst, src, d + k)
  {
    CopyStep(m, r, s, t, dst, src, d, to, from, k, w);
    var p, q, v, all := CopyPages(dst, src, d, to, from, k, n);
    GrewTwice(m, r, s, p, PagesOf(from, k), q);
    GrewTwice(m, s, t, q, PagesOf(to, k), v);
  }

  lemma CopyHaltedInRead(m: Pages, r: Pages, s: Pages, dst: nat, src: nat, d: nat, from: nat, k: nat, n: nat)
    requires dst >= HEAP_START && src >= HEAP_START && d + k <= n && from == src + d
    requires CopyDone(m, r, dst, src, d) && Halted(r, s, PagesOf(from, k))
    ensures Halted(m, s, PagesOf(src, n) + PagesOf(dst, n))
  {
    var p, q, v, all := CopyPages(dst, src, d, dst + d, from, k, n);
    HaltedLater(m, r, s, p, PagesOf(from, k), all);
  }

  lemma CopyHaltedInWrite(m: Pages, r: Pages, s: Pages, t: Pages, dst: nat, src: nat, d: nat, to: nat, from: nat,
          k: nat, n: nat)
    requires dst >= HEAP_START && src >= HEAP_START && d + k <= n && to == dst + d && from == src + d
    requires CopyDone(m, r, dst, src, d) && Grew(r, s, PagesOf(from, k)) && Halted(s, t, PagesOf(to, k))
    ensures Halted(m, t, PagesOf(src, n) + PagesOf(dst, n))
  {
    var p, q, v, all := CopyPages(dst, src, d, to, from, k, n);
    GrewTwice(m, r, s, p, PagesOf(from, k), q);
    HaltedLater(m, s, t, q, PagesOf(to, k), all);
  }

  /** `d` bytes have been set to `c`, and their pages are in use. */
  ghost predicate FillDone(m: Pages, r: Pages, dst: nat, d: nat, c: Byte)
    requires dst >= HEAP_START
  {
    && WellPaged(m) && WellPaged(r)
    && KeptOutside(m, r, dst, d) && Filled(r, dst, d, c) && Grew(m, r, PagesOf(dst, d))
  }

  lemma FillWordDone(m: Pages, r: Pages, t: Pages, dst: nat, d: nat, to: nat, k: nat, w: nat, c: Byte, n: nat)
    requires dst >= HEAP_START && 1 <= k <= 8 && d + k <= n && to == dst + d && WellPaged(t)
    requires FillDone(m, r, dst, d, c) && forall i | 0 <= i < 8 :: ByteOf(w, i) == c
    requires Grew(r, t, PagesOf(to, k)) && KeptOutside(r, t, to, k) && Shows(t, to, w, k)
    ensures FillDone(m, t, dst, d + k, c)
  {
    FillStep(m, r, t, dst, d, to, k, w, c);
    MorePages(dst, d, to, k, n);
    GrewTwice(m, r, t, PagesOf(dst, d), PagesOf(to, k), PagesOf(dst, d + k));
  }

  lemma FillHalted(m: Pages, r: Pages, t: Pages, dst: nat, d: nat, to: nat, k: nat, n: nat)
    requires dst >= HEAP_START && d + k <= n && to == dst + d
    requires Grew(m, r, PagesOf(dst, d)) && Halted(r, t, PagesOf(to, k))
    ensures Halted(m, t, PagesOf(dst, n))
  {
    MorePages(dst, d, to, k, n);
    HaltedLater(m, r, t, PagesOf(dst, d), PagesOf(to, k), PagesOf(dst, n));
  }

  /** The loop of `mem_memset` that puts a byte into all eight places of a word. */
  method EightTimes(c: Byte) returns (data: Word)
    ensures forall k | 0 <= k < 8 :: ByteOf(data, k) == c
  {
    var v: nat, i := 0, 0;
    WordIsEightBytes();
    while i < 8
      invariant 0 <= i <= 8 && v < Pow256(i) && forall k | 0 <= k < i :: ByteOf(v, k) == c
    {
      assert c < Pow256(1);
      JoinedBelow(v, c, i, 1);
      var u := v + Raised(c, i);
      forall k | 0 <= k <= i ensures ByteOf(u, k) == c {
        JoinedByte(v, c, i, k);
      }
      v := u;
      i := i + 1;
    }
    data := v;
  }

  lemma ShowsBoth(r: Pages, s: Pages, a: nat, b: nat, low: Word, high: Word)
    requires WellPaged(r) && WellPaged(s) && Kept(r, s) && b == a + 8 && Shows(r, b, high, 8) && Shows(s, a, low, 8)
    ensures Shows(s, a, Joined128(low, high), 16)
  {
    forall x: nat | a <= x < a + 16 ensures Has(s, x) && At(s, x) == ByteOf(Joined128(low, high), x - a) {
      Joined128Byte(low, high, x - a);
      if x >= b {
        KeptAt(r, s, x);
      }
    }
  }

  lemma StoredBoth(m: Pages, r: Pages, s: Pages, a: nat, b: nat, v: nat)
    requires WellPaged(m) && WellPaged(r) && WellPaged(s) && b == a + 8 && v < Pow256(16)
    requires KeptOutside(m, r, a, 8) && Shows(r, a, Low64(v), 8) && KeptOutside(r, s, b, 8) && Shows(s, b, High64(v), 8)
    ensures KeptOutside(m, s, a, 16) && Shows(s, a, v, 16)
  {
    forall x: nat | a <= x < a + 16 ensures Has(s, x) && At(s, x) == ByteOf(v, x - a) {
      HalvesBytes(v, if x < b then x - a else x - b);
      assert x < b ==> Has(r, x) && At(r, x) == ByteOf(Low64(v), x - a);
    }
  }
}
