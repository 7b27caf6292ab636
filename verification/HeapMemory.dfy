/** How the words of memory encode the blocks and the free lists, and what each store does to that encoding. */
module HeapMemory {
  import opened BoundaryTags
  import opened HeapLayout
  import opened HeapOps

  type Memory = seq<Word>

  /** The header of `a` describes it, and the header after it has the two bits that describe `a`. */
  ghost predicate HeaderOk(m: Memory, b: Layout, a: nat)
    requires a in b
  {
    var n := a + b[a].size;
    && n < |m|
    && Canonical(m[a]) && SizeOf(m[a]) == b[a].size && AllocOf(m[a]) == b[a].alloc
    && PrevAllocOf(m[n]) == b[a].alloc && PrevMiniOf(m[n]) == (b[a].size == MINI)
  }

  /** A free block above the mini size ends in a copy of its header. */
  ghost predicate FooterOk(m: Memory, b: Layout, a: nat)
    requires a in b
  {
    !b[a].alloc && b[a].size > MINI ==> a + b[a].size <= |m| && m[a + b[a].size - 1] == m[a]
  }

  /** All headers, the epilogue header and the two bits of the first header are right. */
  ghost predicate HeadersOk(m: Memory, b: Layout, epi: nat) {
    && 1 <= epi < |m|
    && Canonical(m[epi]) && SizeOf(m[epi]) == 0 && AllocOf(m[epi])
    && PrevAllocOf(m[1]) && !PrevMiniOf(m[1])
    && (forall a {:trigger HeaderOk(m, b, a)} | a in b :: HeaderOk(m, b, a))
  }

  /** All footers except that of `x` are right. */
  ghost predicate FootersOkBut(m: Memory, b: Layout, x: nat) {
    forall a {:trigger FooterOk(m, b, a)} | a in b && a != x :: FooterOk(m, b, a)
  }

  /** The member at position `i`, NULL outside the list. */
  ghost function At(l: seq<nat>, i: int): nat {
    if 0 <= i < |l| then l[i] else 0
  }

  ghost predicate NodeOk(m: Memory, l: seq<nat>, i: nat)
    requires i < |l|
  {
    l[i] + 2 < |m| && m[l[i] + 1] == At(l, i + 1) && m[l[i] + 2] == At(l, i - 1)
  }

  /** `root` starts a doubly linked list through exactly the members of `l`. */
  ghost predicate ChainOk(m: Memory, root: nat, l: seq<nat>) {
    root == At(l, 0) && forall i {:trigger NodeOk(m, l, i)} | 0 <= i < |l| :: NodeOk(m, l, i)
  }

  ghost predicate MiniNodeOk(m: Memory, l: seq<nat>, i: nat)
    requires i < |l|
  {
    l[i] + 1 < |m| && m[l[i] + 1] == At(l, i + 1)
  }

  /** `root` starts a singly linked list through exactly the members of `l`. */
  ghost predicate MiniChainOk(m: Memory, root: nat, l: seq<nat>) {
    root == At(l, 0) && forall i {:trigger MiniNodeOk(m, l, i)} | 0 <= i < |l| :: MiniNodeOk(m, l, i)
  }

  /** Only the words `lo..hi`, bounds included, may differ. */
  ghost predicate SameOutside(m: Memory, r: Memory, lo: nat, hi: nat) {
    |r| == |m| && forall k | 0 <= k < |m| && !(lo <= k <= hi) :: r[k] == m[k]
  }

  /** The effect of `write_block` on memory: header, footer, the two bits of the next header, nothing else. */
  ghost predicate Written(m: Memory, r: Memory, a: nat, size: nat, prevMini: bool, prevAlloc: bool, alloc: bool) {
    var n := a + size;
    && size >= MINI && n < |m| && |r| == |m|
    && Canonical(r[a]) && SizeOf(r[a]) == size && AllocOf(r[a]) == alloc
    && PrevMiniOf(r[a]) == prevMini && PrevAllocOf(r[a]) == prevAlloc
    && (!alloc && size > MINI ==> r[n - 1] == r[a])
    && PrevAllocOf(r[n]) == alloc && PrevMiniOf(r[n]) == (size == MINI)
    && SizeOf(r[n]) == SizeOf(m[n]) && AllocOf(r[n]) == AllocOf(m[n]) && (Canonical(m[n]) ==> Canonical(r[n]))
    && (forall k | 0 <= k < |m| && k != a && k != n && !(k == n - 1 && !alloc && size > MINI) :: r[k] == m[k])
  }

  /** The tag bits at both ends of the words `a..n` stay as they were. */
  ghost predicate EndsKept(m: Memory, r: Memory, a: nat, n: nat) {
    && SameOutside(m, r, a, n) && a < n < |m|
    && PrevMiniOf(r[a]) == PrevMiniOf(m[a]) && PrevAllocOf(r[a]) == PrevAllocOf(m[a])
    && SizeOf(r[n]) == SizeOf(m[n]) && AllocOf(r[n]) == AllocOf(m[n]) && (Canonical(m[n]) ==> Canonical(r[n]))
  }

  lemma HeaderKept(m: Memory, r: Memory, b: Layout, epi: nat, a: nat, n: nat, c: nat)
    requires Tiled(b, epi) && a in b && c in b && !(a <= c < n) && (n == epi || n in b)
    requires EndsKept(m, r, a, n) && HeaderOk(m, b, c)
    ensures HeaderOk(r, b, c)
  {
    assert InPlace(b, epi, c) && Apart(b, c, a) && (n in b ==> Apart(b, c, n));
  }

  lemma EdgesKept(m: Memory, r: Memory, b: Layout, epi: nat, a: nat, n: nat)
    requires Tiled(b, epi) && HeadersOk(m, b, epi) && a in b && n <= epi && EndsKept(m, r, a, n)
    ensures Canonical(r[epi]) && SizeOf(r[epi]) == 0 && AllocOf(r[epi])
    ensures PrevAllocOf(r[1]) && !PrevMiniOf(r[1])
  {
    assert InPlace(b, epi, a);
  }

  /** Rewriting the block `a` with a size that swallows its right neighbours keeps all headers right. */
  lemma ReplaceHeaders(m: Memory, r: Memory, b: Layout, epi: nat, a: nat, size: nat, alloc: bool)
    requires Tiled(b, epi) && HeadersOk(m, b, epi) && a in b
    requires a + size == epi || (a + size < epi && a + size in b)
    requires Written(m, r, a, size, PrevMiniOf(m[a]), PrevAllocOf(m[a]), alloc)
    ensures HeadersOk(r, Replace(b, a, size, alloc), epi)
  {
    var s, n := Replace(b, a, size, alloc), a + size;
    EdgesKept(m, r, b, epi, a, n);
    assert HeaderOk(r, s, a);
    forall c | c in s ensures HeaderOk(r, s, c) {
      if c != a {
        assert HeaderOk(m, b, c);
        HeaderKept(m, r, b, epi, a, n, c);
      }
    }
  }

  lemma ReplaceFooters(m: Memory, r: Memory, b: Layout, epi: nat, a: nat, size: nat, prevMini: bool, prevAlloc: bool,
          alloc: bool, x: nat)
    requires Tiled(b, epi) && FootersOkBut(m, b, x) && a in b && epi < |m|
    requires a + size == epi || (a + size < epi && a + size in b)
    requires x == 0 || a <= x <= a + size
    requires Written(m, r, a, size, prevMini, prevAlloc, alloc)
    ensures FootersOkBut(r, Replace(b, a, size, alloc), a + size)
  {
    var s, n := Replace(b, a, size, alloc), a + size;
    forall c | c in s && c != n ensures FooterOk(r, s, c) {
      if c != a {
        assert InPlace(b, epi, c) && Apart(b, c, a) && FooterOk(m, b, c);
      }
    }
  }

  /** A list none of whose members is touched by a store stays as it was. */
  lemma ChainKept(m: Memory, r: Memory, root: nat, l: seq<nat>)
    requires ChainOk(m, root, l) && |r| >= |m|
    requires forall c | c in l :: c + 2 < |m| ==> r[c + 1] == m[c + 1] && r[c + 2] == m[c + 2]
    ensures ChainOk(r, root, l)
  {
    forall i | 0 <= i < |l| ensures NodeOk(r, l, i) {
      assert NodeOk(m, l, i) && l[i] in l;
    }
  }

  lemma MiniChainKept(m: Memory, r: Memory, root: nat, l: seq<nat>)
    requires MiniChainOk(m, root, l) && |r| >= |m|
    requires forall c | c in l :: c + 1 < |m| ==> r[c + 1] == m[c + 1]
    ensures MiniChainOk(r, root, l)
  {
    forall i | 0 <= i < |l| ensures MiniNodeOk(r, l, i) {
      assert MiniNodeOk(m, l, i) && l[i] in l;
    }
  }

  /** Memory, bucket roots and mini root encode the heap `h`. */
  ghost predicate ListsEncoded(m: Memory, roots: seq<nat>, miniRoot: nat, h: Heap) {
    && |roots| == NUM_ROOTS == |h.buckets|
    && (forall k {:trigger ChainOk(m, roots[k], h.buckets[k])} | 0 <= k < NUM_ROOTS ::
        ChainOk(m, roots[k], h.buckets[k]))
    && MiniChainOk(m, miniRoot, h.mini)
  }

  /** The words that link the free block `c` lie inside it, before its footer. */
  lemma LinksInside(h: Heap, c: nat)
    requires Shaped(h)
    ensures forall k | 0 <= k < NUM_ROOTS && c in h.buckets[k] ::
            IsFree(h.blocks, c) && Listed(h, c) && h.blocks[c].size >= MIN_BLOCK
    ensures c in h.mini ==> IsFree(h.blocks, c) && Listed(h, c) && h.blocks[c].size == MINI
  {
    forall k | 0 <= k < NUM_ROOTS && c in h.buckets[k]
        ensures IsFree(h.blocks, c) && Listed(h, c) && h.blocks[c].size >= MIN_BLOCK {
      assert BucketOk(h.blocks, k, h.buckets[k]) && BucketMember(h.blocks, k, c);
    }
    assert c in h.mini ==> MiniMember(h.blocks, c);
  }

  /** The words that link `c` are the same in both memories. */
  ghost predicate LinksSame(m: Memory, r: Memory, b: Layout, c: nat)
    requires c in b
  {
    c + b[c].size <= |m| <= |r| && forall k | c < k < c + b[c].size && k <= c + 2 :: r[k] == m[k]
  }

  lemma ListsKeptIfSame(m: Memory, r: Memory, roots: seq<nat>, miniRoot: nat, h: Heap)
    requires Shaped(h) && ListsEncoded(m, roots, miniRoot, h) && |m| <= |r|
    requires forall c: nat {:trigger LinksSame(m, r, h.blocks, c)} | Listed(h, c) && IsFree(h.blocks, c) ::
             LinksSame(m, r, h.blocks, c)
    ensures ListsEncoded(r, roots, miniRoot, h)
  {
    forall k | 0 <= k < NUM_ROOTS ensures ChainOk(r, roots[k], h.buckets[k]) {
      forall c | c in h.buckets[k] && c + 2 < |m| ensures r[c + 1] == m[c + 1] && r[c + 2] == m[c + 2] {
        LinksInside(h, c);
        assert LinksSame(m, r, h.blocks, c);
      }
      ChainKept(m, r, roots[k], h.buckets[k]);
    }
    forall c | c in h.mini && c + 1 < |m| ensures r[c + 1] == m[c + 1] {
      LinksInside(h, c);
      assert LinksSame(m, r, h.blocks, c);
    }
    MiniChainKept(m, r, miniRoot, h.mini);
  }

  /** Stores into unlisted blocks, and into the first word after them, leave every list as it was. */
  lemma ListsKept(m: Memory, r: Memory, roots: seq<nat>, miniRoot: nat, h: Heap, a: nat, n: nat)
    requires Shaped(h) && ListsEncoded(m, roots, miniRoot, h) && h.epi < |m|
    requires a in h.blocks && a < n <= h.epi && (n == h.epi || n in h.blocks)
    requires forall c | c in h.blocks && a <= c < n :: !Listed(h, c)
    requires SameOutside(m, r, a, n)
    ensures ListsEncoded(r, roots, miniRoot, h)
  {
    forall c: nat | Listed(h, c) && IsFree(h.blocks, c) ensures LinksSame(m, r, h.blocks, c) {
      assert Apart(h.blocks, c, a) && InPlace(h.blocks, h.epi, c) && (n in h.blocks ==> Apart(h.blocks, c, n));
    }
    ListsKeptIfSame(m, r, roots, miniRoot, h);
  }

  /** The payload of the block `c`: all its words after the header, footer position included. */
  ghost predicate PayloadSame(m: Memory, r: Memory, b: Layout, c: nat)
    requires c in b
  {
    |r| == |m| && forall k | c < k < c + b[c].size && k < |m| :: r[k] == m[k]
  }

  /** No word handed out to the program changes, apart from the payload of `x`. */
  ghost predicate PayloadsKept(m: Memory, r: Memory, b: Layout, x: nat) {
    forall c {:trigger PayloadSame(m, r, b, c)} | c in b && b[c].alloc && c != x :: PayloadSame(m, r, b, c)
  }

  /** Stores between two block borders reach no payload outside. */
  lemma PayloadsKeptOutside(m: Memory, r: Memory, b: Layout, epi: nat, a: nat, n: nat, x: nat)
    requires Tiled(b, epi) && a in b && (n == epi || n in b) && SameOutside(m, r, a, n)
    requires forall c | c in b && a <= c < n && c != x :: b[c].alloc ==> PayloadSame(m, r, b, c)
    ensures PayloadsKept(m, r, b, x)
  {
    forall c | c in b && b[c].alloc && c != x ensures PayloadSame(m, r, b, c) {
      assert InPlace(b, epi, c) && Apart(b, c, a) && (n in b ==> Apart(b, c, n));
    }
  }

  /** Stores to a stretch of free blocks, and to the header after it, reach no payload. */
  lemma PayloadsKeptFree(m: Memory, r: Memory, b: Layout, epi: nat, a: nat, n: nat)
    requires Tiled(b, epi) && a in b && (n == epi || n in b) && SameOutside(m, r, a, n)
    requires forall c | c in b && a <= c < n :: IsFree(b, c)
    ensures PayloadsKept(m, r, b, 0)
  {
    PayloadsKeptOutside(m, r, b, epi, a, n, 0);
  }

  lemma PayloadsKeptTwice(m: Memory, r: Memory, s: Memory, b: Layout, d: Layout, x: nat, y: nat)
    requires PayloadsKept(m, r, b, x) && PayloadsKept(r, s, d, y) && |m| == |r| == |s|
    requires forall c | c in b && b[c].alloc && c != x :: c in d && d[c] == b[c] && c != y
    ensures PayloadsKept(m, s, b, x)
  {
    forall c | c in b && b[c].alloc && c != x ensures PayloadSame(m, s, b, c) {
      assert PayloadSame(m, r, b, c) && PayloadSame(r, s, d, c);
    }
  }

  /** As above, where the second step starts from a layout that keeps the allocated blocks of the first. */
  lemma PayloadsKeptAcross(m: Memory, r: Memory, s: Memory, h: Heap, d: Layout)
    requires PayloadsKept(m, r, h.blocks, 0) && PayloadsKept(r, s, d, 0) && |m| == |r| == |s|
    requires Shaped(h) && AllocatedKept(h.blocks, d, 0)
    ensures PayloadsKept(m, s, h.blocks, 0)
  {
    NoBlockAtZero(h);
    PayloadsKeptTwice(m, r, s, h.blocks, d, 0, 0);
  }

  /** Memory, bucket roots and mini root encode `h`, but for the footer of `x`. */
  ghost predicate Encoded(m: Memory, roots: seq<nat>, miniRoot: nat, h: Heap, x: nat) {
    HeadersOk(m, h.blocks, h.epi) && FootersOkBut(m, h.blocks, x) && ListsEncoded(m, roots, miniRoot, h)
  }

  /** Excusing a footer asks for less. */
  lemma FooterExcused(m: Memory, b: Layout, epi: nat, x: nat)
    requires FootersOkBut(m, b, 0) && Tiled(b, epi)
    ensures FootersOkBut(m, b, x)
  {
    forall a | a in b && a != x ensures FooterOk(m, b, a) {
      assert InPlace(b, epi, a);
    }
  }

  /** The exception is void when `x` is not a free block. */
  lemma FooterNotNeeded(m: Memory, b: Layout, x: nat)
    requires FootersOkBut(m, b, x) && !IsFree(b, x)
    ensures FootersOkBut(m, b, 0)
  {
    forall a | a in b && a != 0 ensures FooterOk(m, b, a) {
    }
  }

  /** `write_block` over unlisted blocks. */
  lemma ReplaceEncoded(m: Memory, r: Memory, roots: seq<nat>, miniRoot: nat, h: Heap, a: nat, size: nat, alloc: bool,
          x: nat)
    requires Shaped(h) && Encoded(m, roots, miniRoot, h, x) && a in h.blocks
    requires a + size == h.epi || (a + size < h.epi && a + size in h.blocks)
    requires forall c | c in h.blocks && a <= c < a + size :: !Listed(h, c)
    requires x == 0 || a <= x <= a + size
    requires Written(m, r, a, size, PrevMiniOf(m[a]), PrevAllocOf(m[a]), alloc)
    ensures Encoded(r, roots, miniRoot, h.(blocks := Replace(h.blocks, a, size, alloc)), a + size)
  {
    ReplaceHeaders(m, r, h.blocks, h.epi, a, size, alloc);
    ReplaceFooters(m, r, h.blocks, h.epi, a, size, PrevMiniOf(m[a]), PrevAllocOf(m[a]), alloc, x);
    ListsKept(m, r, roots, miniRoot, h, a, a + size);
  }

  lemma ReplaceEncodedAs(m: Memory, r: Memory, roots: seq<nat>, miniRoot: nat, h: Heap, a: nat, size: nat, alloc: bool,
          x: nat, d: Heap, y: nat)
    requires Shaped(h) && Encoded(m, roots, miniRoot, h, x) && a in h.blocks
    requires y == h.epi || (y < h.epi && y in h.blocks)
    requires forall c | c in h.blocks && a <= c < y :: !Listed(h, c)
    requires x == 0 || a <= x <= y
    requires a < |m| && Written(m, r, a, size, PrevMiniOf(m[a]), PrevAllocOf(m[a]), alloc)
    requires y == a + size && d == h.(blocks := Replace(h.blocks, a, size, alloc))
    ensures Encoded(r, roots, miniRoot, d, y)
  {
    ReplaceEncoded(m, r, roots, miniRoot, h, a, size, alloc, x);
  }

  /** The write that ends `coalesce_block`: `m` is memory after the neighbours of `a` left their lists. */
  lemma CoalesceEncoded(m: Memory, r: Memory, roots: seq<nat>, miniRoot: nat, h: Heap, a: nat)
    requires Shaped(h) && IsFree(h.blocks, a) && !Listed(h, a) && AllListedBut(h, a) && NoTwoFreeBut(h.blocks, a)
    requires Encoded(m, roots, miniRoot, Unlisted(h, a), a + h.blocks[a].size)
    requires var lo, hi := StretchLo(h.blocks, a), StretchHi(h.blocks, a);
             lo < |m| && lo <= hi && Written(m, r, lo, hi - lo, PrevMiniOf(m[lo]), PrevAllocOf(m[lo]), false)
    ensures Shaped(Coalesce(h, a)) && Encoded(r, roots, miniRoot, Coalesce(h, a), 0)
    ensures PayloadsKept(m, r, h.blocks, 0)
  {
    CoalesceShaped(h, a);
    CoalesceReplaced(m, r, roots, miniRoot, h, a);
    StretchFacts(h.blocks, h.epi, a);
    PayloadsKeptFree(m, r, h.blocks, h.epi, StretchLo(h.blocks, a), StretchHi(h.blocks, a));
    NothingFreeAfter(h, a);
    FooterNotNeeded(r, Coalesce(h, a).blocks, StretchHi(h.blocks, a));
  }

  /** The same but for the footer behind the merged block. */
  lemma CoalesceReplaced(m: Memory, r: Memory, roots: seq<nat>, miniRoot: nat, h: Heap, a: nat)
    requires Shaped(h) && IsFree(h.blocks, a) && !Listed(h, a)
    requires Encoded(m, roots, miniRoot, Unlisted(h, a), a + h.blocks[a].size)
    requires var lo, hi := StretchLo(h.blocks, a), StretchHi(h.blocks, a);
             lo < |m| && lo <= hi && Written(m, r, lo, hi - lo, PrevMiniOf(m[lo]), PrevAllocOf(m[lo]), false)
    ensures Encoded(r, roots, miniRoot, Coalesce(h, a), StretchHi(h.blocks, a))
  {
    var lo, hi, u, d := CoalesceParts(h, a);
    ReplaceEncodedAs(m, r, roots, miniRoot, u, lo, hi - lo, false, a + h.blocks[a].size, d, hi);
  }

  /** Coalescing as the replacement of a stretch of unlisted blocks. */
  lemma CoalesceParts(h: Heap, a: nat) returns (lo: nat, hi: nat, u: Heap, d: Heap)
    requires Shaped(h) && IsFree(h.blocks, a) && !Listed(h, a)
    ensures lo == StretchLo(h.blocks, a) && hi == StretchHi(h.blocks, a) && u == Unlisted(h, a) && d == Coalesce(h, a)
    ensures lo <= a < a + h.blocks[a].size <= hi && Shaped(u) && lo in u.blocks
    ensures (hi == u.epi || (hi < u.epi && hi in u.blocks)) && d == u.(blocks := Replace(u.blocks, lo, hi - lo, false))
    ensures forall c | c in u.blocks && lo <= c < hi :: !Listed(u, c)
  {
    lo, hi, u, d := StretchLo(h.blocks, a), StretchHi(h.blocks, a), Unlisted(h, a), Coalesce(h, a);
    StretchFacts(h.blocks, h.epi, a);
    UnlistedShaped(h, a);
    assert hi in u.blocks ==> InPlace(u.blocks, u.epi, hi);
  }

  lemma NothingFreeAfter(h: Heap, a: nat)
    requires Shaped(h) && IsFree(h.blocks, a) && NoTwoFreeBut(h.blocks, a)
    ensures !IsFree(Coalesce(h, a).blocks, StretchHi(h.blocks, a))
  {
    StretchFacts(h.blocks, h.epi, a);
    StretchApart(h.blocks, h.epi, a);
    assert !FreePair(Coalesce(h, a).blocks, StretchLo(h.blocks, a));
  }

  /** `r` results from the two calls of `write_block` in `split_block`, the second one over words that held payload. */
  ghost predicate SplitWritten(m: Memory, m1: Memory, r: Memory, b: Layout, a: nat, size: nat)
    requires a in b && a < |m|
  {
    && MINI <= size <= b[a].size - MINI
    && Written(m, m1, a, size, PrevMiniOf(m[a]), PrevAllocOf(m[a]), true)
    && Written(m1, r, a + size, b[a].size - size, size == MINI, true, false)
  }

  lemma SplitHeaders(m: Memory, m1: Memory, r: Memory, b: Layout, epi: nat, a: nat, size: nat)
    requires Tiled(b, epi) && HeadersOk(m, b, epi) && a in b && a < |m| && b[a].alloc
             && SplitWritten(m, m1, r, b, a, size)
    ensures HeadersOk(r, Split(b, a, size), epi)
    ensures SameOutside(m, r, a, a + b[a].size)
  {
    var s, n, e := Split(b, a, size), a + size, a + b[a].size;
    assert InPlace(b, epi, a) && HeaderOk(m, b, a);
    assert EndsKept(m, r, a, e);
    EdgesKept(m, r, b, epi, a, e);
    assert HeaderOk(r, s, a) && HeaderOk(r, s, n);
    SplitTiled(b, epi, a, size);
    forall c | c in s ensures HeaderOk(r, s, c) {
      if c != a && c != n {
        assert HeaderOk(m, b, c) && Apart(b, a, c);
        HeaderKept(m, r, b, epi, a, e, c);
      }
    }
  }

  lemma SplitFooters(m: Memory, m1: Memory, r: Memory, b: Layout, epi: nat, a: nat, size: nat)
    requires Tiled(b, epi) && FootersOkBut(m, b, 0) && a in b && epi < |m| && a < |m| && b[a].alloc
             && SplitWritten(m, m1, r, b, a, size)
    ensures FootersOkBut(r, Split(b, a, size), a + b[a].size)
  {
    var s, n, e := Split(b, a, size), a + size, a + b[a].size;
    forall c | c in s && c != e ensures FooterOk(r, s, c) {
      if c != a && c != n {
        assert InPlace(b, epi, c) && Apart(b, c, a) && Apart(b, a, c) && FooterOk(m, b, c);
      }
    }
  }

  /** `split_block` before it lists the rest. */
  lemma SplitEncoded(m: Memory, m1: Memory, r: Memory, roots: seq<nat>, miniRoot: nat, h: Heap, a: nat, size: nat)
    requires Shaped(h) && Encoded(m, roots, miniRoot, h, 0) && a in h.blocks && a < |m| && h.blocks[a].alloc
    requires SplitWritten(m, m1, r, h.blocks, a, size)
    ensures Encoded(r, roots, miniRoot, h.(blocks := Split(h.blocks, a, size)), a + h.blocks[a].size)
    ensures PayloadsKept(m, r, h.blocks, a)
  {
    var b, e := h.blocks, a + h.blocks[a].size;
    SplitHeaders(m, m1, r, b, h.epi, a, size);
    SplitFooters(m, m1, r, b, h.epi, a, size);
    MarkedIsUpdate(b, h.epi, a, false);
    AllocatedUnlisted(h, a);
    ListsKept(m, r, roots, miniRoot, h, a, e);
    PayloadsKeptOutside(m, r, b, h.epi, a, e, a);
  }

  /** `r` results from `extend_heap`'s new block and new epilogue header. */
  ghost predicate ExtendWritten(m: Memory, m1: Memory, r: Memory, epi: nat, size: nat) {
    && epi < |m| && MINI <= size <= MAX_WORDS && epi + size < |m1|
    && Written(m, m1, epi, size, PrevMiniOf(m[epi]), PrevAllocOf(m[epi]), false)
    && r == m1[epi + size := Pack(0, size == MINI, false, true)]
  }

  lemma ExtendHeaders(m: Memory, m1: Memory, r: Memory, b: Layout, epi: nat, size: nat)
    requires Tiled(b, epi) && HeadersOk(m, b, epi) && ExtendWritten(m, m1, r, epi, size)
    ensures HeadersOk(r, b[epi := Block(size, false)], epi + size)
  {
    var s := b[epi := Block(size, false)];
    assert HeaderOk(r, s, epi);
    assert PrevAllocOf(r[1]) && !PrevMiniOf(r[1]);
    forall c | c in s ensures HeaderOk(r, s, c) {
      if c != epi {
        assert HeaderOk(m, b, c) && InPlace(b, epi, c);
      }
    }
  }

  lemma ExtendFooters(m: Memory, m1: Memory, r: Memory, b: Layout, epi: nat, size: nat)
    requires Tiled(b, epi) && FootersOkBut(m, b, 0) && ExtendWritten(m, m1, r, epi, size)
    ensures FootersOkBut(r, b[epi := Block(size, false)], 0)
  {
    var s := b[epi := Block(size, false)];
    forall c | c in s && c != 0 ensures FooterOk(r, s, c) {
      if c != epi {
        assert FooterOk(m, b, c) && InPlace(b, epi, c);
      }
    }
  }

  /** `extend_heap` before it coalesces. */
  lemma ExtendEncoded(m: Memory, m1: Memory, r: Memory, roots: seq<nat>, miniRoot: nat, h: Heap, size: nat)
    requires Shaped(h) && Encoded(m, roots, miniRoot, h, 0) && ExtendWritten(m, m1, r, h.epi, size)
    ensures Encoded(r, roots, miniRoot, Extended(h, size), 0) && PayloadsKept(m, r, h.blocks, 0)
  {
    ExtendHeaders(m, m1, r, h.blocks, h.epi, size);
    ExtendFooters(m, m1, r, h.blocks, h.epi, size);
    forall c: nat | Listed(h, c) && IsFree(h.blocks, c) ensures LinksSame(m, r, h.blocks, c) {
      assert InPlace(h.blocks, h.epi, c);
    }
    ListsKeptIfSame(m, r, roots, miniRoot, h);
    forall c | c in h.blocks && h.blocks[c].alloc ensures PayloadSame(m, r, h.blocks, c) {
      assert InPlace(h.blocks, h.epi, c);
    }
  }

  /** `malloc`'s first `write_block`: `m` is memory after the free block `a` left its list. */
  lemma TakeEncoded(m: Memory, r: Memory, roots: seq<nat>, miniRoot: nat, h: Heap, a: nat)
    requires Good(h) && IsFree(h.blocks, a) && a < |m| && Encoded(m, roots, miniRoot, RemoveFree(h, a), 0)
    requires Written(m, r, a, h.blocks[a].size, PrevMiniOf(m[a]), PrevAllocOf(m[a]), true)
    ensures Encoded(r, roots, miniRoot, Marked(RemoveFree(h, a), a, true), 0)
    ensures PayloadsKept(m, r, h.blocks, 0)
  {
    var u, n := RemoveFree(h, a), a + h.blocks[a].size;
    MarkAllocatedGood(h, a);
    RemoveFreeShaped(h, a);
    MarkedIsUpdate(h.blocks, h.epi, a, true);
    ReplaceEncoded(m, r, roots, miniRoot, u, a, h.blocks[a].size, true, 0);
    PayloadsKeptFree(m, r, h.blocks, h.epi, a, n);
    FooterNotNeeded(r, Marked(u, a, true).blocks, n);
  }

  /** `free`'s `write_block`. */
  lemma GiveBackEncoded(m: Memory, r: Memory, roots: seq<nat>, miniRoot: nat, h: Heap, a: nat)
    requires Good(h) && a in h.blocks && h.blocks[a].alloc && a < |m| && Encoded(m, roots, miniRoot, h, 0)
    requires Written(m, r, a, h.blocks[a].size, PrevMiniOf(m[a]), PrevAllocOf(m[a]), false)
    ensures Encoded(r, roots, miniRoot, Marked(h, a, false), a + h.blocks[a].size)
    ensures PayloadsKept(m, r, h.blocks, a)
  {
    AllocatedUnlisted(h, a);
    MarkedIsUpdate(h.blocks, h.epi, a, false);
    ReplaceEncoded(m, r, roots, miniRoot, h, a, h.blocks[a].size, false, 0);
    PayloadsKeptOutside(m, r, h.blocks, h.epi, a, a + h.blocks[a].size, a);
  }

  /** `split_block`'s two writes leave the rest free and unlisted. */
  lemma CutEncoded(m: Memory, m1: Memory, r: Memory, roots: seq<nat>, miniRoot: nat, h: Heap, a: nat, size: nat)
    requires Good(h) && Encoded(m, roots, miniRoot, h, 0) && a in h.blocks && a < |m| && h.blocks[a].alloc
    requires !IsFree(h.blocks, a + h.blocks[a].size) && size % 2 == 0
    requires SplitWritten(m, m1, r, h.blocks, a, size)
    ensures var s := h.(blocks := Split(h.blocks, a, size));
            Encoded(r, roots, miniRoot, s, 0) && Shaped(s) && IsFree(s.blocks, a + size) && !Listed(s, a + size)
    ensures PayloadsKept(m, r, h.blocks, a)
  {
    SplitEncoded(m, m1, r, roots, miniRoot, h, a, size);
    SplitGood(h, a, size);
    SplitTiled(h.blocks, h.epi, a, size);
    SplitRestUnlisted(h, a, size);
    FooterNotNeeded(r, Split(h.blocks, a, size), a + h.blocks[a].size);
  }

  lemma SplitRestUnlisted(h: Heap, a: nat, size: nat)
    requires Good(h) && a in h.blocks && MINI <= size <= h.blocks[a].size - MINI
    ensures !Listed(h.(blocks := Split(h.blocks, a, size)), a + size)
  {
    var n, rest := a + size, h.blocks[a].size - size;
    SplitTiled(h.blocks, h.epi, a, size);
    assert BucketOk(h.blocks, RootIndex(rest), h.buckets[RootIndex(rest)]);
    assert n in h.buckets[RootIndex(rest)] ==> BucketMember(h.blocks, RootIndex(rest), n);
    assert n in h.mini ==> MiniMember(h.blocks, n);
  }

  /** The program, or a copy on its behalf, stores into the payload of the allocated block `a`. */
  lemma PayloadStoresEncoded(m: Memory, r: Memory, roots: seq<nat>, miniRoot: nat, h: Heap, a: nat)
    requires Shaped(h) && Encoded(m, roots, miniRoot, h, 0) && a in h.blocks && h.blocks[a].alloc
    requires |r| == |m| && forall k | 0 <= k < |m| && !(a < k < a + h.blocks[a].size) :: r[k] == m[k]
    ensures Encoded(r, roots, miniRoot, h, 0) && PayloadsKept(m, r, h.blocks, a)
  {
    var b, n := h.blocks, a + h.blocks[a].size;
    assert InPlace(b, h.epi, a) && HeaderOk(m, b, a);
    MarkedIsUpdate(b, h.epi, a, true);
    AllocatedUnlisted(h, a);
    assert EndsKept(m, r, a, n);
    EdgesKept(m, r, b, h.epi, a, n);
    PayloadsKeptOutside(m, r, b, h.epi, a, n, a);
    ListsKept(m, r, roots, miniRoot, h, a, n);
    forall c | c in b ensures HeaderOk(r, b, c) {
      if c != a {
        assert HeaderOk(m, b, c) && Apart(b, a, c);
        HeaderKept(m, r, b, h.epi, a, n, c);
      }
    }
    forall c | c in b && c != 0 ensures FooterOk(r, b, c) {
      assert FooterOk(m, b, c) && InPlace(b, h.epi, c) && Apart(b, c, a) && Apart(b, a, c);
    }
  }
}
