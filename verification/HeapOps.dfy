/** What the allocator does to its blocks and free lists, as functions on values: the
    specification the in-place code of module Allocator is proved against. */
module HeapOps {
  import opened BoundaryTags
  import opened HeapLayout
  import opened Sequences

  /** The blocks, the epilogue header, the 14 bucket lists and the mini list. An address of 0 is NULL. */
  datatype Heap = Heap(blocks: Layout, epi: nat, buckets: seq<seq<nat>>, mini: seq<nat>)

  /** `l` without its first `a`. */
  ghost function Minus(l: seq<nat>, a: nat): seq<nat> {
    if l == [] then [] else if l[0] == a then l[1..] else [l[0]] + Minus(l[1..], a)
  }

  lemma {:induction false} MinusAt(l: seq<nat>, i: nat)
    requires i < |l| && Distinct(l)
    ensures Minus(l, l[i]) == l[..i] + l[i + 1..]
  {
    if i > 0 {
      var t, a := l[1..], l[i];
      assert t[i - 1] == a;
      MinusAt(t, i - 1);
      RestWithout(l, i);
      assert Minus(l, a) == [l[0]] + Minus(t, a);
    }
  }

  lemma RestWithout(l: seq<nat>, i: nat)
    requires 0 < i < |l|
    ensures l[..i] + l[i + 1..] == [l[0]] + (l[1..][..i - 1] + l[1..][i..])
  {
  }

  lemma MinusMembers(l: seq<nat>, a: nat)
    requires Distinct(l)
    ensures Distinct(Minus(l, a))
    ensures forall c :: c in Minus(l, a) <==> c in l && c != a
  {
    if a in l {
      var i :| 0 <= i < |l| && l[i] == a;
      MinusAt(l, i);
      WithoutDistinct(l, i);
    } else {
      MinusAbsent(l, a);
    }
  }

  lemma {:induction false} MinusAbsent(l: seq<nat>, a: nat)
    requires a !in l
    ensures Minus(l, a) == l
  {
    if l != [] {
      MinusAbsent(l[1..], a);
    }
  }

  ghost predicate BucketMember(b: Layout, k: nat, a: nat) {
    IsFree(b, a) && b[a].size >= MIN_BLOCK && RootIndex(b[a].size) == k
  }

  ghost predicate MiniMember(b: Layout, a: nat) {
    IsFree(b, a) && b[a].size == MINI
  }

  ghost predicate BucketOk(b: Layout, k: nat, l: seq<nat>) {
    Distinct(l) && forall a | a in l :: BucketMember(b, k, a)
  }

  ghost predicate MiniOk(b: Layout, l: seq<nat>) {
    Distinct(l) && forall a | a in l :: MiniMember(b, a)
  }

  /** Lists hold free blocks of the right size, none twice. */
  ghost predicate ListsOk(h: Heap) {
    && |h.buckets| == NUM_ROOTS
    && (forall k {:trigger BucketOk(h.blocks, k, h.buckets[k])} | 0 <= k < NUM_ROOTS ::
        BucketOk(h.blocks, k, h.buckets[k]))
    && MiniOk(h.blocks, h.mini)
  }

  /** The list in which a free block of this size belongs. */
  ghost function ListFor(h: Heap, size: nat): seq<nat>
    requires |h.buckets| == NUM_ROOTS
  {
    if size == MINI then h.mini else h.buckets[RootIndex(size)]
  }

  ghost predicate Listed(h: Heap, a: nat)
    requires |h.buckets| == NUM_ROOTS
  {
    a in h.blocks && a in ListFor(h, h.blocks[a].size)
  }

  /** The shape every state between two steps of the allocator has. */
  ghost predicate Shaped(h: Heap) {
    Tiled(h.blocks, h.epi) && Aligned(h.blocks, h.epi) && ListsOk(h)
  }

  /** Every free block other than `x` is in its list. */
  ghost predicate AllListedBut(h: Heap, x: nat)
    requires |h.buckets| == NUM_ROOTS
  {
    forall a: nat {:trigger Listed(h, a)} {:trigger IsFree(h.blocks, a)} | IsFree(h.blocks, a) && a != x :: Listed(h, a)
  }

  /** Every free block is in its list. */
  ghost predicate AllListed(h: Heap)
    requires |h.buckets| == NUM_ROOTS
  {
    forall a: nat {:trigger Listed(h, a)} {:trigger IsFree(h.blocks, a)} | IsFree(h.blocks, a) :: Listed(h, a)
  }

  /** No two free blocks touch, unless `x` is one of them. */
  ghost predicate NoTwoFreeBut(b: Layout, x: nat) {
    forall a {:trigger FreePair(b, a)} | a in b && a != x && a + b[a].size != x :: !FreePair(b, a)
  }

  /** The invariant the allocator keeps: the lists hold exactly the free blocks and no two of these touch. */
  ghost predicate Good(h: Heap) {
    Shaped(h) && AllListed(h) && NoTwoFree(h.blocks)
  }

  ghost function SetList(h: Heap, size: nat, l: seq<nat>): Heap
    requires |h.buckets| == NUM_ROOTS
  {
    if size == MINI then h.(mini := l) else h.(buckets := h.buckets[RootIndex(size) := l])
  }

  /** `insert_free_block`: at the front of the list for its size. */
  ghost function InsertFree(h: Heap, a: nat): Heap
    requires |h.buckets| == NUM_ROOTS && a in h.blocks
  {
    var size := h.blocks[a].size;
    SetList(h, size, [a] + ListFor(h, size))
  }

  /** `remove_free_block`. */
  ghost function RemoveFree(h: Heap, a: nat): Heap
    requires |h.buckets| == NUM_ROOTS && a in h.blocks
  {
    var size := h.blocks[a].size;
    SetList(h, size, Minus(ListFor(h, size), a))
  }

  lemma ListForOk(h: Heap, size: nat)
    requires ListsOk(h) && (size == MINI || size >= MIN_BLOCK)
    ensures Distinct(ListFor(h, size))
    ensures size != MINI ==> BucketOk(h.blocks, RootIndex(size), ListFor(h, size))
  {
    if size != MINI {
      assert BucketOk(h.blocks, RootIndex(size), h.buckets[RootIndex(size)]);
    }
  }

  lemma RemoveFreeShaped(h: Heap, a: nat)
    requires Shaped(h) && a in h.blocks
    ensures Shaped(RemoveFree(h, a))
    ensures forall c {:trigger Listed(RemoveFree(h, a), c)} :: Listed(RemoveFree(h, a), c) == (Listed(h, c) && c != a)
  {
    assert InPlace(h.blocks, h.epi, a);
    var size := h.blocks[a].size;
    assert AlignedAt(h.blocks, a);
    var r := RemoveFree(h, a);
    ListForOk(h, size);
    MinusMembers(ListFor(h, size), a);
    forall k | 0 <= k < NUM_ROOTS ensures BucketOk(r.blocks, k, r.buckets[k]) {
      assert BucketOk(h.blocks, k, h.buckets[k]);
    }
  }

  lemma InsertFreeShaped(h: Heap, a: nat)
    requires Shaped(h) && IsFree(h.blocks, a) && !Listed(h, a)
    ensures Shaped(InsertFree(h, a))
    ensures forall c {:trigger Listed(InsertFree(h, a), c)} :: Listed(InsertFree(h, a), c) == (Listed(h, c) || c == a)
  {
    assert InPlace(h.blocks, h.epi, a);
    var size := h.blocks[a].size;
    assert AlignedAt(h.blocks, a);
    var r := InsertFree(h, a);
    ListForOk(h, size);
    forall k | 0 <= k < NUM_ROOTS ensures BucketOk(r.blocks, k, r.buckets[k]) {
      assert BucketOk(h.blocks, k, h.buckets[k]);
    }
  }

  /** Only blocks outside every list may be merged or change their status. */
  lemma ReplaceShaped(h: Heap, a: nat, size: nat, alloc: bool)
    requires Shaped(h) && a in h.blocks && size >= MINI && size % 2 == 0
    requires a + size == h.epi || (a + size < h.epi && a + size in h.blocks)
    requires forall c | c in h.blocks && a <= c < a + size :: !Listed(h, c)
    ensures Shaped(h.(blocks := Replace(h.blocks, a, size, alloc)))
    ensures forall c | c in h.blocks && !(a <= c < a + size) ::
              Listed(h.(blocks := Replace(h.blocks, a, size, alloc)), c) == Listed(h, c)
    ensures !Listed(h.(blocks := Replace(h.blocks, a, size, alloc)), a)
  {
    var r := h.(blocks := Replace(h.blocks, a, size, alloc));
    ReplaceTiled(h.blocks, h.epi, a, size, alloc);
    ReplaceAligned(h.blocks, h.epi, a, size, alloc);
    forall k, c | 0 <= k < NUM_ROOTS && c in h.buckets[k] ensures BucketMember(r.blocks, k, c) && !(a <= c < a + size) {
      assert BucketOk(h.blocks, k, h.buckets[k]) && BucketMember(h.blocks, k, c);
      assert Listed(h, c);
    }
    forall c | c in h.mini ensures MiniMember(r.blocks, c) && !(a <= c < a + size) {
      assert MiniMember(h.blocks, c) && Listed(h, c);
    }
    forall k | 0 <= k < NUM_ROOTS ensures BucketOk(r.blocks, k, r.buckets[k]) {
      assert BucketOk(h.blocks, k, h.buckets[k]);
    }
  }

  ghost function PrevOf(b: Layout, a: nat): (p: nat)
    requires PrevFree(b, a)
    ensures PrecededBy(b, a, p) && !b[p].alloc
  {
    var p :| PrecededBy(b, a, p) && !b[p].alloc; p
  }

  /** First word of the free stretch around the free block `a`. */
  ghost function StretchLo(b: Layout, a: nat): nat {
    if PrevFree(b, a) then PrevOf(b, a) else a
  }

  /** First word after the free stretch around the free block `a`. */
  ghost function StretchHi(b: Layout, a: nat): nat
    requires a in b
  {
    var n := a + b[a].size;
    if IsFree(b, n) then n + b[n].size else n
  }

  /** The lists after `coalesce_block` took the free neighbours of `a` out. */
  ghost function Unlisted(h: Heap, a: nat): (r: Heap)
    requires |h.buckets| == NUM_ROOTS && a in h.blocks
    ensures |r.buckets| == NUM_ROOTS && r.blocks == h.blocks && r.epi == h.epi
  {
    var h1 := if PrevFree(h.blocks, a) then RemoveFree(h, PrevOf(h.blocks, a)) else h;
    var n := a + h.blocks[a].size;
    if IsFree(h.blocks, n) then RemoveFree(h1, n) else h1
  }

  /** `coalesce_block`: the free stretch around `a` becomes one block, which is in no list. */
  ghost function Coalesce(h: Heap, a: nat): Heap
    requires |h.buckets| == NUM_ROOTS && a in h.blocks
  {
    var lo, hi := StretchLo(h.blocks, a), StretchHi(h.blocks, a);
    Unlisted(h, a).(blocks := Replace(h.blocks, lo, if hi >= lo then hi - lo else 0, false))
  }

  /** The stretch around `a` begins and ends at block borders and holds `a` and its free neighbours only. */
  lemma StretchFacts(b: Layout, epi: nat, a: nat)
    requires Tiled(b, epi) && IsFree(b, a)
    ensures var lo, hi := StretchLo(b, a), StretchHi(b, a);
            && lo in b && lo <= a < a + b[a].size <= hi <= epi && (hi == epi || hi in b)
            && (forall c | c in b :: lo <= c < hi <==> InStretch(b, a, c))
  {
    var lo, hi, n := StretchLo(b, a), StretchHi(b, a), a + b[a].size;
    assert InPlace(b, epi, a) && InPlace(b, epi, lo);
    assert IsFree(b, n) ==> InPlace(b, epi, n);
    forall c | c in b ensures lo <= c < hi <==> InStretch(b, a, c) {
      assert Apart(b, lo, c) && Apart(b, a, c) && Apart(b, c, lo);
      assert n in b ==> Apart(b, n, c);
    }
  }

  /** `c` is `a` or one of the free blocks next to it. */
  ghost predicate InStretch(b: Layout, a: nat, c: nat)
    requires a in b
  {
    c == a || (PrevFree(b, a) && c == PrevOf(b, a)) || (IsFree(b, c) && c == a + b[a].size)
  }

  lemma StretchAligned(h: Heap, a: nat)
    requires Shaped(h) && IsFree(h.blocks, a)
    ensures (StretchHi(h.blocks, a) - StretchLo(h.blocks, a)) % 2 == 0
  {
    var lo, hi := StretchLo(h.blocks, a), StretchHi(h.blocks, a);
    StretchFacts(h.blocks, h.epi, a);
    assert AlignedAt(h.blocks, lo) && (hi in h.blocks ==> AlignedAt(h.blocks, hi));
    OddDifference(lo, hi);
  }

  lemma OddDifference(x: nat, y: nat)
    requires x % 2 == 1 && y % 2 == 1
    ensures (y - x) % 2 == 0
  {
  }

  lemma UnlistedShaped(h: Heap, a: nat)
    requires Shaped(h) && IsFree(h.blocks, a) && !Listed(h, a)
    ensures Shaped(Unlisted(h, a))
    ensures forall c | c in h.blocks ::
              Listed(Unlisted(h, a), c) == (Listed(h, c) && !(StretchLo(h.blocks, a) <= c < StretchHi(h.blocks, a)))
  {
    var b, n := h.blocks, a + h.blocks[a].size;
    StretchFacts(b, h.epi, a);
    var h1 := h;
    if PrevFree(b, a) {
      RemoveFreeShaped(h, PrevOf(b, a));
      h1 := RemoveFree(h, PrevOf(b, a));
    }
    if IsFree(b, n) {
      RemoveFreeShaped(h1, n);
    }
  }

  lemma MergeListed(u: Heap, lo: nat, size: nat, r: Heap)
    requires Shaped(u) && lo in u.blocks && size >= MINI && size % 2 == 0
    requires lo + size == u.epi || (lo + size < u.epi && lo + size in u.blocks)
    requires forall c | c in u.blocks && lo <= c < lo + size :: !Listed(u, c)
    requires forall c: nat | IsFree(u.blocks, c) && !(lo <= c < lo + size) :: Listed(u, c)
    requires r == u.(blocks := Replace(u.blocks, lo, size, false))
    ensures Shaped(r) && IsFree(r.blocks, lo) && !Listed(r, lo) && AllListedBut(r, lo)
  {
    ReplaceShaped(u, lo, size, false);
    forall c: nat | IsFree(r.blocks, c) && c != lo ensures Listed(r, c) {
      assert IsFree(u.blocks, c) && Listed(u, c);
    }
  }

  /** Coalescing leaves one free unlisted block and all other free blocks listed. */
  lemma CoalesceShaped(h: Heap, a: nat)
    requires Shaped(h) && IsFree(h.blocks, a) && !Listed(h, a) && AllListedBut(h, a)
    ensures var r, lo := Coalesce(h, a), StretchLo(h.blocks, a);
            Shaped(r) && IsFree(r.blocks, lo) && !Listed(r, lo) && AllListedBut(r, lo)
  {
    var lo, hi, u := StretchLo(h.blocks, a), StretchHi(h.blocks, a), Unlisted(h, a);
    StretchFacts(h.blocks, h.epi, a);
    UnlistedShaped(h, a);
    StretchAligned(h, a);
    assert u.blocks == h.blocks && u.epi == h.epi && lo + (hi - lo) == hi;
    forall c: nat | IsFree(u.blocks, c) && !(lo <= c < hi) ensures Listed(u, c) {
      assert Listed(h, c);
    }
    MergeListed(u, lo, hi - lo, Coalesce(h, a));
  }

  lemma StretchApart(b: Layout, epi: nat, a: nat)
    requires Tiled(b, epi) && IsFree(b, a) && NoTwoFreeBut(b, a)
    requires StretchLo(b, a) <= StretchHi(b, a)
    ensures NoTwoFree(Replace(b, StretchLo(b, a), StretchHi(b, a) - StretchLo(b, a), false))
  {
    var lo, hi, n := StretchLo(b, a), StretchHi(b, a), a + b[a].size;
    var r := Replace(b, lo, hi - lo, false);
    StretchFacts(b, epi, a);
    assert IsFree(b, n) ==> InPlace(b, epi, n) && !FreePair(b, n);
    assert !FreePair(r, lo);
    forall c | c in r && c != lo ensures !FreePair(r, c) {
      assert InPlace(b, epi, c) && PrecededBy(b, c + b[c].size, c);
      assert c + b[c].size != a ==> !FreePair(b, c);
    }
  }

  /** Coalescing and listing what comes out of it restores the invariant. */
  lemma CoalesceInsertGood(h: Heap, a: nat)
    requires Shaped(h) && IsFree(h.blocks, a) && !Listed(h, a) && AllListedBut(h, a) && NoTwoFreeBut(h.blocks, a)
    ensures StretchLo(h.blocks, a) in Coalesce(h, a).blocks
    ensures Good(InsertFree(Coalesce(h, a), StretchLo(h.blocks, a)))
  {
    CoalesceShaped(h, a);
    CoalesceApart(h, a);
    ListingLast(Coalesce(h, a), StretchLo(h.blocks, a));
  }

  lemma CoalesceApart(h: Heap, a: nat)
    requires |h.buckets| == NUM_ROOTS && Tiled(h.blocks, h.epi) && IsFree(h.blocks, a) && NoTwoFreeBut(h.blocks, a)
    ensures NoTwoFree(Coalesce(h, a).blocks)
  {
    StretchFacts(h.blocks, h.epi, a);
    StretchApart(h.blocks, h.epi, a);
  }

  lemma ListingLast(h: Heap, a: nat)
    requires Shaped(h) && IsFree(h.blocks, a) && !Listed(h, a) && AllListedBut(h, a) && NoTwoFree(h.blocks)
    ensures Good(InsertFree(h, a))
  {
    InsertFreeShaped(h, a);
    var r := InsertFree(h, a);
    forall c: nat | IsFree(r.blocks, c) ensures Listed(r, c) {
      assert c != a ==> Listed(h, c);
    }
  }

  /** The block `a` with its status changed. */
  ghost function Marked(h: Heap, a: nat, alloc: bool): Heap
    requires a in h.blocks
  {
    h.(blocks := Replace(h.blocks, a, h.blocks[a].size, alloc))
  }

  lemma MarkedIsUpdate(b: Layout, epi: nat, a: nat, alloc: bool)
    requires Tiled(b, epi) && a in b
    ensures Replace(b, a, b[a].size, alloc) == b[a := Block(b[a].size, alloc)]
    ensures a + b[a].size == epi || (a + b[a].size < epi && a + b[a].size in b)
    ensures forall c | c in b && a <= c < a + b[a].size :: c == a
  {
    assert InPlace(b, epi, a);
    forall c | c in b && a <= c < a + b[a].size ensures c == a {
      assert Apart(b, a, c);
    }
  }

  lemma MarkedShaped(h: Heap, a: nat, alloc: bool)
    requires Shaped(h) && a in h.blocks && !Listed(h, a)
    ensures Shaped(Marked(h, a, alloc)) && !Listed(Marked(h, a, alloc), a)
    ensures forall c | c != a :: Listed(Marked(h, a, alloc), c) == Listed(h, c)
  {
    MarkedIsUpdate(h.blocks, h.epi, a, alloc);
    assert InPlace(h.blocks, h.epi, a) && AlignedAt(h.blocks, a);
    ReplaceShaped(h, a, h.blocks[a].size, alloc);
  }

  lemma AllocatedUnlisted(h: Heap, a: nat)
    requires Shaped(h) && a in h.blocks && h.blocks[a].alloc
    ensures !Listed(h, a)
  {
    var size := h.blocks[a].size;
    assert InPlace(h.blocks, h.epi, a) && AlignedAt(h.blocks, a);
    ListForOk(h, size);
    assert a in ListFor(h, size)
           ==> (size == MINI && MiniMember(h.blocks, a)) || BucketMember(h.blocks, RootIndex(size), a);
  }

  /** `free` on the allocated block `a`. */
  ghost function Release(h: Heap, a: nat): Heap
    requires |h.buckets| == NUM_ROOTS && a in h.blocks && Tiled(h.blocks, h.epi)
  {
    var m := Marked(h, a, false);
    InsertFree(Coalesce(m, a), StretchLo(m.blocks, a))
  }

  lemma MarkedFreeReady(h: Heap, a: nat)
    requires Good(h) && a in h.blocks && h.blocks[a].alloc
    ensures var m := Marked(h, a, false);
            Shaped(m) && IsFree(m.blocks, a) && !Listed(m, a) && AllListedBut(m, a) && NoTwoFreeBut(m.blocks, a)
  {
    var m := Marked(h, a, false);
    AllocatedUnlisted(h, a);
    MarkedShaped(h, a, false);
    MarkedIsUpdate(h.blocks, h.epi, a, false);
    forall c: nat | IsFree(m.blocks, c) && c != a ensures Listed(m, c) {
      assert IsFree(h.blocks, c) && Listed(h, c);
    }
    forall c | c in m.blocks && c != a && c + m.blocks[c].size != a ensures !FreePair(m.blocks, c) {
      assert !FreePair(h.blocks, c);
    }
  }

  /** `free` keeps the invariant. */
  lemma FreeGood(h: Heap, a: nat)
    requires Good(h) && a in h.blocks && h.blocks[a].alloc
    ensures Good(Release(h, a))
  {
    MarkedFreeReady(h, a);
    CoalesceInsertGood(Marked(h, a, false), a);
  }

  /** `extend_heap` with room for `size` more words. */
  ghost function Extended(h: Heap, size: nat): Heap {
    h.(blocks := h.blocks[h.epi := Block(size, false)], epi := h.epi + size)
  }

  ghost function Extend(h: Heap, size: nat): Heap
    requires |h.buckets| == NUM_ROOTS && Tiled(h.blocks, h.epi) && size >= MINI
  {
    var e := Extended(h, size);
    ExtendTiled(h.blocks, h.epi, size);
    InsertFree(Coalesce(e, h.epi), StretchLo(e.blocks, h.epi))
  }

  lemma ExtendedShaped(h: Heap, size: nat)
    requires Good(h) && size >= MINI && size % 2 == 0
    ensures var e := Extended(h, size);
            Shaped(e) && IsFree(e.blocks, h.epi) && !Listed(e, h.epi) && AllListedBut(e, h.epi)
                && NoTwoFreeBut(e.blocks, h.epi)
  {
    var e := Extended(h, size);
    ExtendTiled(h.blocks, h.epi, size);
    ExtendedAligned(h.blocks, h.epi, size);
    ExtendedLists(h, size);
    forall c | c in e.blocks && c != h.epi && c + e.blocks[c].size != h.epi ensures !FreePair(e.blocks, c) {
      assert InPlace(h.blocks, h.epi, c) && !FreePair(h.blocks, c);
    }
  }

  lemma ExtendedAligned(b: Layout, epi: nat, size: nat)
    requires Aligned(b, epi) && size % 2 == 0
    ensures Aligned(b[epi := Block(size, false)], epi + size)
  {
    var r := b[epi := Block(size, false)];
    forall c | c in r ensures AlignedAt(r, c) {
      assert c in b ==> AlignedAt(b, c);
    }
  }

  /** The lists stay right, without the new block in any of them. */
  lemma ExtendedLists(h: Heap, size: nat)
    requires ListsOk(h) && AllListed(h) && h.epi !in h.blocks
    ensures var e := Extended(h, size); ListsOk(e) && !Listed(e, h.epi) && AllListedBut(e, h.epi)
  {
    var e := Extended(h, size);
    forall k | 0 <= k < NUM_ROOTS ensures BucketOk(e.blocks, k, e.buckets[k]) && h.epi !in e.buckets[k] {
      assert BucketOk(h.blocks, k, h.buckets[k]);
    }
    forall c: nat | IsFree(e.blocks, c) && c != h.epi ensures Listed(e, c) {
      assert Listed(h, c);
    }
  }

  /** `extend_heap` keeps the invariant. */
  lemma ExtendGood(h: Heap, size: nat)
    requires Good(h) && size >= MINI && size % 2 == 0
    ensures Good(Extend(h, size))
  {
    ExtendedShaped(h, size);
    CoalesceInsertGood(Extended(h, size), h.epi);
  }

  /** `malloc` takes the free block `a`: unlist it, mark it, and list what `split_block` cuts off. */
  ghost function Place(h: Heap, a: nat, asize: nat): Heap
    requires |h.buckets| == NUM_ROOTS && a in h.blocks && asize <= h.blocks[a].size
  {
    var h1 := Marked(RemoveFree(h, a), a, true);
    if h.blocks[a].size - asize >= MINI then
      InsertFree(h1.(blocks := Split(h1.blocks, a, asize)), a + asize)
    else
      h1
  }

  lemma MarkAllocatedGood(h: Heap, a: nat)
    requires Good(h) && IsFree(h.blocks, a)
    ensures var r := Marked(RemoveFree(h, a), a, true); Good(r) && !IsFree(r.blocks, a + r.blocks[a].size)
  {
    var u := RemoveFree(h, a);
    RemoveFreeShaped(h, a);
    MarkedShaped(u, a, true);
    MarkedIsUpdate(h.blocks, h.epi, a, true);
    var r := Marked(u, a, true);
    assert !FreePair(h.blocks, a);
    forall c: nat | IsFree(r.blocks, c) ensures Listed(r, c) {
      assert IsFree(h.blocks, c) && Listed(h, c);
    }
    TakenNotPaired(h.blocks, a, r.blocks);
  }

  /** Taking a block into use makes no two free blocks touch. */
  lemma TakenNotPaired(b: Layout, a: nat, r: Layout)
    requires NoTwoFree(b) && a in b && r == b[a := Block(b[a].size, true)]
    ensures NoTwoFree(r)
  {
    forall c | c in r ensures !FreePair(r, c) {
      assert !FreePair(b, c);
    }
  }

  lemma SplitGood(h: Heap, a: nat, asize: nat)
    requires Good(h) && a in h.blocks && h.blocks[a].alloc && !IsFree(h.blocks, a + h.blocks[a].size)
    requires MINI <= asize && asize % 2 == 0 && h.blocks[a].size >= asize + MINI
    ensures var s := h.(blocks := Split(h.blocks, a, asize)); Shaped(s) && Good(InsertFree(s, a + asize))
  {
    var s, n := h.(blocks := Split(h.blocks, a, asize)), a + asize;
    SplitTiled(h.blocks, h.epi, a, asize);
    forall c | c in s.blocks ensures AlignedAt(s.blocks, c) {
      assert AlignedAt(h.blocks, a) && (c in h.blocks ==> AlignedAt(h.blocks, c));
    }
    forall k | 0 <= k < NUM_ROOTS ensures BucketOk(s.blocks, k, s.buckets[k]) && n !in s.buckets[k] {
      assert BucketOk(h.blocks, k, h.buckets[k]);
    }
    forall c: nat | IsFree(s.blocks, c) && c != n ensures Listed(s, c) {
      assert Listed(h, c);
    }
    forall c | c in s.blocks ensures !FreePair(s.blocks, c) {
      SplitNotPaired(h, a, asize, c);
    }
    ListingLast(s, n);
  }

  lemma SplitNotPaired(h: Heap, a: nat, asize: nat, c: nat)
    requires Tiled(h.blocks, h.epi) && NoTwoFree(h.blocks)
    requires a in h.blocks && h.blocks[a].alloc && !IsFree(h.blocks, a + h.blocks[a].size)
    requires MINI <= asize && h.blocks[a].size >= asize + MINI && c in Split(h.blocks, a, asize)
    ensures !FreePair(Split(h.blocks, a, asize), c)
  {
    var b, n := h.blocks, a + asize;
    SplitTiled(b, h.epi, a, asize);
    if c != a && c != n {
      assert !FreePair(b, c) && InPlace(b, h.epi, c) && Apart(b, c, a) && Apart(b, a, c);
    }
  }

  /** Placing a block keeps the invariant. */
  lemma PlaceGood(h: Heap, a: nat, asize: nat)
    requires Good(h) && IsFree(h.blocks, a) && MINI <= asize <= h.blocks[a].size && asize % 2 == 0
    ensures Good(Place(h, a, asize))
  {
    MarkAllocatedGood(h, a);
    assert InPlace(h.blocks, h.epi, a) && AlignedAt(h.blocks, a);
    if h.blocks[a].size - asize >= MINI {
      SplitGood(Marked(RemoveFree(h, a), a, true), a, asize);
    }
  }

  /** The first block in `l` of at least `asize` words, or 0. */
  ghost function FitIn(b: Layout, l: seq<nat>, asize: nat): nat {
    if l == [] then 0 else if l[0] in b && asize <= b[l[0]].size then l[0] else FitIn(b, l[1..], asize)
  }

  /** `find_fit` from bucket `k` on. */
  ghost function FitFrom(h: Heap, k: nat, asize: nat): nat
    requires |h.buckets| == NUM_ROOTS && k <= NUM_ROOTS
    decreases NUM_ROOTS - k
  {
    if k == NUM_ROOTS then 0
    else
      var f := FitIn(h.blocks, h.buckets[k], asize);
      if f != 0 then f else FitFrom(h, k + 1, asize)
  }

  /** The block `malloc` uses without growing the heap: the newest mini block or the first fit; 0 if there is none. */
  ghost function Find(h: Heap, asize: nat): nat
    requires |h.buckets| == NUM_ROOTS
  {
    if asize == MINI && h.mini != [] then h.mini[0] else FitFrom(h, RootIndex(asize), asize)
  }

  lemma {:induction false} FitInCorrect(b: Layout, l: seq<nat>, asize: nat)
    requires 0 !in b
    ensures var f := FitIn(b, l, asize);
            if f == 0 then forall c | c in l && c in b :: b[c].size < asize else f in l && f in b && b[f].size >= asize
  {
    if l != [] {
      FitInCorrect(b, l[1..], asize);
    }
  }

  lemma {:induction false} FitFromCorrect(h: Heap, k: nat, asize: nat)
    requires Shaped(h) && k <= NUM_ROOTS
    ensures var f := FitFrom(h, k, asize);
            if f == 0 then forall i, c | k <= i < NUM_ROOTS && c in h.buckets[i] && c in h.blocks ::
                h.blocks[c].size < asize
            else IsFree(h.blocks, f) && h.blocks[f].size >= asize
    decreases NUM_ROOTS - k
  {
    if k < NUM_ROOTS {
      assert 0 in h.blocks ==> InPlace(h.blocks, h.epi, 0);
      FitInCorrect(h.blocks, h.buckets[k], asize);
      assert BucketOk(h.blocks, k, h.buckets[k]);
      FitFromCorrect(h, k + 1, asize);
    }
  }

  /** `malloc` finds a block among the free ones exactly when one of them, mini or not, is large enough. */
  lemma FindComplete(h: Heap, asize: nat)
    requires Good(h) && asize >= MINI && asize % 2 == 0
    ensures Find(h, asize) != 0 <==> exists c: nat :: IsFree(h.blocks, c) && h.blocks[c].size >= asize
    ensures Find(h, asize) != 0 ==> IsFree(h.blocks, Find(h, asize)) && h.blocks[Find(h, asize)].size >= asize
  {
    var f := Find(h, asize);
    FitFromCorrect(h, RootIndex(asize), asize);
    assert h.mini != [] ==> h.mini[0] in h.mini && MiniMember(h.blocks, h.mini[0]);
    assert 0 in h.blocks ==> InPlace(h.blocks, h.epi, 0);
    if f == 0 {
      forall c: nat | IsFree(h.blocks, c) ensures h.blocks[c].size < asize {
        assert InPlace(h.blocks, h.epi, c) && AlignedAt(h.blocks, c) && Listed(h, c);
        if h.blocks[c].size >= asize {
          RootIndexMonotone(asize, h.blocks[c].size);
        }
      }
    }
  }

  /** None of the first `n` blocks of bucket `k` has `asize` words. */
  ghost predicate NoneFits(h: Heap, k: nat, n: nat, asize: nat)
    requires k < |h.buckets| && n <= |h.buckets[k]|
  {
    forall j | 0 <= j < n :: h.buckets[k][j] in h.blocks && h.blocks[h.buckets[k][j]].size < asize
  }

  /** No block of the buckets from `from` up to `k` has `asize` words. */
  ghost predicate NoneFitsBelow(h: Heap, from: nat, k: nat, asize: nat)
    requires k <= |h.buckets|
  {
    forall m {:trigger h.buckets[m]} | from <= m < k :: NoneFits(h, m, |h.buckets[m]|, asize)
  }

  /** Block `i` of bucket `k` is the first one large enough, bucket by bucket from `from` on. */
  ghost predicate FirstAt(h: Heap, from: nat, asize: nat, k: nat, i: nat) {
    && from <= k < |h.buckets| && i < |h.buckets[k]|
    && h.buckets[k][i] in h.blocks && h.blocks[h.buckets[k][i]].size >= asize
    && NoneFitsBelow(h, from, k, asize) && NoneFits(h, k, i, asize)
  }

  /** `f` is the first block large enough, bucket by bucket from `from` on; 0 if there is none. */
  ghost predicate IsFirstFit(h: Heap, from: nat, asize: nat, f: nat) {
    if f == 0 then NoneFitsBelow(h, from, |h.buckets|, asize)
    else exists k: nat, i: nat :: FirstAt(h, from, asize, k, i) && h.buckets[k][i] == f
  }

  /** The block `malloc` has to use without growing: the newest mini block, or the first fit from the bucket on. */
  ghost predicate IsChoice(h: Heap, asize: nat, f: nat) {
    if asize == MINI && h.mini != [] then f == h.mini[0] else IsFirstFit(h, RootIndex(asize), asize, f)
  }

  lemma {:induction false} FitInFirst(h: Heap, k: nat, asize: nat, from: nat)
    requires Shaped(h) && k < NUM_ROOTS && from <= |h.buckets[k]| && NoneFits(h, k, from, asize)
    ensures var f := FitIn(h.blocks, h.buckets[k][from..], asize);
            if f == 0 then NoneFits(h, k, |h.buckets[k]|, asize)
            else exists i: nat :: FirstIn(h, k, asize, i) && h.buckets[k][i] == f
    decreases |h.buckets[k]| - from
  {
    var l := h.buckets[k];
    if from < |l| {
      assert BucketOk(h.blocks, k, l) && l[from] in l && BucketMember(h.blocks, k, l[from]);
      assert InPlace(h.blocks, h.epi, l[from]);
      assert l[from..][0] == l[from] && l[from..][1..] == l[from + 1..];
      if h.blocks[l[from]].size < asize {
        FitInFirst(h, k, asize, from + 1);
      } else {
        assert FirstIn(h, k, asize, from);
      }
    }
  }

  /** Block `i` is the first of bucket `k` that is large enough. */
  ghost predicate FirstIn(h: Heap, k: nat, asize: nat, i: nat)
    requires k < |h.buckets|
  {
    && i < |h.buckets[k]| && h.buckets[k][i] in h.blocks && h.blocks[h.buckets[k][i]].size >= asize
    && NoneFits(h, k, i, asize)
  }

  lemma {:induction false} FitFromFirst(h: Heap, from: nat, k: nat, asize: nat)
    requires Shaped(h) && from <= k <= NUM_ROOTS && NoneFitsBelow(h, from, k, asize)
    ensures IsFirstFit(h, from, asize, FitFrom(h, k, asize))
    decreases NUM_ROOTS - k
  {
    if k < NUM_ROOTS {
      FitInFirst(h, k, asize, 0);
      assert h.buckets[k][0..] == h.buckets[k];
      var f := FitIn(h.blocks, h.buckets[k], asize);
      if f == 0 {
        FitFromFirst(h, from, k + 1, asize);
      } else {
        var i: nat :| FirstIn(h, k, asize, i) && h.buckets[k][i] == f;
        assert FirstAt(h, from, asize, k, i);
      }
    }
  }

  /** The block `malloc` uses without growing the heap is the one it has to use. */
  lemma FindIsChoice(h: Heap, asize: nat)
    requires Shaped(h)
    ensures IsChoice(h, asize, Find(h, asize))
  {
    FitFromFirst(h, RootIndex(asize), RootIndex(asize), asize);
  }

  /** No other block would do. */
  lemma ChoiceUnique(h: Heap, asize: nat, f: nat, g: nat)
    requires Shaped(h) && IsChoice(h, asize, f) && IsChoice(h, asize, g)
    ensures f == g
  {
    if !(asize == MINI && h.mini != []) && f != 0 && g != 0 {
      var k: nat, i: nat :| FirstAt(h, RootIndex(asize), asize, k, i) && h.buckets[k][i] == f;
      var m: nat, j: nat :| FirstAt(h, RootIndex(asize), asize, m, j) && h.buckets[m][j] == g;
      SamePlace(h, RootIndex(asize), asize, k, i, m, j);
    }
  }

  lemma SamePlace(h: Heap, from: nat, asize: nat, k: nat, i: nat, m: nat, j: nat)
    requires FirstAt(h, from, asize, k, i) && FirstAt(h, from, asize, m, j)
    ensures k == m && i == j
  {
  }

  /** What `malloc` returns: the heap after the call and the address of the block taken (0 for NULL). */
  datatype Allocation = Allocation(heap: Heap, block: nat)

  ghost function Larger(x: nat, y: nat): nat { if x > y then x else y }

  /** `malloc` for a block of `asize` words when the heap may grow to `capacity` words. */
  ghost function Allocate(h: Heap, asize: nat, capacity: nat): Allocation
    requires Good(h) && asize >= MINI && asize % 2 == 0
  {
    var f, more := Find(h, asize), Larger(asize, CHUNK);
    FindComplete(h, asize);
    if f != 0 then Allocation(Place(h, f, asize), f)
    else if h.epi + 1 + more > capacity then Allocation(h, 0)
    else
      var e := Extend(h, more);
      var a := StretchLo(Extended(h, more).blocks, h.epi);
      ExtendRoom(h, more);
      Allocation(Place(e, a, asize), a)
  }

  /** The block at the end of an extended heap is free and at least as large as the extension. */
  lemma ExtendRoom(h: Heap, more: nat)
    requires Good(h) && more >= MINI && more % 2 == 0
    ensures var e, a := Extend(h, more), StretchLo(Extended(h, more).blocks, h.epi);
            Good(e) && IsFree(e.blocks, a) && e.blocks[a].size >= more
  {
    ExtendGood(h, more);
    ExtendedShaped(h, more);
    StretchFacts(Extended(h, more).blocks, h.epi + more, h.epi);
  }

  lemma MallocFound(h: Heap, asize: nat, capacity: nat, f: nat)
    requires Good(h) && asize >= MINI && asize % 2 == 0 && f == Find(h, asize) != 0
    ensures IsFree(h.blocks, f) && h.blocks[f].size >= asize
    ensures Allocate(h, asize, capacity) == Allocation(Place(h, f, asize), f)
  {
    FindComplete(h, asize);
  }

  lemma MallocFailed(h: Heap, asize: nat, capacity: nat)
    requires Good(h) && asize >= MINI && asize % 2 == 0 && Find(h, asize) == 0
             && h.epi + 1 + Larger(asize, CHUNK) > capacity
    ensures Allocate(h, asize, capacity) == Allocation(h, 0)
  {
  }

  lemma MallocGrown(h: Heap, asize: nat, capacity: nat, e: Heap, a: nat)
    requires Good(h) && asize >= MINI && asize % 2 == 0 && Find(h, asize) == 0
             && h.epi + 1 + Larger(asize, CHUNK) <= capacity
    requires e == Extend(h, Larger(asize, CHUNK)) && a == StretchLo(Extended(h, Larger(asize, CHUNK)).blocks, h.epi)
    ensures Good(e) && IsFree(e.blocks, a) && e.blocks[a].size >= asize && a != 0
    ensures Allocate(h, asize, capacity) == Allocation(Place(e, a, asize), a)
    ensures AllocatedKept(h.blocks, e.blocks, 0) && (a in h.blocks ==> !h.blocks[a].alloc)
  {
    ExtendRoom(h, Larger(asize, CHUNK));
    ExtendKeeps(h, Larger(asize, CHUNK));
    NoBlockAtZero(e);
  }

  lemma NoBlockAtZero(h: Heap)
    requires Shaped(h)
    ensures 0 !in h.blocks
  {
    assert 0 in h.blocks ==> InPlace(h.blocks, h.epi, 0);
  }

  /** `malloc` keeps the invariant. */
  lemma MallocGood(h: Heap, asize: nat, capacity: nat)
    requires Good(h) && asize >= MINI && asize % 2 == 0
    ensures Good(Allocate(h, asize, capacity).heap)
  {
    var f, more := Find(h, asize), Larger(asize, CHUNK);
    if f != 0 {
      MallocFound(h, asize, capacity, f);
      PlaceGood(h, f, asize);
    } else if h.epi + 1 + more <= capacity {
      var e, a := Extend(h, more), StretchLo(Extended(h, more).blocks, h.epi);
      MallocGrown(h, asize, capacity, e, a);
      PlaceGood(e, a, asize);
    }
  }

  /**
   * Without growth `malloc` takes the block it has to. It grows only if there is none, by the larger of the request and
   * the chunk, and then takes the last free block, with the new words at its end.
   */
  lemma MallocChooses(h: Heap, asize: nat, capacity: nat)
    requires Good(h) && asize >= MINI && asize % 2 == 0
    ensures var r := Allocate(h, asize, capacity);
            if r.heap.epi == h.epi then r.block != 0 ==> IsChoice(h, asize, r.block)
            else IsChoice(h, asize, 0) && r.heap.epi == h.epi + Larger(asize, CHUNK)
                 && (r.block == h.epi || (IsFree(h.blocks, r.block) && r.block + h.blocks[r.block].size == h.epi))
  {
    FindIsChoice(h, asize);
    FindComplete(h, asize);
    var f, more := Find(h, asize), Larger(asize, CHUNK);
    if f != 0 {
      MallocFound(h, asize, capacity, f);
    } else if h.epi + 1 + more <= capacity {
      MallocGrown(h, asize, capacity, Extend(h, more), StretchLo(Extended(h, more).blocks, h.epi));
    }
  }

  /** `d` still has every allocated block of `b`, `x` excepted. */
  ghost predicate AllocatedKept(b: Layout, d: Layout, x: nat) {
    forall c {:trigger b[c]} | c in b && b[c].alloc && c != x :: c in d && d[c] == b[c]
  }

  lemma PlaceKeeps(h: Heap, a: nat, asize: nat)
    requires Good(h) && IsFree(h.blocks, a) && MINI <= asize <= h.blocks[a].size && asize % 2 == 0
    ensures var d := Place(h, a, asize).blocks;
            AllocatedKept(h.blocks, d, 0) && a in d && d[a].alloc && d[a].size >= asize
    ensures Place(h, a, asize).blocks[a].size < asize + MINI
  {
    MarkedIsUpdate(h.blocks, h.epi, a, true);
    MarkAllocatedGood(h, a);
    if h.blocks[a].size - asize >= MINI {
      SplitTiled(Marked(RemoveFree(h, a), a, true).blocks, h.epi, a, asize);
    }
  }

  lemma CoalesceKeeps(h: Heap, a: nat)
    requires Shaped(h) && IsFree(h.blocks, a)
    ensures AllocatedKept(h.blocks, Coalesce(h, a).blocks, 0)
  {
    StretchFacts(h.blocks, h.epi, a);
  }

  lemma ExtendKeeps(h: Heap, size: nat)
    requires Good(h) && size >= MINI && size % 2 == 0
    ensures AllocatedKept(h.blocks, Extend(h, size).blocks, 0)
    ensures var a := StretchLo(Extended(h, size).blocks, h.epi); a in h.blocks ==> !h.blocks[a].alloc
  {
    ExtendedShaped(h, size);
    NoBlockAtEnd(h.blocks, h.epi);
    CoalesceKeeps(Extended(h, size), h.epi);
  }

  lemma AllocatedKeptTwice(b: Layout, d: Layout, e: Layout)
    requires AllocatedKept(b, d, 0) && AllocatedKept(d, e, 0)
    ensures AllocatedKept(b, e, 0)
  {
  }

  /**
   * `malloc` returns a block of at least `asize` words, in use by nobody before, and keeps all blocks that are in use.
   */
  lemma MallocFresh(h: Heap, asize: nat, capacity: nat)
    requires Good(h) && asize >= MINI && asize % 2 == 0
    ensures var r := Allocate(h, asize, capacity);
            && AllocatedKept(h.blocks, r.heap.blocks, 0)
            && (r.block != 0 ==> r.block in r.heap.blocks && r.heap.blocks[r.block].alloc
                                 && asize <= r.heap.blocks[r.block].size < asize + MINI
                                 && !(r.block in h.blocks && h.blocks[r.block].alloc))
  {
    var f, more := Find(h, asize), Larger(asize, CHUNK);
    if f != 0 {
      MallocFound(h, asize, capacity, f);
      PlaceKeeps(h, f, asize);
    } else if h.epi + 1 + more <= capacity {
      var e, a := Extend(h, more), StretchLo(Extended(h, more).blocks, h.epi);
      MallocGrown(h, asize, capacity, e, a);
      PlaceKeeps(e, a, asize);
      AllocatedKeptTwice(h.blocks, e.blocks, Place(e, a, asize).blocks);
    }
  }

  lemma FreeKeeps(h: Heap, a: nat)
    requires Good(h) && a in h.blocks && h.blocks[a].alloc
    ensures AllocatedKept(h.blocks, Release(h, a).blocks, a)
  {
    MarkedFreeReady(h, a);
    MarkedIsUpdate(h.blocks, h.epi, a, false);
    CoalesceKeeps(Marked(h, a, false), a);
  }

  /** `realloc` of the allocated block `a` to a block of `asize` words. */
  ghost function Reallocate(h: Heap, a: nat, asize: nat, capacity: nat): Allocation
    requires Good(h) && a in h.blocks && h.blocks[a].alloc && asize >= MINI && asize % 2 == 0
  {
    var r := Allocate(h, asize, capacity);
    AllocateAround(h, a, asize, capacity);
    if r.block == 0 then r else Allocation(Release(r.heap, a), r.block)
  }

  /** A block in use stays as it is while another one is allocated. */
  lemma AllocateAround(h: Heap, a: nat, asize: nat, capacity: nat)
    requires Good(h) && a in h.blocks && h.blocks[a].alloc && asize >= MINI && asize % 2 == 0
    ensures var r := Allocate(h, asize, capacity);
            Good(r.heap) && a in r.heap.blocks && r.heap.blocks[a] == h.blocks[a] && a != r.block
  {
    NoBlockAtZero(h);
    MallocGood(h, asize, capacity);
    MallocFresh(h, asize, capacity);
  }
}
