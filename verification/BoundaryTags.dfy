/** The words in front of and behind a heap block: malloc/mm.c:84-345 and 549-560.

    Sizes are counted in words here: a size of `n` stands for `8 * n` bytes, so the
    source's 16-byte granule is 2, its 16-byte mini block 2 and its 32-byte minimum 4. */
module BoundaryTags {
  import opened Arithmetic

  const WORD_LIMIT := 0x1_0000_0000_0000_0000

  /** A `word_t`. */
  type Word = w: nat | w < WORD_LIMIT

  /** No heap is larger than 2^59 words, the 2^62 bytes of the sparse emulation. */
  const MAX_WORDS: nat := 0x0800_0000_0000_0000

  const MINI := 2
  const MIN_BLOCK := 4
  const CHUNK := 512
  const NUM_ROOTS := 14

  /** `pack`: the size in the upper bits, "previous is mini", "previous is allocated" and "allocated" below. */
  function Pack(size: nat, prevMini: bool, prevAlloc: bool, alloc: bool): (w: Word)
    requires size % 2 == 0 && size <= MAX_WORDS
    ensures SizeOf(w) == size && AllocOf(w) == alloc && PrevAllocOf(w) == prevAlloc && PrevMiniOf(w) == prevMini
    ensures Canonical(w)
  {
    8 * size + (if alloc then 1 else 0) + (if prevAlloc then 2 else 0) + (if prevMini then 4 else 0)
  }

  /** `extract_size`, in words: the low four bits are dropped. */
  function SizeOf(w: Word): nat { w / 16 * 2 }

  /** The four bits `size_mask` leaves out. */
  function Flags(w: Word): (f: nat)
    ensures f < 16
  {
    w % 16
  }

  predicate AllocOf(w: Word) { Flags(w) % 2 == 1 }

  predicate PrevAllocOf(w: Word) { Flags(w) % 4 >= 2 }

  predicate PrevMiniOf(w: Word) { Flags(w) % 8 >= 4 }

  /** Bit 3 is never set by `pack`. */
  predicate Canonical(w: Word) { Flags(w) < 8 }

  /** The word with flags `f` and the same bits above them. */
  function WithFlags(w: Word, f: nat): (r: Word)
    requires f < 16
    ensures Flags(r) == f && SizeOf(r) == SizeOf(w)
  {
    w - w % 16 + f
  }

  /** Setting or clearing bit 1 of the flags touches no other bit. */
  lemma SecondBit(f: nat)
    requires f < 14 && f % 4 < 2
    ensures (f + 2) % 2 == f % 2 && (f + 2) % 4 >= 2 && ((f + 2) % 8 >= 4 <==> f % 8 >= 4) && (f + 2 < 8 <==> f < 8)
  {
  }

  /** The same for bit 2. */
  lemma ThirdBit(f: nat)
    requires f < 12 && f % 8 < 4
    ensures (f + 4) % 2 == f % 2 && (f + 4) % 4 == f % 4 && (f + 4) % 8 >= 4 && (f + 4 < 8 <==> f < 8)
  {
  }

  /** `w | prev_alloc_mask` or `w & ~prev_alloc_mask`. */
  function WithPrevAlloc(w: Word, prevAlloc: bool): (r: Word)
    ensures PrevAllocOf(r) == prevAlloc && PrevMiniOf(r) == PrevMiniOf(w)
    ensures SizeOf(r) == SizeOf(w) && AllocOf(r) == AllocOf(w) && (Canonical(w) ==> Canonical(r))
  {
    var f := Flags(w);
    if prevAlloc == PrevAllocOf(w) then w
    else
      var g := if prevAlloc then f + 2 else f - 2;
      SecondBit(if prevAlloc then f else g);
      WithFlags(w, g)
  }

  /** `w | prev_mini_mask` or `w & ~prev_mini_mask`. */
  function WithPrevMini(w: Word, prevMini: bool): (r: Word)
    ensures PrevMiniOf(r) == prevMini && PrevAllocOf(r) == PrevAllocOf(w)
    ensures SizeOf(r) == SizeOf(w) && AllocOf(r) == AllocOf(w) && (Canonical(w) ==> Canonical(r))
  {
    var f := Flags(w);
    if prevMini == PrevMiniOf(w) then w
    else
      var g := if prevMini then f + 4 else f - 4;
      ThirdBit(if prevMini then f else g);
      WithFlags(w, g)
  }

  /** The four bits the size leaves out, one by one. */
  lemma FourBits(f: nat)
    requires f < 16
    ensures f % 4 >= 2 <==> f / 2 % 2 == 1
    ensures f % 8 >= 4 <==> f / 4 % 2 == 1
    ensures f < 8 <==> f / 8 % 2 == 0
  {
  }

  lemma LowBit(w: nat, h: nat, f: nat)
    requires w == 2 * h + f
    ensures w % 2 == f % 2
  {
  }

  /** Where the fields lie: the three flags in the lowest bits, the size in bytes without the lowest four. */
  lemma FieldsInBits(w: Word)
    ensures AllocOf(w) <==> w % 2 == 1
    ensures PrevAllocOf(w) <==> w / 2 % 2 == 1
    ensures PrevMiniOf(w) <==> w / 4 % 2 == 1
    ensures Canonical(w) <==> w / 8 % 2 == 0
    ensures 8 * SizeOf(w) == w - w % 16
  {
    var h, f := w / 16, w % 16;
    FourBits(f);
    LowBit(w, 8 * h, f);
    assert w / 2 == 8 * h + f / 2;
    LowBit(w / 2, 4 * h, f / 2);
    assert w / 4 == 4 * h + f / 4;
    LowBit(w / 4, 2 * h, f / 4);
    assert w / 8 == 2 * h + f / 8;
    LowBit(w / 8, h, f / 8);
  }

  /** A canonical word is determined by the four values stored in it. */
  lemma PackOfFields(w: Word)
    requires Canonical(w) && SizeOf(w) <= MAX_WORDS
    ensures w == Pack(SizeOf(w), PrevMiniOf(w), PrevAllocOf(w), AllocOf(w))
  {
  }

  /** The bucket `search_root_index` ends in when its loop starts at bucket `index` with bound `target`. */
  function RootFrom(size: nat, index: nat, target: nat): (r: nat)
    requires index < NUM_ROOTS
    ensures index <= r < NUM_ROOTS
    decreases NUM_ROOTS - index
  {
    if index < NUM_ROOTS - 1 && size > target then RootFrom(size, index + 1, 2 * target) else index
  }

  function RootIndex(size: nat): (r: nat)
    ensures r < NUM_ROOTS
  {
    RootFrom(if size > MIN_BLOCK then size else MIN_BLOCK, 0, MIN_BLOCK)
  }

  lemma {:induction false} RootFromMonotone(s: nat, t: nat, index: nat, target: nat)
    requires s <= t && index < NUM_ROOTS
    ensures RootFrom(s, index, target) <= RootFrom(t, index, target)
    decreases NUM_ROOTS - index
  {
    if index < NUM_ROOTS - 1 && s > target {
      RootFromMonotone(s, t, index + 1, 2 * target);
    }
  }

  /** A larger block never lives in a lower bucket. */
  lemma RootIndexMonotone(s: nat, t: nat)
    requires s <= t
    ensures RootIndex(s) <= RootIndex(t)
  {
    RootFromMonotone(if s > MIN_BLOCK then s else MIN_BLOCK, if t > MIN_BLOCK then t else MIN_BLOCK, 0, MIN_BLOCK);
  }

  lemma {:induction false} RootFromRange(size: nat, index: nat, target: nat)
    requires index < NUM_ROOTS
    requires target == MIN_BLOCK * Pow2(index)
    requires index > 0 ==> size > MIN_BLOCK * Pow2(index - 1)
    ensures var r := RootFrom(size, index, target);
            (r < NUM_ROOTS - 1 ==> size <= MIN_BLOCK * Pow2(r)) && (r > 0 ==> size > MIN_BLOCK * Pow2(r - 1))
    decreases NUM_ROOTS - index
  {
    if index < NUM_ROOTS - 1 && size > target {
      RootFromRange(size, index + 1, 2 * target);
    }
  }

  /** Bucket `r` holds exactly the sizes in (32 * 2^(r-1), 32 * 2^r] bytes; the last one is open above. */
  lemma RootIndexRange(size: nat)
    requires size >= MIN_BLOCK
    ensures var r := RootIndex(size);
            (r < NUM_ROOTS - 1 ==> size <= MIN_BLOCK * Pow2(r)) && (r > 0 ==> size > MIN_BLOCK * Pow2(r - 1))
  {
    RootFromRange(size, 0, MIN_BLOCK);
  }

  /** `search_root_index`. */
  method SearchRootIndex(size: nat) returns (index: nat)
    ensures index == RootIndex(size)
  {
    var s := if size > MIN_BLOCK then size else MIN_BLOCK;
    index := 0;
    var target := MIN_BLOCK;
    while index < NUM_ROOTS - 1 && s > target
      invariant 0 <= index < NUM_ROOTS && target >= 0
      invariant RootFrom(s, index, target) == RootIndex(size)
    {
      index := index + 1;
      target := 2 * target;
    }
  }

  const MIN_BYTES: nat := 16

  /** `round_up(size, 16)` in 64-bit arithmetic: the sum wraps around. */
  function RoundUp(size: Word): (r: Word)
    ensures r % MIN_BYTES == 0
  {
    (size + 15) % WORD_LIMIT / MIN_BYTES * MIN_BYTES
  }

  /** The block size in bytes `malloc` computes for a request, with its two wrap-arounds. */
  function BlockBytes(request: Word): (r: Word)
    ensures r % MIN_BYTES == 0 && r >= MIN_BYTES
  {
    var r := RoundUp((request + 8) % WORD_LIMIT);
    if r > MIN_BYTES then r else MIN_BYTES
  }

  /** That size in words. */
  function BlockWords(request: Word): (w: nat)
    ensures w % 2 == 0 && w >= MINI && 8 * w == BlockBytes(request)
  {
    BlockBytes(request) / 8
  }

  /**
   * The block `malloc` computes has room for header and request exactly when the request is at most 2^64 - 24 bytes.
   */
  lemma BlockFitsRequest(request: Word)
    ensures BlockBytes(request) >= request + 8 <==> request <= WORD_LIMIT - 24
    ensures request <= WORD_LIMIT - 24 ==> BlockBytes(request) < request + 24 || BlockBytes(request) == MIN_BYTES
    ensures request > WORD_LIMIT - 24 ==> BlockBytes(request) == MIN_BYTES
  {
    if request <= WORD_LIMIT - 24 {
      assert (request + 8) % WORD_LIMIT == request + 8 && (request + 23) % WORD_LIMIT == request + 23;
    } else if request < WORD_LIMIT - 8 {
      assert (request + 8) % WORD_LIMIT == request + 8 && (request + 23) % WORD_LIMIT == request + 23 - WORD_LIMIT;
    } else {
      assert (request + 8) % WORD_LIMIT == request + 8 - WORD_LIMIT;
    }
  }

  /** `elements * size` in 64-bit arithmetic. */
  function Product(elements: Word, size: Word): Word { elements * size % WORD_LIMIT }

  /** `elements * size` without a limit, by repeated addition; see `TimesIsProduct`. */
  function Times(elements: nat, size: nat): nat {
    if elements == 0 then 0 else size + Times(elements - 1, size)
  }

  lemma {:induction false} TimesIsProduct(elements: nat, size: nat)
    ensures Times(elements, size) == elements * size
  {
    if elements > 0 {
      TimesIsProduct(elements - 1, size);
      assert (elements - 1) * size + size == elements * size;
    }
  }

  lemma QuotientBound(p: nat, d: nat, q: nat)
    requires d > 0 && p / d == q
    ensures d * q <= p
  {
  }

  /** The division in `calloc` detects exactly the products that wrap around. */
  lemma OverflowCheckExact(elements: Word, size: Word)
    requires elements > 0
    ensures Product(elements, size) / elements == size <==> Times(elements, size) < WORD_LIMIT
    ensures Times(elements, size) < WORD_LIMIT ==> Product(elements, size) == Times(elements, size)
  {
    var t, p := Times(elements, size), Product(elements, size);
    TimesIsProduct(elements, size);
    if t < WORD_LIMIT {
      RemainderUnique(t, elements, size, 0);
      assert p == t;
    } else if p / elements == size {
      QuotientBound(p, elements, size);
    }
  }
}
