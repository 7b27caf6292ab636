/** What the allocator guarantees over whole runs, stated on the functions its methods are proved against. */
module AllocatorRuns {
  import opened BoundaryTags
  import opened HeapLayout
  import opened HeapOps
  import opened HeapMemory
  import opened Allocator
  import opened Sequences

  /**
   * What the program does: it calls `malloc`, `calloc`, `free` or `realloc`, or stores a word into a payload. Payloads
   * go by their blocks.
   */
  datatype Call =
    | Request(size: Word)
    | Clear(elements: Word, size: Word)
    | Release(block: nat)
    | Resize(block: nat, size: Word)
    | Fill(block: nat, k: nat, v: Word)

  ghost predicate InUse(h: Heap, a: nat) {
    a in h.blocks && h.blocks[a].alloc
  }

  /** Calls only name blocks in use, as the C interface demands, and stores stay inside the payload. */
  ghost predicate Legal(h: Heap, c: Call) {
    match c
    case Request(_) => true
    case Clear(_, _) => true
    case Release(a) => InUse(h, a)
    case Resize(a, _) => InUse(h, a)
    case Fill(a, k, _) => InUse(h, a) && a < k < a + h.blocks[a].size
  }

  /** The block a call names, 0 if it names none. */
  ghost function Named(c: Call): nat {
    match c
    case Request(_) => 0
    case Clear(_, _) => 0
    case Release(a) => a
    case Resize(a, _) => a
    case Fill(a, _, _) => a
  }

  /** The bytes `malloc` or `calloc` is to find, 0 where nothing is to be found. */
  ghost function Asked(c: Call): Word
    requires c.Request? || c.Clear?
  {
    if c.Request? then c.size else CallocBytes(c.elements, c.size)
  }

  /** `malloc` of that many bytes. */
  ghost function Grant(h: Heap, bytes: Word, capacity: nat): Allocation
    requires Good(h)
  {
    if bytes == 0 then Allocation(h, 0) else Allocate(h, BlockWords(bytes), capacity)
  }

  lemma GrantGood(h: Heap, bytes: Word, capacity: nat)
    requires Good(h)
    ensures Good(Grant(h, bytes, capacity).heap)
  {
    MallocGood(h, BlockWords(bytes), capacity);
  }

  /** The heap after a call. */
  ghost function Step(h: Heap, c: Call, capacity: nat): (r: Heap)
    requires Good(h) && Legal(h, c)
    ensures Good(r)
  {
    match c
    case Request(_) =>
      GrantGood(h, Asked(c), capacity);
      Grant(h, Asked(c), capacity).heap
    case Clear(_, _) =>
      GrantGood(h, Asked(c), capacity);
      Grant(h, Asked(c), capacity).heap
    case Release(a) =>
      FreeGood(h, a);
      HeapOps.Release(h, a)
    case Resize(a, size) =>
      AllocateAround(h, a, BlockWords(size), capacity);
      ReallocateGood(h, a, BlockWords(size), capacity);
      FreeGood(h, a);
      if size == 0 then HeapOps.Release(h, a) else Reallocate(h, a, BlockWords(size), capacity).heap
    case Fill(_, _, _) => h
  }

  /** The pointer a call returns, 0 for NULL and for calls that return nothing. */
  ghost function Reply(h: Heap, c: Call, capacity: nat): nat
    requires Good(h) && Legal(h, c)
  {
    match c
    case Request(_) => Pointer(Grant(h, Asked(c), capacity).block)
    case Clear(_, _) => Pointer(Grant(h, Asked(c), capacity).block)
    case Resize(a, size) => if size == 0 then 0 else Pointer(Reallocate(h, a, BlockWords(size), capacity).block)
    case _ => 0
  }

  lemma ReallocateGood(h: Heap, a: nat, asize: nat, capacity: nat)
    requires Good(h) && InUse(h, a) && asize >= MINI && asize % 2 == 0
    ensures Good(Reallocate(h, a, asize, capacity).heap)
  {
    AllocateAround(h, a, asize, capacity);
    var r := Allocate(h, asize, capacity);
    if r.block != 0 {
      FreeGood(r.heap, a);
    }
  }

  ghost predicate LegalRun(h: Heap, calls: seq<Call>, capacity: nat)
    requires Good(h)
    decreases |calls|
  {
    calls == [] || (Legal(h, calls[0]) && LegalRun(Step(h, calls[0], capacity), calls[1..], capacity))
  }

  ghost function Run(h: Heap, calls: seq<Call>, capacity: nat): (r: Heap)
    requires Good(h) && LegalRun(h, calls, capacity)
    ensures Good(r)
    decreases |calls|
  {
    if calls == [] then h else Run(Step(h, calls[0], capacity), calls[1..], capacity)
  }

  ghost function Replies(h: Heap, calls: seq<Call>, capacity: nat): (r: seq<nat>)
    requires Good(h) && LegalRun(h, calls, capacity)
    ensures |r| == |calls|
    decreases |calls|
  {
    if calls == [] then []
    else [Reply(h, calls[0], capacity)] + Replies(Step(h, calls[0], capacity), calls[1..], capacity)
  }

  /** A block the run never names stays where it is, as large as it is, in use. */
  lemma {:induction false} UnnamedBlockStays(h: Heap, calls: seq<Call>, capacity: nat, a: nat)
    requires Good(h) && LegalRun(h, calls, capacity) && InUse(h, a)
    requires forall c | c in calls :: c.Release? || c.Resize? ==> Named(c) != a
    ensures InUse(Run(h, calls, capacity), a) && Run(h, calls, capacity).blocks[a] == h.blocks[a]
    decreases |calls|
  {
    if calls != [] {
      assert calls[0] in calls;
      StepKeeps(h, calls[0], capacity, a);
      UnnamedBlockStays(Step(h, calls[0], capacity), calls[1..], capacity, a);
    }
  }

  lemma StepKeeps(h: Heap, c: Call, capacity: nat, a: nat)
    requires Good(h) && Legal(h, c) && InUse(h, a) && (c.Release? || c.Resize? ==> Named(c) != a)
    ensures InUse(Step(h, c, capacity), a) && Step(h, c, capacity).blocks[a] == h.blocks[a]
  {
    match c
    case Request(_) =>
      AllocateAround(h, a, BlockWords(Asked(c)), capacity);
    case Clear(_, _) =>
      AllocateAround(h, a, BlockWords(Asked(c)), capacity);
    case Release(x) =>
      FreeKeeps(h, x);
    case Resize(x, size) =>
      var r := Allocate(h, BlockWords(size), capacity);
      AllocateAround(h, a, BlockWords(size), capacity);
      AllocateAround(h, x, BlockWords(size), capacity);
      FreeKeeps(h, x);
      if r.block != 0 {
        FreeKeeps(r.heap, x);
      }
    case Fill(_, _, _) =>
  }

  /** The blocks in use after a call are those before it, without the one released and with the one returned. */
  lemma StepUses(h: Heap, c: Call, capacity: nat, x: nat)
    requires Good(h) && Legal(h, c)
    ensures InUse(Step(h, c, capacity), x) <==>
            (InUse(h, x) && x != Given(h, c, capacity)) || Pointer(x) == Reply(h, c, capacity) != 0
  {
    NoBlockAtZero(h);
    match c
    case Request(_) =>
      GrantUses(h, Asked(c), capacity, x);
    case Clear(_, _) =>
      GrantUses(h, Asked(c), capacity, x);
    case Release(a) =>
      FreeUses(h, a, x);
    case Resize(a, size) =>
      FreeUses(h, a, x);
      ReallocUses(h, a, BlockWords(size), capacity, x);
    case Fill(_, _, _) =>
  }

  /** The block a call takes from the program: none where `realloc` fails. */
  ghost function Given(h: Heap, c: Call, capacity: nat): nat
    requires Good(h) && Legal(h, c)
  {
    if c.Release? || (c.Resize? && (c.size == 0 || Reply(h, c, capacity) != 0)) then c.block else 0
  }

  lemma GrantUses(h: Heap, bytes: Word, capacity: nat, x: nat)
    requires Good(h)
    ensures var r := Grant(h, bytes, capacity); InUse(r.heap, x) <==> InUse(h, x) || x == r.block != 0
  {
    MallocUses(h, BlockWords(bytes), capacity, x);
  }

  lemma MallocUses(h: Heap, asize: nat, capacity: nat, x: nat)
    requires Good(h) && asize >= MINI && asize % 2 == 0
    ensures var r := Allocate(h, asize, capacity); InUse(r.heap, x) <==> InUse(h, x) || x == r.block != 0
  {
    var f, more := Find(h, asize), Larger(asize, CHUNK);
    if f != 0 {
      MallocFound(h, asize, capacity, f);
      PlaceUsesOne(h, f, asize, x);
    } else if h.epi + 1 + more <= capacity {
      var e, a := Extend(h, more), StretchLo(Extended(h, more).blocks, h.epi);
      MallocGrown(h, asize, capacity, e, a);
      PlaceUsesOne(e, a, asize, x);
      ExtendUsesNothing(h, more, x);
    } else {
      MallocFailed(h, asize, capacity);
    }
  }

  lemma PlaceUsesOne(h: Heap, a: nat, asize: nat, x: nat)
    requires Good(h) && IsFree(h.blocks, a) && MINI <= asize <= h.blocks[a].size && asize % 2 == 0
    ensures InUse(Place(h, a, asize), x) <==> InUse(h, x) || x == a
  {
    PlacedBlocks(h, a, asize);
  }

  lemma ExtendUsesNothing(h: Heap, more: nat, x: nat)
    requires Good(h) && more >= MINI && more % 2 == 0
    ensures InUse(Extend(h, more), x) <==> InUse(h, x)
  {
    var e := Extended(h, more);
    ExtendKeeps(h, more);
    ExtendedShaped(h, more);
    StretchFacts(e.blocks, e.epi, h.epi);
    CoalescedUses(e, h.epi, x);
  }

  lemma CoalescedUses(h: Heap, a: nat, x: nat)
    requires |h.buckets| == NUM_ROOTS && a in h.blocks && StretchLo(h.blocks, a) in Coalesce(h, a).blocks
    ensures InUse(InsertFree(Coalesce(h, a), StretchLo(h.blocks, a)), x) ==> InUse(h, x)
  {
  }

  lemma FreeUses(h: Heap, a: nat, x: nat)
    requires Good(h) && InUse(h, a)
    ensures InUse(HeapOps.Release(h, a), x) <==> InUse(h, x) && x != a
  {
    FreeKeeps(h, a);
    if InUse(HeapOps.Release(h, a), x) {
      ReleaseUsesNothing(h, a, x);
    }
  }

  lemma ReallocUses(h: Heap, a: nat, asize: nat, capacity: nat, x: nat)
    requires Good(h) && InUse(h, a) && asize >= MINI && asize % 2 == 0
    ensures var r := Reallocate(h, a, asize, capacity);
            InUse(r.heap, x) <==> (InUse(h, x) && (r.block != 0 ==> x != a)) || x == r.block != 0
    ensures Reallocate(h, a, asize, capacity).block != a
  {
    var r := Allocate(h, asize, capacity);
    NoBlockAtZero(h);
    AllocateAround(h, a, asize, capacity);
    MallocUses(h, asize, capacity, x);
    if r.block != 0 {
      FreeUses(r.heap, a, x);
    }
  }

  /** The blocks in use and the end of the heap determine the blocks: what is left is free, and merged. */
  lemma UsedDetermine(h: Heap, g: Heap)
    requires Good(h) && Good(g) && SameUsed(h, g)
    ensures h.blocks == g.blocks
  {
    BlocksFollow(h, g);
    BlocksFollow(g, h);
  }

  lemma BlocksFollow(h: Heap, g: Heap)
    requires Good(h) && Good(g) && SameUsed(h, g)
    ensures forall c | c in h.blocks :: c in g.blocks && g.blocks[c] == h.blocks[c]
  {
    forall c | c in h.blocks ensures c in g.blocks && g.blocks[c] == h.blocks[c] {
      assert InPlace(h.blocks, h.epi, c);
      WalkVisits(h.blocks, h.epi, 1);
      SameFrom(h, g, 1);
    }
  }

  ghost predicate SameUsed(h: Heap, g: Heap) {
    && h.epi == g.epi
    && (forall c: nat :: InUse(h, c) <==> InUse(g, c)) && forall c | InUse(h, c) && InUse(g, c) ::
        h.blocks[c] == g.blocks[c]
  }

  lemma {:induction false} SameFrom(h: Heap, g: Heap, a: nat)
    requires Good(h) && Good(g) && SameUsed(h, g) && (a == h.epi || (a in h.blocks && a in g.blocks))
    ensures Walk(h.blocks, h.epi, a) == Walk(g.blocks, g.epi, a)
    ensures forall c | c in Walk(h.blocks, h.epi, a) :: c in h.blocks && c in g.blocks && h.blocks[c] == g.blocks[c]
    decreases h.epi - a
  {
    if a != h.epi {
      SameBlock(h, g, a);
      assert InPlace(h.blocks, h.epi, a);
      SameFrom(h, g, a + h.blocks[a].size);
    }
  }

  lemma SameBlock(h: Heap, g: Heap, a: nat)
    requires Good(h) && Good(g) && SameUsed(h, g) && a in h.blocks && a in g.blocks
    ensures h.blocks[a] == g.blocks[a]
    ensures var n := a + h.blocks[a].size; n == h.epi || (n in h.blocks && n in g.blocks)
  {
    assert InUse(h, a) <==> InUse(g, a);
    assert InPlace(h.blocks, h.epi, a) && InPlace(g.blocks, g.epi, a);
    if !InUse(h, a) {
      FreeEnds(h, g, a);
      FreeEnds(g, h, a);
    }
  }

  /** A free block ends at the end of the heap or at a block in use, so no other heap with the same goes on there. */
  lemma FreeEnds(h: Heap, g: Heap, a: nat)
    requires Good(h) && Good(g) && SameUsed(h, g) && IsFree(h.blocks, a) && IsFree(g.blocks, a)
    ensures h.blocks[a].size >= g.blocks[a].size
  {
    var n := a + h.blocks[a].size;
    assert InPlace(h.blocks, h.epi, a) && InPlace(g.blocks, g.epi, a) && !FreePair(h.blocks, a);
    if n != h.epi {
      assert InUse(h, n) && InUse(g, n) && Apart(g.blocks, a, n);
    }
  }

  /** No call names the block. */
  ghost predicate Unnamed(calls: seq<Call>, a: nat) {
    forall c | c in calls :: Named(c) != a
  }

  /** The call neither copies nor clears past a new payload. */
  ghost predicate Contained(h: Heap, c: Call, capacity: nat)
    requires Good(h) && Legal(h, c)
  {
    && (c.Resize? && c.size > 0 ==> CopyFits(h, c.block + 1, c.size, capacity))
    && (c.Clear? && Asked(c) > MAX_REQUEST ==> Grant(h, Asked(c), capacity).block == 0)
  }

  ghost predicate ContainedRun(h: Heap, calls: seq<Call>, capacity: nat)
    requires Good(h) && LegalRun(h, calls, capacity)
    decreases |calls|
  {
    calls == [] || (Contained(h, calls[0], capacity) && ContainedRun(Step(h, calls[0], capacity), calls[1..], capacity))
  }

  /** Every payload of `h0` that no call names is still there in `h`, with every word it had. */
  ghost predicate Untouched(h0: Heap, h: Heap, m: Memory, r: Memory, calls: seq<Call>) {
    forall a {:trigger Unnamed(calls, a)} | InUse(h0, a) && Unnamed(calls, a) ::
      InUse(h, a) && h.blocks[a] == h0.blocks[a] && PayloadSame(m, r, h0.blocks, a)
  }

  /** One call more. */
  lemma UntouchedStep(h0: Heap, h: Heap, m: Memory, r: Memory, s: Memory, calls: seq<Call>, c: Call, capacity: nat)
    requires Good(h) && Legal(h, c) && Untouched(h0, h, m, r, calls) && PayloadsKept(r, s, h.blocks, Named(c))
    ensures Untouched(h0, Step(h, c, capacity), m, s, calls + [c])
  {
    forall a | InUse(h0, a) && Unnamed(calls + [c], a)
      ensures var g := Step(h, c, capacity);
              InUse(g, a) && g.blocks[a] == h0.blocks[a] && PayloadSame(m, s, h0.blocks, a)
    {
      assert c in calls + [c] && forall d | d in calls :: d in calls + [c];
      assert Unnamed(calls, a);
      StepKeeps(h, c, capacity, a);
      assert PayloadSame(r, s, h.blocks, a);
    }
  }

  /** A heap just started, or one that cannot be started, has no block in use. */
  lemma StartUnused(capacity: nat)
    ensures forall a | a in StartHeap(capacity).blocks :: !StartHeap(capacity).blocks[a].alloc
  {
  }

  /** A heap that cannot be started serves no request. */
  lemma SmallHeapRefuses(bytes: Word, capacity: nat)
    requires capacity < 2 + CHUNK
    ensures Grant(StartHeap(capacity), bytes, capacity) == Allocation(StartHeap(capacity), 0)
  {
    if bytes > 0 {
      FindComplete(EmptyHeap(), BlockWords(bytes));
      MallocFailed(EmptyHeap(), BlockWords(bytes), capacity);
    }
  }

  /**
   * One call of the program on the allocator in memory, started or not. It stops before a copy or a clearing that would
   * not stay inside the new payload.
   */
  method Perform(a: Allocator, c: Call) returns (reply: nat, inside: bool)
    requires a.Valid() && Legal(a.Base(), c)
    modifies a, a.mem, a.freeRoots
    ensures a.Valid() && inside == Contained(old(a.Base()), c, a.mem.Length)
    ensures inside ==> a.Base() == Step(old(a.Base()), c, a.mem.Length)
    ensures inside ==> reply == Reply(old(a.Base()), c, a.mem.Length)
    ensures PayloadsKept(old(a.mem[..]), a.mem[..], old(a.Base()).blocks, Named(c))
  {
    reply, inside := 0, true;
    match c {
      case Request(size) => reply := Requested(a, c);
      case Clear(elements, size) => reply, inside := Cleared(a, c);
      case Release(block) => Released(a, c);
      case Resize(block, size) => reply, inside := Resized(a, c);
      case Fill(block, k, v) => Filled(a, c);
    }
  }

  method Requested(a: Allocator, c: Call) returns (bp: nat)
    requires a.Valid() && c.Request?
    modifies a, a.mem, a.freeRoots
    ensures a.Valid() && a.Base() == Step(old(a.Base()), c, a.mem.Length) && bp == Reply(old(a.Base()), c, a.mem.Length)
    ensures PayloadsKept(old(a.mem[..]), a.mem[..], old(a.Base()).blocks, 0)
  {
    StartUnused(a.mem.Length);
    ghost var b0, cannot := a.Base(), a.CannotStart();
    bp := a.Malloc(c.size);
    CallIsGrant(b0, a.Base(), cannot, bp, c, a.mem.Length);
  }

  /** What `malloc` and `calloc` did to the heap, whether it had been started or not. */
  lemma CallIsGrant(b0: Heap, b: Heap, cannot: bool, bp: nat, c: Call, capacity: nat)
    requires Good(b0) && (cannot ==> capacity < 2 + CHUNK && b0 == StartHeap(capacity)) && (c.Request? || c.Clear?)
    requires if cannot || Asked(c) == 0 then bp == 0 && b == b0 else Allocated(b0, b, bp, Asked(c), capacity)
    ensures b == Step(b0, c, capacity) && bp == Reply(b0, c, capacity)
  {
    if cannot {
      SmallHeapRefuses(Asked(c), capacity);
    }
  }

  /** What a call of `calloc` returns is all zero. */
  method Cleared(a: Allocator, c: Call) returns (bp: nat, inside: bool)
    requires a.Valid() && c.Clear?
    modifies a, a.mem, a.freeRoots
    ensures a.Valid() && inside == Contained(old(a.Base()), c, a.mem.Length)
    ensures a.Base() == Step(old(a.Base()), c, a.mem.Length) && bp == Reply(old(a.Base()), c, a.mem.Length)
    ensures PayloadsKept(old(a.mem[..]), a.mem[..], old(a.Base()).blocks, 0)
    ensures bp != 0 && inside ==> Zeroed(a.mem[..], bp, Asked(c))
  {
    StartUnused(a.mem.Length);
    ghost var b0, cannot := a.Base(), a.CannotStart();
    ClearContained(a, c);
    bp, inside := a.Calloc(c.elements, c.size);
    CallIsGrant(b0, a.Base(), cannot, bp, c, a.mem.Length);
  }

  lemma ClearContained(a: Allocator, c: Call)
    requires a.Valid() && c.Clear?
    ensures a.ClearFits(Asked(c)) == Contained(a.Base(), c, a.mem.Length)
  {
    if a.CannotStart() {
      SmallHeapRefuses(Asked(c), a.mem.Length);
    }
  }

  method Released(a: Allocator, c: Call)
    requires a.Valid() && c.Release? && Legal(a.Base(), c)
    modifies a, a.mem, a.freeRoots
    ensures a.Valid() && a.Base() == Step(old(a.Base()), c, a.mem.Length)
    ensures PayloadsKept(old(a.mem[..]), a.mem[..], old(a.Base()).blocks, c.block)
  {
    StartUnused(a.mem.Length);
    ghost var b0 := a.Base();
    a.Free(c.block + 1);
    assert a.heap == HeapOps.Release(b0, c.block);
  }

  method Filled(a: Allocator, c: Call)
    requires a.Valid() && c.Fill? && Legal(a.Base(), c)
    modifies a.mem
    ensures a.Valid() && a.Base() == old(a.Base())
    ensures PayloadsKept(old(a.mem[..]), a.mem[..], old(a.Base()).blocks, c.block)
  {
    StartUnused(a.mem.Length);
    a.Store(c.block, c.k, c.v);
  }

  /** What a call of `realloc` returns starts with the bytes of the old payload, as many as fit into both. */
  method Resized(a: Allocator, c: Call) returns (bp: nat, inside: bool)
    requires a.Valid() && c.Resize? && Legal(a.Base(), c)
    modifies a, a.mem, a.freeRoots
    ensures a.Valid() && inside == Contained(old(a.Base()), c, a.mem.Length)
    ensures inside ==> a.Base() == Step(old(a.Base()), c, a.mem.Length) && bp == Reply(old(a.Base()), c, a.mem.Length)
    ensures PayloadsKept(old(a.mem[..]), a.mem[..], old(a.Base()).blocks, c.block)
    ensures bp != 0 && inside ==> SameBytes(old(a.mem[..]), a.mem[..], c.block + 1, bp,
                                            Smaller(c.size, PayloadBytes(old(a.Base()), c.block + 1)))
  {
    StartUnused(a.mem.Length);
    ghost var h0 := a.heap;
    bp, inside := a.Realloc(c.block + 1, c.size);
    if inside {
      ResizeIsStep(h0, a.heap, c.block, bp, c.size, a.mem.Length);
    }
  }

  lemma ResizeIsStep(h0: Heap, h: Heap, a: nat, bp: nat, size: Word, capacity: nat)
    requires Good(h0) && InUse(h0, a)
    requires if size == 0 then h == HeapOps.Release(h0, a) && bp == 0 else Moved(h0, h, a + 1, bp, size, capacity)
    ensures h == Step(h0, Resize(a, size), capacity) && bp == Reply(h0, Resize(a, size), capacity)
  {
  }

  /**
   * Any legal run in memory, from the first call on: heap and replies are those the specification names, and no payload
   * the program leaves alone loses a word. It stops, with `!ok`, at the first call that would not stay inside its
   * payload.
   */
  method PerformAll(a: Allocator, calls: seq<Call>) returns (replies: seq<nat>, ok: bool)
    requires a.Valid() && LegalRun(a.Base(), calls, a.mem.Length)
    modifies a, a.mem, a.freeRoots
    ensures a.Valid() && ok == ContainedRun(old(a.Base()), calls, a.mem.Length)
    ensures |replies| <= |calls| && replies == Replies(old(a.Base()), calls, a.mem.Length)[..|replies|]
    ensures ok ==> |replies| == |calls| && a.Base() == Run(old(a.Base()), calls, a.mem.Length)
    ensures ok ==> Untouched(old(a.Base()), a.Base(), old(a.mem[..]), a.mem[..], calls)
  {
    ghost var h0, m0, capacity := a.Base(), a.mem[..], a.mem.Length;
    replies, ok := [], true;
    assert calls[0..] == calls;
    for i := 0 to |calls|
      invariant a.Valid() && ok && Reached(h0, m0, calls, i, a.Base(), a.mem[..], replies, capacity)
    {
      ghost var h, r := a.Base(), a.mem[..];
      NextIsLegal(h0, m0, calls, i, h, r, replies, capacity);
      var reply;
      reply, ok := Perform(a, calls[i]);
      if !ok {
        return;
      }
      NextReached(h0, m0, calls, i, h, r, replies, a.Base(), a.mem[..], reply, capacity);
      replies := replies + [reply];
    }
    AllReached(h0, m0, calls, a.Base(), a.mem[..], replies, capacity);
  }

  /** The first `i` calls on the heap `h0` in `m0` have returned `replies` and left the heap `h` in `r`. */
  ghost predicate Reached(
    h0: Heap, m0: Memory, calls: seq<Call>, i: nat, h: Heap, r: Memory, replies: seq<nat>, capacity: nat)
    requires Good(h0) && LegalRun(h0, calls, capacity)
  {
    && i == |replies| <= |calls| && Good(h) && LegalRun(h, calls[i..], capacity)
    && Rest(h0, calls, h, calls[i..], replies, capacity) && Untouched(h0, h, m0, r, calls[..i])
  }

  lemma NextIsLegal(
    h0: Heap, m0: Memory, calls: seq<Call>, i: nat, h: Heap, r: Memory, replies: seq<nat>, capacity: nat)
    requires Good(h0) && LegalRun(h0, calls, capacity) && Reached(h0, m0, calls, i, h, r, replies, capacity)
    requires i < |calls|
    ensures Legal(h, calls[i]) && (!Contained(h, calls[i], capacity) ==> !ContainedRun(h0, calls, capacity))
    ensures replies == Replies(h0, calls, capacity)[..|replies|]
  {
    OneFurther(calls, i);
  }

  lemma NextReached(h0: Heap, m0: Memory, calls: seq<Call>, i: nat, h: Heap, r: Memory, replies: seq<nat>,
                    g: Heap, m: Memory, reply: nat, capacity: nat)
    requires Good(h0) && LegalRun(h0, calls, capacity) && Reached(h0, m0, calls, i, h, r, replies, capacity)
    requires i < |calls| && Legal(h, calls[i]) && Contained(h, calls[i], capacity) && g == Step(h, calls[i], capacity)
    requires reply == Reply(h, calls[i], capacity) && PayloadsKept(r, m, h.blocks, Named(calls[i]))
    ensures Reached(h0, m0, calls, i + 1, g, m, replies + [reply], capacity)
  {
    OneFurther(calls, i);
    OneCallLess(h0, calls, h, calls[i..], replies, capacity);
    UntouchedStep(h0, h, m0, r, m, calls[..i], calls[i], capacity);
  }

  lemma AllReached(h0: Heap, m0: Memory, calls: seq<Call>, h: Heap, r: Memory, replies: seq<nat>, capacity: nat)
    requires Good(h0) && LegalRun(h0, calls, capacity) && Reached(h0, m0, calls, |calls|, h, r, replies, capacity)
    ensures ContainedRun(h0, calls, capacity)
    ensures h == Run(h0, calls, capacity) && |replies| == |calls| && replies == Replies(h0, calls, capacity)
    ensures Untouched(h0, h, m0, r, calls)
  {
    assert calls[..|calls|] == calls && calls[|calls|..] == [];
  }

  /** After some of the calls: `rest` are to come from the heap `h`, and the others have returned `replies`. */
  ghost predicate Rest(h0: Heap, calls: seq<Call>, h: Heap, rest: seq<Call>, replies: seq<nat>, capacity: nat)
    requires Good(h0) && LegalRun(h0, calls, capacity) && Good(h) && LegalRun(h, rest, capacity)
  {
    && ContainedRun(h, rest, capacity) == ContainedRun(h0, calls, capacity)
    && Run(h, rest, capacity) == Run(h0, calls, capacity)
    && replies + Replies(h, rest, capacity) == Replies(h0, calls, capacity)
  }

  lemma OneCallLess(h0: Heap, calls: seq<Call>, h: Heap, rest: seq<Call>, replies: seq<nat>, capacity: nat)
    requires Good(h0) && LegalRun(h0, calls, capacity) && Good(h) && LegalRun(h, rest, capacity) && rest != []
    requires Rest(h0, calls, h, rest, replies, capacity) && Contained(h, rest[0], capacity)
    ensures Legal(h, rest[0]) && LegalRun(Step(h, rest[0], capacity), rest[1..], capacity)
    ensures Rest(h0, calls, Step(h, rest[0], capacity), rest[1..], replies + [Reply(h, rest[0], capacity)], capacity)
  {
    var g, reply, later := FirstCall(h, rest, capacity);
    assert replies + ([reply] + later) == replies + [reply] + later;
  }

  /** A run is its first call and the rest of it. */
  lemma FirstCall(h: Heap, calls: seq<Call>, capacity: nat) returns (g: Heap, reply: nat, later: seq<nat>)
    requires Good(h) && LegalRun(h, calls, capacity) && calls != []
    ensures Legal(h, calls[0]) && g == Step(h, calls[0], capacity) && reply == Reply(h, calls[0], capacity)
    ensures LegalRun(g, calls[1..], capacity)
    ensures ContainedRun(h, calls, capacity) ==
            (Contained(h, calls[0], capacity) && ContainedRun(g, calls[1..], capacity))
    ensures Run(h, calls, capacity) == Run(g, calls[1..], capacity)
    ensures later == Replies(g, calls[1..], capacity) && Replies(h, calls, capacity) == [reply] + later
  {
    g, reply := Step(h, calls[0], capacity), Reply(h, calls[0], capacity);
    later := Replies(g, calls[1..], capacity);
  }

  /** Payloads of different blocks in use share no word, and each starts at a multiple of 16 bytes inside the heap. */
  lemma PayloadsDisjoint(h: Heap, a: nat, c: nat, k: nat)
    requires Good(h) && InUse(h, a) && InUse(h, c) && a < k < a + h.blocks[a].size && c < k < c + h.blocks[c].size
    ensures a == c && (a + 1) % 2 == 0 && k < h.epi
  {
    assert Apart(h.blocks, a, c) && Apart(h.blocks, c, a) && AlignedAt(h.blocks, a) && InPlace(h.blocks, h.epi, a);
  }

  /** The free lists together hold exactly the free blocks, each once and in the list for its size. */
  lemma ListsAreTheFreeBlocks(h: Heap, a: nat)
    requires Good(h)
    ensures IsFree(h.blocks, a) <==> a in h.mini || exists k :: 0 <= k < NUM_ROOTS && a in h.buckets[k]
    ensures a in h.mini ==> h.blocks[a].size == MINI && forall k | 0 <= k < NUM_ROOTS :: a !in h.buckets[k]
    ensures forall k | 0 <= k < NUM_ROOTS && a in h.buckets[k] ::
            k == RootIndex(h.blocks[a].size) && h.blocks[a].size > MINI
    ensures Distinct(h.mini) && forall k | 0 <= k < NUM_ROOTS :: Distinct(h.buckets[k])
  {
    forall k | 0 <= k < NUM_ROOTS
        ensures Distinct(h.buckets[k]) && (a in h.buckets[k] ==> BucketMember(h.blocks, k, a)) {
      assert BucketOk(h.blocks, k, h.buckets[k]);
    }
    assert a in h.mini ==> MiniMember(h.blocks, a);
    if IsFree(h.blocks, a) {
      assert Listed(h, a);
      assert h.blocks[a].size != MINI ==> a in h.buckets[RootIndex(h.blocks[a].size)];
    }
  }

  /** Following block sizes through memory from `a`, as `find_next` does, up to the epilogue. */
  ghost function HeaderWalk(m: Memory, a: nat): seq<nat>
    decreases |m| - a
  {
    if a < |m| && SizeOf(m[a]) > 0 then [a] + HeaderWalk(m, a + SizeOf(m[a])) else []
  }

  /** The walk through memory visits exactly the blocks: the tiling is what the program would see. */
  lemma {:induction false} HeaderWalkIsWalk(m: Memory, b: Layout, epi: nat, a: nat)
    requires Tiled(b, epi) && HeadersOk(m, b, epi) && (a in b || a == epi)
    ensures HeaderWalk(m, a) == Walk(b, epi, a)
    decreases epi - a
  {
    if a == epi {
      NoBlockAtEnd(b, epi);
    } else {
      assert InPlace(b, epi, a) && HeaderOk(m, b, a);
      HeaderWalkIsWalk(m, b, epi, a + b[a].size);
    }
  }

  /** The blocks `w` fill the words from `a` up to `epi` one after the other. */
  ghost predicate Fills(b: Layout, w: seq<nat>, a: nat, epi: nat) {
    if w == [] then a == epi else w[0] == a && a in b && Fills(b, w[1..], a + b[a].size, epi)
  }

  lemma {:induction false} WalkFills(b: Layout, epi: nat, a: nat)
    requires Tiled(b, epi) && (a in b || a == epi)
    ensures Fills(b, Walk(b, epi, a), a, epi)
    decreases epi - a
  {
    if a == epi {
      NoBlockAtEnd(b, epi);
    } else {
      assert InPlace(b, epi, a);
      WalkFills(b, epi, a + b[a].size);
      assert Walk(b, epi, a)[1..] == Walk(b, epi, a + b[a].size);
    }
  }

  /**
   * In every state of every run the walk from `heap_start` meets all blocks, and they fill the heap up to the epilogue.
   */
  lemma WalkTilesHeap(m: Memory, h: Heap)
    requires Good(h) && HeadersOk(m, h.blocks, h.epi)
    ensures Fills(h.blocks, HeaderWalk(m, 1), 1, h.epi)
    ensures forall c :: c in HeaderWalk(m, 1) <==> c in h.blocks
  {
    HeaderWalkIsWalk(m, h.blocks, h.epi, 1);
    WalkFills(h.blocks, h.epi, 1);
    WalkVisits(h.blocks, h.epi, 1);
    forall c | c in h.blocks ensures c >= 1 {
      assert InPlace(h.blocks, h.epi, c);
    }
  }

  /**
   * The heap grows only when no free block, mini or not, could serve the request; NULL comes only when it cannot grow
   * either.
   */
  lemma GrowsOnlyWhenNeeded(h: Heap, asize: nat, capacity: nat)
    requires Good(h) && asize >= MINI && asize % 2 == 0
    ensures var r := Allocate(h, asize, capacity);
            var fits := exists c: nat :: IsFree(h.blocks, c) && h.blocks[c].size >= asize;
            && (r.heap.epi != h.epi <==> !fits && h.epi + 1 + Larger(asize, CHUNK) <= capacity)
            && (r.block == 0 <==> !fits && h.epi + 1 + Larger(asize, CHUNK) > capacity)
            && (r.block == 0 ==> r.heap == h)
  {
    FindComplete(h, asize);
    var f, more := Find(h, asize), Larger(asize, CHUNK);
    if f != 0 {
      MallocFound(h, asize, capacity, f);
    } else if h.epi + 1 + more <= capacity {
      MallocGrown(h, asize, capacity, Extend(h, more), StretchLo(Extended(h, more).blocks, h.epi));
    }
  }

  /**
   * While the heap can grow by a chunk, `realloc` of any payload of more than one word to a size that wraps around
   * copies past its new payload.
   */
  lemma HugeReallocOverruns(h: Heap, ptr: nat, size: Word, capacity: nat)
    requires Good(h) && Live(h, ptr) && PayloadBytes(h, ptr) > 8
    requires size > MAX_REQUEST && h.epi + 1 + CHUNK <= capacity
    ensures !CopyFits(h, ptr, size, capacity)
  {
    BlockFitsRequest(size);
    GrowsOnlyWhenNeeded(h, MINI, capacity);
  }

  /** Such a payload is the first one a program asks for, on a heap with room for two chunks. */
  lemma FirstPayloadOverruns(size: Word, capacity: nat)
    requires size > MAX_REQUEST && capacity >= 2 + 2 * CHUNK
    ensures var r := Allocate(StartHeap(capacity), MIN_BLOCK, capacity);
            && r.block != 0 && Good(r.heap) && Live(r.heap, Pointer(r.block))
            && !CopyFits(r.heap, Pointer(r.block), size, capacity)
  {
    var r := FirstPayload(capacity);
    HugeReallocOverruns(r.heap, Pointer(r.block), size, capacity);
  }

  /** The first 24 bytes of a heap. */
  lemma FirstPayload(capacity: nat) returns (r: Allocation)
    requires capacity >= 2 + 2 * CHUNK
    ensures r == Allocate(StartHeap(capacity), MIN_BLOCK, capacity)
    ensures r.block != 0 && Good(r.heap) && Live(r.heap, Pointer(r.block)) && PayloadBytes(r.heap, Pointer(r.block)) > 8
    ensures r.heap.epi == 1 + CHUNK
  {
    r := Allocate(StartHeap(capacity), MIN_BLOCK, capacity);
    StartServes(capacity);
    GrowsOnlyWhenNeeded(StartHeap(capacity), MIN_BLOCK, capacity);
    AllocatedSize(StartHeap(capacity), MIN_BLOCK, capacity);
    MallocGood(StartHeap(capacity), MIN_BLOCK, capacity);
  }

  /** The chunk the heap starts with is one free block. */
  lemma StartServes(capacity: nat)
    requires capacity >= 2 + CHUNK
    ensures var h := StartHeap(capacity);
            h.epi == 1 + CHUNK && IsFree(h.blocks, 1) && h.blocks[1].size == CHUNK
  {
  }

  /** A block of `size` words can serve a request for `asize`, which is first looked for in the list of the block. */
  ghost predicate ServesFromList(size: nat, asize: nat) {
    asize <= size && RootIndex(size) == RootIndex(asize) && (asize == MINI <==> size == MINI)
  }

  /**
   * The block that a freed one has become part of is the newest of its list, so a request for that list that it can
   * serve takes it.
   */
  lemma FreedIsNewest(h: Heap, a: nat, asize: nat) returns (lo: nat)
    requires Good(h) && InUse(h, a) && asize >= MINI
    ensures var g := HeapOps.Release(h, a);
            && IsFree(g.blocks, lo) && lo <= a < lo + g.blocks[lo].size && Listed(g, lo)
            && ListFor(g, g.blocks[lo].size)[0] == lo
            && (ServesFromList(g.blocks[lo].size, asize) ==> Find(g, asize) == lo)
  {
    var m := Marked(h, a, false);
    lo := StretchLo(m.blocks, a);
    MarkedFreeReady(h, a);
    StretchFacts(m.blocks, h.epi, a);
    CoalesceShaped(m, a);
    FreeGood(h, a);
    assert IsFree(Coalesce(m, a).blocks, lo);
    NewestFound(Coalesce(m, a), lo, asize);
  }

  /** A block just put into its list is what a request for the list takes. */
  lemma NewestFound(h: Heap, a: nat, asize: nat)
    requires Shaped(h) && IsFree(h.blocks, a) && asize >= MINI
    ensures var g := InsertFree(h, a);
            && g.blocks == h.blocks && Listed(g, a) && ListFor(g, h.blocks[a].size)[0] == a
            && (ServesFromList(h.blocks[a].size, asize) ==> Find(g, asize) == a)
  {
    assert InPlace(h.blocks, h.epi, a);
  }

  /** The blocks after `Place`: `a` in use, followed by a free rest if it was cut. */
  lemma PlacedBlocks(h: Heap, a: nat, asize: nat)
    requires Good(h) && IsFree(h.blocks, a) && MINI <= asize <= h.blocks[a].size && asize % 2 == 0
    ensures var size := h.blocks[a].size;
            Place(h, a, asize).blocks == if size - asize < MINI then h.blocks[a := Block(size, true)]
                                         else h.blocks[a := Block(asize, true)][a + asize := Block(size - asize, false)]
    ensures h.blocks[a].size - asize >= MINI ==> a + asize !in h.blocks
  {
    MarkedIsUpdate(h.blocks, h.epi, a, true);
    if h.blocks[a].size - asize >= MINI {
      SplitTiled(h.blocks, h.epi, a, asize);
    }
  }

  /** What `free` finds around a block just placed: the rest it was cut from, and nothing else. */
  lemma PlacedStretch(h: Heap, a: nat, asize: nat, m: Layout)
    requires Good(h) && IsFree(h.blocks, a) && MINI <= asize <= h.blocks[a].size && asize % 2 == 0
    requires var size := h.blocks[a].size;
             if size - asize < MINI then asize == size && m == h.blocks
             else m == h.blocks[a := Block(asize, false)][a + asize := Block(size - asize, false)]
                  && a + asize !in h.blocks
    ensures a in m && StretchLo(m, a) == a && StretchHi(m, a) == a + h.blocks[a].size
  {
    var b, size := h.blocks, h.blocks[a].size;
    assert InPlace(b, h.epi, a) && !FreePair(b, a);
    forall q: nat | PrecededBy(m, a, q) ensures m[q].alloc {
      if q != a && q != a + asize {
        assert PrecededBy(b, a, q) && !FreePair(b, q);
      }
    }
  }

  /** Taking a free block and giving it back leaves the blocks as they were. */
  lemma PlaceThenRelease(h: Heap, a: nat, asize: nat)
    requires Good(h) && IsFree(h.blocks, a) && MINI <= asize <= h.blocks[a].size && asize % 2 == 0
    ensures var p := Place(h, a, asize); Good(p) && InUse(p, a) && HeapOps.Release(p, a).blocks == h.blocks
  {
    var b, p := h.blocks, Place(h, a, asize);
    PlaceGood(h, a, asize);
    PlaceKeeps(h, a, asize);
    PlacedUndone(h, a, asize);
  }

  lemma PlacedUndone(h: Heap, a: nat, asize: nat)
    requires Good(h) && IsFree(h.blocks, a) && MINI <= asize <= h.blocks[a].size && asize % 2 == 0
    requires Good(Place(h, a, asize)) && InUse(Place(h, a, asize), a)
    ensures HeapOps.Release(Place(h, a, asize), a).blocks == h.blocks
  {
    var m := PlacedUnmarked(h, a, asize);
    PlacedStretch(h, a, asize, m);
    RejoinedIsWhole(h, a, asize, m);
    ReleasedBlocks(Place(h, a, asize), a, m, a, h.blocks[a].size);
  }

  /** `free` leaves the blocks of the heap with `a` marked free, its stretch merged. */
  lemma ReleasedBlocks(h: Heap, a: nat, m: Layout, lo: nat, size: nat)
    requires Good(h) && InUse(h, a) && m == Marked(h, a, false).blocks
    requires a in m && lo == StretchLo(m, a) && lo + size == StretchHi(m, a)
    ensures HeapOps.Release(h, a).blocks == Replace(m, lo, size, false)
  {
  }

  /** The blocks when a block just placed is marked free again. */
  lemma PlacedUnmarked(h: Heap, a: nat, asize: nat) returns (m: Layout)
    requires Good(h) && IsFree(h.blocks, a) && MINI <= asize <= h.blocks[a].size && asize % 2 == 0
    requires Good(Place(h, a, asize)) && a in Place(h, a, asize).blocks
    ensures m == Marked(Place(h, a, asize), a, false).blocks
    ensures var size := h.blocks[a].size;
            if size - asize < MINI then asize == size && m == h.blocks
            else m == h.blocks[a := Block(asize, false)][a + asize := Block(size - asize, false)]
                 && a + asize !in h.blocks
  {
    var p := Place(h, a, asize);
    PlacedBlocks(h, a, asize);
    MarkedIsUpdate(p.blocks, p.epi, a, false);
    m := p.blocks[a := Block(p.blocks[a].size, false)];
    if h.blocks[a].size - asize < MINI {
      SizesEven(h, a, asize);
      assert m == h.blocks;
    }
  }

  /** Merging a placed block with the rest it was cut from gives the block it came from. */
  lemma RejoinedIsWhole(h: Heap, a: nat, asize: nat, m: Layout)
    requires Good(h) && IsFree(h.blocks, a) && MINI <= asize <= h.blocks[a].size
    requires m == h.blocks
             || m == h.blocks[a := Block(asize, false)][a + asize := Block(h.blocks[a].size - asize, false)]
    requires m != h.blocks ==> asize < h.blocks[a].size && a + asize !in h.blocks
    ensures Replace(m, a, h.blocks[a].size, false) == h.blocks
  {
    forall c | c in h.blocks ensures c == a || !(a <= c < a + h.blocks[a].size) {
      assert Apart(h.blocks, a, c);
    }
  }

  lemma SizesEven(h: Heap, a: nat, asize: nat)
    requires Good(h) && a in h.blocks && asize % 2 == 0 && asize <= h.blocks[a].size < asize + MINI
    ensures h.blocks[a].size == asize
  {
    assert AlignedAt(h.blocks, a);
  }

  /** `free(malloc(n))` restores the sequence of blocks, or leaves the one the growth would leave. */
  lemma MallocThenFree(h: Heap, asize: nat, capacity: nat)
    requires Good(h) && asize >= MINI && asize % 2 == 0 && Allocate(h, asize, capacity).block != 0
    ensures var r := Allocate(h, asize, capacity);
            && Good(r.heap) && InUse(r.heap, r.block)
            && HeapOps.Release(r.heap, r.block).blocks ==
               if r.heap.epi == h.epi then h.blocks else Extend(h, Larger(asize, CHUNK)).blocks
  {
    var f, more := Find(h, asize), Larger(asize, CHUNK);
    GrowsOnlyWhenNeeded(h, asize, capacity);
    if f != 0 {
      FindComplete(h, asize);
      MallocFound(h, asize, capacity, f);
      PlaceThenRelease(h, f, asize);
    } else {
      var e, a := Extend(h, more), StretchLo(Extended(h, more).blocks, h.epi);
      MallocGrown(h, asize, capacity, e, a);
      PlaceThenRelease(e, a, asize);
    }
  }

  /** No block up to an epilogue at word 1, otherwise one free block. */
  ghost function OneFreeBlock(epi: nat): Layout {
    if epi <= 1 then map[] else map[1 := Block(epi - 1, false)]
  }

  /** A heap in which nothing is in use is empty or one free block. */
  lemma NothingInUse(h: Heap)
    requires Good(h) && ListsInUse(h, [])
    ensures h.blocks == OneFreeBlock(h.epi)
  {
    var b := h.blocks;
    if h.epi > 1 {
      assert InPlace(b, h.epi, 1) && !InUse(h, 1) && !FreePair(b, 1);
      var n := 1 + b[1].size;
      assert !InUse(h, n);
      forall c | c in b ensures c == 1 {
        assert InPlace(b, h.epi, c) && Apart(b, 1, c);
      }
    } else {
      forall c: nat ensures c !in b {
        assert c in b ==> InPlace(b, h.epi, c);
      }
    }
  }

  ghost predicate AllInUse(h: Heap, order: seq<nat>) {
    forall a | a in order :: InUse(h, a)
  }

  /** `order` lists the blocks in use. */
  ghost predicate ListsInUse(h: Heap, order: seq<nat>) {
    forall a: nat :: a in order <==> InUse(h, a)
  }

  /** Freeing the blocks of `order` one after the other. */
  ghost function ReleaseAll(h: Heap, order: seq<nat>): (r: Heap)
    requires Good(h) && Distinct(order) && AllInUse(h, order)
    ensures Good(r)
    decreases |order|
  {
    if order == [] then h
    else
      ReleaseFirst(h, order, order[0]);
      ReleaseAll(HeapOps.Release(h, order[0]), order[1..])
  }

  /** Freeing the first block of `order` keeps the rest of it in use. */
  lemma ReleaseFirst(h: Heap, order: seq<nat>, a: nat)
    requires Good(h) && Distinct(order) && AllInUse(h, order) && order != [] && order[0] == a
    ensures InUse(h, a) && Distinct(order[1..]) && Good(HeapOps.Release(h, a))
            && AllInUse(HeapOps.Release(h, a), order[1..])
  {
    assert a in order && InUse(h, a);
    FreeGood(h, a);
    FreeKeeps(h, a);
    forall c | c in order[1..] ensures InUse(HeapOps.Release(h, a), c) {
      assert c in order && InUse(h, c) && c != a;
    }
  }

  /** `free` puts nothing into use. */
  lemma ReleaseUsesNothing(h: Heap, a: nat, c: nat)
    requires Good(h) && InUse(h, a) && InUse(HeapOps.Release(h, a), c)
    ensures InUse(h, c) && c != a
  {
    MarkedFreeReady(h, a);
    MarkedIsUpdate(h.blocks, h.epi, a, false);
    StretchFacts(Marked(h, a, false).blocks, h.epi, a);
  }

  /** After freeing the first block of `order`, the rest of it is what is in use. */
  lemma RestInUse(h: Heap, order: seq<nat>, a: nat) returns (g: Heap)
    requires Good(h) && Distinct(order) && ListsInUse(h, order) && order != [] && order[0] == a && InUse(h, a)
    ensures Good(g) && g.epi == h.epi && Distinct(order[1..]) && ListsInUse(g, order[1..])
    ensures ReleaseAll(h, order) == ReleaseAll(g, order[1..])
  {
    g := HeapOps.Release(h, a);
    ReleaseFirst(h, order, a);
    forall c: nat | InUse(g, c) ensures c in order[1..] {
      ReleaseUsesNothing(h, a, c);
      assert c in order;
    }
  }

  /** Once all blocks in use are freed, in any order, a non-empty heap is a single free block. */
  lemma {:induction false} AllFreedIsOneBlock(h: Heap, order: seq<nat>)
    requires Good(h) && Distinct(order) && ListsInUse(h, order)
    ensures ReleaseAll(h, order).epi == h.epi && ReleaseAll(h, order).blocks == OneFreeBlock(h.epi)
    decreases |order|
  {
    if order == [] {
      NothingInUse(h);
    } else {
      assert order[0] in order;
      var g := RestInUse(h, order, order[0]);
      AllFreedIsOneBlock(g, order[1..]);
    }
  }
}
