/** The allocator of malloc/mm.c, in place over an array of words.

    Addresses are word indexes into the heap, whose first word lies at a multiple of 16 bytes.
    Word 0 holds the prologue, so 0 can stand for NULL. */
module Allocator {
  import opened BoundaryTags
  import opened HeapLayout
  import opened HeapOps
  import opened HeapMemory
  import opened FreeLists
  import opened Bytes

  class Allocator {
    const mem: array<Word>
    const freeRoots: array<Word>
    var miniFreeRoot: Word
    /** `mem_brk`: the words below it belong to the heap. */
    var brk: nat
    /** `heap_start != NULL`. */
    var started: bool

    ghost var heap: Heap

    /** Memory encodes `heap`, but for the footer of `x`. */
    ghost predicate Encodes(x: nat)
      reads this, mem, freeRoots
    {
      && mem != freeRoots
      && mem.Length <= MAX_WORDS
      && brk == heap.epi + 1 <= mem.Length
      && Shaped(heap)
      && Encoded(mem[..], freeRoots[..], miniFreeRoot, heap, x)
    }

    /** `write_block`. */
    method WriteBlock(a: nat, size: nat, prevMini: bool, prevAlloc: bool, alloc: bool)
      requires MINI <= size && size % 2 == 0 && a + size < mem.Length <= MAX_WORDS
      modifies mem
      ensures Written(old(mem[..]), mem[..], a, size, prevMini, prevAlloc, alloc)
      ensures mem[a] == Pack(size, prevMini, prevAlloc, alloc)
      ensures mem[a + size] == WithPrevMini(WithPrevAlloc(old(mem[a + size]), alloc), size == MINI)
    {
      mem[a] := Pack(size, prevMini, prevAlloc, alloc);
      if !alloc && size != MINI {
        mem[a + size - 1] := Pack(size, prevMini, prevAlloc, alloc);
      }
      var n := a + size;
      mem[n] := WithPrevAlloc(mem[n], alloc);
      mem[n] := WithPrevMini(mem[n], size == MINI);
    }

    /** `insert_free_block`. */
    method InsertFreeBlock(a: nat, ghost x: nat)
      requires Encodes(x) && IsFree(heap.blocks, a) && !Listed(heap, a)
      modifies this, mem, freeRoots
      ensures Encodes(x) && heap == InsertFree(old(heap), a) && brk == old(brk) && started == old(started)
      ensures PayloadsKept(old(mem[..]), mem[..], old(heap.blocks), 0)
    {
      ghost var m0, roots0 := mem[..], freeRoots[..];
      assert HeaderOk(m0, heap.blocks, a) && InPlace(heap.blocks, heap.epi, a) && AlignedAt(heap.blocks, a);
      var size := SizeOf(mem[a]);
      if size == MINI {
        PushMiniEncoded(m0, m0[a + 1 := miniFreeRoot], roots0, miniFreeRoot, heap, a, x);
        mem[a + 1] := miniFreeRoot;
        miniFreeRoot := a;
        assert mem[..] == m0[a + 1 := old(miniFreeRoot)];
      } else {
        var index := SearchRootIndex(size);
        ghost var l := heap.buckets[index];
        MembersFit(m0, roots0, miniFreeRoot, heap, x, index);
        MembersPositive(heap, index);
        PushEncoded(m0, Pushed(m0, l, a), roots0, miniFreeRoot, heap, a, x);
        var root := freeRoots[index];
        mem[a + 1] := root;
        mem[a + 2] := 0;
        if root != 0 {
          mem[root + 2] := a;
        }
        freeRoots[index] := a;
        assert mem[..] == Pushed(m0, l, a);
        assert freeRoots[..] == roots0[index := a as Word];
      }
      heap := InsertFree(heap, a);
    }

    /** `remove_mini_block`; a block that is not in the list is left alone. */
    method RemoveMiniBlock(a: nat, ghost x: nat)
      requires Encodes(x) && IsFree(heap.blocks, a) && heap.blocks[a].size == MINI
      modifies this, mem
      ensures Encodes(x) && heap == RemoveFree(old(heap), a) && brk == old(brk) && started == old(started)
      ensures PayloadsKept(old(mem[..]), mem[..], old(heap.blocks), 0)
    {
      ghost var m0, l := mem[..], heap.mini;
      MiniMembersFit(m0, freeRoots[..], miniFreeRoot, heap, x);
      var current: Word, prev: Word := miniFreeRoot, 0;
      ghost var i := 0;
      while current != 0 && current != a
        invariant 0 <= i <= |l| && current == At(l, i) && prev == At(l, i - 1)
        invariant forall j | 0 <= j < i :: l[j] != a
        decreases |l| - i
      {
        assert MiniNodeOk(m0, l, i);
        prev := current;
        current := mem[current + 1];
        i := i + 1;
      }
      if current == 0 {
        assert a !in l;
        MinusAbsent(l, a);
        return;
      }
      assert MiniNodeOk(m0, l, i);
      UnlinkMiniEncoded(m0, MiniUnlinked(m0, l, i), freeRoots[..], miniFreeRoot, heap, i, x);
      var next := mem[current + 1];
      if prev != 0 {
        mem[prev + 1] := next;
      } else {
        miniFreeRoot := next;
      }
      mem[current + 1] := 0;
      assert mem[..] == MiniUnlinked(m0, l, i);
      heap := RemoveFree(heap, a);
    }

    /** `pop_mini_block`: the newest mini block, or NULL. */
    method PopMiniBlock() returns (block: nat)
      requires Encodes(0)
      modifies this, mem
      ensures Encodes(0) && brk == old(brk) && started == old(started)
      ensures block == At(old(heap.mini), 0)
      ensures old(heap.mini) == [] ==> heap == old(heap) && mem[..] == old(mem[..])
      ensures old(heap.mini) != [] ==> IsFree(old(heap.blocks), block) && heap == RemoveFree(old(heap), block)
      ensures PayloadsKept(old(mem[..]), mem[..], old(heap.blocks), 0)
    {
      ghost var m0, l := mem[..], heap.mini;
      MiniMembersFit(m0, freeRoots[..], miniFreeRoot, heap, 0);
      block := miniFreeRoot;
      if block == 0 {
        return;
      }
      assert MiniNodeOk(m0, l, 0) && MiniMember(heap.blocks, l[0]);
      UnlinkMiniEncoded(m0, MiniUnlinked(m0, l, 0), freeRoots[..], miniFreeRoot, heap, 0, 0);
      miniFreeRoot := mem[block + 1];
      mem[block + 1] := 0;
      assert mem[..] == MiniUnlinked(m0, l, 0);
      heap := RemoveFree(heap, block);
    }

    /** `remove_free_block`. */
    method RemoveFreeBlock(a: nat, ghost x: nat)
      requires Encodes(x) && IsFree(heap.blocks, a) && Listed(heap, a)
      modifies this, mem, freeRoots
      ensures Encodes(x) && heap == RemoveFree(old(heap), a) && brk == old(brk) && started == old(started)
      ensures PayloadsKept(old(mem[..]), mem[..], old(heap.blocks), 0)
    {
      ghost var m0, roots0 := mem[..], freeRoots[..];
      assert HeaderOk(m0, heap.blocks, a) && InPlace(heap.blocks, heap.epi, a) && AlignedAt(heap.blocks, a);
      var size := SizeOf(mem[a]);
      if size == MINI {
        RemoveMiniBlock(a, x);
      } else {
        RemoveBucketBlock(a, size, x);
      }
    }

    /** The stores of `remove_free_block` for blocks above the mini size. */
    method UnlinkStores(a: nat, size: nat, ghost l: seq<nat>, ghost i: nat)
      requires mem != freeRoots && freeRoots.Length == NUM_ROOTS && i < |l| && l[i] == a
      requires forall j | 0 <= j < |l| :: 0 < l[j] && l[j] + 2 < mem.Length
      requires mem[a + 1] == At(l, i + 1) && mem[a + 2] == At(l, i - 1)
      modifies mem, freeRoots
      ensures At(l, i + 1) < WORD_LIMIT && At(l, i - 1) < WORD_LIMIT && mem[..] == Unlinked(old(mem[..]), l, i)
      ensures freeRoots[..] ==
              if i > 0 then old(freeRoots[..]) else old(freeRoots[..])[RootIndex(size) := At(l, 1) as Word]
    {
      ghost var m0 := mem[..];
      var next, prev := mem[a + 1], mem[a + 2];
      if prev != 0 {
        mem[prev + 1] := next;
      } else {
        var index := SearchRootIndex(size);
        freeRoots[index] := next;
      }
      ghost var m1 := if i > 0 then m0[l[i - 1] + 1 := next] else m0;
      assert mem[..] == m1;
      if next != 0 {
        mem[next + 2] := prev;
      }
      ghost var m2 := if i + 1 < |l| then m1[l[i + 1] + 2 := prev] else m1;
      assert mem[..] == m2;
      mem[a + 1] := 0;
      mem[a + 2] := 0;
    }

    /** The part of `remove_free_block` for blocks above the mini size. */
    method RemoveBucketBlock(a: nat, size: nat, ghost x: nat)
      requires Encodes(x) && IsFree(heap.blocks, a) && a in heap.buckets[RootIndex(size)]
               && size == heap.blocks[a].size != MINI
      modifies this, mem, freeRoots
      ensures Encodes(x) && heap == RemoveFree(old(heap), a) && brk == old(brk) && started == old(started)
      ensures PayloadsKept(old(mem[..]), mem[..], old(heap.blocks), 0)
    {
      ghost var m0, roots0, k := mem[..], freeRoots[..], RootIndex(size);
      ghost var l := heap.buckets[k];
      ghost var i :| 0 <= i < |l| && l[i] == a;
      MembersFit(m0, roots0, miniFreeRoot, heap, x, k);
      MembersPositive(heap, k);
      assert NodeOk(m0, l, i);
      UnlinkStores(a, size, l, i);
      UnlinkEncoded(m0, mem[..], roots0, miniFreeRoot, heap, k, i, x);
      heap := RemoveFree(heap, a);
    }

    /** `find_prev`: the block before `a` when it is free, otherwise NULL. */
    method FindPrev(a: nat, ghost x: nat) returns (p: nat)
      requires Encodes(x) && a in heap.blocks && (x == 0 || x > a)
      ensures p == if PrevFree(heap.blocks, a) then PrevOf(heap.blocks, a) else 0
      ensures a < mem.Length && PrevAllocOf(mem[a]) == !PrevFree(heap.blocks, a)
    {
      p := 0;
      assert InPlace(heap.blocks, heap.epi, a);
      ghost var q := 0;
      if a > 1 {
        q := Predecessor(heap.blocks, heap.epi, a);
        PrevFreeIff(heap.blocks, heap.epi, a, q);
        WordsOfPredecessor(mem[..], freeRoots[..], miniFreeRoot, heap, x, q, a);
      } else {
        NoneBeforeFirst(heap.blocks, heap.epi);
      }
      if PrevAllocOf(mem[a]) {
        return;
      }
      if PrevMiniOf(mem[a]) {
        if a < MINI || a - MINI >= brk {
          return;
        }
        return a - MINI;
      }
      var footer := mem[a - 1];
      if SizeOf(footer) == 0 {
        return;
      }
      return a - SizeOf(footer);
    }

    /** The reads at the top of `coalesce_block`: the free neighbours of `a`, 0 where there is none. */
    method FreeNeighbours(a: nat, ghost x: nat) returns (prev: nat, next: nat)
      requires Encodes(x) && IsFree(heap.blocks, a) && x == a + heap.blocks[a].size
      ensures prev == if PrevFree(heap.blocks, a) then PrevOf(heap.blocks, a) else 0
      ensures next == if IsFree(heap.blocks, x) then x else 0
      ensures PrevFree(heap.blocks, a) ==> prev > 0
    {
      assert HeaderOk(mem[..], heap.blocks, a) && InPlace(heap.blocks, heap.epi, a);
      next := a + SizeOf(mem[a]);
      prev := FindPrev(a, x);
      assert next in heap.blocks ==> HeaderOk(mem[..], heap.blocks, next) && InPlace(heap.blocks, heap.epi, next);
      assert prev in heap.blocks ==> InPlace(heap.blocks, heap.epi, prev);
      if SizeOf(mem[next]) == 0 || AllocOf(mem[next]) {
        next := 0;
      }
    }

    /** The `remove_free_block` calls of the four cases of `coalesce_block`. */
    method UnlistNeighbours(a: nat, prev: nat, next: nat, ghost x: nat)
      requires Encodes(x) && IsFree(heap.blocks, a) && !Listed(heap, a) && AllListedBut(heap, a)
      requires x == a + heap.blocks[a].size
      requires prev == if PrevFree(heap.blocks, a) then PrevOf(heap.blocks, a) else 0
      requires next == if IsFree(heap.blocks, x) then x else 0
      requires PrevFree(heap.blocks, a) ==> prev > 0
      modifies this, mem, freeRoots
      ensures Encodes(x) && heap == Unlisted(old(heap), a) && brk == old(brk) && started == old(started)
      ensures PayloadsKept(old(mem[..]), mem[..], old(heap.blocks), 0)
    {
      ghost var h0, m0 := heap, mem[..];
      assert InPlace(heap.blocks, heap.epi, a);
      if prev != 0 {
        assert InPlace(heap.blocks, heap.epi, prev) && Listed(heap, prev);
        RemoveFreeBlock(prev, x);
        RemoveFreeShaped(h0, prev);
      }
      ghost var m1 := mem[..];
      if next != 0 {
        assert Listed(h0, next);
        RemoveFreeBlock(next, x);
      }
      PayloadsKeptTwice(m0, m1, mem[..], h0.blocks, h0.blocks, 0, 0);
    }

    /** The sums of `coalesce_block`: where the merged block starts and how many words it has. */
    method Stretch(a: nat, prev: nat, next: nat, ghost x: nat) returns (lo: nat, size: nat)
      requires Encodes(x) && IsFree(heap.blocks, a) && x == a + heap.blocks[a].size
      requires prev == if PrevFree(heap.blocks, a) then PrevOf(heap.blocks, a) else 0
      requires next == if IsFree(heap.blocks, x) then x else 0
      requires PrevFree(heap.blocks, a) ==> prev > 0
      ensures lo == StretchLo(heap.blocks, a) && lo + size == StretchHi(heap.blocks, a)
    {
      assert HeaderOk(mem[..], heap.blocks, a) && InPlace(heap.blocks, heap.epi, a);
      lo, size := a, SizeOf(mem[a]);
      if prev != 0 {
        assert HeaderOk(mem[..], heap.blocks, prev) && InPlace(heap.blocks, heap.epi, prev);
        lo, size := prev, SizeOf(mem[prev]) + size;
      }
      if next != 0 {
        assert HeaderOk(mem[..], heap.blocks, next) && InPlace(heap.blocks, heap.epi, next);
        size := size + SizeOf(mem[next]);
      }
    }

    /** `coalesce_block`: its four cases differ in which neighbours are 0. */
    method CoalesceBlock(a: nat) returns (lo: nat)
      requires a in heap.blocks && Encodes(a + heap.blocks[a].size)
      requires IsFree(heap.blocks, a) && !Listed(heap, a) && AllListedBut(heap, a) && NoTwoFreeBut(heap.blocks, a)
      modifies this, mem, freeRoots
      ensures Encodes(0) && heap == Coalesce(old(heap), a) && lo == StretchLo(old(heap.blocks), a)
      ensures brk == old(brk) && started == old(started)
      ensures PayloadsKept(old(mem[..]), mem[..], old(heap.blocks), 0)
    {
      ghost var h0, m0, x := heap, mem[..], a + heap.blocks[a].size;
      var prev, next := FreeNeighbours(a, x);
      UnlistNeighbours(a, prev, next, x);
      ghost var m1 := mem[..];
      var size;
      lo, size := Stretch(a, prev, next, x);
      WriteMerged(lo, size, h0, a);
      PayloadsKeptTwice(m0, m1, mem[..], h0.blocks, h0.blocks, 0, 0);
    }

    /** The `write_block` that ends each of the four cases. */
    method WriteMerged(lo: nat, size: nat, ghost h0: Heap, ghost a: nat)
      requires Shaped(h0) && IsFree(h0.blocks, a) && !Listed(h0, a) && AllListedBut(h0, a) && NoTwoFreeBut(h0.blocks, a)
      requires Encodes(a + h0.blocks[a].size) && heap == Unlisted(h0, a)
      requires lo == StretchLo(h0.blocks, a) && lo + size == StretchHi(h0.blocks, a)
      modifies this`heap, mem
      ensures Encodes(0) && heap == Coalesce(h0, a)
      ensures PayloadsKept(old(mem[..]), mem[..], h0.blocks, 0)
    {
      ghost var m1 := mem[..];
      StretchFits(h0, a);
      WriteBlock(lo, size, PrevMiniOf(mem[lo]), PrevAllocOf(mem[lo]), false);
      CoalesceEncoded(m1, mem[..], freeRoots[..], miniFreeRoot, h0, a);
      heap := Coalesce(h0, a);
    }

    /** The end of `free` and of `extend_heap`: coalesce, then list what comes out. */
    method CoalesceAndInsert(a: nat) returns (lo: nat)
      requires a in heap.blocks && Encodes(a + heap.blocks[a].size)
      requires IsFree(heap.blocks, a) && !Listed(heap, a) && AllListedBut(heap, a) && NoTwoFreeBut(heap.blocks, a)
      modifies this, mem, freeRoots
      ensures Encodes(0) && Good(heap) && brk == old(brk) && started == old(started)
      ensures lo == StretchLo(old(heap.blocks), a) && lo in Coalesce(old(heap), a).blocks
      ensures heap == InsertFree(Coalesce(old(heap), a), lo)
      ensures PayloadsKept(old(mem[..]), mem[..], old(heap.blocks), 0)
    {
      ghost var h0, m0 := heap, mem[..];
      CoalesceShaped(h0, a);
      CoalesceInsertGood(h0, a);
      CoalesceKeeps(h0, a);
      lo := CoalesceBlock(a);
      ghost var m1 := mem[..];
      InsertFreeBlock(lo, 0);
      PayloadsKeptAcross(m0, m1, mem[..], h0, Coalesce(h0, a).blocks);
    }

    /** `mem_sbrk`: moves the break up by a multiple of eight bytes, unless the increment is negative or too large. */
    method Sbrk(bytes: Word) returns (ok: bool, start: nat)
      requires bytes % 8 == 0 && brk <= mem.Length <= MAX_WORDS
      modifies this`brk
      ensures ok == (old(brk) + bytes / 8 <= mem.Length) && start == old(brk)
      ensures brk == if ok then old(brk) + bytes / 8 else old(brk)
    {
      start := brk;
      if bytes >= WORD_LIMIT / 2 || brk + bytes / 8 > mem.Length {
        return false, start;
      }
      brk := brk + bytes / 8;
      ok := true;
    }

    /** `extend_heap`; NULL when the heap cannot grow that much. */
    method ExtendHeap(bytes: Word) returns (block: nat)
      requires Encodes(0) && Good(heap) && MIN_BYTES <= bytes && bytes % MIN_BYTES == 0
      modifies this, mem, freeRoots
      ensures Encodes(0) && Good(heap) && started == old(started)
      ensures if old(heap.epi) + 1 + bytes / 8 > mem.Length then block == 0 && heap == old(heap)
              else heap == Extend(old(heap), bytes / 8)
                   && block == StretchLo(Extended(old(heap), bytes / 8).blocks, old(heap.epi))
      ensures PayloadsKept(old(mem[..]), mem[..], old(heap.blocks), 0)
    {
      RoundUpOfMultiple(bytes);
      var rounded := RoundUp(bytes);
      var ok, bp := Sbrk(rounded);
      block := 0;
      if ok {
        block := AddBlock(bp - 1, rounded / 8);
      }
    }

    /** The end of `extend_heap`: the words up to the new break become a free block. */
    method AddBlock(newBlock: nat, size: nat) returns (block: nat)
      requires newBlock == heap.epi && size >= MINI && size % 2 == 0 && brk == heap.epi + 1 + size <= mem.Length
      requires mem != freeRoots && mem.Length <= MAX_WORDS && Good(heap)
      requires Encoded(mem[..], freeRoots[..], miniFreeRoot, heap, 0)
      modifies this, mem, freeRoots
      ensures Encodes(0) && Good(heap) && started == old(started)
      ensures heap == Extend(old(heap), size) && block == StretchLo(Extended(old(heap), size).blocks, old(heap.epi))
      ensures PayloadsKept(old(mem[..]), mem[..], old(heap.blocks), 0)
    {
      ghost var h0, m0 := heap, mem[..];
      WriteBlock(newBlock, size, PrevMiniOf(mem[newBlock]), PrevAllocOf(mem[newBlock]), false);
      ghost var m1 := mem[..];
      var next := newBlock + SizeOf(mem[newBlock]);
      mem[next] := Pack(0, SizeOf(mem[newBlock]) == MINI, false, true);
      ghost var m2 := mem[..];
      assert m2 == m1[h0.epi + size := Pack(0, size == MINI, false, true)];
      ExtendEncoded(m0, m1, m2, freeRoots[..], miniFreeRoot, h0, size);
      ExtendedShaped(h0, size);
      ghost var e := Extended(h0, size);
      FooterExcused(m2, e.blocks, e.epi, next);
      heap := e;
      block := CoalesceAndInsert(newBlock);
      NoBlockAtEnd(h0.blocks, h0.epi);
      PayloadsKeptAcross(m0, m2, mem[..], h0, e.blocks);
    }

    /** `split_block`: what is left of the block `a` beyond `asize` words becomes a free block, mini ones included. */
    method SplitBlock(a: nat, asize: nat)
      requires Encodes(0) && Good(heap) && a in heap.blocks && heap.blocks[a].alloc
      requires !IsFree(heap.blocks, a + heap.blocks[a].size)
      requires MINI <= asize <= heap.blocks[a].size && asize % 2 == 0
      modifies this, mem, freeRoots
      ensures Encodes(0) && brk == old(brk) && started == old(started)
      ensures heap == if old(heap.blocks[a].size) - asize < MINI then old(heap)
                      else InsertFree(old(heap).(blocks := Split(old(heap.blocks), a, asize)), a + asize)
      ensures PayloadsKept(old(mem[..]), mem[..], old(heap.blocks), a)
    {
      ghost var h0, m0 := heap, mem[..];
      assert HeaderOk(m0, heap.blocks, a) && InPlace(heap.blocks, heap.epi, a) && AlignedAt(heap.blocks, a);
      var size := SizeOf(mem[a]);
      if size - asize >= MINI {
        var next := CutBlock(a, size, asize);
        ghost var m2 := mem[..];
        SplitKeepsOthers(h0, a, asize);
        InsertFreeBlock(next, 0);
        PayloadsKeptTwice(m0, m2, mem[..], h0.blocks, Split(h0.blocks, a, asize), a, 0);
      }
    }

    /** `split_block` up to its call of `insert_free_block`. */
    method CutBlock(a: nat, size: nat, asize: nat) returns (next: nat)
      requires Encodes(0) && Good(heap) && a in heap.blocks && heap.blocks[a].alloc && heap.blocks[a].size == size
      requires !IsFree(heap.blocks, a + size)
      requires MINI <= asize <= size - MINI && asize % 2 == 0
      modifies this`heap, mem
      ensures Encodes(0) && next == a + asize && heap == old(heap).(blocks := Split(old(heap.blocks), a, asize))
      ensures IsFree(heap.blocks, next) && !Listed(heap, next)
      ensures PayloadsKept(old(mem[..]), mem[..], old(heap.blocks), a)
    {
      ghost var h0, m0 := heap, mem[..];
      assert InPlace(heap.blocks, heap.epi, a) && AlignedAt(heap.blocks, a);
      ghost var m1;
      next, m1 := WriteTwoBlocks(a, size, asize);
      CutEncoded(m0, m1, mem[..], freeRoots[..], miniFreeRoot, h0, a, asize);
      heap := h0.(blocks := Split(h0.blocks, a, asize));
    }

    /** The two writes of `split_block`. */
    method WriteTwoBlocks(a: nat, size: nat, asize: nat) returns (next: nat, ghost m1: Memory)
      requires MINI <= asize <= size - MINI && asize % 2 == 0 && size % 2 == 0 && a + size < mem.Length <= MAX_WORDS
      modifies mem
      ensures next == a + asize
      ensures Written(old(mem[..]), m1, a, asize, PrevMiniOf(old(mem[a])), PrevAllocOf(old(mem[a])), true)
      ensures Written(m1, mem[..], a + asize, size - asize, asize == MINI, true, false)
    {
      WriteBlock(a, asize, PrevMiniOf(mem[a]), PrevAllocOf(mem[a]), true);
      m1 := mem[..];
      next := a + SizeOf(mem[a]);
      WriteBlock(next, size - asize, asize == MINI, true, false);
    }

    /** `malloc` once it has its free block. */
    method PlaceBlock(a: nat, asize: nat)
      requires Encodes(0) && Good(heap) && IsFree(heap.blocks, a)
      requires MINI <= asize <= heap.blocks[a].size && asize % 2 == 0
      modifies this, mem, freeRoots
      ensures Encodes(0) && Good(heap) && heap == Place(old(heap), a, asize) && brk == old(brk)
              && started == old(started)
      ensures PayloadsKept(old(mem[..]), mem[..], old(heap.blocks), 0)
    {
      ghost var h0, m0 := heap, mem[..];
      RemoveFreeShaped(h0, a);
      assert Listed(h0, a) && InPlace(h0.blocks, h0.epi, a) && AlignedAt(h0.blocks, a);
      RemoveFreeBlock(a, 0);
      ghost var m1 := mem[..];
      assert HeaderOk(m1, h0.blocks, a);
      MarkAllocated(a, h0);
      ghost var m2, h2 := mem[..], heap;
      PayloadsKeptTwice(m0, m1, m2, h0.blocks, h0.blocks, 0, 0);
      MarkAllocatedGood(h0, a);
      MarkedIsUpdate(h0.blocks, h0.epi, a, true);
      SplitBlock(a, asize);
      PayloadsKeptTwice(m0, m2, mem[..], h0.blocks, h2.blocks, 0, a);
      PlaceGood(h0, a, asize);
    }

    /** The `write_block` that marks a block just taken out of its list as allocated. */
    method MarkAllocated(a: nat, ghost h0: Heap)
      requires Good(h0) && IsFree(h0.blocks, a) && heap == RemoveFree(h0, a) && Encodes(0)
      modifies this`heap, mem
      ensures Encodes(0) && heap == Marked(RemoveFree(h0, a), a, true)
      ensures PayloadsKept(old(mem[..]), mem[..], h0.blocks, 0)
    {
      ghost var m0 := mem[..];
      assert HeaderOk(m0, h0.blocks, a) && InPlace(h0.blocks, h0.epi, a) && AlignedAt(h0.blocks, a);
      WriteBlock(a, SizeOf(mem[a]), PrevMiniOf(mem[a]), PrevAllocOf(mem[a]), true);
      TakeEncoded(m0, mem[..], freeRoots[..], miniFreeRoot, h0, a);
      MarkAllocatedGood(h0, a);
      heap := Marked(heap, a, true);
    }

    /** `find_fit`: the first block large enough, bucket by bucket; NULL if there is none. */
    method FindFit(asize: nat) returns (block: nat)
      requires Encodes(0)
      ensures block == FitFrom(heap, RootIndex(asize), asize) && IsFirstFit(heap, RootIndex(asize), asize, block)
    {
      FitFromFirst(heap, RootIndex(asize), RootIndex(asize), asize);
      var index := SearchRootIndex(asize);
      while index < NUM_ROOTS
        invariant 0 <= index <= NUM_ROOTS
        invariant FitFrom(heap, index, asize) == FitFrom(heap, RootIndex(asize), asize)
      {
        block := FirstFit(index, asize);
        if block != 0 {
          return block;
        }
        index := index + 1;
      }
      block := 0;
    }

    /** The inner loop of `find_fit`. */
    method FirstFit(index: nat, asize: nat) returns (block: nat)
      requires Encodes(0) && index < NUM_ROOTS
      ensures block == FitIn(heap.blocks, heap.buckets[index], asize)
    {
      ghost var l := heap.buckets[index];
      MembersFit(mem[..], freeRoots[..], miniFreeRoot, heap, 0, index);
      MembersPositive(heap, index);
      block := freeRoots[index];
      ghost var i := 0;
      while block != 0
        invariant 0 <= i <= |l| && block == At(l, i)
        invariant FitIn(heap.blocks, l[i..], asize) == FitIn(heap.blocks, l, asize)
        decreases |l| - i
      {
        assert NodeOk(mem[..], l, i) && l[i] in l && BucketMember(heap.blocks, index, l[i]);
        assert HeaderOk(mem[..], heap.blocks, l[i]);
        if asize <= SizeOf(mem[block]) {
          return block;
        }
        block := mem[block + 1];
        i := i + 1;
      }
    }

    /** Nothing is allocated before the heap is started; then memory encodes `heap` and the invariant holds. */
    ghost predicate Valid()
      reads this, mem, freeRoots
    {
      && mem != freeRoots && freeRoots.Length == NUM_ROOTS && mem.Length <= MAX_WORDS
      && if started then Encodes(0) && Good(heap) else brk == 0 && miniFreeRoot == 0
    }

    constructor (capacity: nat)
      requires capacity <= MAX_WORDS
      ensures Valid() && !started && mem.Length == capacity && fresh(mem) && fresh(freeRoots)
    {
      mem := new Word[capacity];
      freeRoots := new Word[NUM_ROOTS];
      miniFreeRoot, brk, started := 0, 0, false;
      heap := EmptyHeap();
    }

    /** `mm_init` on a fresh heap. */
    method Init() returns (ok: bool)
      requires Valid() && !started
      modifies this, mem, freeRoots
      ensures Valid() && started == (mem.Length >= 2) && ok == (mem.Length >= 2 + CHUNK)
      ensures started ==> heap == StartHeap(mem.Length)
    {
      for i := 0 to NUM_ROOTS
        invariant forall k | 0 <= k < i :: freeRoots[k] == 0
        modifies freeRoots
      {
        freeRoots[i] := 0;
      }
      var start;
      ok, start := Sbrk(MIN_BYTES);
      if !ok {
        return false;
      }
      mem[start] := Pack(0, false, true, true);
      mem[start + 1] := Pack(0, false, true, true);
      started := true;
      heap := EmptyHeap();
      EmptyHeapGood();
      var block := ExtendHeap(8 * CHUNK);
      ok := block != 0;
      ExtendBlockPositive(EmptyHeap(), CHUNK);
    }

    /** `malloc` on a started heap for a block of `asize` words; the result is the block. */
    method MallocBlock(asize: nat) returns (block: nat)
      requires Valid() && started && MINI <= asize && asize % 2 == 0 && 8 * asize < WORD_LIMIT
      modifies this, mem, freeRoots
      ensures Valid() && started && Allocation(heap, block) == Allocate(old(heap), asize, mem.Length)
      ensures block != 0 && heap.epi == old(heap.epi) ==> IsChoice(old(heap), asize, block)
      ensures PayloadsKept(old(mem[..]), mem[..], old(heap.blocks), 0)
    {
      ghost var h0, m0 := heap, mem[..];
      MallocChooses(h0, asize, mem.Length);
      if asize == MINI {
        block := PopMini();
        if block != 0 {
          MallocFound(h0, asize, mem.Length, block);
          return;
        }
      }
      assert h0 == heap && m0 == mem[..];
      block := FindFit(asize);
      if block == 0 {
        block := Grow(asize);
        if block == 0 {
          return;
        }
      } else {
        MallocFound(h0, asize, mem.Length, block);
      }
      ghost var h2, m2 := heap, mem[..];
      PlaceBlock(block, asize);
      PayloadsKeptAcross(m0, m2, mem[..], h0, h2.blocks);
    }

    /** `malloc`'s call of `extend_heap`. */
    method Grow(asize: nat) returns (block: nat)
      requires Valid() && started && MINI <= asize && asize % 2 == 0 && 8 * asize < WORD_LIMIT && Find(heap, asize) == 0
      modifies this, mem, freeRoots
      ensures Valid() && started
      ensures block == 0 ==> heap == old(heap) && Allocate(old(heap), asize, mem.Length) == Allocation(heap, 0)
      ensures block != 0 ==> IsFree(heap.blocks, block) && heap.blocks[block].size >= asize
      ensures block != 0 ==> Allocate(old(heap), asize, mem.Length) == Allocation(Place(heap, block, asize), block)
      ensures AllocatedKept(old(heap.blocks), heap.blocks, 0)
      ensures PayloadsKept(old(mem[..]), mem[..], old(heap.blocks), 0)
    {
      ghost var h0 := heap;
      var extendsize := if asize > CHUNK then asize else CHUNK;
      var bytes := 8 * extendsize;
      assert bytes / 8 == extendsize == Larger(asize, CHUNK) && bytes % MIN_BYTES == 0;
      block := ExtendHeap(bytes);
      if h0.epi + 1 + extendsize > mem.Length {
        MallocFailed(h0, asize, mem.Length);
      } else {
        MallocGrown(h0, asize, mem.Length, heap, block);
      }
    }

    /** `malloc`'s short cut for 16-byte blocks. */
    method PopMini() returns (block: nat)
      requires Valid() && started
      modifies this, mem
      ensures Valid() && started
      ensures old(heap.mini) == [] ==> block == 0 && heap == old(heap) && mem[..] == old(mem[..])
      ensures old(heap.mini) != [] ==> block == old(heap.mini[0]) != 0 && MiniMember(old(heap.blocks), block)
      ensures old(heap.mini) != [] ==> heap == Place(old(heap), block, MINI)
      ensures PayloadsKept(old(mem[..]), mem[..], old(heap.blocks), 0)
    {
      ghost var h0, m0 := heap, mem[..];
      MiniMembersFit(m0, freeRoots[..], miniFreeRoot, heap, 0);
      block := PopMiniBlock();
      if block != 0 {
        ghost var m1 := mem[..];
        assert MiniMember(h0.blocks, block) by { assert h0.mini[0] in h0.mini; }
        RemoveFreeShaped(h0, block);
        assert HeaderOk(m1, h0.blocks, block);
        MarkAllocated(block, h0);
        MarkAllocatedGood(h0, block);
        PayloadsKeptAcross(m0, m1, mem[..], h0, h0.blocks);
      }
    }

    /** The heap `malloc` works on: an unstarted one is started first. */
    ghost function Base(): (h: Heap)
      requires Valid()
      reads this, mem, freeRoots
      ensures Good(h)
    {
      if started then heap else StartHeap(mem.Length)
    }

    /** The first `mm_init` of this heap fails, or has failed to get its first two words. */
    ghost predicate CannotStart()
      reads this
    {
      !started && mem.Length < 2 + CHUNK
    }

    /** `malloc` of that many bytes returns NULL. */
    ghost predicate Refuses(size: Word)
      requires Valid()
      reads this, mem, freeRoots
    {
      CannotStart() || Allocate(Base(), BlockWords(size), mem.Length).block == 0
    }

    /** `malloc`: the word index of the payload, or NULL. */
    method Malloc(size: Word) returns (bp: nat)
      requires Valid()
      modifies this, mem, freeRoots
      ensures Valid() && started == (old(started) || mem.Length >= 2)
      ensures started && (size == 0 || old(CannotStart())) ==> bp == 0 && heap == old(Base())
      ensures old(CannotStart()) ==> bp == 0
      ensures size > 0 && !old(CannotStart()) ==>
                Allocated(old(Base()), heap, bp, size, mem.Length)
      ensures old(started) ==> PayloadsKept(old(mem[..]), mem[..], old(heap.blocks), 0)
    {
      bp := 0;
      if !started {
        var ok := Init();
        if !ok {
          return;
        }
      }
      if size == 0 {
        return;
      }
      var block := MallocBlock(BlockWords(size));
      bp := Pointer(block);
    }

    /** `free` on NULL or on the payload of an allocated block. */
    method Free(bp: nat)
      requires Valid()
      requires bp != 0 ==> started && Live(heap, bp)
      modifies this, mem, freeRoots
      ensures Valid() && started == old(started)
      ensures bp == 0 ==> heap == old(heap) && mem[..] == old(mem[..])
      ensures bp != 0 ==> heap == Release(old(heap), bp - 1)
                          && PayloadsKept(old(mem[..]), mem[..], old(heap.blocks), bp - 1)
    {
      if bp != 0 {
        ghost var h0 := heap;
        FreeBlock(bp - 1);
        assert heap == Release(h0, bp - 1);
      }
    }

    /** `free` on an allocated block. */
    method FreeBlock(a: nat)
      requires Valid() && started && a in heap.blocks && heap.blocks[a].alloc
      modifies this, mem, freeRoots
      ensures Valid() && started && heap == Release(old(heap), a)
      ensures PayloadsKept(old(mem[..]), mem[..], old(heap.blocks), a)
    {
      ghost var h0, m0 := heap, mem[..];
      MarkFree(a);
      ghost var h1, m1 := heap, mem[..];
      var block := CoalesceAndInsert(a);
      FreedOthersKept(h0, a);
      PayloadsKeptTwice(m0, m1, mem[..], h0.blocks, h1.blocks, a, 0);
    }

    /** `free`'s `write_block`. */
    method MarkFree(block: nat)
      requires Encodes(0) && Good(heap) && block in heap.blocks && heap.blocks[block].alloc
      modifies this`heap, mem
      ensures Encodes(block + old(heap.blocks[block].size)) && heap == Marked(old(heap), block, false)
      ensures IsFree(heap.blocks, block) && heap.blocks[block].size == old(heap.blocks[block].size)
      ensures !Listed(heap, block) && AllListedBut(heap, block) && NoTwoFreeBut(heap.blocks, block)
      ensures PayloadsKept(old(mem[..]), mem[..], old(heap.blocks), block)
    {
      ghost var h0, m0 := heap, mem[..];
      assert HeaderOk(m0, heap.blocks, block) && InPlace(heap.blocks, heap.epi, block) && AlignedAt(heap.blocks, block);
      WriteBlock(block, SizeOf(mem[block]), PrevMiniOf(mem[block]), PrevAllocOf(mem[block]), false);
      GiveBackEncoded(m0, mem[..], freeRoots[..], miniFreeRoot, h0, block);
      MarkedFreeReady(h0, block);
      heap := Marked(h0, block, false);
    }

    /** The program stores a word into a payload it holds. */
    method Store(block: nat, k: nat, v: Word)
      requires Valid() && started && block in heap.blocks && heap.blocks[block].alloc
      requires block < k < block + heap.blocks[block].size
      modifies mem
      ensures Valid() && heap == old(heap) && k < mem.Length && mem[..] == old(mem[..])[k := v]
      ensures PayloadsKept(old(mem[..]), mem[..], heap.blocks, block)
    {
      ghost var m0 := mem[..];
      assert InPlace(heap.blocks, heap.epi, block);
      mem[k] := v;
      PayloadStoresEncoded(m0, mem[..], freeRoots[..], miniFreeRoot, heap, block);
    }

    /** `memcpy` from one live payload to another. */
    method CopyPayload(dst: nat, src: nat, bytes: nat)
      requires Valid() && started && Holds(heap, dst, bytes) && Holds(heap, src, bytes) && dst != src
      modifies mem
      ensures Valid() && heap == old(heap)
      ensures SameBytes(old(mem[..]), mem[..], src, dst, bytes)
      ensures PayloadsKept(old(mem[..]), mem[..], heap.blocks, dst - 1)
    {
      ghost var m0 := mem[..];
      assert InPlace(heap.blocks, heap.epi, dst - 1) && InPlace(heap.blocks, heap.epi, src - 1);
      assert Apart(heap.blocks, dst - 1, src - 1) && Apart(heap.blocks, src - 1, dst - 1);
      CopyBytes(mem, dst, src, bytes);
      PayloadStoresEncoded(m0, mem[..], freeRoots[..], miniFreeRoot, heap, dst - 1);
    }

    /**
     * `realloc`. `inside` says whether its copy stays inside the new payload; if it does not, the method stops before
     * it.
     */
    method Realloc(ptr: nat, size: Word) returns (bp: nat, inside: bool)
      requires Valid() && (ptr != 0 ==> started && Live(heap, ptr))
      modifies this, mem, freeRoots
      ensures Valid() && started == (old(started) || (size > 0 && mem.Length >= 2))
      ensures inside == (size == 0 || ptr == 0 || CopyFits(old(heap), ptr, size, mem.Length))
      ensures size == 0 ==> bp == 0 && heap == if ptr == 0 then old(heap) else Release(old(heap), ptr - 1)
      ensures size > 0 && ptr == 0 && !old(CannotStart()) ==>
                Allocated(old(Base()), heap, bp, size, mem.Length)
      ensures ptr != 0 ==> PayloadsKept(old(mem[..]), mem[..], old(heap.blocks), ptr - 1)
      ensures size > 0 && ptr != 0 && inside ==> Moved(old(heap), heap, ptr, bp, size, mem.Length)
      ensures size > 0 && ptr != 0 && inside && bp != 0 ==>
                SameBytes(old(mem[..]), mem[..], ptr, bp, Smaller(size, PayloadBytes(old(heap), ptr)))
      ensures size > 0 && ptr != 0 && !inside ==> Allocated(old(heap), heap, bp, size, mem.Length)
      ensures size > 0 && ptr != 0 && (bp == 0 || !inside) ==>
                PayloadsKept(old(mem[..]), mem[..], old(heap.blocks), 0)
    {
      inside := true;
      if size == 0 {
        Free(ptr);
        bp := 0;
      } else if ptr == 0 {
        bp := Malloc(size);
      } else {
        bp, inside := Move(ptr, size);
      }
    }

    /** `realloc` of a payload to a size above 0. */
    method Move(ptr: nat, size: Word) returns (bp: nat, inside: bool)
      requires Valid() && 0 < size && started && Live(heap, ptr)
      modifies this, mem, freeRoots
      ensures Valid() && started && inside == CopyFits(old(heap), ptr, size, mem.Length)
      ensures PayloadsKept(old(mem[..]), mem[..], old(heap.blocks), ptr - 1)
      ensures inside ==> Moved(old(heap), heap, ptr, bp, size, mem.Length)
      ensures inside && bp != 0 ==>
                SameBytes(old(mem[..]), mem[..], ptr, bp, Smaller(size, PayloadBytes(old(heap), ptr)))
      ensures !inside ==> Allocated(old(heap), heap, bp, size, mem.Length)
      ensures bp == 0 || !inside ==> PayloadsKept(old(mem[..]), mem[..], old(heap.blocks), 0)
    {
      ghost var h0, m0 := heap, mem[..];
      bp := Malloc(size);
      ghost var h1, m1 := heap, mem[..];
      MoveFacts(h0, h1, ptr, bp, size, mem.Length);
      OneMoreExcused(m0, m1, h0, ptr - 1);
      inside := true;
      if bp == 0 {
        return;
      }
      var n := CopySize(ptr, bp, size);
      var room := PayloadSize(bp);
      inside := n <= room;
      if inside {
        ghost var m2 := CopyAndFree(ptr, bp, n);
        MoveKeeps(m0, m1, m2, mem[..], h0, h1, ptr, bp, n);
      }
    }

    /** How many bytes `realloc` copies. */
    method CopySize(ptr: nat, ghost bp: nat, size: nat) returns (n: nat)
      requires Valid() && started && Live(heap, ptr) && Live(heap, bp)
      ensures n == Smaller(size, PayloadBytes(heap, ptr)) && Holds(heap, ptr, n)
      ensures n <= PayloadBytes(heap, bp) <==> Holds(heap, bp, n)
    {
      n := PayloadSize(ptr);
      if size < n {
        n := size;
      }
      assert InPlace(heap.blocks, heap.epi, bp - 1);
    }

    /** The end of `realloc`: `n` bytes go to the new payload `bp`, then `ptr` is freed. */
    method CopyAndFree(ptr: nat, bp: nat, n: nat) returns (ghost m2: Memory)
      requires Valid() && started && Holds(heap, ptr, n) && Holds(heap, bp, n) && ptr != bp
      modifies this, mem, freeRoots
      ensures Valid() && started && heap == Release(old(heap), ptr - 1) && |m2| == mem.Length
      ensures PayloadsKept(old(mem[..]), m2, old(heap.blocks), bp - 1) && SameBytes(old(mem[..]), m2, ptr, bp, n)
      ensures PayloadsKept(m2, mem[..], old(heap.blocks), ptr - 1)
    {
      ghost var h0, m0 := heap, mem[..];
      CopyPayload(bp, ptr, n);
      m2 := mem[..];
      assert Valid() && started && heap == h0 && Live(h0, ptr);
      assert PayloadsKept(m0, m2, h0.blocks, bp - 1) && SameBytes(m0, m2, ptr, bp, n);
      FreeBlock(ptr - 1);
    }

    /** `get_payload_size` of an allocated block. */
    method PayloadSize(ptr: nat) returns (bytes: nat)
      requires Valid() && started && Live(heap, ptr)
      ensures bytes == PayloadBytes(heap, ptr) && Holds(heap, ptr, bytes)
    {
      assert HeaderOk(mem[..], heap.blocks, ptr - 1) && InPlace(heap.blocks, heap.epi, ptr - 1);
      bytes := 8 * SizeOf(mem[ptr - 1]) - 8;
    }

    /** `calloc` of that many bytes clears no more than its payload, if it gets one. */
    ghost predicate ClearFits(size: Word)
      requires Valid()
      reads this, mem, freeRoots
    {
      size <= MAX_REQUEST || Refuses(size)
    }

    /**
     * `calloc`. A product that wraps around is refused. `inside` says whether it clears no more than the payload; if it
     * would, the method stops before.
     */
    method Calloc(elements: Word, size: Word) returns (bp: nat, inside: bool)
      requires Valid()
      modifies this, mem, freeRoots
      ensures Valid() && (old(started) ==> started) && inside == old(ClearFits(CallocBytes(elements, size)))
      ensures elements == 0 || Times(elements, size) >= WORD_LIMIT ==>
                started == old(started) && heap == old(heap) && mem[..] == old(mem[..])
      ensures CallocBytes(elements, size) == 0 || old(CannotStart()) ==> bp == 0 && Base() == old(Base())
      ensures CallocBytes(elements, size) > 0 && !old(CannotStart()) ==>
                started && Allocated(old(Base()), heap, bp, CallocBytes(elements, size), mem.Length)
      ensures bp != 0 && inside ==> Zeroed(mem[..], bp, CallocBytes(elements, size))
      ensures old(started) ==> PayloadsKept(old(mem[..]), mem[..], old(heap.blocks), 0)
    {
      var asize := Product(elements, size);
      bp, inside := 0, true;
      if elements == 0 {
        return;
      }
      OverflowCheckExact(elements, size);
      if asize / elements != size {
        return;
      }
      assert asize == CallocBytes(elements, size);
      bp, inside := AllocateCleared(asize);
    }

    /** The rest of `calloc`, on a product that has not wrapped around. */
    method AllocateCleared(asize: Word) returns (bp: nat, inside: bool)
      requires Valid()
      modifies this, mem, freeRoots
      ensures Valid() && (old(started) ==> started) && inside == old(ClearFits(asize))
      ensures asize == 0 || old(CannotStart()) ==> bp == 0 && Base() == old(Base())
      ensures asize > 0 && !old(CannotStart()) ==> started && Allocated(old(Base()), heap, bp, asize, mem.Length)
      ensures bp != 0 && inside ==> Zeroed(mem[..], bp, asize)
      ensures old(started) ==> PayloadsKept(old(mem[..]), mem[..], old(heap.blocks), 0)
    {
      ghost var b0, h0, m0 := Base(), heap, mem[..];
      bp := Malloc(asize);
      inside := true;
      if bp != 0 {
        ghost var m1 := mem[..];
        AllocatedFacts(b0, heap, bp, asize, mem.Length);
        var room := PayloadSize(bp);
        inside := asize <= room;
        if inside {
          ZeroPayload(bp, asize);
          if old(started) {
            FreshUntouched(m0, m1, mem[..], h0, heap, bp);
          }
        }
      }
    }

    /** `memset` of a live payload to 0. */
    method ZeroPayload(bp: nat, bytes: nat)
      requires Valid() && started && Holds(heap, bp, bytes)
      modifies mem
      ensures Valid() && heap == old(heap) && Zeroed(mem[..], bp, bytes)
      ensures PayloadsKept(old(mem[..]), mem[..], heap.blocks, bp - 1)
    {
      ghost var m0 := mem[..];
      assert InPlace(heap.blocks, heap.epi, bp - 1);
      ZeroBytes(mem, bp, bytes);
      PayloadStoresEncoded(m0, mem[..], freeRoots[..], miniFreeRoot, heap, bp - 1);
    }
  }

  /** Requests up to here have a block size that does not wrap around. */
  const MAX_REQUEST: Word := WORD_LIMIT - 24

  /** The bytes `calloc` is to find and to clear, 0 when the product wraps around. */
  function CallocBytes(elements: Word, size: Word): Word {
    if Times(elements, size) < WORD_LIMIT then Times(elements, size) else 0
  }

  /** The payload pointer of a block; block 0 is none. */
  function Pointer(block: nat): nat {
    if block == 0 then 0 else block + 1
  }

  /** `ptr` points to the payload of an allocated block. */
  ghost predicate Live(h: Heap, ptr: nat) {
    ptr > 0 && ptr - 1 in h.blocks && h.blocks[ptr - 1].alloc
  }

  ghost function PayloadBytes(h: Heap, ptr: nat): nat
    requires Live(h, ptr)
  {
    if h.blocks[ptr - 1].size > 0 then 8 * h.blocks[ptr - 1].size - 8 else 0
  }

  /** The live payload at `ptr` has room for `bytes` bytes. */
  ghost predicate Holds(h: Heap, ptr: nat, bytes: nat) {
    Live(h, ptr) && bytes + 8 <= 8 * h.blocks[ptr - 1].size
  }

  /** `realloc` of `ptr` to `size` bytes turned `h0` into `h` and returned `bp`. */
  ghost predicate Moved(h0: Heap, h: Heap, ptr: nat, bp: nat, size: Word, capacity: nat)
    requires Good(h0) && Live(h0, ptr)
  {
    var r := Reallocate(h0, ptr - 1, BlockWords(size), capacity);
    h == r.heap && bp == Pointer(r.block)
  }

  /** `malloc` of `size` bytes turned `h0` into `h` and returned `bp`. */
  ghost predicate Allocated(h0: Heap, h: Heap, bp: nat, size: Word, capacity: nat)
    requires Good(h0)
  {
    var r := Allocate(h0, BlockWords(size), capacity);
    h == r.heap && bp == Pointer(r.block)
  }

  /** `realloc` of `ptr` to `size` bytes copies no more than its new payload has room for, if it gets one. */
  ghost predicate CopyFits(h: Heap, ptr: nat, size: Word, capacity: nat)
    requires Good(h) && Live(h, ptr)
  {
    size <= MAX_REQUEST || PayloadBytes(h, ptr) <= 8 || Allocate(h, BlockWords(size), capacity).block == 0
  }

  /** That is so exactly for sizes that do not wrap, and for old payloads of one word. */
  lemma CopyFitsExactly(h: Heap, ptr: nat, size: Word, capacity: nat)
    requires Good(h) && Live(h, ptr) && size > 0
    ensures var r := Allocate(h, BlockWords(size), capacity);
            r.block != 0 ==> (Holds(r.heap, Pointer(r.block), Smaller(size, PayloadBytes(h, ptr)))
                <==> CopyFits(h, ptr, size, capacity))
  {
    BlockFitsRequest(size);
    AllocatedSize(h, BlockWords(size), capacity);
  }

  /** `malloc` returns a block of exactly the size it looked for: sizes are even, so nothing is wasted. */
  lemma AllocatedSize(h: Heap, asize: nat, capacity: nat)
    requires Good(h) && asize >= MINI && asize % 2 == 0
    ensures var r := Allocate(h, asize, capacity);
            r.block != 0 ==> r.block in r.heap.blocks && r.heap.blocks[r.block] == Block(asize, true)
  {
    MallocFresh(h, asize, capacity);
    MallocGood(h, asize, capacity);
    var r := Allocate(h, asize, capacity);
    if r.block != 0 {
      SizeBetween(r.heap, r.block, asize);
    }
  }

  /** There is no even size between `asize` and 16 bytes more. */
  lemma SizeBetween(h: Heap, a: nat, asize: nat)
    requires Good(h) && a in h.blocks && h.blocks[a].alloc && asize % 2 == 0 && asize <= h.blocks[a].size < asize + MINI
    ensures h.blocks[a] == Block(asize, true)
  {
    assert AlignedAt(h.blocks, a);
  }

  /** What `realloc` knows once its `malloc` has returned. */
  lemma MoveFacts(h0: Heap, h1: Heap, ptr: nat, bp: nat, size: Word, capacity: nat)
    requires Good(h0) && Live(h0, ptr) && size > 0 && Allocated(h0, h1, bp, size, capacity)
    ensures Good(h1) && AllocatedKept(h0.blocks, h1.blocks, 0) && Live(h1, ptr) && ptr != bp
    ensures h1.blocks[ptr - 1] == h0.blocks[ptr - 1]
    ensures if bp == 0 then CopyFits(h0, ptr, size, capacity)
            else Live(h1, bp) && !Live(h0, bp)
                 && (Holds(h1, bp, Smaller(size, PayloadBytes(h0, ptr))) <==> CopyFits(h0, ptr, size, capacity))
    ensures Moved(h0, if bp == 0 then h1 else Release(h1, ptr - 1), ptr, bp, size, capacity)
  {
    MallocFresh(h0, BlockWords(size), capacity);
    AllocateAround(h0, ptr - 1, BlockWords(size), capacity);
    CopyFitsExactly(h0, ptr, size, capacity);
  }

  /** What `calloc` knows once its `malloc` has returned a payload. */
  lemma AllocatedFacts(h0: Heap, h: Heap, bp: nat, size: Word, capacity: nat)
    requires Good(h0) && Allocated(h0, h, bp, size, capacity) && bp != 0
    ensures Shaped(h0) && AllocatedKept(h0.blocks, h.blocks, 0) && Live(h, bp) && !Live(h0, bp)
    ensures size <= PayloadBytes(h, bp) <==> size <= MAX_REQUEST
    ensures size <= PayloadBytes(h, bp) <==> Holds(h, bp, size)
  {
    MallocFresh(h0, BlockWords(size), capacity);
    BlockFitsRequest(size);
  }

  /**
   * `malloc` hands out as many bytes as asked for exactly up to 2^64 - 24: beyond, the size wraps and the block is too
   * small.
   */
  lemma MallocHonours(h0: Heap, h: Heap, bp: nat, size: Word, capacity: nat)
    requires Good(h0) && size > 0 && Allocated(h0, h, bp, size, capacity) && bp != 0
    ensures Holds(h, bp, size) <==> size <= MAX_REQUEST
  {
    MallocFresh(h0, BlockWords(size), capacity);
    BlockFitsRequest(size);
  }

  /** A fresh heap serves every request beyond 2^64 - 24 bytes, and hands out a payload without room for it. */
  lemma HugeRequestServed(size: Word, capacity: nat)
    requires size > MAX_REQUEST && capacity >= 2 + CHUNK
    ensures var r := Allocate(StartHeap(capacity), BlockWords(size), capacity);
            && r.block != 0 && Live(r.heap, Pointer(r.block)) && PayloadBytes(r.heap, Pointer(r.block)) == 8
            && !Holds(r.heap, Pointer(r.block), size)
  {
    BlockFitsRequest(size);
    ExtendRoom(EmptyHeap(), CHUNK);
    SmallRequestServed(StartHeap(capacity), CHUNK, capacity);
  }

  /** A heap with a free block serves the smallest request. */
  lemma SmallRequestServed(h: Heap, more: nat, capacity: nat)
    requires Good(h) && exists c: nat :: IsFree(h.blocks, c) && h.blocks[c].size >= more >= MINI
    ensures var r := Allocate(h, MINI, capacity);
            r.block != 0 && r.block in r.heap.blocks && r.heap.blocks[r.block] == Block(MINI, true)
  {
    FindComplete(h, MINI);
    MallocFound(h, MINI, capacity, Find(h, MINI));
    AllocatedSize(h, MINI, capacity);
  }

  /** Stores into a payload just handed out reach none that was live before. */
  lemma FreshUntouched(m: Memory, r: Memory, s: Memory, h0: Heap, h: Heap, bp: nat)
    requires Shaped(h0) && AllocatedKept(h0.blocks, h.blocks, 0) && bp > 0 && !Live(h0, bp) && |m| == |r| == |s|
    requires PayloadsKept(m, r, h0.blocks, 0) && PayloadsKept(r, s, h.blocks, bp - 1)
    ensures PayloadsKept(m, s, h0.blocks, 0)
  {
    NoBlockAtZero(h0);
    PayloadsKeptTwice(m, r, s, h0.blocks, h.blocks, 0, bp - 1);
  }

  /** The first `bytes` bytes at `p` are 0. */
  ghost predicate Zeroed(m: Memory, p: nat, bytes: nat) {
    p + (bytes + 7) / 8 <= |m| && forall i | 0 <= i < bytes :: ByteAt(m, p, i) == 0
  }

  lemma OneMoreExcused(m: Memory, r: Memory, h: Heap, x: nat)
    requires Shaped(h) && PayloadsKept(m, r, h.blocks, 0)
    ensures PayloadsKept(m, r, h.blocks, x)
  {
    NoBlockAtZero(h);
  }

  ghost function Smaller(x: nat, y: nat): nat { if x < y then x else y }

  /** The first `bytes` bytes at `p` in `m` are those at `q` in `r`. */
  ghost predicate SameBytes(m: Memory, r: Memory, p: nat, q: nat, bytes: nat) {
    && p + (bytes + 7) / 8 <= |m| && q + (bytes + 7) / 8 <= |r|
    && forall i | 0 <= i < bytes :: ByteAt(r, q, i) == ByteAt(m, p, i)
  }

  lemma FreedOthersKept(h: Heap, a: nat)
    requires Good(h) && a in h.blocks
    ensures var d := Marked(h, a, false).blocks;
            forall c | c in h.blocks && h.blocks[c].alloc && c != a :: c in d && d[c] == h.blocks[c] && c != 0
  {
    MarkedIsUpdate(h.blocks, h.epi, a, false);
    NoBlockAtZero(h);
  }

  /** `malloc`, copy and `free` together: payloads of others survive, and the copied bytes arrive. */
  lemma MoveKeeps(m0: Memory, m1: Memory, m2: Memory, m3: Memory, h0: Heap, h1: Heap, ptr: nat, bp: nat, bytes: nat)
    requires Shaped(h0) && Shaped(h1) && AllocatedKept(h0.blocks, h1.blocks, 0) && ptr > 0 && bp > 0 && ptr != bp
    requires |m0| == |m1| == |m2| == |m3| > h1.epi
    requires Holds(h0, ptr, bytes) && Holds(h1, bp, bytes) && !Live(h0, bp)
    requires PayloadsKept(m0, m1, h0.blocks, 0) && PayloadsKept(m1, m2, h1.blocks, bp - 1)
             && PayloadsKept(m2, m3, h1.blocks, ptr - 1)
    requires SameBytes(m1, m2, ptr, bp, bytes)
    ensures PayloadsKept(m0, m3, h0.blocks, ptr - 1)
    ensures SameBytes(m0, m3, ptr, bp, bytes)
  {
    NoBlockAtZero(h0);
    PayloadsKeptTwice(m0, m1, m2, h0.blocks, h1.blocks, 0, bp - 1);
    forall c | c in h0.blocks && h0.blocks[c].alloc && c != ptr - 1 ensures PayloadSame(m0, m3, h0.blocks, c) {
      assert PayloadSame(m0, m2, h0.blocks, c) && PayloadSame(m2, m3, h1.blocks, c);
    }
    assert PayloadSame(m0, m1, h0.blocks, ptr - 1) && PayloadSame(m2, m3, h1.blocks, bp - 1);
    forall i | 0 <= i < bytes ensures ByteAt(m3, bp, i) == ByteAt(m0, ptr, i) {
      assert bp + i / 8 < bp - 1 + h1.blocks[bp - 1].size && ptr + i / 8 < ptr - 1 + h0.blocks[ptr - 1].size;
      assert ByteAt(m2, bp, i) == ByteAt(m1, ptr, i);
    }
  }

  ghost function EmptyHeap(): Heap {
    Heap(map[], 1, seq(NUM_ROOTS, _ => []), [])
  }

  /** The heap after `mm_init` when `capacity` words can be had. */
  ghost function StartHeap(capacity: nat): (h: Heap)
    ensures Good(h)
  {
    EmptyHeapGood();
    ExtendGood(EmptyHeap(), CHUNK);
    if 2 + CHUNK > capacity then EmptyHeap() else Extend(EmptyHeap(), CHUNK)
  }

  lemma EmptyHeapGood()
    ensures Good(EmptyHeap())
  {
  }

  lemma ExtendBlockPositive(h: Heap, more: nat)
    requires Good(h) && more >= MINI && more % 2 == 0
    ensures StretchLo(Extended(h, more).blocks, h.epi) != 0
  {
    ExtendRoom(h, more);
    NoBlockAtZero(Extend(h, more));
  }

  lemma SplitKeepsOthers(h: Heap, a: nat, size: nat)
    requires Shaped(h) && a in h.blocks && MINI <= size <= h.blocks[a].size - MINI
    ensures forall c | c in h.blocks && h.blocks[c].alloc && c != a ::
              c in Split(h.blocks, a, size) && Split(h.blocks, a, size)[c] == h.blocks[c] && c != 0
  {
    SplitTiled(h.blocks, h.epi, a, size);
    forall c | c in h.blocks ensures c != 0 {
      assert InPlace(h.blocks, h.epi, c);
    }
  }

  lemma RoundUpOfMultiple(bytes: Word)
    requires bytes % MIN_BYTES == 0
    ensures RoundUp(bytes) == bytes && bytes / 8 % 2 == 0 && bytes % 8 == 0
  {
    var k := bytes / MIN_BYTES;
    assert bytes == 16 * k;
    Sixteens(k);
    assert k < 0x1000_0000_0000_0000;
    assert (bytes + 15) % WORD_LIMIT == bytes + 15;
  }

  lemma Sixteens(k: nat)
    ensures (16 * k + 15) / 16 == k && 16 * k / 8 == 2 * k && 16 * k % 8 == 0
  {
  }

  /** What memory says about the block before `a`. */
  lemma WordsOfPredecessor(m: Memory, roots: seq<nat>, miniRoot: nat, h: Heap, x: nat, q: nat, a: nat)
    requires Shaped(h) && Encoded(m, roots, miniRoot, h, x) && PrecededBy(h.blocks, a, q) && (x == 0 || x > a)
    ensures HeaderOk(m, h.blocks, q) && InPlace(h.blocks, h.epi, q) && q < a < |m|
    ensures !h.blocks[q].alloc && h.blocks[q].size > MINI ==> m[a - 1] == m[q]
  {
    assert InPlace(h.blocks, h.epi, q) && FooterOk(m, h.blocks, q);
  }

  lemma StretchFits(h: Heap, a: nat)
    requires Shaped(h) && IsFree(h.blocks, a)
    ensures var lo, hi := StretchLo(h.blocks, a), StretchHi(h.blocks, a);
            lo in h.blocks && lo + MINI <= hi <= h.epi && (hi - lo) % 2 == 0
  {
    StretchFacts(h.blocks, h.epi, a);
    StretchAligned(h, a);
    assert InPlace(h.blocks, h.epi, a);
  }

  lemma MiniMembersFit(m: Memory, roots: seq<nat>, miniRoot: nat, h: Heap, x: nat)
    requires Ready(m, roots, miniRoot, h, x)
    ensures forall j | 0 <= j < |h.mini| :: 0 < h.mini[j] < h.mini[j] + 1 < |m| && h.mini[j] in h.blocks
  {
    forall j | 0 <= j < |h.mini| ensures 0 < h.mini[j] < h.mini[j] + 1 < |m| && h.mini[j] in h.blocks {
      assert h.mini[j] in h.mini;
      assert MiniMember(h.blocks, h.mini[j]) && InPlace(h.blocks, h.epi, h.mini[j]);
    }
  }

  lemma MembersPositive(h: Heap, k: nat)
    requires Shaped(h) && k < NUM_ROOTS
    ensures forall j | 0 <= j < |h.buckets[k]| :: h.buckets[k][j] > 0
  {
    var l := h.buckets[k];
    forall j | 0 <= j < |l| ensures l[j] > 0 {
      assert BucketOk(h.blocks, k, l) && l[j] in l && BucketMember(h.blocks, k, l[j]);
      assert InPlace(h.blocks, h.epi, l[j]);
    }
  }

  lemma PrevFreeIff(b: Layout, epi: nat, a: nat, p: nat)
    requires Tiled(b, epi) && PrecededBy(b, a, p)
    ensures PrevFree(b, a) <==> !b[p].alloc
    ensures PrevFree(b, a) ==> PrevOf(b, a) == p
  {
    forall q | PrecededBy(b, a, q) ensures q == p {
      PredecessorUnique(b, epi, p, q);
    }
  }

  lemma NoneBeforeFirst(b: Layout, epi: nat)
    requires Tiled(b, epi)
    ensures !PrevFree(b, 1)
  {
    forall q: nat ensures !PrecededBy(b, 1, q) {
      assert q in b ==> InPlace(b, epi, q);
    }
  }
}
