/** What any sequence of calls on the sparse memory returns, told on a flat memory of bytes. */
module MemoryRuns {
  import opened BoundaryTags
  import opened Bytes
  import opened FlatMemory
  import opened SparseMemory

  /** The call stays inside the heap, and single accesses have one to eight bytes. */
  predicate InHeap(c: Access, brk: nat) {
    match c
    case Store(a, _, n) => HEAP_START <= a && 1 <= n <= 8 && a + n <= brk
    case Fetch(a, n) => HEAP_START <= a && 1 <= n <= 8 && a + n <= brk
    case Fill(dst, _, n) => HEAP_START <= dst && dst + n <= brk
    case Copy(dst, src, n) => HEAP_START <= dst && dst + n <= brk && HEAP_START <= src && src + n <= brk
  }

  /** The pages a call needs. */
  ghost function PagesOfCall(c: Access, brk: nat): set<nat>
    requires InHeap(c, brk)
  {
    match c
    case Store(a, _, n) => PagesOf(a, n)
    case Fetch(a, n) => PagesOf(a, n)
    case Fill(dst, _, n) => PagesOf(dst, n)
    case Copy(dst, src, n) => PagesOf(src, n) + PagesOf(dst, n)
  }

  /** The pages the first `k` calls need. */
  ghost function PagesFor(calls: seq<Access>, brk: nat, k: nat): set<nat>
    requires k <= |calls| && forall i | 0 <= i < |calls| :: InHeap(calls[i], brk)
  {
    if k == 0 then {} else PagesFor(calls, brk, k - 1) + PagesOfCall(calls[k - 1], brk)
  }

  lemma {:induction false} PagesForMore(calls: seq<Access>, brk: nat, j: nat, k: nat)
    requires j <= k <= |calls| && forall i | 0 <= i < |calls| :: InHeap(calls[i], brk)
    ensures PagesFor(calls, brk, j) <= PagesFor(calls, brk, k)
    decreases k
  {
    if j < k {
      PagesForMore(calls, brk, j, k - 1);
    }
  }

  /** One call, told by the pages it takes into use. */
  method Perform(mem: SparseMemory, c: Access) returns (ok: bool, v: nat)
    requires mem.Valid() && InHeap(c, mem.memBrk)
    modifies mem`nextFreePage, mem`numFreePages, mem`pages, mem.heads, mem.ids, mem.nexts, mem.bytes
    ensures mem.Valid()
    ensures ok ==> Step(old(mem.pages), mem.pages, c, v) && Grew(old(mem.pages), mem.pages, PagesOfCall(c, mem.memBrk))
    ensures !ok ==> mem.numFreePages == 0 && Halted(old(mem.pages), mem.pages, PagesOfCall(c, mem.memBrk))
  {
    v := 0;
    match c {
      case Store(a, w, n) => ok := mem.WritePages(a, w, n);
      case Fetch(a, n) => ok, v := mem.ReadPages(a, n);
      case Fill(dst, c, n) => ok := mem.FillLoop(dst, c, n);
      case Copy(dst, src, n) => ok := mem.CopyLoop(dst, src, n);
    }
  }

  /**
   * Any run of calls: every read returns the bytes of a flat memory after the calls before it, and so does the memory
   * at the end. The run comes to its end exactly if there is a free block for every page it needs.
   */
  method PerformAll(mem: SparseMemory, calls: seq<Access>) returns (ok: bool, results: seq<nat>)
    requires mem.Valid() && forall i | 0 <= i < |calls| :: InHeap(calls[i], mem.memBrk)
    modifies mem`nextFreePage, mem`numFreePages, mem`pages, mem.heads, mem.ids, mem.nexts, mem.bytes
    ensures mem.Valid() && |results| <= |calls| && (ok ==> |results| == |calls|)
    ensures ok == (|PagesFor(calls, mem.memBrk, |calls|) - old(mem.pages).Keys| <= old(mem.numFreePages))
    ensures Returned(old(mem.pages), calls, results)
    ensures ok ==> Flat(old(mem.pages), calls, mem.pages)
  {
    ghost var m, free := mem.pages, mem.numFreePages;
    mem.PagesCounted();
    ghost var states;
    ok, results, states := PerformEach(mem, calls);
    mem.PagesCounted();
    RunReturned(states, calls, results);
    if ok {
      BlocksSufficed(m, mem.pages, PagesFor(calls, mem.memBrk, |calls|), free, mem.numFreePages);
      RunFlat(states, calls, results);
    } else {
      BlocksRanOut(m, mem.pages, PagesFor(calls, mem.memBrk, |calls|), free);
    }
  }

  /** Each byte a read has returned is the byte of the flat memory after the calls before it, if it was ever set. */
  ghost predicate Returned(m: Pages, calls: seq<Access>, results: seq<nat>)
    requires WellPaged(m) && |results| <= |calls|
  {
    forall i: nat {:trigger ReturnedAt(m, calls, results, i)} | i < |results| && calls[i].Fetch? ::
      ReturnedAt(m, calls, results, i)
  }

  ghost predicate ReturnedAt(m: Pages, calls: seq<Access>, results: seq<nat>, i: nat)
    requires WellPaged(m) && i < |results| <= |calls| && calls[i].Fetch?
  {
    && results[i] < Pow256(calls[i].n)
    && forall k: nat | k < calls[i].n && FlatByte(m, calls[..i], calls[i].a + k) >= 0 ::
        ByteOf(results[i], k) == FlatByte(m, calls[..i], calls[i].a + k)
  }

  /** Every byte that was ever set is the byte of the flat memory after the calls. */
  ghost predicate Flat(m: Pages, calls: seq<Access>, r: Pages)
    requires WellPaged(m)
  {
    WellPaged(r) && forall x: nat | FlatByte(m, calls, x) >= 0 :: Has(r, x) && At(r, x) == FlatByte(m, calls, x)
  }

  /** The calls up to the first that fails, with the states in between. */
  method PerformEach(mem: SparseMemory, calls: seq<Access>)
    returns (ok: bool, results: seq<nat>, ghost states: seq<Pages>)
    requires mem.Valid() && forall i | 0 <= i < |calls| :: InHeap(calls[i], mem.memBrk)
    modifies mem`nextFreePage, mem`numFreePages, mem`pages, mem.heads, mem.ids, mem.nexts, mem.bytes
    ensures mem.Valid() && |results| <= |calls| && Run(states, calls[..|results|], results)
    ensures states[0] == old(mem.pages)
    ensures ok ==> |results| == |calls| && states[|calls|] == mem.pages
    ensures ok ==> Grew(old(mem.pages), mem.pages, PagesFor(calls, mem.memBrk, |calls|))
    ensures !ok ==> mem.numFreePages == 0 && Halted(old(mem.pages), mem.pages, PagesFor(calls, mem.memBrk, |calls|))
  {
    ghost var m, brk := mem.pages, mem.memBrk;
    ok, results, states := true, [], [m];
    assert forall id :: GrewAt(m, m, {}, id);
    for i := 0 to |calls|
      invariant mem.Valid() && ok && |results| == i && Run(states, calls[..i], results)
      invariant states[0] == m && states[i] == mem.pages && Grew(m, mem.pages, PagesFor(calls, brk, i))
    {
      ghost var r := mem.pages;
      var v;
      ok, v := Perform(mem, calls[i]);
      if !ok {
        PagesForMore(calls, brk, i + 1, |calls|);
        HaltedLater(m, r, mem.pages, PagesFor(calls, brk, i), PagesOfCall(calls[i], brk),
            PagesFor(calls, brk, |calls|));
        return;
      }
      GrewTwice(m, r, mem.pages, PagesFor(calls, brk, i), PagesOfCall(calls[i], brk), PagesFor(calls, brk, i + 1));
      RunLonger(states, calls[..i], results, mem.pages, calls[i], v);
      assert calls[..i + 1] == calls[..i] + [calls[i]];
      results := results + [v];
      states := states + [mem.pages];
    }
    assert calls[..|calls|] == calls;
  }

  lemma RunLonger(states: seq<Pages>, calls: seq<Access>, results: seq<nat>, r: Pages, c: Access, v: nat)
    requires Run(states, calls, results) && Step(states[|calls|], r, c, v)
    ensures Run(states + [r], calls + [c], results + [v])
  {
    var s, d, w := states + [r], calls + [c], results + [v];
    forall i | 0 <= i < |d| ensures Step(s[i], s[i + 1], d[i], w[i]) {
      assert i < |calls| ==> Step(states[i], states[i + 1], calls[i], results[i]);
    }
  }

  lemma RunReturned(states: seq<Pages>, calls: seq<Access>, results: seq<nat>)
    requires |results| <= |calls| && Run(states, calls[..|results|], results)
    ensures Returned(states[0], calls, results)
  {
    var done := calls[..|results|];
    forall i: nat | i < |results| && calls[i].Fetch? ensures ReturnedAt(states[0], calls, results, i) {
      assert done[i] == calls[i] && done[..i] == calls[..i];
      assert Step(states[i], states[i + 1], done[i], results[i]);
      forall k: nat | k < calls[i].n && FlatByte(states[0], calls[..i], calls[i].a + k) >= 0
        ensures ByteOf(results[i], k) == FlatByte(states[0], calls[..i], calls[i].a + k)
      {
        ReadReturnsStored(states, done, results, i, k);
      }
    }
  }

  lemma RunFlat(states: seq<Pages>, calls: seq<Access>, results: seq<nat>)
    requires Run(states, calls, results)
    ensures Flat(states[0], calls, states[|calls|])
  {
    if calls != [] {
      assert Step(states[|calls| - 1], states[|calls|], calls[|calls| - 1], results[|calls| - 1]);
    }
    forall x: nat | FlatByte(states[0], calls, x) >= 0
      ensures Has(states[|calls|], x) && At(states[|calls|], x) == FlatByte(states[0], calls, x)
    {
      RunIsFlat(states, calls, results, x);
    }
  }
}
