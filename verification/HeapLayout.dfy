/** The heap as a tiling: which blocks lie where, independent of how memory encodes them. */
module HeapLayout {
  import opened BoundaryTags

  /** One block; its address is the word index of its header, its size a number of words. */
  datatype Block = Block(size: nat, alloc: bool)

  /** All blocks by address. */
  type Layout = map<nat, Block>

  /** The block at `a` is followed by another block or by the epilogue header at `epi`. */
  ghost predicate InPlace(b: Layout, epi: nat, a: nat)
    requires a in b
  {
    && a >= 1
    && b[a].size >= MINI
    && (a + b[a].size == epi || (a + b[a].size < epi && a + b[a].size in b))
  }

  ghost predicate Apart(b: Layout, a: nat, c: nat)
    requires a in b && c in b
  {
    a < c ==> a + b[a].size <= c
  }

  /** The blocks tile the words from 1 up to the epilogue header at `epi`, without gap or overlap. */
  ghost predicate Tiled(b: Layout, epi: nat) {
    && epi >= 1
    && (epi > 1 ==> 1 in b)
    && (forall a {:trigger InPlace(b, epi, a)} | a in b :: InPlace(b, epi, a))
    && (forall a, c {:trigger Apart(b, a, c)} | a in b && c in b :: Apart(b, a, c))
  }

  ghost predicate AlignedAt(b: Layout, a: nat)
    requires a in b
  {
    a % 2 == 1 && b[a].size % 2 == 0
  }

  /** Sizes are multiples of 16 bytes and payloads start at multiples of 16 bytes. */
  ghost predicate Aligned(b: Layout, epi: nat) {
    && epi % 2 == 1
    && (forall a {:trigger AlignedAt(b, a)} | a in b :: AlignedAt(b, a))
  }

  /** The block `a` becomes one block of `size` words and swallows every block starting inside. */
  ghost function Replace(b: Layout, a: nat, size: nat, alloc: bool): Layout {
    (map c | c in b && !(a <= c < a + size) :: b[c])[a := Block(size, alloc)]
  }

  lemma ReplaceAligned(b: Layout, epi: nat, a: nat, size: nat, alloc: bool)
    requires Aligned(b, epi) && a in b && size % 2 == 0
    ensures Aligned(Replace(b, a, size, alloc), epi)
  {
    var r := Replace(b, a, size, alloc);
    forall c | c in r ensures AlignedAt(r, c) {
      assert c in b && AlignedAt(b, c);
    }
  }

  lemma ReplaceTiled(b: Layout, epi: nat, a: nat, size: nat, alloc: bool)
    requires Tiled(b, epi) && a in b && size >= MINI
    requires a + size == epi || (a + size < epi && a + size in b)
    ensures Tiled(Replace(b, a, size, alloc), epi)
  {
    var r := Replace(b, a, size, alloc);
    assert InPlace(b, epi, a);
    forall c | c in r ensures InPlace(r, epi, c) {
      if c != a {
        assert InPlace(b, epi, c) && Apart(b, c, a);
        if c + b[c].size in b {
          assert Apart(b, a, c + b[c].size);
        }
        if a + size in b {
          assert Apart(b, c, a + size);
        }
      }
    }
    forall c, d | c in r && d in r ensures Apart(r, c, d) {
      assert c in b && d in b && Apart(b, c, d);
    }
    assert Apart(b, 1, a);
  }

  /** The block `a` is cut into `size` words and a free rest. */
  ghost function Split(b: Layout, a: nat, size: nat): Layout
    requires a in b && size <= b[a].size
  {
    b[a := Block(size, b[a].alloc)][a + size := Block(b[a].size - size, false)]
  }

  lemma SplitTiled(b: Layout, epi: nat, a: nat, size: nat)
    requires Tiled(b, epi) && a in b && size >= MINI && b[a].size >= size + MINI
    ensures a + size !in b && Tiled(Split(b, a, size), epi)
  {
    var r, n := Split(b, a, size), a + size;
    assert InPlace(b, epi, a);
    assert n in b ==> Apart(b, a, n);
    forall c | c in r ensures InPlace(r, epi, c) {
      SplitInPlace(b, epi, a, size, c);
    }
    forall c, d | c in r && d in r ensures Apart(r, c, d) {
      SplitApart(b, epi, a, size, c, d);
    }
  }

  lemma SplitInPlace(b: Layout, epi: nat, a: nat, size: nat, c: nat)
    requires Tiled(b, epi) && a in b && MINI <= size <= b[a].size - MINI && a + size !in b && c in Split(b, a, size)
    ensures InPlace(Split(b, a, size), epi, c)
  {
    assert InPlace(b, epi, a);
    if c != a && c != a + size {
      assert InPlace(b, epi, c);
    }
  }

  lemma SplitApart(b: Layout, epi: nat, a: nat, size: nat, c: nat, d: nat)
    requires Tiled(b, epi) && a in b && MINI <= size <= b[a].size - MINI && a + size !in b
    requires c in Split(b, a, size) && d in Split(b, a, size)
    ensures Apart(Split(b, a, size), c, d)
  {
    assert c in b ==> Apart(b, c, a) && Apart(b, a, c);
    assert d in b ==> Apart(b, d, a) && Apart(b, a, d);
    assert c in b && d in b ==> Apart(b, c, d);
  }

  /** The old epilogue becomes the header of a free block of `size` words. */
  lemma ExtendTiled(b: Layout, epi: nat, size: nat)
    requires Tiled(b, epi) && size >= MINI
    ensures epi !in b && Tiled(b[epi := Block(size, false)], epi + size)
  {
    NoBlockAtEnd(b, epi);
    var r := b[epi := Block(size, false)];
    forall c | c in r ensures InPlace(r, epi + size, c) {
      if c != epi { assert InPlace(b, epi, c); }
    }
    forall c, d | c in r && d in r ensures Apart(r, c, d) {
      if c in b { assert InPlace(b, epi, c); }
      if d in b { assert InPlace(b, epi, d); }
      if c in b && d in b { assert Apart(b, c, d); }
    }
  }

  lemma NoBlockAtEnd(b: Layout, epi: nat)
    requires Tiled(b, epi)
    ensures epi !in b
  {
    assert epi in b ==> InPlace(b, epi, epi);
  }

  /** Walking from `a` by block sizes reaches the block just before `e`. */
  lemma {:induction false} WalkToPredecessor(b: Layout, epi: nat, a: nat, e: nat) returns (p: nat)
    requires Tiled(b, epi) && a in b && a < e && (e in b || e == epi)
    ensures p in b && p + b[p].size == e
    decreases epi - a
  {
    assert InPlace(b, epi, a);
    if e in b {
      assert InPlace(b, epi, e) && Apart(b, a, e);
    }
    var n := a + b[a].size;
    if n == e {
      p := a;
    } else {
      p := WalkToPredecessor(b, epi, n, e);
    }
  }

  /** Every block but the first, and the epilogue of a heap with blocks, has a block right before it. */
  lemma Predecessor(b: Layout, epi: nat, e: nat) returns (p: nat)
    requires Tiled(b, epi) && (e in b || e == epi) && e > 1
    ensures p in b && p + b[p].size == e
  {
    if e in b {
      assert InPlace(b, epi, e);
    }
    p := WalkToPredecessor(b, epi, 1, e);
  }

  lemma PredecessorUnique(b: Layout, epi: nat, p: nat, q: nat)
    requires Tiled(b, epi) && p in b && q in b && p + b[p].size == q + b[q].size
    ensures p == q
  {
    assert InPlace(b, epi, p) && InPlace(b, epi, q) && Apart(b, p, q) && Apart(b, q, p);
  }

  ghost predicate PrecededBy(b: Layout, a: nat, p: nat) {
    p in b && p + b[p].size == a
  }

  /** "There is a free block right before `a`." */
  ghost predicate PrevFree(b: Layout, a: nat) {
    exists p :: PrecededBy(b, a, p) && !b[p].alloc
  }

  ghost predicate IsFree(b: Layout, a: nat) {
    a in b && !b[a].alloc
  }

  /** `a` and the block right after it are both free. */
  ghost predicate FreePair(b: Layout, a: nat)
    requires a in b
  {
    !b[a].alloc && IsFree(b, a + b[a].size)
  }

  /** No two free blocks touch: freeing coalesces at once. */
  ghost predicate NoTwoFree(b: Layout) {
    forall a {:trigger FreePair(b, a)} | a in b :: !FreePair(b, a)
  }

  /** The block addresses a walk with `find_next` visits, starting at `a`. */
  ghost function Walk(b: Layout, epi: nat, a: nat): seq<nat>
    decreases epi - a
  {
    if a in b && b[a].size > 0 && a < epi then [a] + Walk(b, epi, a + b[a].size) else []
  }

  /** The walk from a block visits exactly the blocks from there on, in address order, each once. */
  lemma {:induction false} WalkVisits(b: Layout, epi: nat, a: nat)
    requires Tiled(b, epi) && (a in b || a == epi)
    ensures forall c :: c in Walk(b, epi, a) <==> c in b && c >= a
    ensures forall i, j | 0 <= i < j < |Walk(b, epi, a)| :: Walk(b, epi, a)[i] < Walk(b, epi, a)[j]
    decreases epi - a
  {
    if a == epi {
      forall c | c in b ensures c < epi {
        assert InPlace(b, epi, c);
      }
    } else {
      assert InPlace(b, epi, a);
      forall c | c in b ensures c > a ==> c >= a + b[a].size {
        assert Apart(b, a, c);
      }
      var n := a + b[a].size;
      WalkVisits(b, epi, n);
      var rest := Walk(b, epi, n);
      var w := Walk(b, epi, a);
      assert w == [a] + rest;
      forall c ensures c in w <==> c in b && c >= a {
        assert c in w <==> c == a || c in rest;
      }
      forall i, j | 0 <= i < j < |w| ensures w[i] < w[j] {
        assert w[j] == rest[j - 1] && rest[j - 1] in rest;
      }
    }
  }
}
