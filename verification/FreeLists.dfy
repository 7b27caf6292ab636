/** The stores that link blocks into the free lists and take them out again: malloc/mm.c:516-651. */
module FreeLists {
  import opened BoundaryTags
  import opened HeapLayout
  import opened HeapOps
  import opened HeapMemory
  import opened Sequences

  /** `k` is a word of the free block `c` that links it into its list. */
  ghost predicate LinkWord(b: Layout, c: nat, k: nat) {
    IsFree(b, c) && (k == c + 1 || (k == c + 2 && b[c].size >= MIN_BLOCK))
  }

  ghost predicate LinkWordIn(b: Layout, t: set<nat>, k: nat) {
    exists c :: c in t && LinkWord(b, c, k)
  }

  /** The two memories differ only in link words of the blocks in `t`. */
  ghost predicate OnlyLinksOf(m: Memory, r: Memory, b: Layout, t: set<nat>) {
    |r| == |m| && forall k | 0 <= k < |m| && r[k] != m[k] :: LinkWordIn(b, t, k)
  }

  lemma LinkWordInside(b: Layout, epi: nat, c: nat, k: nat)
    requires Tiled(b, epi) && LinkWord(b, c, k)
    ensures c < k < c + b[c].size && (b[c].size > MINI ==> k < c + b[c].size - 1) && c + b[c].size <= epi
  {
    assert InPlace(b, epi, c);
  }

  /** A word inside one block is no word of another. */
  lemma InsideOne(b: Layout, epi: nat, c: nat, d: nat, k: nat)
    requires Tiled(b, epi) && c in b && d in b && c < k < c + b[c].size && d <= k < d + b[d].size
    ensures c == d
  {
    assert Apart(b, c, d) && Apart(b, d, c);
  }

  lemma HeadersUntouched(m: Memory, r: Memory, b: Layout, epi: nat, t: set<nat>, k: nat)
    requires Tiled(b, epi) && OnlyLinksOf(m, r, b, t) && epi < |m| && (k in b || k == epi || k == 1)
    ensures k < |m| && r[k] == m[k]
  {
    assert k in b ==> InPlace(b, epi, k);
    assert 1 in b ==> InPlace(b, epi, 1);
    if r[k] != m[k] {
      var c :| c in t && LinkWord(b, c, k);
      LinkWordInside(b, epi, c, k);
      if k in b {
        assert InPlace(b, epi, k);
        InsideOne(b, epi, c, k, k);
      }
    }
  }

  lemma FootersUntouched(m: Memory, r: Memory, b: Layout, epi: nat, t: set<nat>, x: nat)
    requires Tiled(b, epi) && OnlyLinksOf(m, r, b, t) && epi < |m| && FootersOkBut(m, b, x)
    ensures FootersOkBut(r, b, x)
  {
    forall a | a in b && a != x ensures FooterOk(r, b, a) {
      assert FooterOk(m, b, a) && InPlace(b, epi, a);
      HeadersUntouched(m, r, b, epi, t, a);
      var f := a + b[a].size - 1;
      if r[f] != m[f] {
        var c :| c in t && LinkWord(b, c, f);
        LinkWordInside(b, epi, c, f);
        InsideOne(b, epi, c, a, f);
      }
    }
  }

  lemma PayloadsUntouched(m: Memory, r: Memory, b: Layout, epi: nat, t: set<nat>)
    requires Tiled(b, epi) && OnlyLinksOf(m, r, b, t) && epi < |m|
    ensures PayloadsKept(m, r, b, 0)
  {
    forall a | a in b && b[a].alloc ensures PayloadSame(m, r, b, a) {
      forall k | a < k < a + b[a].size && k < |m| ensures r[k] == m[k] {
        if r[k] != m[k] {
          var c :| c in t && LinkWord(b, c, k);
          LinkWordInside(b, epi, c, k);
          InsideOne(b, epi, c, a, k);
        }
      }
    }
  }

  /** Link stores keep headers, footers and payloads. */
  lemma LinkStoresKeep(m: Memory, r: Memory, b: Layout, epi: nat, t: set<nat>, x: nat)
    requires Tiled(b, epi) && OnlyLinksOf(m, r, b, t) && HeadersOk(m, b, epi) && FootersOkBut(m, b, x)
    ensures HeadersOk(r, b, epi) && FootersOkBut(r, b, x) && PayloadsKept(m, r, b, 0)
  {
    FootersUntouched(m, r, b, epi, t, x);
    PayloadsUntouched(m, r, b, epi, t);
    HeadersUntouched(m, r, b, epi, t, epi);
    HeadersUntouched(m, r, b, epi, t, 1);
    forall a | a in b ensures HeaderOk(r, b, a) {
      assert HeaderOk(m, b, a) && InPlace(b, epi, a);
      HeadersUntouched(m, r, b, epi, t, a);
      HeadersUntouched(m, r, b, epi, t, a + b[a].size);
    }
  }

  /** The links of a block that is not in `t` stay as they were. */
  lemma LinksUntouched(m: Memory, r: Memory, b: Layout, epi: nat, t: set<nat>, c: nat, k: nat)
    requires Tiled(b, epi) && OnlyLinksOf(m, r, b, t) && c !in t && LinkWord(b, c, k) && k < |m|
    ensures r[k] == m[k]
  {
    if r[k] != m[k] {
      var d :| d in t && LinkWord(b, d, k);
      LinkWordInside(b, epi, c, k);
      LinkWordInside(b, epi, d, k);
      InsideOne(b, epi, c, d, k);
    }
  }

  /** A list without members in `t` stays as it was. */
  lemma ChainUntouched(m: Memory, r: Memory, h: Heap, t: set<nat>, k: nat, root: nat)
    requires Shaped(h) && OnlyLinksOf(m, r, h.blocks, t) && k < NUM_ROOTS && ChainOk(m, root, h.buckets[k])
    requires forall c | c in h.buckets[k] :: c !in t
    ensures ChainOk(r, root, h.buckets[k])
  {
    forall c | c in h.buckets[k] && c + 2 < |m| ensures r[c + 1] == m[c + 1] && r[c + 2] == m[c + 2] {
      LinksInside(h, c);
      LinksUntouched(m, r, h.blocks, h.epi, t, c, c + 1);
      LinksUntouched(m, r, h.blocks, h.epi, t, c, c + 2);
    }
    ChainKept(m, r, root, h.buckets[k]);
  }

  lemma MiniChainUntouched(m: Memory, r: Memory, h: Heap, t: set<nat>, root: nat)
    requires Shaped(h) && OnlyLinksOf(m, r, h.blocks, t) && MiniChainOk(m, root, h.mini)
    requires forall c | c in h.mini :: c !in t
    ensures MiniChainOk(r, root, h.mini)
  {
    forall c | c in h.mini && c + 1 < |m| ensures r[c + 1] == m[c + 1] {
      LinksInside(h, c);
      LinksUntouched(m, r, h.blocks, h.epi, t, c, c + 1);
    }
    MiniChainKept(m, r, root, h.mini);
  }

  /** A list whose link words are never shared between members. */
  ghost predicate Spaced(l: seq<nat>) {
    forall i, j | 0 <= i < |l| && 0 <= j < |l| && i != j :: l[i] + 2 < l[j] || l[j] + 2 < l[i]
  }

  lemma SpacedBlocks(b: Layout, epi: nat, l: seq<nat>)
    requires Tiled(b, epi) && Distinct(l) && forall c | c in l :: c in b && b[c].size >= MIN_BLOCK
    ensures Spaced(l)
  {
    forall i, j | 0 <= i < |l| && 0 <= j < |l| && i != j ensures l[i] + 2 < l[j] || l[j] + 2 < l[i] {
      assert l[i] in l && l[j] in l && Apart(b, l[i], l[j]) && Apart(b, l[j], l[i]);
      assert l[i] != l[j];
    }
  }

  /** Memory after `insert_free_block` put `a` in front of the bucket list `l`. */
  ghost function Pushed(m: Memory, l: seq<nat>, a: Word): (r: Memory)
    requires a + 2 < |m| && (l != [] ==> l[0] + 2 < |m|) && At(l, 0) < WORD_LIMIT
    ensures |r| == |m|
  {
    var m2 := m[a + 1 := At(l, 0)][a + 2 := 0];
    if l == [] then m2 else m2[l[0] + 2 := a]
  }

  lemma PushedChain(m: Memory, root: nat, l: seq<nat>, a: Word)
    requires ChainOk(m, root, l) && Spaced([a] + l) && a + 2 < |m| && At(l, 0) < WORD_LIMIT
    requires l != [] ==> l[0] + 2 < |m|
    ensures ChainOk(Pushed(m, l, a), a, [a] + l)
  {
    var r, s := Pushed(m, l, a), [a] + l;
    forall i | 0 <= i < |s| ensures NodeOk(r, s, i) {
      if i > 0 {
        assert NodeOk(m, l, i - 1);
        assert s[i] + 2 < s[0] || s[0] + 2 < s[i];
        assert i > 1 ==> s[i] + 2 < s[1] || s[1] + 2 < s[i];
      }
    }
  }

  /** Memory after `remove_free_block` took the member at position `i` out of the bucket list `l`. */
  ghost function Unlinked(m: Memory, l: seq<nat>, i: nat): (r: Memory)
    requires i < |l| && (forall j | 0 <= j < |l| :: l[j] + 2 < |m|) && At(l, i + 1) < WORD_LIMIT
             && At(l, i - 1) < WORD_LIMIT
    ensures |r| == |m|
  {
    var m1 := if i > 0 then m[l[i - 1] + 1 := At(l, i + 1)] else m;
    var m2 := if i + 1 < |l| then m1[l[i + 1] + 2 := At(l, i - 1)] else m1;
    m2[l[i] + 1 := 0][l[i] + 2 := 0]
  }

  /** The link words of the members that stay. */
  lemma UnlinkedWords(m: Memory, l: seq<nat>, i: nat, o: nat)
    requires Spaced(l) && i < |l| && (forall k | 0 <= k < |l| :: l[k] + 2 < |m|) && o < |l| && o != i
    requires At(l, i + 1) < WORD_LIMIT && At(l, i - 1) < WORD_LIMIT
    ensures Unlinked(m, l, i)[l[o] + 1] == if o == i - 1 then At(l, i + 1) else m[l[o] + 1]
    ensures Unlinked(m, l, i)[l[o] + 2] == if o == i + 1 then At(l, i - 1) else m[l[o] + 2]
  {
    assert l[o] + 2 < l[i] || l[i] + 2 < l[o];
    assert i > 0 && o != i - 1 ==> l[o] + 2 < l[i - 1] || l[i - 1] + 2 < l[o];
    assert i + 1 < |l| && o != i + 1 ==> l[o] + 2 < l[i + 1] || l[i + 1] + 2 < l[o];
  }

  /** The neighbours of the members that stay. */
  lemma UnlinkedNeighbours(l: seq<nat>, i: nat, j: nat)
    requires i < |l| && j < |l| - 1
    ensures var s, o := l[..i] + l[i + 1..], if j < i then j else j + 1;
            && s[j] == l[o]
            && At(s, j + 1) == (if o == i - 1 then At(l, i + 1) else At(l, o + 1))
            && At(s, j - 1) == (if o == i + 1 then At(l, i - 1) else At(l, o - 1))
  {
  }

  lemma UnlinkedNode(m: Memory, root: nat, l: seq<nat>, i: nat, j: nat)
    requires ChainOk(m, root, l) && Spaced(l) && i < |l| && (forall k | 0 <= k < |l| :: l[k] + 2 < |m|) && j < |l| - 1
    requires At(l, i + 1) < WORD_LIMIT && At(l, i - 1) < WORD_LIMIT
    ensures NodeOk(Unlinked(m, l, i), l[..i] + l[i + 1..], j)
  {
    var o := if j < i then j else j + 1;
    assert NodeOk(m, l, o);
    UnlinkedWords(m, l, i, o);
    UnlinkedNeighbours(l, i, j);
  }

  lemma UnlinkedChain(m: Memory, root: nat, l: seq<nat>, i: nat)
    requires ChainOk(m, root, l) && Spaced(l) && i < |l| && (forall j | 0 <= j < |l| :: l[j] + 2 < |m|)
    requires At(l, i + 1) < WORD_LIMIT && At(l, i - 1) < WORD_LIMIT
    ensures var s := l[..i] + l[i + 1..]; ChainOk(Unlinked(m, l, i), if i > 0 then root else At(l, 1), s)
  {
    var r, s := Unlinked(m, l, i), l[..i] + l[i + 1..];
    forall j | 0 <= j < |s| ensures NodeOk(r, s, j) {
      UnlinkedNode(m, root, l, i, j);
    }
  }

  /** Everything the list stores rely on: the heap is encoded and small enough for addresses to be words. */
  ghost predicate Ready(m: Memory, roots: seq<nat>, miniRoot: nat, h: Heap, x: nat) {
    Shaped(h) && Encoded(m, roots, miniRoot, h, x) && |m| <= MAX_WORDS
  }

  lemma MembersFit(m: Memory, roots: seq<nat>, miniRoot: nat, h: Heap, x: nat, k: nat)
    requires Ready(m, roots, miniRoot, h, x) && k < NUM_ROOTS
    ensures ChainOk(m, roots[k], h.buckets[k]) && Spaced(h.buckets[k]) && Distinct(h.buckets[k])
    ensures forall c | c in h.buckets[k] :: BucketMember(h.blocks, k, c) && c + 2 < |m|
    ensures forall j | 0 <= j < |h.buckets[k]| :: h.buckets[k][j] + 2 < |m|
  {
    var l := h.buckets[k];
    assert BucketOk(h.blocks, k, l);
    SpacedBlocks(h.blocks, h.epi, l);
    forall c | c in l ensures c + 2 < |m| {
      assert BucketMember(h.blocks, k, c) && InPlace(h.blocks, h.epi, c);
    }
    assert ChainOk(m, roots[k], h.buckets[k]);
    forall j | 0 <= j < |l| ensures l[j] + 2 < |m| {
      assert l[j] in l;
    }
  }

  lemma BucketsDisjoint(h: Heap, i: nat, k: nat)
    requires ListsOk(h) && i < NUM_ROOTS && k < NUM_ROOTS && i != k
    ensures forall c | c in h.buckets[i] :: c !in h.buckets[k] && Listed(h, c)
  {
    forall c | c in h.buckets[i] ensures c !in h.buckets[k] && Listed(h, c) {
      assert BucketOk(h.blocks, i, h.buckets[i]) && BucketMember(h.blocks, i, c);
      assert BucketOk(h.blocks, k, h.buckets[k]) && (c in h.buckets[k] ==> BucketMember(h.blocks, k, c));
    }
  }

  /** `insert_free_block` on a block above the mini size. */
  lemma PushEncoded(m: Memory, r: Memory, roots: seq<nat>, miniRoot: nat, h: Heap, a: nat, x: nat)
    requires Ready(m, roots, miniRoot, h, x) && IsFree(h.blocks, a) && !Listed(h, a) && h.blocks[a].size >= MIN_BLOCK
    requires a + 2 < |m| && forall j | 0 <= j < |h.buckets[RootIndex(h.blocks[a].size)]| ::
             h.buckets[RootIndex(h.blocks[a].size)][j] + 2 < |m|
    requires r == Pushed(m, h.buckets[RootIndex(h.blocks[a].size)], a)
    ensures Ready(r, roots[RootIndex(h.blocks[a].size) := a], miniRoot, InsertFree(h, a), x)
            && PayloadsKept(m, r, h.blocks, 0)
  {
    var b, k := h.blocks, RootIndex(h.blocks[a].size);
    var l, h', roots' := h.buckets[k], InsertFree(h, a), roots[k := a];
    var t := if l == [] then {a} else {a, l[0]};
    MembersFit(m, roots, miniRoot, h, x, k);
    forall j | 0 <= j < |m| && r[j] != m[j] ensures LinkWordIn(b, t, j) {
      assert l != [] ==> l[0] in l && BucketMember(b, k, l[0]);
      assert LinkWord(b, a, j) || (l != [] && LinkWord(b, l[0], j));
    }
    LinkStoresKeep(m, r, b, h.epi, t, x);
    InsertFreeShaped(h, a);
    assert BucketOk(h'.blocks, k, h'.buckets[k]);
    SpacedBlocks(b, h.epi, h'.buckets[k]);
    PushedChain(m, roots[k], l, a);
    forall i | 0 <= i < NUM_ROOTS ensures ChainOk(r, roots'[i], h'.buckets[i]) {
      if i != k {
        MembersFit(m, roots, miniRoot, h, x, i);
        BucketsDisjoint(h, i, k);
        ChainUntouched(m, r, h, t, i, roots[i]);
      }
    }
    forall c | c in h.mini ensures c !in t { LinksInside(h, c); }
    MiniChainUntouched(m, r, h, t, miniRoot);
  }

  /** `insert_mini_block`. */
  lemma PushMiniEncoded(m: Memory, r: Memory, roots: seq<nat>, miniRoot: nat, h: Heap, a: nat, x: nat)
    requires Ready(m, roots, miniRoot, h, x) && IsFree(h.blocks, a) && !Listed(h, a) && h.blocks[a].size == MINI
    requires a + 1 < |m| && miniRoot < WORD_LIMIT && r == m[a + 1 := miniRoot]
    ensures Ready(r, roots, a, InsertFree(h, a), x) && PayloadsKept(m, r, h.blocks, 0)
  {
    var b, h' := h.blocks, InsertFree(h, a);
    forall j | 0 <= j < |m| && r[j] != m[j] ensures LinkWordIn(b, {a}, j) {
      assert LinkWord(b, a, j);
    }
    LinkStoresKeep(m, r, b, h.epi, {a}, x);
    InsertFreeShaped(h, a);
    forall i | 0 <= i < NUM_ROOTS ensures ChainOk(r, roots[i], h'.buckets[i]) {
      MembersFit(m, roots, miniRoot, h, x, i);
      ChainUntouched(m, r, h, {a}, i, roots[i]);
    }
    MiniChainUntouched(m, r, h, {a}, miniRoot);
    forall i | 0 <= i < |h'.mini| ensures MiniNodeOk(r, h'.mini, i) {
      assert i > 0 ==> MiniNodeOk(r, h.mini, i - 1);
    }
  }

  /** The stores of `remove_free_block` touch only link words of members of the list. */
  lemma UnlinkStoresLinks(m: Memory, b: Layout, k: nat, l: seq<nat>, i: nat)
    requires i < |l| && (forall j | 0 <= j < |l| :: l[j] + 2 < |m|) && (forall c | c in l :: BucketMember(b, k, c))
    requires At(l, i + 1) < WORD_LIMIT && At(l, i - 1) < WORD_LIMIT
    ensures OnlyLinksOf(m, Unlinked(m, l, i), b, set c | c in l)
  {
    var r, t := Unlinked(m, l, i), set c | c in l;
    forall j | 0 <= j < |m| && r[j] != m[j] ensures LinkWordIn(b, t, j) {
      assert j == l[i] + 1 || j == l[i] + 2 ==> l[i] in t && LinkWord(b, l[i], j);
      assert i > 0 && j == l[i - 1] + 1 ==> l[i - 1] in t && LinkWord(b, l[i - 1], j);
      assert i + 1 < |l| && j == l[i + 1] + 2 ==> l[i + 1] in t && LinkWord(b, l[i + 1], j);
    }
  }

  /** Stores to link words of one bucket leave the chains of the others alone. */
  lemma OtherChainsKept(m: Memory, r: Memory, roots: seq<nat>, miniRoot: nat, h: Heap, k: nat, x: nat)
    requires Ready(m, roots, miniRoot, h, x) && k < NUM_ROOTS && OnlyLinksOf(m, r, h.blocks, set c | c in h.buckets[k])
    ensures forall j | 0 <= j < NUM_ROOTS && j != k :: ChainOk(r, roots[j], h.buckets[j])
  {
    var t := set c | c in h.buckets[k];
    forall j | 0 <= j < NUM_ROOTS && j != k ensures ChainOk(r, roots[j], h.buckets[j]) {
      MembersFit(m, roots, miniRoot, h, x, j);
      BucketsDisjoint(h, j, k);
      ChainUntouched(m, r, h, t, j, roots[j]);
    }
  }

  /** `remove_free_block` on the member at position `i` of its bucket. */
  lemma UnlinkEncoded(m: Memory, r: Memory, roots: seq<nat>, miniRoot: nat, h: Heap, k: nat, i: nat, x: nat)
    requires Ready(m, roots, miniRoot, h, x) && k < NUM_ROOTS && i < |h.buckets[k]|
    requires (forall j | 0 <= j < |h.buckets[k]| :: h.buckets[k][j] + 2 < |m|)
    requires At(h.buckets[k], i + 1) < WORD_LIMIT && At(h.buckets[k], i - 1) < WORD_LIMIT
    requires r == Unlinked(m, h.buckets[k], i) && h.buckets[k][i] in h.blocks
    ensures var roots' := if i > 0 then roots else roots[k := At(h.buckets[k], 1)];
            Ready(r, roots', miniRoot, RemoveFree(h, h.buckets[k][i]), x)
    ensures PayloadsKept(m, r, h.blocks, 0)
  {
    var b, l := h.blocks, h.buckets[k];
    var a := l[i];
    var h', roots' := RemoveFree(h, a), if i > 0 then roots else roots[k := At(l, 1)];
    var t := set c | c in l;
    MembersFit(m, roots, miniRoot, h, x, k);
    assert BucketMember(b, k, a);
    UnlinkStoresLinks(m, b, k, l, i);
    LinkStoresKeep(m, r, b, h.epi, t, x);
    RemoveFreeShaped(h, a);
    MinusAt(l, i);
    UnlinkedChain(m, roots[k], l, i);
    OtherChainsKept(m, r, roots, miniRoot, h, k, x);
    assert forall j | 0 <= j < NUM_ROOTS :: ChainOk(r, roots'[j], h'.buckets[j]);
    forall c | c in h.mini ensures c !in t { LinksInside(h, c); }
    MiniChainUntouched(m, r, h, t, miniRoot);
  }

  /** Memory after the member at position `i` left the mini list `l`. */
  ghost function MiniUnlinked(m: Memory, l: seq<nat>, i: nat): (r: Memory)
    requires i < |l| && (forall j | 0 <= j < |l| :: l[j] + 1 < |m|) && At(l, i + 1) < WORD_LIMIT
    ensures |r| == |m|
  {
    (if i > 0 then m[l[i - 1] + 1 := At(l, i + 1)] else m)[l[i] + 1 := 0]
  }

  lemma MiniUnlinkedChain(m: Memory, root: nat, l: seq<nat>, i: nat)
    requires MiniChainOk(m, root, l) && Distinct(l) && i < |l| && (forall j | 0 <= j < |l| :: l[j] + 1 < |m|)
    requires At(l, i + 1) < WORD_LIMIT
    ensures MiniChainOk(MiniUnlinked(m, l, i), if i > 0 then root else At(l, 1), l[..i] + l[i + 1..])
  {
    var r, s := MiniUnlinked(m, l, i), l[..i] + l[i + 1..];
    forall j | 0 <= j < |s| ensures MiniNodeOk(r, s, j) {
      var o := if j < i then j else j + 1;
      assert s[j] == l[o] && MiniNodeOk(m, l, o) && l[o] != l[i];
      assert i > 0 && o != i - 1 ==> l[o] != l[i - 1];
    }
  }

  /** `remove_mini_block` and `pop_mini_block`. */
  lemma UnlinkMiniEncoded(m: Memory, r: Memory, roots: seq<nat>, miniRoot: nat, h: Heap, i: nat, x: nat)
    requires Ready(m, roots, miniRoot, h, x) && i < |h.mini|
    requires (forall j | 0 <= j < |h.mini| :: h.mini[j] + 1 < |m|) && At(h.mini, i + 1) < WORD_LIMIT
    requires r == MiniUnlinked(m, h.mini, i) && h.mini[i] in h.blocks
    ensures Ready(r, roots, if i > 0 then miniRoot else At(h.mini, 1), RemoveFree(h, h.mini[i]), x)
    ensures PayloadsKept(m, r, h.blocks, 0)
  {
    var b, l := h.blocks, h.mini;
    var a := l[i];
    var h', t := RemoveFree(h, a), set c | c in l;
    assert MiniMember(b, a);
    forall j | 0 <= j < |m| && r[j] != m[j] ensures LinkWordIn(b, t, j) {
      assert j == a + 1 ==> LinkWord(b, a, j);
      assert i > 0 && j == l[i - 1] + 1 ==> l[i - 1] in t && LinkWord(b, l[i - 1], j);
    }
    LinkStoresKeep(m, r, b, h.epi, t, x);
    RemoveFreeShaped(h, a);
    MinusAt(l, i);
    assert h'.mini == l[..i] + l[i + 1..] && h'.buckets == h.buckets;
    forall j | 0 <= j < NUM_ROOTS ensures ChainOk(r, roots[j], h'.buckets[j]) {
      MembersFit(m, roots, miniRoot, h, x, j);
      forall c | c in h.buckets[j] ensures c !in t { LinksInside(h, c); }
      ChainUntouched(m, r, h, t, j, roots[j]);
    }
    MiniUnlinkedChain(m, miniRoot, l, i);
  }
}
