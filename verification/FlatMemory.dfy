/** Flat byte memory as pages of 1024 bytes, and words put together from bytes: malloc/memlib.c:370-485, 521-534. */
module FlatMemory {
  import opened Arithmetic
  import opened BoundaryTags
  import opened Bytes

  const HEAP_START: nat := 0x2130051300000000
  const MAX_HEAP: nat := 0x4000000000000000
  const PAGE_SIZE: nat := 1024

  /** A whole number of pages: the bytes of every page in use. */
  type Pages = map<nat, seq<Byte>>

  /** `page_id`; the page size is written out so that the solver sees a division by a number. */
  function PageId(a: nat): nat
    requires a >= HEAP_START
  {
    (a - HEAP_START) / 1024
  }

  /** `page_start`. */
  function PageStart(id: nat): nat { HEAP_START + 1024 * id }

  function Offset(a: nat): (o: nat)
    requires a >= HEAP_START
    ensures o < PAGE_SIZE && a == PageStart(PageId(a)) + o
  {
    a - PageStart(PageId(a))
  }

  /** Neighbouring addresses lie in the same page until the page ends, then in the next. */
  lemma NearBy(a: nat, i: nat)
    requires a >= HEAP_START && i <= PAGE_SIZE
    ensures Offset(a) + i < PAGE_SIZE ==> PageId(a + i) == PageId(a) && Offset(a + i) == Offset(a) + i
    ensures Offset(a) + i >= PAGE_SIZE ==> PageId(a + i) == PageId(a) + 1 && Offset(a + i) == Offset(a) + i - PAGE_SIZE
  {
  }

  ghost predicate WellPaged(m: Pages) {
    forall id | id in m :: |m[id]| == PAGE_SIZE
  }

  /** The address lies in a page in use. */
  ghost predicate Has(m: Pages, a: nat) {
    a >= HEAP_START && PageId(a) in m
  }

  ghost function At(m: Pages, a: nat): Byte
    requires WellPaged(m) && Has(m, a)
  {
    m[PageId(a)][Offset(a)]
  }

  /** The first address of the next page. */
  function Border(a: nat): (b: nat)
    requires a >= HEAP_START
    ensures b >= HEAP_START && PageId(b) == PageId(a) + 1 && Offset(b) == 0
  {
    a + (PAGE_SIZE - Offset(a))
  }

  /** Whether an access of `n` bytes goes on in the next page. */
  predicate Crosses(a: nat, n: nat)
    requires a >= HEAP_START
  {
    Offset(a) + n > PAGE_SIZE
  }

  lemma LastByte(a: nat, n: nat)
    requires a >= HEAP_START && 0 < n <= PAGE_SIZE
    ensures PageId(a + n - 1) == PageId(a) <==> !Crosses(a, n)
  {
    NearBy(a, n - 1);
  }

  /** Every page in use before is in use and has the same bytes. */
  ghost predicate Kept(m: Pages, r: Pages) {
    forall id | id in m :: id in r && r[id] == m[id]
  }

  /** The bytes of the first `n` addresses from `a` are those of `w`. */
  ghost predicate Shows(m: Pages, a: nat, w: nat, n: nat)
    requires WellPaged(m)
  {
    forall x: nat | a <= x < a + n :: Has(m, x) && At(m, x) == ByteOf(w, x - a)
  }

  /** Only the `n` bytes from `a` may have changed. */
  ghost predicate KeptOutside(m: Pages, r: Pages, a: nat, n: nat)
    requires WellPaged(m) && WellPaged(r)
  {
    forall x: nat | Has(m, x) && !(a <= x < a + n) :: Has(r, x) && At(r, x) == At(m, x)
  }

  ghost function WithByte(page: seq<Byte>, o: nat, b: Byte): seq<Byte>
    requires o < |page|
  {
    page[o := b]
  }

  /** `n` bytes of `w` from byte `from` on, put into a page. */
  ghost function Put(page: seq<Byte>, o: nat, w: nat, from: nat, n: nat): (r: seq<Byte>)
    requires o + n <= |page|
    ensures |r| == |page|
    ensures forall k | 0 <= k < |page| :: r[k] == if o <= k < o + n then ByteOf(w, from + k - o) else page[k]
  {
    if n == 0 then page else WithByte(Put(page, o, w, from, n - 1), o + n - 1, ByteOf(w, from + n - 1))
  }

  /** A page's worth of bytes put at `a` is a store of these bytes. */
  lemma PutShows(m: Pages, a: nat, w: nat, from: nat, n: nat, r: Pages)
    requires WellPaged(m) && Has(m, a) && Offset(a) + n <= PAGE_SIZE
    requires r == m[PageId(a) := Put(m[PageId(a)], Offset(a), w, from, n)]
    ensures WellPaged(r) && KeptOutside(m, r, a, n)
    ensures forall x: nat | a <= x < a + n :: Has(r, x) && At(r, x) == ByteOf(w, from + x - a)
  {
    forall x: nat | Has(m, x) ensures PageId(x) == PageId(a) ==> x - a == Offset(x) - Offset(a) {
    }
    forall x: nat | a <= x < a + n ensures Has(r, x) && At(r, x) == ByteOf(w, from + x - a) {
      NearBy(a, x - a);
    }
  }

  lemma KeptAt(m: Pages, r: Pages, a: nat)
    requires WellPaged(m) && WellPaged(r) && Kept(m, r) && Has(m, a)
    ensures Has(r, a) && At(r, a) == At(m, a)
  {
  }

  // Words put together from bytes.

  /** `w & mask` with the mask `((uint64_t)1 << (8 * n)) - 1` of the low `n` bytes; see `MaskIsRemainder`. */
  function Masked(w: Word, n: nat): (r: Word) {
    LowAtMost(w, n);
    LowBytes(w, 0, n)
  }

  lemma {:induction false} LowAtMost(w: nat, n: nat)
    ensures LowBytes(w, 0, n) <= w
  {
    if n > 0 {
      LowAtMost(w / 256, n - 1);
    }
  }

  lemma {:induction false} LowBelow(w: nat, n: nat)
    ensures LowBytes(w, 0, n) < Pow256(n)
  {
    if n > 0 {
      LowBelow(w / 256, n - 1);
    }
  }

  lemma {:induction false} LowBytesAll(w: nat, n: nat)
    requires w < Pow256(n)
    ensures LowBytes(w, 0, n) == w
  {
    if n > 0 {
      LowBytesAll(w / 256, n - 1);
    }
  }

  /** The end of a read: the mask is left out for whole words, where it would change nothing. */
  lemma MaskedIfShort(w: Word, n: nat)
    requires n <= 8
    ensures (if n < 8 then Masked(w, n) else w) == Masked(w, n) < Pow256(n)
  {
    WordIsEightBytes();
    LowBelow(w, n);
    if n == 8 {
      LowBytesAll(w, 8);
    }
  }

  /** A mask keeps the low bytes and clears the others. */
  lemma MaskedByte(w: Word, n: nat, k: nat)
    ensures ByteOf(Masked(w, n), k) == if k < n then ByteOf(w, k) else 0
  {
    LowBytesAt(w, 0, n, k);
    ZeroByte(k);
  }

  lemma RemainderStep(w: nat, p: nat)
    requires p > 0
    ensures w % (256 * p) == w % 256 + 256 * (w / 256 % p)
  {
    var q, r := w / 256 / p, w / 256 % p;
    assert w / 256 == p * q + r;
    assert w == 256 * (p * q + r) + w % 256;
    assert 256 * (p * q) == 256 * p * q;
    RemainderUnique(w, 256 * p, q, w % 256 + 256 * r);
  }

  /** In numbers, the mask of the low `n` bytes takes the remainder by 256 to the power `n`. */
  lemma {:induction false} MaskIsRemainder(w: nat, n: nat)
    ensures LowBytes(w, 0, n) == w % Pow256(n)
  {
    if n > 0 {
      MaskIsRemainder(w / 256, n - 1);
      RemainderStep(w, Pow256(n - 1));
    }
  }

  /** `w << (8 * n)` while nothing passes the end of the word; see `RaisedIsProduct`. */
  function Raised(w: nat, n: nat): nat {
    if n == 0 then w else 256 * Raised(w, n - 1)
  }

  lemma {:induction false} RaisedIsProduct(w: nat, n: nat)
    ensures Raised(w, n) == w * Pow256(n)
  {
    if n > 0 {
      RaisedIsProduct(w, n - 1);
      assert w * (256 * Pow256(n - 1)) == 256 * (w * Pow256(n - 1));
    }
  }

  /** Low bytes with other bytes above them, as `|` joins words without common bits. */
  lemma {:induction false} JoinedByte(low: nat, high: nat, n: nat, k: nat)
    requires low < Pow256(n)
    ensures ByteOf(low + Raised(high, n), k) == if k < n then ByteOf(low, k) else ByteOf(high, k - n)
  {
    if n > 0 {
      var x := low + Raised(high, n);
      assert x % 256 == low % 256 && x / 256 == low / 256 + Raised(high, n - 1);
      if k > 0 {
        JoinedByte(low / 256, high, n - 1, k - 1);
      }
    }
  }

  lemma {:induction false} JoinedBelow(low: nat, high: nat, n: nat, j: nat)
    requires low < Pow256(n) && high < Pow256(j)
    ensures low + Raised(high, n) < Pow256(n + j)
  {
    if n > 0 {
      JoinedBelow(low / 256, high, n - 1, j);
    }
  }

  /** `rdata | (hdata << (8 * llen))` where `rdata` is masked: the shift loses the top bytes of `hdata`. */
  function Combined(low: Word, high: Word, llen: nat): Word
    requires llen <= 8
  {
    LowBelow(low, llen);
    LowBelow(high, 8 - llen);
    JoinedBelow(Masked(low, llen), Masked(high, 8 - llen), llen, 8 - llen);
    WordIsEightBytes();
    Masked(low, llen) + Raised(Masked(high, 8 - llen), llen)
  }

  lemma CombinedByte(low: Word, high: Word, llen: nat, k: nat)
    requires llen <= 8 && k < 8
    ensures ByteOf(Combined(low, high, llen), k) == if k < llen then ByteOf(low, k) else ByteOf(high, k - llen)
  {
    LowBelow(low, llen);
    JoinedByte(Masked(low, llen), Masked(high, 8 - llen), llen, k);
    MaskedByte(low, llen, k);
    if k >= llen {
      MaskedByte(high, 8 - llen, k - llen);
    }
  }

  /** `w >> (8 * n)`. */
  function Lowered(w: nat, n: nat): nat
    decreases n
  {
    if n == 0 then w else Lowered(w / 256, n - 1)
  }

  lemma {:induction false} LoweredByte(w: nat, n: nat, k: nat)
    ensures ByteOf(Lowered(w, n), k) == ByteOf(w, n + k)
    decreases n
  {
    if n > 0 {
      LoweredByte(w / 256, n - 1, k);
    }
  }

  lemma {:induction false} LoweredBelow(w: nat, n: nat, j: nat)
    requires w < Pow256(n + j)
    ensures Lowered(w, n) < Pow256(j)
    decreases n
  {
    if n > 0 {
      LoweredBelow(w / 256, n - 1, j);
    }
  }

  /** A 128-bit value as its bit pattern. */
  function Low64(v: nat): Word {
    LowBelow(v, 8);
    WordIsEightBytes();
    LowBytes(v, 0, 8)
  }

  function High64(v: nat): Word
    requires v < Pow256(16)
  {
    LoweredBelow(v, 8, 8);
    WordIsEightBytes();
    Lowered(v, 8)
  }

  lemma HalvesBytes(v: nat, k: nat)
    requires v < Pow256(16) && k < 8
    ensures ByteOf(Low64(v), k) == ByteOf(v, k) && ByteOf(High64(v), k) == ByteOf(v, 8 + k)
  {
    LowBytesAt(v, 0, 8, k);
    LoweredByte(v, 8, k);
  }

  /** `((__int128_t)high << 64) | low`. */
  function Joined128(low: Word, high: Word): (v: nat)
    ensures v < Pow256(16)
  {
    WordIsEightBytes();
    JoinedBelow(low, high, 8, 8);
    low + Raised(high, 8)
  }

  lemma Joined128Byte(low: Word, high: Word, k: nat)
    ensures ByteOf(Joined128(low, high), k) == if k < 8 then ByteOf(low, k) else ByteOf(high, k - 8)
  {
    WordIsEightBytes();
    JoinedByte(low, high, 8, k);
  }

  /**
   * Which byte of the source a copy in ascending order, eight bytes at a time, puts at position `j`, when it writes
   * `shift` bytes above where it reads: byte `j`, unless an earlier word has been written over it.
   */
  function Origin(shift: int, j: nat): (o: nat)
    ensures o <= j
  {
    if 0 < shift <= j && j - shift < 8 * (j / 8) then Origin(shift, j - shift) else j
  }

  /** The ranges that a copy word by word gets right: it never reads what it has written. */
  predicate Safe(dst: nat, src: nat, n: nat) {
    dst <= src || src + n <= dst || n <= 8
  }

  /** Each of the first `n` bytes of the source goes to its own place. */
  ghost predicate Bytewise(shift: int, n: nat) {
    forall j: nat | j < n :: Origin(shift, j) == j
  }

  /** That is so for exactly these ranges, the disjoint ones among them. */
  lemma SafeExactly(dst: nat, src: nat, n: nat)
    ensures Safe(dst, src, n) <==> Bytewise(dst - src, n)
  {
    if !Safe(dst, src, n) {
      var shift := dst - src;
      var j := if shift > 8 then shift else 8;
      assert 0 < shift <= j < n && j - shift < 8 * (j / 8);
      assert Origin(shift, j) == Origin(shift, j - shift) <= j - shift;
    }
  }

  /** The address a copied byte comes from. */
  function CopiedFrom(dst: nat, src: nat, x: nat): nat
    requires x >= dst
  {
    src + Origin(dst - src, x - dst)
  }

  /** The byte at `x` is the one the copy puts there, if the source was in use. */
  ghost predicate CopiedAt(m: Pages, r: Pages, dst: nat, src: nat, x: nat)
    requires WellPaged(m) && WellPaged(r) && x >= dst
  {
    Has(r, x) && (Has(m, CopiedFrom(dst, src, x)) ==> At(r, x) == At(m, CopiedFrom(dst, src, x)))
  }

  /** The `n` bytes from `dst` are what the copy puts there. */
  ghost predicate Copied(m: Pages, r: Pages, dst: nat, src: nat, n: nat)
    requires WellPaged(m) && WellPaged(r)
  {
    forall x: nat {:trigger CopiedAt(m, r, dst, src, x)} | dst <= x < dst + n :: CopiedAt(m, r, dst, src, x)
  }

  /** How far a copy has come after `d` bytes. */
  ghost predicate CopySoFar(m: Pages, r: Pages, dst: nat, src: nat, d: nat)
    requires WellPaged(m) && WellPaged(r)
  {
    KeptOutside(m, r, dst, d) && Copied(m, r, dst, src, d)
  }

  /** What is read for position `j` of the word at `d`: the source is either already written or still as it was. */
  lemma OriginInWord(dst: nat, src: nat, d: nat, j: nat)
    requires d % 8 == 0 && d <= j < d + 8
    ensures if dst <= src + j < dst + d then CopiedFrom(dst, src, dst + j) == CopiedFrom(dst, src, src + j)
            else CopiedFrom(dst, src, dst + j) == src + j
  {
    var shift := dst - src;
    assert 8 * (j / 8) == d;
    assert dst <= src + j < dst + d <==> 0 < shift <= j && j - shift < d;
  }

  /** One byte of the word: `m` is the memory at the start, `r` before the read, `s` before the write, `t` after it. */
  lemma CopiedByte(m: Pages, r: Pages, s: Pages, t: Pages, dst: nat, src: nat, d: nat, k: nat, w: nat, x: nat)
    requires WellPaged(m) && WellPaged(r) && WellPaged(s) && WellPaged(t) && d % 8 == 0 && k <= 8
    requires CopySoFar(m, r, dst, src, d) && Kept(r, s) && Shows(s, src + d, w, k) && Shows(t, dst + d, w, k)
    requires dst + d <= x < dst + d + k && Has(m, CopiedFrom(dst, src, x))
    ensures Has(t, x) && At(t, x) == At(m, CopiedFrom(dst, src, x))
  {
    var y := src + (x - dst);
    OriginInWord(dst, src, d, x - dst);
    assert At(t, x) == ByteOf(w, x - (dst + d)) && At(s, y) == ByteOf(w, y - (src + d));
    assert dst <= y < dst + d ==> CopiedAt(m, r, dst, src, y);
    assert Has(r, y) && At(r, y) == At(m, CopiedFrom(dst, src, x));
    KeptAt(r, s, y);
  }

  /** One word of the copy. */
  lemma CopyStep(m: Pages, r: Pages, s: Pages, t: Pages, dst: nat, src: nat, d: nat, to: nat, from: nat, k: nat, w: nat)
    requires WellPaged(m) && WellPaged(r) && WellPaged(s) && WellPaged(t) && d % 8 == 0 && k <= 8
    requires to == dst + d && from == src + d
    requires CopySoFar(m, r, dst, src, d) && Kept(r, s)
    requires Shows(s, from, w, k) && KeptOutside(s, t, to, k) && Shows(t, to, w, k)
    ensures CopySoFar(m, t, dst, src, d + k)
  {
    forall x: nat | Has(m, x) && !(dst <= x < dst + (d + k)) ensures Has(t, x) && At(t, x) == At(m, x) {
      KeptAt(r, s, x);
    }
    forall x: nat | dst <= x < dst + (d + k) ensures CopiedAt(m, t, dst, src, x) {
      if x < dst + d {
        assert CopiedAt(m, r, dst, src, x);
        KeptAt(r, s, x);
      } else if Has(m, CopiedFrom(dst, src, x)) {
        CopiedByte(m, r, s, t, dst, src, d, k, w, x);
      }
    }
  }

  /** The bytes from `dst` on are all `c`. */
  ghost predicate Filled(r: Pages, dst: nat, n: nat, c: Byte)
    requires WellPaged(r)
  {
    forall x: nat | dst <= x < dst + n :: Has(r, x) && At(r, x) == c
  }

  lemma FillStep(m: Pages, r: Pages, t: Pages, dst: nat, d: nat, to: nat, k: nat, w: nat, c: Byte)
    requires WellPaged(m) && WellPaged(r) && WellPaged(t) && k <= 8 && to == dst + d
    requires KeptOutside(m, r, dst, d) && Filled(r, dst, d, c) && forall i | 0 <= i < 8 :: ByteOf(w, i) == c
    requires KeptOutside(r, t, to, k) && Shows(t, to, w, k)
    ensures KeptOutside(m, t, dst, d + k) && Filled(t, dst, d + k, c)
  {
    forall x: nat | dst <= x < dst + (d + k) ensures Has(t, x) && At(t, x) == c {
      assert x >= to ==> At(t, x) == ByteOf(w, x - to);
    }
  }

  /** Some of the `n` bytes from `a` lie in the page. */
  ghost predicate Meets(a: nat, n: nat, id: nat)
    requires a >= HEAP_START
  {
    n > 0 && PageId(a) <= id <= PageId(a + n - 1)
  }

  /** The pages that hold the `n` bytes from `a`. */
  ghost function PagesOf(a: nat, n: nat): set<nat>
    requires a >= HEAP_START
  {
    set id: nat | id <= PageId(a + n) && Meets(a, n, id)
  }

  lemma InPagesOf(a: nat, n: nat, id: nat)
    requires a >= HEAP_START
    ensures id in PagesOf(a, n) <==> Meets(a, n, id)
  {
    assert n > 0 ==> PageId(a + n - 1) <= PageId(a + n);
  }

  lemma MeetsMore(a: nat, d: nat, k: nat, n: nat, id: nat)
    requires a >= HEAP_START && d + k <= n
    ensures Meets(a, d + k, id) <==> Meets(a, d, id) || Meets(a + d, k, id)
    ensures Meets(a, d + k, id) ==> Meets(a, n, id)
  {
    assert d > 0 ==> PageId(a) <= PageId(a + d - 1) <= PageId(a + d) <= PageId(a + d - 1) + 1;
    assert k > 0 ==> PageId(a + d) <= PageId(a + (d + k) - 1);
    assert d + k > 0 ==> PageId(a + (d + k) - 1) <= PageId(a + n - 1);
  }

  lemma MorePages(a: nat, d: nat, b: nat, k: nat, n: nat)
    requires a >= HEAP_START && b == a + d && d + k <= n
    ensures PagesOf(a, d + k) == PagesOf(a, d) + PagesOf(b, k)
    ensures PagesOf(a, d + k) <= PagesOf(a, n)
  {
    forall id: nat
      ensures id in PagesOf(a, d + k) <==> id in PagesOf(a, d) || id in PagesOf(b, k)
      ensures id in PagesOf(a, d + k) ==> id in PagesOf(a, n)
    {
      InPagesOf(a, d + k, id);
      InPagesOf(a, d, id);
      InPagesOf(b, k, id);
      InPagesOf(a, n, id);
      MeetsMore(a, d, k, n, id);
    }
  }

  ghost predicate GrewAt(m: Pages, r: Pages, t: set<nat>, id: nat) {
    id in r <==> id in m || id in t
  }

  /** The pages `t` are in use now, besides those from before. */
  ghost predicate Grew(m: Pages, r: Pages, t: set<nat>) {
    forall id {:trigger GrewAt(m, r, t, id)} :: GrewAt(m, r, t, id)
  }

  ghost predicate AtMostGrewAt(m: Pages, r: Pages, t: set<nat>, id: nat) {
    (id in m ==> id in r) && (id in r ==> id in m || id in t)
  }

  ghost predicate Missing(r: Pages, t: set<nat>, id: nat) {
    id in t && id !in r
  }

  /** Some of the pages `t` are in use now, but not all. */
  ghost predicate Halted(m: Pages, r: Pages, t: set<nat>) {
    (forall id {:trigger AtMostGrewAt(m, r, t, id)} :: AtMostGrewAt(m, r, t, id)) && exists id :: Missing(r, t, id)
  }

  lemma GrewTwice(m: Pages, r: Pages, s: Pages, t: set<nat>, u: set<nat>, all: set<nat>)
    requires Grew(m, r, t) && Grew(r, s, u) && all == t + u
    ensures Grew(m, s, all)
  {
    forall id ensures GrewAt(m, s, all, id) {
      assert GrewAt(m, r, t, id) && GrewAt(r, s, u, id);
    }
  }

  lemma HaltedLater(m: Pages, r: Pages, s: Pages, t: set<nat>, u: set<nat>, all: set<nat>)
    requires Grew(m, r, t) && Halted(r, s, u) && t + u <= all
    ensures Halted(m, s, all)
  {
    forall id ensures AtMostGrewAt(m, s, all, id) {
      assert GrewAt(m, r, t, id) && AtMostGrewAt(r, s, u, id);
    }
    var id :| Missing(s, u, id);
    assert Missing(s, all, id);
  }

  /** Every page costs one free block. */
  lemma BlocksSufficed(m: Pages, r: Pages, t: set<nat>, free: nat, left: nat)
    requires Grew(m, r, t) && |r| + left == |m| + free
    ensures |t - m.Keys| + left == free
  {
    var added := t - m.Keys;
    forall id: nat ensures id in r.Keys <==> id in m.Keys || id in added {
      assert GrewAt(m, r, t, id);
    }
    PartsCount(m.Keys, added, r.Keys);
  }

  /** The blocks were used up before the last page. */
  lemma BlocksRanOut(m: Pages, r: Pages, t: set<nat>, free: nat)
    requires Halted(m, r, t) && |r| == |m| + free
    ensures |t - m.Keys| > free
  {
    var added, wanted := r.Keys - m.Keys, t - m.Keys;
    var missing :| Missing(r, t, missing);
    forall id: nat ensures (id in m.Keys ==> id in r.Keys) && (id in added ==> id in wanted) {
      assert AtMostGrewAt(m, r, t, id);
    }
    PartsCount(m.Keys, added, r.Keys);
    OneMissing(added, missing, wanted);
  }

  lemma PartsCount(s: set<nat>, t: set<nat>, all: set<nat>)
    requires s !! t && forall x :: x in all <==> x in s || x in t
    ensures |all| == |s| + |t|
  {
    assert all == s + t;
  }

  lemma OneMissing(s: set<nat>, id: nat, all: set<nat>)
    requires id !in s && id in all && forall x | x in s :: x in all
    ensures |all| > |s|
  {
    PartsCount(s, all - s, all);
  }

  /** A call of the emulated memory. */
  datatype Access =
    | Store(a: nat, w: Word, n: nat)
    | Fetch(a: nat, n: nat)
    | Fill(dst: nat, c: int, n: nat)
    | Copy(dst: nat, src: nat, n: nat)

  /** What a call that came back with `v` has done. */
  ghost predicate Step(m: Pages, r: Pages, c: Access, v: nat) {
    && WellPaged(m) && WellPaged(r)
    && match c
       case Store(a, w, n) => KeptOutside(m, r, a, n) && Shows(r, a, w, n)
       case Fetch(a, n) => Kept(m, r) && v < Pow256(n) && Shows(r, a, v, n)
       case Fill(dst, c, n) => KeptOutside(m, r, dst, n) && Filled(r, dst, n, c % 256)
       case Copy(dst, src, n) => KeptOutside(m, r, dst, n) && Copied(m, r, dst, src, n)
  }

  ghost predicate Run(states: seq<Pages>, calls: seq<Access>, results: seq<nat>) {
    && |states| == |calls| + 1 == |results| + 1 && WellPaged(states[0])
    && forall i | 0 <= i < |calls| :: Step(states[i], states[i + 1], calls[i], results[i])
  }

  /**
   * The byte a flat memory holds after the calls, which held the bytes of `m` before them; -1 if it has never been set.
   */
  ghost function FlatByte(m: Pages, calls: seq<Access>, x: nat): int
    requires WellPaged(m)
    decreases |calls|
  {
    if calls == [] then if Has(m, x) then At(m, x) else -1
    else
      var c, before := calls[|calls| - 1], calls[..|calls| - 1];
      match c
      case Store(a, w, n) => if a <= x < a + n then ByteOf(w, x - a) else FlatByte(m, before, x)
      case Fetch(_, _) => FlatByte(m, before, x)
      case Fill(dst, c, n) => if dst <= x < dst + n then c % 256 else FlatByte(m, before, x)
      case Copy(dst, src, n) =>
        if dst <= x < dst + n then FlatByte(m, before, CopiedFrom(dst, src, x)) else FlatByte(m, before, x)
  }

  /** In every run the memory holds at each address the byte the flat memory holds there. */
  lemma {:induction false} RunIsFlat(states: seq<Pages>, calls: seq<Access>, results: seq<nat>, x: nat)
    requires Run(states, calls, results) && FlatByte(states[0], calls, x) >= 0
    ensures WellPaged(states[|calls|]) && Has(states[|calls|], x)
            && At(states[|calls|], x) == FlatByte(states[0], calls, x)
    decreases |calls|
  {
    if calls != [] {
      var k := |calls| - 1;
      var c := calls[k];
      assert Step(states[k], states[k + 1], c, results[k]);
      assert states[..k + 1][0] == states[0] && Run(states[..k + 1], calls[..k], results[..k]);
      if c.Copy? && c.dst <= x < c.dst + c.n {
        RunIsFlat(states[..k + 1], calls[..k], results[..k], CopiedFrom(c.dst, c.src, x));
        assert CopiedAt(states[k], states[k + 1], c.dst, c.src, x);
      } else if c.Fetch? {
        RunIsFlat(states[..k + 1], calls[..k], results[..k], x);
        KeptAt(states[k], states[k + 1], x);
      } else if c.Copy? || (c.Store? && !(c.a <= x < c.a + c.n)) || (c.Fill? && !(c.dst <= x < c.dst + c.n)) {
        RunIsFlat(states[..k + 1], calls[..k], results[..k], x);
      }
    }
  }

  /** A read in a run returns the bytes of the flat memory, whatever else the pages and the words behind them hold. */
  lemma ReadReturnsStored(states: seq<Pages>, calls: seq<Access>, results: seq<nat>, i: nat, k: nat)
    requires Run(states, calls, results) && i < |calls| && calls[i].Fetch? && k < calls[i].n
    requires FlatByte(states[0], calls[..i], calls[i].a + k) >= 0
    ensures results[i] < Pow256(calls[i].n) && ByteOf(results[i], k) == FlatByte(states[0], calls[..i], calls[i].a + k)
  {
    var x := calls[i].a + k;
    assert Step(states[i], states[i + 1], calls[i], results[i]);
    assert states[..i + 1][0] == states[0] && Run(states[..i + 1], calls[..i], results[..i]);
    RunIsFlat(states[..i + 1], calls[..i], results[..i], x);
    KeptAt(states[i], states[i + 1], x);
    assert ByteOf(results[i], x - calls[i].a) == At(states[i + 1], x);
  }

  /** The call may change the byte at `x`. */
  predicate Writes(c: Access, x: nat) {
    match c
    case Store(a, _, n) => a <= x < a + n
    case Fetch(_, _) => false
    case Fill(dst, _, n) => dst <= x < dst + n
    case Copy(dst, _, n) => dst <= x < dst + n
  }

  /** A byte stays what it is over calls that do not write there. */
  lemma {:induction false} FlatByteStays(m: Pages, calls: seq<Access>, j: nat, x: nat)
    requires WellPaged(m) && j <= |calls| && forall i | j <= i < |calls| :: !Writes(calls[i], x)
    ensures FlatByte(m, calls, x) == FlatByte(m, calls[..j], x)
    decreases |calls|
  {
    if j < |calls| {
      FlatByteStays(m, calls[..|calls| - 1], j, x);
      assert calls[..|calls| - 1][..j] == calls[..j];
      assert !Writes(calls[|calls| - 1], x);
    } else {
      assert calls[..j] == calls;
    }
  }

  /**
   * A read of what an earlier write stored, with no write to these bytes in between, returns the low `n` bytes of the
   * word written.
   */
  lemma WrittenIsRead(states: seq<Pages>, calls: seq<Access>, results: seq<nat>, j: nat, i: nat)
    requires Run(states, calls, results) && j < i < |calls| && calls[j].Store?
             && calls[i] == Fetch(calls[j].a, calls[j].n)
    requires forall l, x: nat | j < l < i && calls[j].a <= x < calls[j].a + calls[j].n :: !Writes(calls[l], x)
    ensures results[i] == calls[j].w % Pow256(calls[j].n)
  {
    var w, a, n := calls[j].w, calls[j].a, calls[j].n;
    forall k: nat | k < n ensures ByteOf(results[i], k) == ByteOf(Masked(w, n), k) {
      FlatByteStays(states[0], calls[..i], j + 1, a + k);
      assert calls[..i][..j + 1] == calls[..j + 1] && calls[..j + 1][..j] == calls[..j];
      assert FlatByte(states[0], calls[..j + 1], a + k) == ByteOf(w, k);
      ReadReturnsStored(states, calls, results, i, k);
      MaskedByte(w, n, k);
    }
    assert Step(states[i], states[i + 1], calls[i], results[i]);
    LowBelow(w, n);
    BytesDetermine(results[i], Masked(w, n), n);
    MaskIsRemainder(w, n);
  }
}
