/** The proxy's object cache as a value: a list from the least to the most recently used object, with pins. */
module ObjectCache {
  import opened Sequences

  const MAX_OBJECT_SIZE: nat := 102400
  const MAX_CACHE_SIZE: nat := 1048576

  /** A `cache_obj_t`. */
  class CacheObj {
    const key: string
    const webObj: seq<bv8>
    const size: nat
    var referenceCnt: int
    var prev: CacheObj?
    var next: CacheObj?

    constructor (key: string, webObj: seq<bv8>)
      ensures this.key == key && this.webObj == webObj && this.size == |webObj|
      ensures referenceCnt == 0 && prev == null && next == null
    {
      this.key, this.webObj, this.size, referenceCnt, prev, next := key, webObj, |webObj|, 0, null, null;
    }
  }

  /** The list, least recently used first, and the reference counts. */
  datatype Cached = Cached(order: seq<CacheObj>, refs: map<CacheObj, int>)

  /** The bytes of all objects. */
  ghost function Total(s: seq<CacheObj>): nat { TotalOf(s, |s|) }

  /** The bytes of the first `n` objects. */
  ghost function TotalOf(s: seq<CacheObj>, n: nat): nat
    requires n <= |s|
  {
    if n == 0 then 0 else TotalOf(s, n - 1) + s[n - 1].size
  }

  lemma {:induction false} TotalSame(s: seq<CacheObj>, t: seq<CacheObj>, n: nat)
    requires n <= |s| && n <= |t| && forall i | 0 <= i < n :: s[i] == t[i]
    ensures TotalOf(s, n) == TotalOf(t, n)
  {
    if n > 0 {
      TotalSame(s, t, n - 1);
    }
  }

  /** The first object with the key, or -1. */
  ghost function FindKey(s: seq<CacheObj>, key: string, from: nat): (k: int)
    requires from <= |s|
    ensures k == -1 || (from <= k < |s| && s[k].key == key)
    ensures forall i | from <= i < (if k >= 0 then k else |s|) :: s[i].key != key
    decreases |s| - from
  {
    if from == |s| then -1 else if s[from].key == key then from else FindKey(s, key, from + 1)
  }

  ghost predicate Pinned(refs: map<CacheObj, int>, o: CacheObj) {
    o in refs && refs[o] > 0
  }

  /** The first object that is not pinned, or the length of the list. */
  ghost function FirstFree(s: seq<CacheObj>, refs: map<CacheObj, int>, from: nat): (k: nat)
    requires from <= |s|
    ensures from <= k <= |s| && (k < |s| ==> !Pinned(refs, s[k]))
    ensures forall i | from <= i < k :: Pinned(refs, s[i])
    decreases |s| - from
  {
    if from == |s| || !Pinned(refs, s[from]) then from else FirstFree(s, refs, from + 1)
  }

  /**
   * `evict_obj_in_cache`: objects that are not pinned go, the oldest first, until `needed` bytes fit or none is left.
   */
  ghost function Evict(s: seq<CacheObj>, refs: map<CacheObj, int>, needed: nat): seq<CacheObj>
    decreases |s|
  {
    var k := FirstFree(s, refs, 0);
    if needed + Total(s) <= MAX_CACHE_SIZE || k == |s| then s else Evict(Without(s, k), refs, needed)
  }

  /** The cache after `evict_obj_in_cache`. */
  ghost function Evicted(c: Cached, needed: nat): Cached {
    Cached(Evict(c.order, c.refs, needed), Restrict(c.refs, Evict(c.order, c.refs, needed)))
  }

  ghost function Restrict(refs: map<CacheObj, int>, s: seq<CacheObj>): map<CacheObj, int> {
    map o | o in refs && o in s :: refs[o]
  }

  /** `search_cache_obj`: a hit is pinned once more and becomes the most recently used. */
  ghost function Search(c: Cached, key: string): (Cached, CacheObj?)
    requires forall o | o in c.order :: o in c.refs
  {
    var k := FindKey(c.order, key, 0);
    if k == -1 then (c, null)
    else
      var o := c.order[k];
      (Cached(MovedLast(c.order, k), c.refs[o := c.refs[o] + 1]), o)
  }

  /** `insert_cache_obj_to_cache` with the object it would create. */
  ghost function Insert(c: Cached, o: CacheObj): Cached {
    if o.size > MAX_OBJECT_SIZE || FindKey(c.order, o.key, 0) != -1 then c
    else
      var d := Evicted(c, o.size);
      Cached(d.order + [o], d.refs[o := 0])
  }

  /** `free_cache_obj`. */
  ghost function Release(c: Cached, o: CacheObj): Cached
    requires o in c.refs
  {
    c.(refs := c.refs[o := c.refs[o] - 1])
  }

  ghost predicate Unique(s: seq<CacheObj>) {
    forall i, j | 0 <= i < j < |s| :: s[i] != s[j] && s[i].key != s[j].key
  }

  /** Objects and keys occur once, every object is small enough and has a count that is not negative. */
  ghost predicate Sound(c: Cached) {
    && Unique(c.order)
    && (forall o | o in c.refs :: o in c.order) && (forall o | o in c.order :: o in c.refs)
    && (forall o | o in c.order :: c.refs[o] >= 0 && o.size == |o.webObj| <= MAX_OBJECT_SIZE)
  }

  /** `t` is what is left of `s`: a subsequence with everything that is pinned. */
  ghost predicate Kept(s: seq<CacheObj>, t: seq<CacheObj>, refs: map<CacheObj, int>) {
    && (forall o | o in t :: o in s)
    && (forall o | o in s && Pinned(refs, o) :: o in t)
  }

  lemma WithoutMembers(s: seq<CacheObj>, k: nat)
    requires k < |s| && Unique(s)
    ensures Unique(Without(s, k)) && forall o :: o in Without(s, k) <==> o in s && o != s[k]
  {
    var w := Without(s, k);
    forall o | o in s && o != s[k] ensures o in w {
      var i :| 0 <= i < |s| && s[i] == o;
      assert w[if i < k then i else i - 1] == o;
    }
    forall i | 0 <= i < |w| ensures w[i] != s[k] && w[i] in s {
      var j := if i < k then i else i + 1;
      assert w[i] == s[j];
      assert if j < k then s[j] != s[k] else s[k] != s[j];
    }
  }

  lemma {:induction false} TotalBeyond(s: seq<CacheObj>, k: nat, n: nat)
    requires k < n <= |s|
    ensures TotalOf(Without(s, k), n - 1) + s[k].size == TotalOf(s, n)
  {
    if n == k + 1 {
      TotalSame(Without(s, k), s, k);
    } else {
      TotalBeyond(s, k, n - 1);
      assert Without(s, k)[n - 2] == s[n - 1];
    }
  }

  lemma TotalWithout(s: seq<CacheObj>, k: nat)
    requires k < |s|
    ensures Total(Without(s, k)) + s[k].size == Total(s)
  {
    TotalBeyond(s, k, |s|);
  }

  lemma TotalLast(s: seq<CacheObj>, o: CacheObj)
    ensures Total(s + [o]) == Total(s) + o.size
  {
    TotalSame(s + [o], s, |s|);
  }

  /** The cache without object `k`. */
  ghost function Dropped(c: Cached, k: nat): Cached
    requires k < |c.order|
  {
    Cached(Without(c.order, k), Restrict(c.refs, Without(c.order, k)))
  }

  /** What there is to know about the cache without object `k`. */
  ghost predicate DropsTo(c: Cached, k: nat, d: Cached)
    requires k < |c.order|
  {
    && Sound(d) && Total(d.order) + c.order[k].size == Total(c.order)
    && d.order == Without(c.order, k) && c.order[k] !in d.order
    && (forall o | o in d.refs :: o in c.refs && o != c.order[k] && d.refs[o] == c.refs[o])
    && (forall o | o in c.refs && o != c.order[k] :: o in d.refs)
  }

  lemma DroppedSound(c: Cached, k: nat)
    requires Sound(c) && k < |c.order|
    ensures DropsTo(c, k, Dropped(c, k))
  {
    WithoutMembers(c.order, k);
    TotalWithout(c.order, k);
  }

  /** Eviction keeps the pinned objects and their order, and stops only when there is room or nothing else may go. */
  lemma {:induction false} EvictKeeps(s: seq<CacheObj>, refs: map<CacheObj, int>, needed: nat)
    requires Unique(s)
    ensures var t := Evict(s, refs, needed);
            Unique(t) && Kept(s, t, refs)
            && (needed + Total(t) <= MAX_CACHE_SIZE || forall o | o in t :: Pinned(refs, o))
    decreases |s|
  {
    var k := FirstFree(s, refs, 0);
    if needed + Total(s) > MAX_CACHE_SIZE && k < |s| {
      WithoutMembers(s, k);
      EvictKeeps(Without(s, k), refs, needed);
    }
  }

  /** Counts of objects that are not in the list do not matter. */
  lemma {:induction false} EvictSame(s: seq<CacheObj>, refs: map<CacheObj, int>, other: map<CacheObj, int>, needed: nat)
    requires forall o | o in s :: Pinned(refs, o) == Pinned(other, o)
    ensures Evict(s, refs, needed) == Evict(s, other, needed)
    decreases |s|
  {
    FirstFreeSame(s, refs, other, 0);
    var k := FirstFree(s, refs, 0);
    if k < |s| && needed + Total(s) > MAX_CACHE_SIZE {
      EvictSame(Without(s, k), refs, other, needed);
    }
  }

  lemma {:induction false} FirstFreeSame(s: seq<CacheObj>, refs: map<CacheObj, int>, other: map<CacheObj, int>,
          from: nat)
    requires from <= |s| && forall o | o in s :: Pinned(refs, o) == Pinned(other, o)
    ensures FirstFree(s, refs, from) == FirstFree(s, other, from)
    decreases |s| - from
  {
    if from < |s| {
      FirstFreeSame(s, refs, other, from + 1);
    }
  }

  lemma RestrictAll(c: Cached)
    requires Sound(c)
    ensures Restrict(c.refs, c.order) == c.refs
  {
  }

  /** One round of the eviction loop. */
  lemma EvictedStep(c: Cached, needed: nat, k: nat) returns (d: Cached)
    requires Sound(c) && needed + Total(c.order) > MAX_CACHE_SIZE && k < |c.order| && k == FirstFree(c.order, c.refs, 0)
    ensures DropsTo(c, k, d) && EvictsTo(c, d, needed, true)
  {
    d := Dropped(c, k);
    DroppedSound(c, k);
    EvictSame(d.order, d.refs, c.refs, needed);
    EvictKeeps(d.order, d.refs, needed);
    RestrictTwice(c.refs, d.order, Evict(d.order, d.refs, needed));
  }

  lemma RestrictTwice(refs: map<CacheObj, int>, s: seq<CacheObj>, t: seq<CacheObj>)
    requires forall o | o in t :: o in s
    ensures Restrict(Restrict(refs, s), t) == Restrict(refs, t)
  {
  }

  /** What one round does: it takes an object out, or there is nothing left to do. */
  ghost predicate EvictsTo(c: Cached, d: Cached, needed: nat, evicted: bool) {
    Evicted(d, needed) == Evicted(c, needed) && if evicted then |d.order| < |c.order| else d == c == Evicted(c, needed)
  }

  /** The eviction loop stops with nothing left to do. */
  lemma EvictedDone(c: Cached, needed: nat)
    requires Sound(c) && (needed + Total(c.order) <= MAX_CACHE_SIZE || FirstFree(c.order, c.refs, 0) == |c.order|)
    ensures EvictsTo(c, c, needed, false)
  {
    RestrictAll(c);
  }

  /** `a` lies before `b` in the list. */
  ghost predicate Older(s: seq<CacheObj>, a: CacheObj, b: CacheObj) {
    exists i, j :: 0 <= i < j < |s| && s[i] == a && s[j] == b
  }

  lemma OlderWithout(s: seq<CacheObj>, k: nat, a: CacheObj, b: CacheObj)
    requires k < |s| && Older(Without(s, k), a, b)
    ensures Older(s, a, b)
  {
    var w := Without(s, k);
    var i, j :| 0 <= i < j < |w| && w[i] == a && w[j] == b;
    assert s[if i < k then i else i + 1] == a && s[if j < k then j else j + 1] == b;
  }

  /** What goes is always less recently used than every object that stays without being pinned. */
  lemma {:induction false} EvictsOldest(s: seq<CacheObj>, refs: map<CacheObj, int>, needed: nat, gone: CacheObj,
          left: CacheObj)
    requires Unique(s) && gone in s && gone !in Evict(s, refs, needed) && left in Evict(s, refs, needed)
             && !Pinned(refs, left)
    ensures Older(s, gone, left)
    decreases |s|
  {
    var k := FirstFree(s, refs, 0);
    WithoutMembers(s, k);
    EvictKeeps(Without(s, k), refs, needed);
    if gone == s[k] {
      var j :| 0 <= j < |s| && s[j] == left;
      assert j > k;
    } else {
      EvictsOldest(Without(s, k), refs, needed, gone, left);
      OlderWithout(s, k, gone, left);
    }
  }

  /** Taking `u[k]` out of `u` leaves `t`, and that object was not pinned and had to go for `needed` bytes to fit. */
  ghost predicate LastEviction(u: seq<CacheObj>, k: nat, t: seq<CacheObj>, refs: map<CacheObj, int>, needed: nat) {
    k < |u| && Without(u, k) == t && needed + Total(u) > MAX_CACHE_SIZE && !Pinned(refs, u[k])
  }

  /** Nothing goes without need: before the last eviction there was no room. */
  lemma {:induction false} EvictsOnlyIfNeeded(s: seq<CacheObj>, refs: map<CacheObj, int>, needed: nat)
    requires Unique(s) && Evict(s, refs, needed) != s
    ensures exists u, k :: LastEviction(u, k, Evict(s, refs, needed), refs, needed)
    decreases |s|
  {
    var k := FirstFree(s, refs, 0);
    var w := Without(s, k);
    WithoutMembers(s, k);
    if Evict(w, refs, needed) != w {
      EvictsOnlyIfNeeded(w, refs, needed);
    } else {
      assert LastEviction(s, k, Evict(s, refs, needed), refs, needed);
    }
  }

  lemma UniqueLast(s: seq<CacheObj>, o: CacheObj)
    requires Unique(s) && forall x | x in s :: x != o && x.key != o.key
    ensures Unique(s + [o]) && o in s + [o]
  {
    var t := s + [o];
    assert t[|s|] == o;
    forall i, j | 0 <= i < j < |t| ensures t[i] != t[j] && t[i].key != t[j].key {
      assert t[i] in s;
    }
  }

  /** The list with object `k` as the most recently used. */
  ghost function MovedLast(s: seq<CacheObj>, k: nat): seq<CacheObj>
    requires k < |s|
  {
    Without(s, k) + [s[k]]
  }

  lemma MovedLastKeeps(s: seq<CacheObj>, k: nat)
    requires k < |s| && Unique(s)
    ensures var r := MovedLast(s, k); Unique(r) && Total(r) == Total(s) && forall x :: x in r <==> x in s
  {
    WithoutMembers(s, k);
    forall x | x in Without(s, k) ensures x.key != s[k].key {
      var i :| 0 <= i < |s| && s[i] == x;
      assert if i < k then s[i].key != s[k].key else s[k].key != s[i].key;
    }
    UniqueLast(Without(s, k), s[k]);
    TotalWithout(s, k);
    TotalLast(Without(s, k), s[k]);
  }

  /** Same objects in any order, one count changed. */
  lemma Recounted(c: Cached, s: seq<CacheObj>, o: CacheObj, n: nat)
    requires Sound(c) && Unique(s) && (forall x :: x in s <==> x in c.order) && o in c.order
    ensures Sound(Cached(s, c.refs[o := n]))
  {
  }

  /** Counts stay sound when a handle is released exactly if there was one. */
  lemma ReleaseSound(c: Cached, o: CacheObj)
    requires Sound(c) && o in c.refs
    ensures Sound(Release(c, o)) <==> c.refs[o] > 0
  {
    if c.refs[o] > 0 {
      Recounted(c, c.order, o, c.refs[o] - 1);
    }
  }

  /** A hit on object `k`. */
  ghost predicate HitMoves(c: Cached, d: Cached, k: nat)
    requires k < |c.order|
  {
    var o := c.order[k];
    && o in c.refs && d == Cached(MovedLast(c.order, k), c.refs[o := c.refs[o] + 1])
  }

  lemma HitSound(c: Cached, d: Cached, k: nat)
    requires Sound(c) && k < |c.order| && HitMoves(c, d, k)
    ensures Sound(d) && Total(d.order) == Total(c.order) && forall x :: x in c.order <==> x in d.order
  {
    MovedLastKeeps(c.order, k);
    Recounted(c, d.order, c.order[k], c.refs[c.order[k]] + 1);
  }

  /** A search hits exactly when the key is there, and then object `k` is the only one with that key. */
  lemma SearchHits(c: Cached, key: string) returns (k: int)
    requires Sound(c)
    ensures -1 <= k < |c.order| && k == FindKey(c.order, key, 0)
    ensures k == -1 ==> Search(c, key) == (c, null) && forall x | x in c.order :: x.key != key
    ensures k >= 0 ==> c.order[k].key == key && Search(c, key).1 == c.order[k] && HitMoves(c, Search(c, key).0, k)
  {
    k := FindKey(c.order, key, 0);
  }

  lemma SearchSound(c: Cached, key: string)
    requires Sound(c)
    ensures var d := Search(c, key).0;
            Sound(d) && Total(d.order) == Total(c.order) && forall x :: x in c.order <==> x in d.order
  {
    var k := SearchHits(c, key);
    if k >= 0 {
      HitSound(c, Search(c, key).0, k);
    }
  }

  /** The same for the place where the search loop stops. */
  lemma SearchOutcome(c: Cached, key: string, k: int, d: Cached, o: CacheObj?)
    requires Sound(c) && k == FindKey(c.order, key, 0) && (d, o) == Search(c, key)
    ensures Sound(d) && Total(d.order) == Total(c.order)
    ensures if k == -1 then d == c && o == null else o == c.order[k] && HitMoves(c, d, k)
  {
    SearchSound(c, key);
    var j := SearchHits(c, key);
  }

  /** The objects whose count is above zero. */
  ghost function PinnedIn(c: Cached): set<CacheObj> {
    set o | o in c.order && Pinned(c.refs, o)
  }

  lemma {:induction false} SmallTotal(s: seq<CacheObj>, n: nat, among: set<CacheObj>)
    requires Unique(s) && n <= |s| && forall i | 0 <= i < n :: s[i] in among && s[i].size <= MAX_OBJECT_SIZE
    ensures TotalOf(s, n) <= |among| * MAX_OBJECT_SIZE
  {
    if n > 0 {
      var rest := among - {s[n - 1]};
      SmallTotal(s, n - 1, rest);
      assert |among| == |rest| + 1;
    }
  }

  /** An insert keeps the cache sound; the new object is there unless it is too large or the key was. */
  lemma InsertSound(c: Cached, o: CacheObj)
    requires Sound(c) && o !in c.order && o.size == |o.webObj|
    ensures var d := Insert(c, o);
            Sound(d) && (forall x | x in c.order && Pinned(c.refs, x) :: x in d.order && d.refs[x] == c.refs[x])
            && (forall x | x in d.order :: x == o || (x in c.order && d.refs[x] == c.refs[x]))
            && (o in d.order <==> o.size <= MAX_OBJECT_SIZE && forall x | x in c.order :: x.key != o.key)
            && (o !in d.order ==> d == c) && (o in d.order ==> d.refs[o] == 0)
  {
    if o.size <= MAX_OBJECT_SIZE && FindKey(c.order, o.key, 0) == -1 {
      var s := Evict(c.order, c.refs, o.size);
      EvictKeeps(c.order, c.refs, o.size);
      UniqueLast(s, o);
    }
  }

  /** After an insert the cache is full at most, or as large as the pinned objects and the new one can be. */
  lemma InsertBound(c: Cached, o: CacheObj)
    requires Sound(c) && o !in c.order && o.size == |o.webObj| && o in Insert(c, o).order
    ensures var total := Total(Insert(c, o).order);
            total <= MAX_CACHE_SIZE || total <= (|PinnedIn(c)| + 1) * MAX_OBJECT_SIZE
  {
    InsertSound(c, o);
    var s := Evict(c.order, c.refs, o.size);
    EvictKeeps(c.order, c.refs, o.size);
    TotalLast(s, o);
    if o.size + Total(s) > MAX_CACHE_SIZE {
      SmallTotal(s, |s|, PinnedIn(c));
    }
  }

  /** With at most nine pinned objects that is never more than a full cache. */
  lemma NinePinsFit(c: Cached, o: CacheObj)
    requires Sound(c) && o !in c.order && o.size == |o.webObj| && Total(c.order) <= MAX_CACHE_SIZE && |PinnedIn(c)| <= 9
    ensures Total(Insert(c, o).order) <= MAX_CACHE_SIZE
  {
    InsertSound(c, o);
    if o in Insert(c, o).order {
      InsertBound(c, o);
    }
  }
}
