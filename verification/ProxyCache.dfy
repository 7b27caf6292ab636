/** The proxy's object cache in place, a doubly linked list under one lock: proxy/cache.c. */
module ProxyCache {
  import opened ObjectCache
  import opened Sequences

  datatype Links = Links(prev: CacheObj?, next: CacheObj?)

  type Memory = map<CacheObj, Links>

  ghost function Snapshot(s: set<CacheObj>): Memory
    reads s`prev, s`next
  {
    map o | o in s :: Links(o.prev, o.next)
  }

  ghost function ItemAt(s: seq<CacheObj>, i: int): CacheObj? {
    if 0 <= i < |s| then s[i] else null
  }

  /** Object `i` of the list points to its neighbours. */
  ghost predicate InPlace(m: Memory, s: seq<CacheObj>, i: nat)
    requires i < |s|
  {
    s[i] in m && m[s[i]] == Links(ItemAt(s, i - 1), ItemAt(s, i + 1))
  }

  /** The objects of `s` are linked in that order. */
  ghost predicate Chain(m: Memory, s: seq<CacheObj>, head: CacheObj?, tail: CacheObj?) {
    && Distinct(s) && head == ItemAt(s, 0) && tail == ItemAt(s, |s| - 1)
    && forall i | 0 <= i < |s| :: InPlace(m, s, i)
  }

  ghost function WithPrev(m: Memory, o: CacheObj, p: CacheObj?): Memory
    requires o in m
  {
    m[o := m[o].(prev := p)]
  }

  ghost function WithNext(m: Memory, o: CacheObj, n: CacheObj?): Memory
    requires o in m
  {
    m[o := m[o].(next := n)]
  }

  /** The stores of `remove_cache_obj_from_cache`. */
  ghost function Unlinked(m: Memory, o: CacheObj): Memory
    requires o in m && (m[o].next != null ==> m[o].next in m) && (m[o].prev != null ==> m[o].prev in m)
  {
    var p, n := m[o].prev, m[o].next;
    var m1 := if n != null then WithPrev(m, n, p) else m;
    var m2 := if p != null then WithNext(m1, p, n) else m1;
    m2[o := Links(null, null)]
  }

  lemma UnlinkedAt(m: Memory, s: seq<CacheObj>, k: nat, head: CacheObj?, tail: CacheObj?, i: nat)
    requires Chain(m, s, head, tail) && k < |s| && InPlace(m, s, k) && i < |s| - 1
    requires m[s[k]].next != null ==> m[s[k]].next in m
    requires m[s[k]].prev != null ==> m[s[k]].prev in m
    ensures InPlace(Unlinked(m, s[k]), Without(s, k), i)
  {
    var w := Without(s, k);
    var j := if i < k then i else i + 1;
    assert InPlace(m, s, j) && s[j] != s[k] && w[i] == s[j];
    assert i != k - 1 ==> ItemAt(w, i + 1) == ItemAt(s, j + 1);
    assert i == k - 1 ==> ItemAt(w, i + 1) == ItemAt(s, k + 1);
    assert i != k ==> ItemAt(w, i - 1) == ItemAt(s, j - 1);
    assert i == k ==> ItemAt(w, i - 1) == ItemAt(s, k - 1);
    assert s[j] == m[s[k]].next <==> j == k + 1;
    assert s[j] == m[s[k]].prev <==> j == k - 1;
  }

  /** The list and its ends after `remove_cache_obj_from_cache`. */
  lemma UnlinkedChain(m: Memory, s: seq<CacheObj>, k: nat, head: CacheObj?, tail: CacheObj?)
    requires Chain(m, s, head, tail) && k < |s|
    ensures s[k] in m && m[s[k]] == Links(ItemAt(s, k - 1), ItemAt(s, k + 1)) && m[s[k]].prev != s[k]
            && m[s[k]].next != s[k]
    ensures m[s[k]].next != null ==> m[s[k]].next in m
    ensures m[s[k]].prev != null ==> m[s[k]].prev in m
    ensures Chain(Unlinked(m, s[k]), Without(s, k),
                  if k == 0 then ItemAt(s, 1) else head, if k == |s| - 1 then ItemAt(s, k - 1) else tail)
  {
    assert InPlace(m, s, k) && (k > 0 ==> InPlace(m, s, k - 1)) && (k < |s| - 1 ==> InPlace(m, s, k + 1));
    forall i | 0 <= i < |s| - 1 ensures InPlace(Unlinked(m, s[k]), Without(s, k), i) {
      UnlinkedAt(m, s, k, head, tail, i);
    }
  }

  /** The stores of `insert_cache_obj_to_tail`. */
  ghost function Appended(m: Memory, o: CacheObj, tail: CacheObj?): Memory
    requires o in m && (tail != null ==> tail in m)
  {
    var m1 := WithPrev(WithNext(m, o, null), o, tail);
    if tail != null then WithNext(m1, tail, o) else m1
  }

  lemma AppendedChain(m: Memory, s: seq<CacheObj>, o: CacheObj, head: CacheObj?, tail: CacheObj?)
    requires Chain(m, s, head, tail) && o !in s && o in m
    ensures tail != null ==> tail in m
    ensures Chain(Appended(m, o, tail), s + [o], if head == null then o else head, o)
  {
    var t := s + [o];
    var n := |s|;
    assert n > 0 ==> InPlace(m, s, n - 1);
    forall i | 0 <= i < |t| ensures InPlace(Appended(m, o, tail), t, i) {
      if i < n {
        assert InPlace(m, s, i) && t[i] == s[i];
        assert ItemAt(t, i - 1) == ItemAt(s, i - 1);
        assert i < n - 1 ==> ItemAt(t, i + 1) == ItemAt(s, i + 1);
        assert i < n - 1 ==> s[i] != s[n - 1];
      }
    }
  }

  lemma SnapshotWithout(s: set<CacheObj>, o: CacheObj)
    ensures Snapshot(s - {o}) == Snapshot(s) - {o}
  {
  }

  lemma SnapshotWith(s: set<CacheObj>, o: CacheObj)
    ensures Snapshot(s + {o}) == Snapshot(s)[o := Links(o.prev, o.next)]
  {
  }

  /** Objects the list does not have do not matter. */
  lemma ChainWithout(m: Memory, s: seq<CacheObj>, head: CacheObj?, tail: CacheObj?, o: CacheObj)
    requires Chain(m, s, head, tail) && o !in s
    ensures Chain(m - {o}, s, head, tail)
  {
    forall i | 0 <= i < |s| ensures InPlace(m - {o}, s, i) {
      assert InPlace(m, s, i);
    }
  }

  lemma ChainWith(m: Memory, s: seq<CacheObj>, head: CacheObj?, tail: CacheObj?, o: CacheObj, l: Links)
    requires Chain(m, s, head, tail) && o !in s
    ensures Chain(m[o := l], s, head, tail)
  {
    var r := m[o := l];
    forall i | 0 <= i < |s| ensures InPlace(r, s, i) {
      assert InPlace(m, s, i);
    }
  }

  class ProxyCache {
    var head: CacheObj?
    var tail: CacheObj?
    var size: nat
    /** What the cache holds. */
    ghost var state: Cached
    /** The objects in the list or just taken out of it. */
    ghost var objects: set<CacheObj>

    /** The pointers are those of the list `s`. */
    ghost predicate Listed(s: seq<CacheObj>)
      reads `head, `tail, `objects, objects`prev, objects`next
    {
      Chain(Snapshot(objects), s, head, tail)
    }

    /** The counts in the objects. */
    ghost predicate Counted(refs: map<CacheObj, int>)
      reads `objects, objects`referenceCnt
    {
      (forall o | o in objects :: o in refs && refs[o] == o.referenceCnt) && forall o | o in refs :: o in objects
    }

    ghost predicate Valid()
      reads this, objects
    {
      Listed(state.order) && Counted(state.refs) && Sound(state) && size == Total(state.order)
    }

    /** `init_cache`. */
    constructor ()
      ensures Valid() && state == Cached([], map[])
    {
      head, tail, size, state, objects := null, null, 0, Cached([], map[]), {};
    }

    method SetPrev(o: CacheObj, p: CacheObj?)
      requires o in objects
      modifies o`prev
      ensures Snapshot(objects) == WithPrev(old(Snapshot(objects)), o, p)
    {
      o.prev := p;
    }

    method SetNext(o: CacheObj, n: CacheObj?)
      requires o in objects
      modifies o`next
      ensures Snapshot(objects) == WithNext(old(Snapshot(objects)), o, n)
    {
      o.next := n;
    }

    /** `remove_cache_obj_from_cache`, store by store. */
    method UnlinkStores(o: CacheObj)
      requires o in objects && o.next != o && o.prev != o
      requires (o.next != null ==> o.next in objects) && (o.prev != null ==> o.prev in objects)
      modifies `head, `tail, objects`prev, objects`next
      ensures Snapshot(objects) == Unlinked(old(Snapshot(objects)), o)
      ensures head == if old(o.prev) == null then old(o.next) else old(head)
      ensures tail == if old(o.next) == null then old(o.prev) else old(tail)
    {
      ghost var m := Snapshot(objects);
      ghost var m1 := if o.next != null then WithPrev(m, o.next, o.prev) else m;
      ghost var m2 := if o.prev != null then WithNext(m1, o.prev, o.next) else m1;
      if o.next != null {
        SetPrev(o.next, o.prev);
      } else {
        tail := o.prev;
      }
      assert Snapshot(objects) == m1;
      if o.prev != null {
        SetNext(o.prev, o.next);
      } else {
        head := o.next;
      }
      assert Snapshot(objects) == m2;
      SetNext(o, null);
      SetPrev(o, null);
    }

    /** `remove_cache_obj_from_cache` of object `k` of the list. */
    method Unlink(o: CacheObj, ghost k: nat)
      requires Listed(state.order) && k < |state.order| && state.order[k] == o
      modifies `head, `tail, `state, objects`prev, objects`next
      ensures Listed(state.order) && state == old(state).(order := Without(old(state).order, k))
    {
      ghost var m := Snapshot(objects);
      UnlinkedChain(m, state.order, k, head, tail);
      assert m[o] == Links(o.prev, o.next);
      UnlinkStores(o);
      state := state.(order := Without(state.order, k));
    }

    /** `insert_cache_obj_to_tail`, store by store. */
    method AppendStores(o: CacheObj)
      requires o in objects && (tail != null ==> tail in objects)
      modifies `head, `tail, objects`prev, objects`next
      ensures Snapshot(objects) == Appended(old(Snapshot(objects)), o, old(tail))
      ensures head == (if old(head) == null then o else old(head)) && tail == o
    {
      SetNext(o, null);
      SetPrev(o, tail);
      if tail != null {
        SetNext(tail, o);
      }
      tail := o;
      if head == null {
        head := o;
      }
    }

    /** `insert_cache_obj_to_tail`. */
    method Append(o: CacheObj)
      requires Listed(state.order) && o in objects && o !in state.order
      modifies `head, `tail, `state, objects`prev, objects`next
      ensures Listed(state.order) && state == old(state).(order := old(state).order + [o])
    {
      AppendedChain(Snapshot(objects), state.order, o, head, tail);
      AppendStores(o);
      state := state.(order := state.order + [o]);
    }

    /** Following `next` goes through the list in order. */
    lemma NextOf(k: nat)
      requires Listed(state.order) && k < |state.order|
      ensures state.order[k] in objects && state.order[k].next == ItemAt(state.order, k + 1)
    {
      var m := Snapshot(objects);
      assert InPlace(m, state.order, k);
      assert m[state.order[k]] == Links(state.order[k].prev, state.order[k].next);
    }

    /** The inner loop of `evict_obj_in_cache`: the first object that is not in use. */
    method FirstUnpinned() returns (curr: CacheObj?, ghost k: nat)
      requires Listed(state.order) && Counted(state.refs)
      ensures k == FirstFree(state.order, state.refs, 0) && curr == ItemAt(state.order, k)
    {
      curr := head;
      k := 0;
      while curr != null && curr.referenceCnt > 0
        invariant k <= |state.order| && curr == ItemAt(state.order, k)
        invariant FirstFree(state.order, state.refs, k) == FirstFree(state.order, state.refs, 0)
        decreases |state.order| - k
      {
        NextOf(k);
        curr := curr.next;
        k := k + 1;
      }
      if curr != null {
        NextOf(k);
      }
    }

    /** An object leaves the cache for good; `d` is what is left. */
    method Drop(o: CacheObj, ghost k: nat, ghost d: Cached)
      requires Listed(state.order) && Counted(state.refs) && k < |state.order| && state.order[k] == o
               && DropsTo(state, k, d)
      requires size == Total(state.order)
      modifies `head, `tail, `size, `state, `objects, objects`prev, objects`next
      ensures Listed(state.order) && Counted(d.refs) && state == d && size == Total(d.order)
              && objects == old(objects) - {o}
    {
      assert CountedBut(d.refs, o);
      Unlink(o, k);
      size := size - o.size;
      Forget(o, d);
    }

    /** The counts in all objects but `o`. */
    ghost predicate CountedBut(refs: map<CacheObj, int>, o: CacheObj)
      reads `objects, objects`referenceCnt
    {
      && (forall x | x in objects && x != o :: x in refs && refs[x] == x.referenceCnt)
      && forall x | x in refs :: x in objects && x != o
    }

    /** An object that is not in the list any more is freed. */
    ghost method Forget(o: CacheObj, d: Cached)
      requires Listed(state.order) && state.order == d.order && o !in d.order
      requires CountedBut(d.refs, o)
      modifies `objects, `state
      ensures Listed(state.order) && Counted(d.refs) && state == d && objects == old(objects) - {o}
    {
      SnapshotWithout(objects, o);
      ChainWithout(Snapshot(objects), d.order, head, tail, o);
      objects := objects - {o};
      state := d;
    }

    ghost predicate SoundAs(d: Cached)
      reads this, objects
    {
      Listed(state.order) && Counted(d.refs) && state == d && Sound(d) && size == Total(d.order)
    }

    /** The oldest object that is not in use goes. */
    method DropFirstFree(o: CacheObj, ghost k: nat, ghost needed: nat) returns (ghost d: Cached)
      requires Valid() && needed + size > MAX_CACHE_SIZE
      requires k < |state.order| && k == FirstFree(state.order, state.refs, 0) && state.order[k] == o
      modifies `head, `tail, `size, `state, `objects, objects`prev, objects`next
      ensures SoundAs(d) && objects <= old(objects) && EvictsTo(old(state), d, needed, true)
    {
      d := EvictedStep(state, needed, k);
      Drop(o, k, d);
    }

    /** One round of `evict_obj_in_cache`: the oldest object that is not in use goes, if there is one. */
    method EvictOne(ghost needed: nat) returns (evicted: bool, ghost d: Cached)
      requires Valid() && needed + size > MAX_CACHE_SIZE
      modifies `head, `tail, `size, `state, `objects, objects`prev, objects`next
      ensures SoundAs(d) && objects <= old(objects) && EvictsTo(old(state), d, needed, evicted)
    {
      var curr, k := FirstUnpinned();
      evicted := curr != null;
      if evicted {
        d := DropFirstFree(curr, k, needed);
      } else {
        d := state;
        EvictedDone(state, needed);
      }
    }

    /** `evict_obj_in_cache`. */
    method EvictObjects(needed: nat)
      requires Valid()
      modifies `head, `tail, `size, `state, `objects, objects`prev, objects`next
      ensures Valid() && objects <= old(objects) && state == Evicted(old(state), needed)
    {
      ghost var c, d, left := Evicted(state, needed), state, |state.order|;
      var more := true;
      while more && needed + size > MAX_CACHE_SIZE
        invariant Valid() && objects <= old(objects) && state == d && left == |d.order|
        invariant Evicted(d, needed) == c && (!more ==> d == c)
        decreases left, more
      {
        more, d := EvictOne(needed);
        left := |d.order|;
      }
      if more {
        EvictedDone(d, needed);
      }
    }

    /** The search loop of `search_cache_obj` and `insert_cache_obj_to_cache`. */
    method FindObject(key: string) returns (curr: CacheObj?, ghost k: int)
      requires Listed(state.order)
      ensures k == FindKey(state.order, key, 0) && curr == ItemAt(state.order, k)
    {
      curr := head;
      ghost var i := 0;
      while curr != null
        invariant i <= |state.order| && curr == ItemAt(state.order, i)
        invariant FindKey(state.order, key, i) == FindKey(state.order, key, 0)
        decreases |state.order| - i
      {
        if curr.key == key {
          return curr, i;
        }
        NextOf(i);
        curr := curr.next;
        i := i + 1;
      }
      k := -1;
    }

    method AddCount(o: CacheObj, change: int, ghost refs: map<CacheObj, int>)
      requires Counted(refs) && o in objects && o in refs
      modifies o`referenceCnt
      ensures Counted(refs[o := refs[o] + change])
    {
      o.referenceCnt := o.referenceCnt + change;
    }

    /** `search_cache_obj`: under the lock, the object with the key is pinned once more and moved to the tail. */
    method SearchObject(key: string) returns (obj: CacheObj?)
      requires Valid()
      modifies `head, `tail, `state, objects
      ensures Valid() && (state, obj) == Search(old(state), key) && objects == old(objects)
    {
      ghost var d, o := SearchResult(state, key);
      ghost var k;
      obj, k := FindObject(key);
      SearchOutcome(state, key, k, d, o);
      if obj != null {
        PinFound(obj, k, d);
      }
    }

    /** The object found is pinned and goes to the tail. */
    method PinFound(obj: CacheObj, ghost k: nat, ghost d: Cached)
      requires Valid() && Sound(d) && Total(d.order) == Total(state.order)
      requires k < |state.order| && state.order[k] == obj && HitMoves(state, d, k)
      modifies `head, `tail, `state, objects
      ensures SoundAs(d)
    {
      HitObject(obj, k, d);
    }

    /** An object of the list goes to the tail. */
    method MoveToTail(obj: CacheObj, ghost k: nat)
      requires Listed(state.order) && k < |state.order| && state.order[k] == obj && Unique(state.order)
      modifies `head, `tail, `state, objects`prev, objects`next
      ensures Listed(state.order) && state == old(state).(order := MovedLast(old(state).order, k))
    {
      if tail != obj {
        LeftAlone(state.order, k);
        NextOf(k);
        Unlink(obj, k);
        Append(obj);
      } else {
        LastAlready(state.order, k);
      }
    }

    /** The hit half of `search_cache_obj`; `d` is the cache after it. */
    method HitObject(obj: CacheObj, ghost k: nat, ghost d: Cached)
      requires Listed(state.order) && Counted(state.refs) && Unique(state.order)
      requires k < |state.order| && state.order[k] == obj && HitMoves(state, d, k)
      modifies `head, `tail, `state, objects
      ensures Listed(d.order) && Counted(d.refs) && state == d
    {
      ghost var s := state.order;
      NextOf(k);
      AddCount(obj, 1, state.refs);
      state := Cached(s, d.refs);
      MoveToTail(obj, k);
      assert state == d;
    }

    /** `free_cache_obj`: one pin less, which is sound exactly if there was one. */
    method ReleaseObject(obj: CacheObj?)
      requires Valid() && (obj != null ==> obj in objects)
      modifies `state, objects`referenceCnt
      ensures state == if obj == null then old(state) else Release(old(state), obj)
      ensures Listed(state.order) && Counted(state.refs) && size == Total(state.order)
      ensures Valid() <==> obj == null || old(obj.referenceCnt) > 0
    {
      if obj != null {
        ReleaseSound(state, obj);
        Unpin(obj);
      }
    }

    method Unpin(obj: CacheObj)
      requires Listed(state.order) && Counted(state.refs) && obj in objects
      modifies `state, objects`referenceCnt
      ensures state == Release(old(state), obj) && Listed(state.order) && Counted(state.refs)
    {
      AddCount(obj, -1, state.refs);
      state := Release(state, obj);
    }

    /**
     * `insert_cache_obj_to_cache`: a copy of the first `n` bytes of the buffer, unless they are too many or the key is
     * there.
     */
    method InsertObject(key: string, n: nat, buffer: array<bv8>) returns (ghost obj: CacheObj?)
      requires Valid() && n <= buffer.Length
      modifies this, objects`prev, objects`next
      ensures Valid() && (obj == null <==> n > MAX_OBJECT_SIZE || FindKey(old(state).order, key, 0) != -1)
      ensures obj == null ==> state == old(state) && objects == old(objects)
      ensures obj != null ==>
              fresh(obj) && obj.key == key && obj.webObj == buffer[..n]
              && state == Insert(old(state), obj)
    {
      if n > MAX_OBJECT_SIZE {
        return null;
      }
      var curr, k := FindObject(key);
      if curr != null {
        return null;
      }
      obj := InsertNew(key, n, buffer);
    }

    /** `insert_cache_obj_to_cache` when nothing speaks against it. */
    method InsertNew(key: string, n: nat, buffer: array<bv8>) returns (ghost obj: CacheObj)
      requires Valid() && n <= buffer.Length && n <= MAX_OBJECT_SIZE && FindKey(state.order, key, 0) == -1
      modifies this, objects`prev, objects`next
      ensures Valid() && fresh(obj) && obj.key == key && obj.webObj == buffer[..n] && state == Insert(old(state), obj)
    {
      ghost var c := state;
      EvictObjects(n);
      ghost var e := state;
      obj := CreateObject(key, n, buffer);
      ghost var d := InsertedAs(c, obj, e);
      assert state == d;
    }

    /** The new object is made and goes to the tail. */
    method CreateObject(key: string, n: nat, buffer: array<bv8>) returns (ghost o: CacheObj)
      requires Listed(state.order) && Counted(state.refs) && n <= buffer.Length
      requires forall x | x in state.order :: x in objects
      modifies `head, `tail, `size, `state, `objects, objects`prev, objects`next
      ensures fresh(o) && o.key == key && o.webObj == buffer[..n] && o.size == n && objects == old(objects) + {o}
      ensures var s := old(state); state == Cached(s.order + [o], s.refs[o := 0]) && size == old(size) + n
      ensures Listed(state.order) && Counted(state.refs)
    {
      var obj := new CacheObj(key, buffer[..n]);
      AddObject(obj, Cached(state.order + [obj], state.refs[obj := 0]));
      o := obj;
    }

    /** The new object goes to the tail; `d` is the cache with it. */
    method AddObject(o: CacheObj, ghost d: Cached)
      requires Listed(state.order) && Counted(state.refs) && o !in objects && o.referenceCnt == 0 && o !in state.order
      requires d == Cached(state.order + [o], state.refs[o := 0])
      modifies `head, `tail, `size, `state, `objects, objects`prev, objects`next, o`prev, o`next
      ensures Listed(d.order) && Counted(d.refs) && state == d && objects == old(objects) + {o}
              && size == old(size) + o.size
    {
      ghost var s := state.order;
      SnapshotWith(objects, o);
      ChainWith(Snapshot(objects), s, head, tail, o, Links(o.prev, o.next));
      objects := objects + {o};
      state := Cached(s, d.refs);
      Append(o);
      assert state == d;
      size := size + o.size;
    }
  }

  lemma SearchResult(c: Cached, key: string) returns (d: Cached, o: CacheObj?)
    requires Sound(c)
    ensures (d, o) == Search(c, key)
  {
    d, o := Search(c, key).0, Search(c, key).1;
  }

  lemma LeftAlone(s: seq<CacheObj>, k: nat)
    requires Unique(s) && k < |s|
    ensures s[k] !in Without(s, k)
  {
    WithoutMembers(s, k);
  }

  lemma LastAlready(s: seq<CacheObj>, k: nat)
    requires Unique(s) && k < |s| && s[|s| - 1] == s[k]
    ensures MovedLast(s, k) == s
  {
  }

  /** The cache after an insert that is not refused; `e` is what eviction leaves. */
  lemma InsertedAs(c: Cached, o: CacheObj, e: Cached) returns (d: Cached)
    requires Sound(c) && o !in c.order && o.size == |o.webObj| <= MAX_OBJECT_SIZE && FindKey(c.order, o.key, 0) == -1
    requires e == Evicted(c, o.size)
    ensures d == Insert(c, o) == Cached(e.order + [o], e.refs[o := 0])
    ensures Sound(d) && Total(e.order) + o.size == Total(d.order) && o !in e.order
  {
    d := Insert(c, o);
    InsertSound(c, o);
    TotalLast(e.order, o);
    EvictKeeps(c.order, c.refs, o.size);
  }
}
