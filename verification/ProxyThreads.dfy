/** Threads of the proxy sharing the object cache: every step of proxy/proxy.c:243-321 that touches it, in any order. */
module ProxyThreads {
  import opened ObjectCache
  import opened Sequences

  const MAXLINE: nat := 8192

  /**
   * Where a thread is in `serve`: answering from the cache, or passing on and collecting a response; `key` is the
   * address asked for, `sent` what the client has got.
   */
  datatype Client =
    | Idle
    | Sending(key: string, obj: CacheObj, sent: seq<bv8>, broken: bool)
    | Fetching(key: string, sent: seq<bv8>, collected: seq<bv8>, response: seq<bv8>, cachable: bool, broken: bool)

  /**
   * `born` records the key and the whole response of the fetch that created each object, `used` when it was last used.
   */
  datatype System = System(
    cache: Cached,
    clients: map<nat, Client>,
    born: map<CacheObj, (string, seq<bv8>)>,
    used: map<CacheObj, nat>,
    clock: nat)

  ghost predicate At(s: System, t: nat, c: Client) {
    t in s.clients && s.clients[t] == c
  }

  /** `search_cache_obj`: a hit gives the thread a handle. */
  ghost predicate Look(s: System, r: System, t: nat, key: string) {
    && Sound(s.cache) && (t in s.clients ==> s.clients[t].Idle?)
    && r == Looked(s, t, key)
  }

  ghost function Looked(s: System, t: nat, key: string): System
    requires Sound(s.cache)
  {
    var (d, o) := Search(s.cache, key);
    if o == null then s.(clients := s.clients[t := Fetching(key, [], [], [], true, false)])
    else s.(
      cache := d,
      clients := s.clients[t := Sending(key, o, [], false)],
      used := s.used[o := s.clock],
      clock := s.clock + 1)
  }

  /** One round of the loop that copies a cached object out; no lock is held. */
  ghost predicate CopyOut(s: System, r: System, t: nat, delivered: bool) {
    && t in s.clients && s.clients[t].Sending? && !s.clients[t].broken
        && |s.clients[t].sent| < |s.clients[t].obj.webObj|
    && r == s.(clients := s.clients[t := CopiedOut(s.clients[t], delivered)])
  }

  ghost function CopiedOut(c: Client, delivered: bool): Client
    requires c.Sending? && |c.sent| < |c.obj.webObj|
  {
    var left := |c.obj.webObj| - |c.sent|;
    var n := if left > MAXLINE then MAXLINE else left;
    if delivered then Sending(c.key, c.obj, c.sent + c.obj.webObj[|c.sent|..|c.sent| + n], false)
    else Sending(c.key, c.obj, c.sent, true)
  }

  /** `free_cache_obj` at the end of that loop. */
  ghost predicate LetGo(s: System, r: System, t: nat) {
    && t in s.clients && s.clients[t].Sending? && s.clients[t].obj in s.cache.refs
    && (s.clients[t].broken || |s.clients[t].sent| >= |s.clients[t].obj.webObj|)
    && r == s.(cache := Release(s.cache, s.clients[t].obj), clients := s.clients[t := Idle])
  }

  /** One round of the loop that passes a response on and collects it. */
  ghost predicate Receive(s: System, r: System, t: nat, chunk: seq<bv8>, delivered: bool) {
    && 0 < |chunk| <= MAXLINE && t in s.clients && s.clients[t].Fetching? && !s.clients[t].broken
    && r == s.(clients := s.clients[t := Received(s.clients[t], chunk, delivered)])
  }

  ghost function Received(c: Client, chunk: seq<bv8>, delivered: bool): Client
    requires c.Fetching?
  {
    var all := c.response + chunk;
    if !delivered then c.(response := all, cachable := false, broken := true)
    else if |c.collected| + |chunk| <= MAX_OBJECT_SIZE then
      c.(response := all, sent := c.sent + chunk, collected := c.collected + chunk)
    else c.(response := all, sent := c.sent + chunk, cachable := false)
  }

  /** The response is over and `insert_cache_obj_to_cache` is called. */
  ghost predicate WantsKept(c: Client) {
    c.Fetching? && c.cachable && |c.collected| > 0
  }

  /** The object that insert would create: it has not been in the cache before. */
  ghost predicate NewObject(s: System, c: Client, o: CacheObj)
    requires c.Fetching?
  {
    o !in s.born && o.key == c.key && o.webObj == c.collected && o.size == |c.collected|
  }

  ghost predicate Keep(s: System, r: System, t: nat, o: CacheObj) {
    && t in s.clients && WantsKept(s.clients[t]) && NewObject(s, s.clients[t], o)
    && r == System(
      Insert(s.cache, o),
      s.clients[t := Idle],
      s.born[o := (s.clients[t].key, s.clients[t].response)],
      s.used[o := s.clock],
      s.clock + 1)
  }

  /** The end of a response that is not kept. */
  ghost predicate Leave(s: System, r: System, t: nat) {
    t in s.clients && s.clients[t].Fetching? && !WantsKept(s.clients[t]) && r == s.(clients := s.clients[t := Idle])
  }

  datatype Event =
    | Looks(t: nat, key: string)
    | CopiesOut(t: nat, delivered: bool)
    | LetsGo(t: nat)
    | Receives(t: nat, chunk: seq<bv8>, delivered: bool)
    | Keeps(t: nat, obj: CacheObj)
    | Leaves(t: nat)

  /** Some thread takes a step. */
  ghost predicate Step(s: System, r: System, e: Event) {
    match e
    case Looks(t, key) => Look(s, r, t, key)
    case CopiesOut(t, delivered) => CopyOut(s, r, t, delivered)
    case LetsGo(t) => LetGo(s, r, t)
    case Receives(t, chunk, delivered) => Receive(s, r, t, chunk, delivered)
    case Keeps(t, o) => Keep(s, r, t, o)
    case Leaves(t) => Leave(s, r, t)
  }

  /** The threads that hold a handle on the object. */
  ghost function Holders(clients: map<nat, Client>, o: CacheObj): set<nat> {
    set t | t in clients && clients[t].Sending? && clients[t].obj == o
  }

  ghost predicate Holds(c: Client, o: CacheObj) {
    c.Sending? && c.obj == o
  }

  /** What one thread can rely on. */
  ghost predicate ClientOk(s: System, c: Client) {
    match c
    case Idle => true
    case Sending(key, o, sent, _) => o in s.cache.order && o.key == key && sent <= o.webObj
    case Fetching(_, sent, collected, response, cachable, broken) =>
      && |collected| <= MAX_OBJECT_SIZE && |collected| <= |response|
      && (cachable <==> !broken && |response| <= MAX_OBJECT_SIZE) && (cachable ==> collected == response)
      && sent <= response && (!broken ==> sent == response)
  }

  ghost predicate CountOk(s: System, o: CacheObj) {
    o in s.cache.refs && s.cache.refs[o] == |Holders(s.clients, o)|
  }

  ghost predicate OriginOk(s: System, o: CacheObj) {
    o in s.born && s.born[o] == (o.key, o.webObj)
  }

  /** Every object was used later than the ones before it, and before `clock`. */
  ghost predicate Increasing(q: seq<CacheObj>, used: map<CacheObj, nat>, clock: nat) {
    && (forall o | o in q :: o in used && used[o] < clock)
    && (forall i, j | 0 <= i < j < |q| :: q[i] in used && q[j] in used && used[q[i]] < used[q[j]])
  }

  ghost predicate Inv(s: System) {
    && Sound(s.cache)
    && (forall t | t in s.clients :: ClientOk(s, s.clients[t]))
    && (forall o | o in s.cache.order :: CountOk(s, o))
    && (forall o | o in s.cache.order :: OriginOk(s, o))
    && Increasing(s.cache.order, s.used, s.clock)
  }

  /** How the holders change when one thread moves on. */
  lemma HoldersAfter(clients: map<nat, Client>, t: nat, c: Client, o: CacheObj)
    ensures |Holders(clients[t := c], o)| + (if t in clients && Holds(clients[t], o) then 1 else 0)
         == |Holders(clients, o)| + (if Holds(c, o) then 1 else 0)
  {
    var before, after := Holders(clients, o), Holders(clients[t := c], o);
    assert t in before <==> t in clients && Holds(clients[t], o);
    assert t in after <==> Holds(c, o);
    OnlyOneMoves(before, after, t);
  }

  lemma OnlyOneMoves(before: set<nat>, after: set<nat>, t: nat)
    requires forall u | u != t :: u in before <==> u in after
    ensures |after| + (if t in before then 1 else 0) == |before| + (if t in after then 1 else 0)
  {
    var others := before - {t};
    assert others == after - {t};
    assert before == if t in before then others + {t} else others;
    assert after == if t in after then others + {t} else others;
  }

  /** Counts for the objects of a cache whose counts differ from `s` only as the handles do. */
  lemma CountsAfter(s: System, r: System, t: nat, c: Client)
    requires Inv(s) && r.clients == s.clients[t := c]
    requires forall o | o in r.cache.order && o in s.cache.order ::
      o in r.cache.refs && o in s.cache.refs
      && r.cache.refs[o] ==
          s.cache.refs[o] + (if Holds(c, o) then 1 else 0) - (if t in s.clients && Holds(s.clients[t], o) then 1 else 0)
    ensures forall o | o in r.cache.order && o in s.cache.order :: CountOk(r, o)
  {
    forall o | o in r.cache.order && o in s.cache.order ensures CountOk(r, o) {
      assert CountOk(s, o);
      HoldersAfter(s.clients, t, c, o);
    }
  }

  /** What threads rely on and where objects come from, when the list has the same objects as before. */
  lemma CarriedOver(s: System, r: System, t: nat, c: Client)
    requires Inv(s) && r.clients == s.clients[t := c] && r.born == s.born && ClientOk(r, c)
    requires forall x :: x in s.cache.order <==> x in r.cache.order
    ensures forall u | u in r.clients :: ClientOk(r, r.clients[u])
    ensures forall o | o in r.cache.order :: OriginOk(r, o)
  {
    forall o | o in r.cache.order ensures OriginOk(r, o) {
      assert OriginOk(s, o);
    }
    forall u | u in r.clients ensures ClientOk(r, r.clients[u]) {
      assert u != t ==> ClientOk(s, s.clients[u]);
    }
  }

  /** A step that leaves the cache alone and gives or takes no handle. */
  lemma ClientMoves(s: System, r: System, t: nat, c: Client)
    requires Inv(s) && r == s.(clients := s.clients[t := c]) && ClientOk(s, c)
    requires forall o | o in s.cache.order :: (t in s.clients && Holds(s.clients[t], o)) == Holds(c, o)
    ensures Inv(r)
  {
    CountsAfter(s, r, t, c);
    CarriedOver(s, r, t, c);
  }

  lemma CopyOutInv(s: System, r: System, t: nat, delivered: bool)
    requires Inv(s) && CopyOut(s, r, t, delivered)
    ensures Inv(r)
  {
    assert ClientOk(s, s.clients[t]);
    ClientMoves(s, r, t, CopiedOut(s.clients[t], delivered));
  }

  lemma ReceiveInv(s: System, r: System, t: nat, chunk: seq<bv8>, delivered: bool)
    requires Inv(s) && Receive(s, r, t, chunk, delivered)
    ensures Inv(r)
  {
    assert ClientOk(s, s.clients[t]);
    ClientMoves(s, r, t, Received(s.clients[t], chunk, delivered));
  }

  lemma LeaveInv(s: System, r: System, t: nat)
    requires Inv(s) && Leave(s, r, t)
    ensures Inv(r)
  {
    ClientMoves(s, r, t, Idle);
  }

  lemma LetGoInv(s: System, r: System, t: nat)
    requires Inv(s) && LetGo(s, r, t)
    ensures Inv(r)
  {
    var o := s.clients[t].obj;
    assert ClientOk(s, s.clients[t]) && CountOk(s, o) && t in Holders(s.clients, o);
    Recounted(s.cache, s.cache.order, o, s.cache.refs[o] - 1);
    CountsAfter(s, r, t, Idle);
    CarriedOver(s, r, t, Idle);
  }

  lemma LookInv(s: System, r: System, t: nat, key: string)
    requires Inv(s) && Look(s, r, t, key)
    ensures Inv(r)
  {
    var k := LookOutcome(s, r, t, key);
    if k == -1 {
      ClientMoves(s, r, t, Fetching(key, [], [], [], true, false));
    } else {
      HitInv(s, r, t, key, k);
    }
  }

  /** Which of the two cases the search comes to. */
  lemma LookOutcome(s: System, r: System, t: nat, key: string) returns (k: int)
    requires Inv(s) && Look(s, r, t, key)
    ensures -1 <= k < |s.cache.order| && (t in s.clients ==> s.clients[t].Idle?)
    ensures k == -1 ==> r == s.(clients := s.clients[t := Fetching(key, [], [], [], true, false)])
    ensures k == -1 ==> forall o | o in s.cache.order :: o.key != key
    ensures k >= 0 ==> s.cache.order[k].key == key && HitMoves(s.cache, r.cache, k)
    ensures k >= 0 ==> var o := s.cache.order[k];
              r == System(r.cache, s.clients[t := Sending(key, o, [], false)], s.born, s.used[o := s.clock],
                  s.clock + 1)
  {
    k := SearchHits(s.cache, key);
  }

  /** A hit on object `k`. */
  lemma HitInv(s: System, r: System, t: nat, key: string, k: nat)
    requires Inv(s) && (t in s.clients ==> s.clients[t].Idle?) && k < |s.cache.order| && HitMoves(s.cache, r.cache, k)
    requires s.cache.order[k].key == key
    requires var o := s.cache.order[k];
             r == System(r.cache, s.clients[t := Sending(key, o, [], false)], s.born, s.used[o := s.clock], s.clock + 1)
    ensures Inv(r)
  {
    var c := Sending(key, s.cache.order[k], [], false);
    HitSound(s.cache, r.cache, k);
    HitCounts(s, r, t, key, k, c);
    CarriedOver(s, r, t, c);
    MovedIncreasing(s.cache.order, s.used, s.clock, k);
  }

  lemma HitCounts(s: System, r: System, t: nat, key: string, k: nat, c: Client)
    requires Inv(s) && (t in s.clients ==> s.clients[t].Idle?) && k < |s.cache.order|
             && c == Sending(key, s.cache.order[k], [], false)
    requires r.clients == s.clients[t := c] && HitMoves(s.cache, r.cache, k)
    requires forall x :: x in s.cache.order <==> x in r.cache.order
    ensures forall o | o in r.cache.order :: CountOk(r, o)
  {
    CountsAfter(s, r, t, c);
  }

  lemma IncreasingWithout(q: seq<CacheObj>, used: map<CacheObj, nat>, clock: nat, k: nat)
    requires Increasing(q, used, clock) && k < |q|
    ensures Increasing(Without(q, k), used, clock)
  {
    var w := Without(q, k);
    forall o | o in w ensures o in q {
      var i :| 0 <= i < |w| && w[i] == o;
      assert q[if i < k then i else i + 1] == o;
    }
  }

  /** An object that is not in the list is used now, and added at the end or not. */
  lemma IncreasingLast(q: seq<CacheObj>, used: map<CacheObj, nat>, clock: nat, o: CacheObj)
    requires Increasing(q, used, clock) && o !in q
    ensures Increasing(q, used[o := clock], clock + 1) && Increasing(q + [o], used[o := clock], clock + 1)
  {
    forall i | 0 <= i < |q| ensures q[i] in used && used[q[i]] < clock && q[i] != o {
      assert q[i] in q;
    }
    assert forall i | 0 <= i < |q| :: (q + [o])[i] == q[i];
  }

  lemma MovedIncreasing(q: seq<CacheObj>, used: map<CacheObj, nat>, clock: nat, k: nat)
    requires Increasing(q, used, clock) && Unique(q) && k < |q|
    ensures Increasing(MovedLast(q, k), used[q[k] := clock], clock + 1)
  {
    WithoutMembers(q, k);
    IncreasingWithout(q, used, clock, k);
    IncreasingLast(Without(q, k), used, clock, q[k]);
  }

  lemma {:induction false} EvictIncreasing(q: seq<CacheObj>, refs: map<CacheObj, int>, needed: nat,
          used: map<CacheObj, nat>, clock: nat)
    requires Increasing(q, used, clock)
    ensures Increasing(Evict(q, refs, needed), used, clock)
    decreases |q|
  {
    var k := FirstFree(q, refs, 0);
    if needed + Total(q) > MAX_CACHE_SIZE && k < |q| {
      IncreasingWithout(q, used, clock, k);
      EvictIncreasing(Without(q, k), refs, needed, used, clock);
    }
  }

  lemma KeepIncreasing(c: Cached, used: map<CacheObj, nat>, clock: nat, o: CacheObj)
    requires Increasing(c.order, used, clock) && Unique(c.order) && o !in c.order
    ensures Increasing(Insert(c, o).order, used[o := clock], clock + 1)
  {
    IncreasingLast(c.order, used, clock, o);
    EvictIncreasing(c.order, c.refs, o.size, used, clock);
    EvictKeeps(c.order, c.refs, o.size);
    IncreasingLast(Evict(c.order, c.refs, o.size), used, clock, o);
  }

  lemma KeepInv(s: System, r: System, t: nat, o: CacheObj)
    requires Inv(s) && Keep(s, r, t, o)
    ensures Inv(r)
  {
    assert ClientOk(s, s.clients[t]);
    assert o in s.cache.order ==> OriginOk(s, o);
    InsertSound(s.cache, o);
    KeepCounts(s, r, t, o);
    KeepClients(s, r, t, o);
    forall x | x in r.cache.order ensures OriginOk(r, x) {
      assert x != o ==> OriginOk(s, x);
    }
    KeepIncreasing(s.cache, s.used, s.clock, o);
  }

  lemma KeepCounts(s: System, r: System, t: nat, o: CacheObj)
    requires Inv(s) && Keep(s, r, t, o)
    ensures forall x | x in r.cache.order :: CountOk(r, x)
  {
    InsertSound(s.cache, o);
    NewObjectUnheld(s, o);
    CountsAfter(s, r, t, Idle);
    HoldersAfter(s.clients, t, Idle, o);
  }

  lemma KeepClients(s: System, r: System, t: nat, o: CacheObj)
    requires Inv(s) && Keep(s, r, t, o)
    ensures forall u | u in r.clients :: ClientOk(r, r.clients[u])
  {
    InsertSound(s.cache, o);
    forall u | u in r.clients ensures ClientOk(r, r.clients[u]) {
      if u != t {
        assert ClientOk(s, s.clients[u]);
        if s.clients[u].Sending? {
          HeldIsPinned(s, u);
        }
      }
    }
  }

  lemma NewObjectUnheld(s: System, o: CacheObj)
    requires Inv(s) && o !in s.cache.order
    ensures Holders(s.clients, o) == {}
  {
    forall u | u in s.clients ensures !Holds(s.clients[u], o) {
      assert ClientOk(s, s.clients[u]);
    }
  }

  /** An object that a thread is sending is pinned. */
  lemma HeldIsPinned(s: System, u: nat)
    requires Inv(s) && u in s.clients && s.clients[u].Sending?
    ensures var o := s.clients[u].obj; o in s.cache.order && Pinned(s.cache.refs, o)
  {
    assert ClientOk(s, s.clients[u]) && CountOk(s, s.clients[u].obj);
    assert u in Holders(s.clients, s.clients[u].obj);
  }

  /** Every step of every thread keeps the invariant. */
  lemma StepInv(s: System, r: System, e: Event)
    requires Inv(s) && Step(s, r, e)
    ensures Inv(r)
  {
    match e
    case Looks(t, key) => LookInv(s, r, t, key);
    case CopiesOut(t, delivered) => CopyOutInv(s, r, t, delivered);
    case LetsGo(t) => LetGoInv(s, r, t);
    case Receives(t, chunk, delivered) => ReceiveInv(s, r, t, chunk, delivered);
    case Keeps(t, o) => KeepInv(s, r, t, o);
    case Leaves(t) => LeaveInv(s, r, t);
  }

  ghost function Start(): System {
    System(Cached([], map[]), map[], map[], map[], 0)
  }

  /** Any number of threads, interleaved in any way. */
  ghost predicate Run(states: seq<System>, events: seq<Event>) {
    && |states| == |events| + 1 && states[0] == Start()
    && forall i | 0 <= i < |events| :: Step(states[i], states[i + 1], events[i])
  }

  lemma {:induction false} RunInv(states: seq<System>, events: seq<Event>, k: nat)
    requires Run(states, events) && k <= |events|
    ensures Inv(states[k])
  {
    if k > 0 {
      RunInv(states, events, k - 1);
      StepInv(states[k - 1], states[k], events[k - 1]);
    }
  }

  /**
   * The object the thread is sending is in the list, pinned, and what its fetch brought; what has been sent is a prefix
   * of that.
   */
  ghost predicate SendsSafely(s: System, c: Client)
    requires c.Sending?
  {
    && c.obj in s.cache.order && Pinned(s.cache.refs, c.obj)
    && c.obj in s.born && s.born[c.obj] == (c.obj.key, c.obj.webObj)
    && c.sent <= s.born[c.obj].1
  }

  /** In every run: the count of every object is its number of handles, and every thread that sends does so safely. */
  lemma HandlesAreSafe(states: seq<System>, events: seq<Event>, k: nat)
    requires Run(states, events) && k <= |events|
    ensures var s := states[k];
            && (forall o | o in s.cache.order :: o in s.cache.refs && s.cache.refs[o] == |Holders(s.clients, o)|)
            && (forall t | t in s.clients && s.clients[t].Sending? :: SendsSafely(s, s.clients[t]))
  {
    RunInv(states, events, k);
    var s := states[k];
    forall o | o in s.cache.order ensures o in s.cache.refs && s.cache.refs[o] == |Holders(s.clients, o)| {
      assert CountOk(s, o);
    }
    forall t | t in s.clients && s.clients[t].Sending? ensures SendsSafely(s, s.clients[t]) {
      HeldIsPinned(s, t);
      assert ClientOk(s, s.clients[t]) && OriginOk(s, s.clients[t].obj);
    }
  }

  /** A search finds the object with the key exactly if there is one. */
  lemma LooksRight(states: seq<System>, events: seq<Event>, k: nat, t: nat, key: string)
    requires Run(states, events) && k < |events| && events[k] == Looks(t, key)
    ensures var s, r := states[k], states[k + 1];
            if exists o :: o in s.cache.order && o.key == key
            then exists o :: o in s.cache.order && o.key == key && At(r, t, Sending(key, o, [], false))
                             && o in r.born && r.born[o].0 == key
            else At(r, t, Fetching(key, [], [], [], true, false)) && r.cache == s.cache
  {
    RunInv(states, events, k);
    var s, r := states[k], states[k + 1];
    assert Step(s, r, events[k]);
    var i := LookOutcome(s, r, t, key);
    if i >= 0 {
      assert OriginOk(s, s.cache.order[i]);
      assert s.cache.order[i] in s.cache.order && At(r, t, Sending(key, s.cache.order[i], [], false));
    }
  }

  /** A step that ends the request of thread `t`. */
  predicate Ends(e: Event, t: nat) {
    (e.LetsGo? || e.Keeps? || e.Leaves?) && e.t == t
  }

  /** Until its request ends a thread serves the address it was asked for. */
  lemma {:induction false} KeepsKey(states: seq<System>, events: seq<Event>, j: nat, k: nat, t: nat, key: string)
    requires Run(states, events) && j < k <= |events| && events[j] == Looks(t, key)
    requires forall i | j < i < k :: !Ends(events[i], t)
    ensures t in states[k].clients && !states[k].clients[t].Idle? && states[k].clients[t].key == key
  {
    var s, r, e := states[k - 1], states[k], events[k - 1];
    if j == k - 1 {
      LooksRight(states, events, j, t, key);
    } else {
      KeepsKey(states, events, j, k - 1, t, key);
      assert Step(s, r, e);
      OthersKey(s, r, e, t);
    }
  }

  lemma OthersKey(s: System, r: System, e: Event, t: nat)
    requires Step(s, r, e) && !Ends(e, t) && t in s.clients && !s.clients[t].Idle?
    ensures t in r.clients && !r.clients[t].Idle? && r.clients[t].key == s.clients[t].key
  {
  }

  /**
   * A response is kept exactly if it was passed on to the end, is not empty and not too large; then the cache has an
   * object for its address.
   */
  lemma KeptExactly(states: seq<System>, events: seq<Event>, k: nat, t: nat)
    requires Run(states, events) && k < |events| && t in states[k].clients && states[k].clients[t].Fetching?
    requires Ends(events[k], t)
    ensures var c := states[k].clients[t];
            events[k].Keeps? <==> !c.broken && 0 < |c.response| <= MAX_OBJECT_SIZE
    ensures var c := states[k].clients[t];
            events[k].Keeps? ==> events[k].obj.key == c.key && events[k].obj.webObj == c.response
                                 && exists o :: o in states[k + 1].cache.order && o.key == c.key
  {
    RunInv(states, events, k);
    var s := states[k];
    assert Step(s, states[k + 1], events[k]) && ClientOk(s, s.clients[t]);
    if events[k].Keeps? {
      var o := events[k].obj;
      assert o in s.cache.order ==> OriginOk(s, o);
      InsertSound(s.cache, o);
      if o !in states[k + 1].cache.order {
        var x :| x in s.cache.order && x.key == o.key;
      }
    }
  }

  /** In state `i` thread `u` has fetched this response for the address. */
  ghost predicate Fetched(states: seq<System>, i: nat, u: nat, key: string, response: seq<bv8>) {
    && i < |states| && u in states[i].clients && states[i].clients[u].Fetching?
    && states[i].clients[u].key == key && states[i].clients[u].response == response
  }

  /** Every object is the whole response of a fetch for its key. */
  lemma {:induction false} BornOfFetch(states: seq<System>, events: seq<Event>, k: nat, o: CacheObj)
    returns (i: nat, u: nat)
    requires Run(states, events) && k <= |events| && o in states[k].born
    ensures i < k && events[i] == Keeps(u, o) && Fetched(states, i, u, states[k].born[o].0, states[k].born[o].1)
  {
    var s, r, e := states[k - 1], states[k], events[k - 1];
    assert Step(s, r, e);
    if e.Keeps? && e.obj == o {
      i, u := k - 1, e.t;
    } else {
      i, u := BornOfFetch(states, events, k - 1, o);
    }
  }

  /**
   * In every run: what a client that asked for `key` has got is a prefix of what some fetch of `key` brought, and when
   * its request ends all of it, unless the connection broke.
   */
  lemma ServedAsAsked(states: seq<System>, events: seq<Event>, j: nat, k: nat, t: nat, key: string)
    returns (i: nat, u: nat, response: seq<bv8>)
    requires Run(states, events) && j < k <= |events| && events[j] == Looks(t, key)
    requires forall l | j < l < k :: !Ends(events[l], t)
    ensures t in states[k].clients && !states[k].clients[t].Idle? && i <= k && Fetched(states, i, u, key, response)
    ensures var c := states[k].clients[t];
            c.sent <= response && (k < |events| && Ends(events[k], t) && !c.broken ==> c.sent == response)
  {
    KeepsKey(states, events, j, k, t, key);
    RunInv(states, events, k);
    var s := states[k];
    var c := s.clients[t];
    assert ClientOk(s, c);
    if c.Sending? {
      HandlesAreSafe(states, events, k);
      assert SendsSafely(s, c);
      i, u := BornOfFetch(states, events, k, c.obj);
      response := s.born[c.obj].1;
    } else {
      i, u, response := k, t, c.response;
    }
    if k < |events| && Ends(events[k], t) {
      assert Step(s, states[k + 1], events[k]);
    }
  }

  /**
   * A thread that leaves after a hit without a broken connection has delivered the whole response that made the entry
   * for the address it was asked for.
   */
  lemma HitDelivers(states: seq<System>, events: seq<Event>, k: nat, t: nat)
    requires Run(states, events) && k < |events| && events[k] == LetsGo(t)
    requires t in states[k].clients && states[k].clients[t].Sending? && !states[k].clients[t].broken
    ensures var s := states[k]; var c := s.clients[t];
            c.obj in s.born && s.born[c.obj].0 == c.obj.key == c.key && c.sent == s.born[c.obj].1
  {
    assert Step(states[k], states[k + 1], events[k]);
    RunInv(states, events, k);
    HandlesAreSafe(states, events, k);
    assert SendsSafely(states[k], states[k].clients[t]) && ClientOk(states[k], states[k].clients[t]);
  }

  /** At most nine objects are pinned whenever something is inserted. */
  ghost predicate FewPins(states: seq<System>, events: seq<Event>)
    requires |states| == |events| + 1
  {
    forall i | 0 <= i < |events| && events[i].Keeps? :: |PinnedIn(states[i].cache)| <= 9
  }

  /** Then the cache never exceeds its size. */
  lemma {:induction false} NeverTooFull(states: seq<System>, events: seq<Event>, k: nat)
    requires Run(states, events) && FewPins(states, events) && k <= |events|
    ensures Total(states[k].cache.order) <= MAX_CACHE_SIZE
  {
    if k > 0 {
      var s, r, e := states[k - 1], states[k], events[k - 1];
      NeverTooFull(states, events, k - 1);
      RunInv(states, events, k - 1);
      assert Step(s, r, e);
      StepTotal(s, r, e);
    }
  }

  lemma StepTotal(s: System, r: System, e: Event)
    requires Inv(s) && Step(s, r, e) && Total(s.cache.order) <= MAX_CACHE_SIZE
             && (e.Keeps? ==> |PinnedIn(s.cache)| <= 9)
    ensures Total(r.cache.order) <= MAX_CACHE_SIZE
  {
    match e
    case Looks(t, key) => SearchSound(s.cache, key);
    case Keeps(t, o) =>
      assert o in s.cache.order ==> OriginOk(s, o);
      NinePinsFit(s.cache, o);
    case _ =>
  }
}
