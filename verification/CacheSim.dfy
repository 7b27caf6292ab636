/** The cache simulator of cache/csim.c: lines with time stamps, in place. */
module CacheSim {
  import opened LruStack
  import opened CacheRun
  import opened Arithmetic
  import opened Sequences

  /** A `line_t`. */
  datatype Line = Line(dirty: bool, valid: bool, tag: nat, lruCounter: nat)

  /** `a >> n`. */
  function ShiftRight(a: nat, n: nat): nat {
    if n == 0 then a else ShiftRight(a / 2, n - 1)
  }

  /** `a & ((1 << n) - 1)`. */
  function LowBits(a: nat, n: nat): (r: nat)
    ensures r < Pow2(n)
  {
    if n == 0 then 0 else a % 2 + 2 * LowBits(a / 2, n - 1)
  }

  /** How `touch_cache` splits an address. */
  function Split(address: nat, s: nat, b: nat, store: bool): (a: Access)
    ensures a.index < Pow2(s)
  {
    Access(LowBits(ShiftRight(address, b), s), ShiftRight(address, s + b), store)
  }

  lemma {:induction false} ShiftTwice(a: nat, m: nat, n: nat)
    ensures ShiftRight(a, m + n) == ShiftRight(ShiftRight(a, m), n)
  {
    if m > 0 {
      ShiftTwice(a / 2, m - 1, n);
    }
  }

  lemma {:induction false} BitsDetermine(a: nat, c: nat, n: nat)
    requires LowBits(a, n) == LowBits(c, n) && ShiftRight(a, n) == ShiftRight(c, n)
    ensures a == c
  {
    if n > 0 {
      BitsDetermine(a / 2, c / 2, n - 1);
    }
  }

  /** The shift is the quotient by a power of two. */
  lemma {:induction false} ShiftIsQuotient(a: nat, n: nat)
    ensures ShiftRight(a, n) == a / Pow2(n)
  {
    if n > 0 {
      ShiftIsQuotient(a / 2, n - 1);
      HalfThenRest(a, Pow2(n - 1));
    }
  }

  lemma HalfThenRest(a: nat, p: nat)
    requires p > 0
    ensures a / 2 / p == a / (2 * p)
  {
    var q := a / 2 / p;
    assert a / 2 == p * q + a / 2 % p;
    assert a == (2 * p) * q + (2 * (a / 2 % p) + a % 2);
    RemainderUnique(a, 2 * p, q, 2 * (a / 2 % p) + a % 2);
  }

  /** The mask is the remainder by a power of two. */
  lemma {:induction false} LowBitsAreRemainder(a: nat, n: nat)
    ensures LowBits(a, n) == a % Pow2(n)
  {
    if n > 0 {
      LowBitsAreRemainder(a / 2, n - 1);
      BitThenRest(a, Pow2(n - 1));
    }
  }

  lemma BitThenRest(a: nat, p: nat)
    requires p > 0
    ensures a % 2 + 2 * (a / 2 % p) == a % (2 * p)
  {
    var q, r := a / 2 / p, a / 2 % p;
    assert a / 2 == p * q + r;
    assert a == (2 * p) * q + (2 * r + a % 2);
    RemainderUnique(a, 2 * p, q, 2 * r + a % 2);
  }

  /** Set index and tag, in numbers: block `address / 2^b` goes to the set of its remainder by 2^s. */
  lemma SplitIs(address: nat, s: nat, b: nat, store: bool)
    ensures Split(address, s, b, store).index == address / Pow2(b) % Pow2(s)
    ensures Split(address, s, b, store).tag == address / Pow2(s + b)
    ensures Split(address, s, b, store).store == store
  {
    ShiftIsQuotient(address, b);
    ShiftIsQuotient(address, s + b);
    LowBitsAreRemainder(ShiftRight(address, b), s);
  }

  /** The tag is what the set index leaves of the number of the block. */
  lemma SplitBlock(address: nat, s: nat, b: nat, store: bool)
    ensures var block := ShiftRight(address, b);
            Split(address, s, b, store) == Access(LowBits(block, s), ShiftRight(block, s), store)
  {
    assert s + b == b + s;
    ShiftTwice(address, b, s);
  }

  /** Two addresses fall on the same line of the same set exactly when they lie in the same block of 2^b bytes. */
  lemma SameBlock(x: nat, y: nat, s: nat, b: nat)
    ensures Uses(Split(x, s, b, true), Split(y, s, b, true).index, Split(y, s, b, true).tag)
        <==> x / Pow2(b) == y / Pow2(b)
  {
    ShiftIsQuotient(x, b);
    ShiftIsQuotient(y, b);
    ShiftTwice(x, b, s);
    ShiftTwice(y, b, s);
    assert s + b == b + s;
    if Uses(Split(x, s, b, true), Split(y, s, b, true).index, Split(y, s, b, true).tag) {
      BitsDetermine(ShiftRight(x, b), ShiftRight(y, b), s);
    }
  }

  // A row of lines against the recency list.

  /**
   * The valid lines of the row come first; `order` names them from the most to the least recently used, which is by
   * falling time stamps, and `l` is what they hold in that order.
   */
  ghost predicate Represents(row: seq<Line>, order: seq<nat>, l: seq<Entry>, counter: nat) {
    && |order| == |l| <= |row| && Distinct(Tags(l))
    && (forall i | 0 <= i < |row| :: row[i].valid <==> i < |order|)
    && (forall i | 0 <= i < |order| :: Holds(row, order[i], l[i], counter) && order[i] < |order|)
    && (forall i, j | 0 <= i < j < |order| :: Newer(row, order[i], order[j]))
    && (forall p: nat | p < |order| :: p in order)
  }

  ghost predicate Holds(row: seq<Line>, p: nat, e: Entry, counter: nat) {
    p < |row| && row[p].tag == e.tag && row[p].dirty == e.dirty && row[p].lruCounter <= counter
  }

  ghost predicate Newer(row: seq<Line>, p: nat, q: nat) {
    p < |row| && q < |row| && row[p].lruCounter > row[q].lruCounter
  }

  lemma Later(row: seq<Line>, order: seq<nat>, l: seq<Entry>, counter: nat)
    requires Represents(row, order, l, counter)
    ensures Represents(row, order, l, counter + 1)
  {
  }

  /** The line found by its tag is the entry found by its tag. */
  lemma FoundEntry(row: seq<Line>, order: seq<nat>, l: seq<Entry>, counter: nat, tag: nat, h: nat) returns (k: nat)
    requires Represents(row, order, l, counter) && h < |row| && row[h].valid && row[h].tag == tag
    ensures k < |order| && order[k] == h && Find(l, tag) == k
  {
    assert h in order;
    k :| 0 <= k < |order| && order[k] == h;
    assert Holds(row, order[k], l[k], counter);
    var f := Find(l, tag);
    assert l[k].tag == tag && Tags(l)[k] == tag;
    assert f >= 0 && Tags(l)[f] == tag;
  }

  lemma NotFound(row: seq<Line>, order: seq<nat>, l: seq<Entry>, counter: nat, tag: nat)
    requires Represents(row, order, l, counter)
    requires forall i | 0 <= i < |row| :: !(row[i].valid && row[i].tag == tag)
    ensures Find(l, tag) == -1
  {
    forall i | 0 <= i < |l| ensures l[i].tag != tag {
      assert Holds(row, order[i], l[i], counter) && row[order[i]].valid;
    }
  }

  /** Stamping line `order[k]` leaves the other lines as they are. */
  lemma StampedOthers(row: seq<Line>, order: seq<nat>, l: seq<Entry>, counter: nat, k: nat, line: Line, i: nat)
    requires Represents(row, order, l, counter) && k < |order| && i < |order| && i != k
    ensures order[i] != order[k] && order[k] < |row| && Holds(row[order[k] := line], order[i], l[i], counter)
  {
    assert Holds(row, order[i], l[i], counter) && Holds(row, order[k], l[k], counter);
    assert if i < k then Newer(row, order[i], order[k]) else Newer(row, order[k], order[i]);
  }

  /** Where element `i > 0` of a sequence was before element `k` came to the front. */
  function Source(i: nat, k: nat): nat
    requires i > 0
  {
    if i <= k then i - 1 else i
  }

  lemma MovedAt<T>(s: seq<T>, k: nat, x: T, i: nat)
    requires k < |s| && 0 < i < |s|
    ensures ([x] + Without(s, k))[i] == s[Source(i, k)] && Source(i, k) != k
  {
  }

  lemma MovedMembers(order: seq<nat>, k: nat, p: nat)
    requires k < |order| && p in order
    ensures p in [order[k]] + Without(order, k)
  {
    var i :| 0 <= i < |order| && order[i] == p;
    var j := if i < k then i + 1 else if i == k then 0 else i;
    assert ([order[k]] + Without(order, k))[j] == p;
  }

  /** One line of a row is stamped and comes to the front; the others stay in order. */
  lemma Stamped(row: seq<Line>, order: seq<nat>, l: seq<Entry>, counter: nat, k: nat, line: Line, e: Entry)
    requires Represents(row, order, l, counter) && k < |order| && line == Line(e.dirty, true, e.tag, counter + 1)
    requires Distinct(Tags([e] + Without(l, k)))
    ensures Represents(row[order[k] := line], [order[k]] + Without(order, k), [e] + Without(l, k), counter + 1)
  {
    var h := order[k];
    var row', order', l' := row[h := line], [h] + Without(order, k), [e] + Without(l, k);
    forall i | 0 <= i < |order'| ensures Holds(row', order'[i], l'[i], counter + 1) && order'[i] < |order'| {
      if i > 0 {
        MovedAt(order, k, h, i);
        MovedAt(l, k, e, i);
        StampedOthers(row, order, l, counter, k, line, Source(i, k));
      }
    }
    forall i, j | 0 <= i < j < |order'| ensures Newer(row', order'[i], order'[j]) {
      MovedAt(order, k, h, j);
      StampedOthers(row, order, l, counter, k, line, Source(j, k));
      if i > 0 {
        MovedAt(order, k, h, i);
        StampedOthers(row, order, l, counter, k, line, Source(i, k));
        assert Newer(row, order[Source(i, k)], order[Source(j, k)]);
      }
    }
    forall p: nat | p < |order'| ensures p in order' {
      assert p in order;
      MovedMembers(order, k, p);
    }
  }

  /** The first empty line is filled. */
  lemma Filled(row: seq<Line>, order: seq<nat>, l: seq<Entry>, counter: nat, line: Line, e: Entry)
    requires Represents(row, order, l, counter) && |order| < |row| && line == Line(e.dirty, true, e.tag, counter + 1)
    requires Distinct(Tags([e] + l))
    ensures Represents(row[|order| := line], [|order|] + order, [e] + l, counter + 1)
  {
    var row', order', l' := row[|order| := line], [|order|] + order, [e] + l;
    forall i | 0 <= i < |order'| ensures Holds(row', order'[i], l'[i], counter + 1) && order'[i] < |order'| {
      assert i > 0 ==> Holds(row, order[i - 1], l[i - 1], counter);
    }
    forall i, j | 0 <= i < j < |order'| ensures Newer(row', order'[i], order'[j]) {
      assert Holds(row, order[j - 1], l[j - 1], counter);
      assert i > 0 ==> Newer(row, order[i - 1], order[j - 1]);
    }
    forall p: nat | p < |order'| ensures p in order' {
      if p < |order| {
        assert p in order;
        var i :| 0 <= i < |order| && order[i] == p;
        assert order'[i + 1] == p;
      } else {
        assert order'[0] == p;
      }
    }
  }

  /** The line with the smallest time stamp is the last of the order. */
  lemma SmallestIsLast(row: seq<Line>, order: seq<nat>, l: seq<Entry>, counter: nat, v: nat)
    requires Represents(row, order, l, counter) && v < |row| == |order|
    requires forall i | 0 <= i < |row| :: row[v].lruCounter <= row[i].lruCounter
    ensures v == order[|order| - 1]
  {
    assert v in order;
    var k :| 0 <= k < |order| && order[k] == v;
    assert k < |order| - 1 ==> Newer(row, order[k], order[|order| - 1]);
  }

  class Cache {
    const s: nat
    const b: nat
    const ways: nat
    const lines: array2<Line>
    var counter: nat
    var hits: nat
    var misses: nat
    var evictions: nat
    var dirtyBytes: nat
    var dirtyEvictions: nat
    /**
     * What has been done so far, the state it leads to, and the lines of each set from the most to the least recent.
     */
    ghost var trace: seq<Access>
    ghost var sim: Sim
    ghost var orders: seq<seq<nat>>

    ghost function Row(q: nat): (r: seq<Line>)
      requires q < lines.Length0
      reads lines
      ensures |r| == lines.Length1 && forall i | 0 <= i < |r| :: r[i] == lines[q, i]
    {
      seq(lines.Length1, i requires 0 <= i < lines.Length1 reads lines => lines[q, i])
    }

    /** The lines hold the lists of `sim`, with stamps up to `stamp`. */
    ghost predicate Shown(stamp: nat)
      reads `sim, `orders, lines
    {
      && ways > 0 && lines.Length0 == Pow2(s) == |orders| == |sim.sets| && lines.Length1 == ways
      && forall q | 0 <= q < Pow2(s) :: Represents(Row(q), orders[q], sim.sets[q], stamp)
    }

    ghost predicate Counted()
      reads this
    {
      && hits == sim.hits && misses == sim.misses && evictions == sim.evictions
      && dirtyBytes == sim.dirtyBytes && dirtyEvictions == sim.dirtyEvictions
    }

    /** Lines, stamps and statistics are those of the run over `trace`. */
    ghost predicate Valid()
      reads this, lines
    {
      Shown(counter) && Counted() && InRange(trace, Pow2(s)) && sim == After(Pow2(s), ways, Pow2(b), trace)
    }

    /** `init_cache`: `1 << s` sets of `ways` empty lines. */
    constructor (s: nat, ways: nat, b: nat)
      requires ways > 0
      ensures Valid() && trace == [] && this.s == s && this.b == b && this.ways == ways && fresh(lines)
    {
      this.s, this.ways, this.b := s, ways, b;
      lines := new Line[Pow2(s), ways]((i, j) => Line(false, false, 0, 0));
      counter, hits, misses, evictions, dirtyBytes, dirtyEvictions := 0, 0, 0, 0, 0, 0;
      trace, sim, orders := [], Start(Pow2(s)), seq(Pow2(s), i => []);
    }

    /** `search_hit_line_idx`. */
    method SearchHit(q: nat, tag: nat) returns (h: int)
      requires q < lines.Length0
      ensures -1 <= h < lines.Length1
      ensures h >= 0 ==> lines[q, h].valid && lines[q, h].tag == tag
      ensures h == -1 ==> forall i | 0 <= i < lines.Length1 :: !(lines[q, i].valid && lines[q, i].tag == tag)
    {
      h := 0;
      while h < lines.Length1
        invariant 0 <= h <= lines.Length1
        invariant forall i | 0 <= i < h :: !(lines[q, i].valid && lines[q, i].tag == tag)
      {
        if lines[q, h].valid && lines[q, h].tag == tag {
          return;
        }
        h := h + 1;
      }
      h := -1;
    }

    /** `search_victim_or_empty_line_idx`: the first empty line, or the first with the smallest stamp. */
    method SearchVictim(q: nat) returns (v: nat)
      requires q < lines.Length0 && lines.Length1 > 0
      ensures v < lines.Length1 && forall i | 0 <= i < v :: lines[q, i].valid
      ensures lines[q, v].valid ==>
        forall i | 0 <= i < lines.Length1 :: lines[q, i].valid && lines[q, v].lruCounter <= lines[q, i].lruCounter
    {
      v := 0;
      var smallest := lines[q, 0].lruCounter;
      var i := 0;
      while i < lines.Length1
        invariant 0 <= i <= lines.Length1 && v < lines.Length1 && (v < i || v == 0)
                  && smallest == lines[q, v].lruCounter
        invariant forall j | 0 <= j < i :: lines[q, j].valid && smallest <= lines[q, j].lruCounter
      {
        if !lines[q, i].valid {
          return i;
        }
        if lines[q, i].lruCounter < smallest {
          smallest := lines[q, i].lruCounter;
          v := i;
        }
        i := i + 1;
      }
    }

    /** One line is written; its row represents the list `l` of the next state. */
    method Write(q: nat, h: nat, line: Line, ghost order: seq<nat>, ghost l: seq<Entry>, ghost next: Sim,
            ghost stamp: nat)
      requires Shown(stamp) && q < Pow2(s) && h < ways && next.sets == sim.sets[q := l]
      requires Represents(Row(q)[h := line], order, l, stamp + 1)
      modifies lines, `sim, `orders
      ensures Shown(stamp + 1) && sim == next
    {
      lines[q, h] := line;
      sim := next;
      orders := orders[q := order];
      forall r | 0 <= r < Pow2(s) ensures Represents(Row(r), orders[r], sim.sets[r], stamp + 1) {
        if r == q {
          assert Row(r) == old(Row(r))[h := line];
        } else {
          assert Row(r) == old(Row(r));
          Later(old(Row(r)), orders[r], sim.sets[r], stamp);
        }
      }
    }

    /** The hit half of `touch_cache`; the counter has been advanced already. */
    method TouchHit(a: Access, h: nat, ghost k: nat, ghost e: Entry, ghost next: Sim)
      requires counter > 0 && Shown(counter - 1) && Counted() && a.index < Pow2(s) && h < ways && k < |orders[a.index]|
      requires h == orders[a.index][k] && e == Entry(a.tag, lines[a.index, h].dirty || a.store)
               && lines[a.index, h].tag == a.tag
      requires lines[a.index, h].valid && Distinct(Tags([e] + Without(sim.sets[a.index], k)))
      requires HitOutcome(sim, next, Pow2(b), a, lines[a.index, h].dirty, [e] + Without(sim.sets[a.index], k))
      modifies lines, `hits, `dirtyBytes, `sim, `orders
      ensures Shown(counter) && Counted() && sim == next
    {
      ghost var row, o, l := Row(a.index), orders[a.index], sim.sets[a.index];
      hits := hits + 1;
      var line := lines[a.index, h].(lruCounter := counter);
      if a.store && !line.dirty {
        dirtyBytes := dirtyBytes + Pow2(b);
        line := line.(dirty := true);
      }
      Stamped(row, o, l, counter - 1, k, line, e);
      Write(a.index, h, line, [h] + Without(o, k), [e] + Without(l, k), next, counter - 1);
    }

    /** The statistics of a miss; `evicts` and `was` say whether a line goes and whether it was dirty. */
    method CountMiss(a: Access, evicts: bool, was: bool, ghost next: Sim, ghost l: seq<Entry>)
      requires Counted() && MissOutcome(sim, next, Pow2(b), a, evicts, was, l)
      modifies `misses, `evictions, `dirtyBytes, `dirtyEvictions
      ensures hits == next.hits && misses == next.misses && evictions == next.evictions
      ensures dirtyBytes == next.dirtyBytes && dirtyEvictions == next.dirtyEvictions
    {
      misses := misses + 1;
      if evicts {
        evictions := evictions + 1;
        if was {
          dirtyEvictions := dirtyEvictions + Pow2(b);
          dirtyBytes := dirtyBytes - Pow2(b);
        }
      }
      if a.store {
        dirtyBytes := dirtyBytes + Pow2(b);
      }
    }

    /** The miss half of `touch_cache`; `v` is the line that `search_victim_or_empty_line_idx` found. */
    method TouchMiss(a: Access, v: nat, ghost order: seq<nat>, ghost l: seq<Entry>, ghost next: Sim)
      requires counter > 0 && Shown(counter - 1) && Counted() && a.index < Pow2(s) && v < ways
      requires Represents(Row(a.index)[v := Line(a.store, true, a.tag, counter)], order, l, counter)
      requires MissOutcome(sim, next, Pow2(b), a, lines[a.index, v].valid, lines[a.index, v].dirty, l)
      modifies lines, `misses, `evictions, `dirtyBytes, `dirtyEvictions, `sim, `orders
      ensures Shown(counter) && Counted() && sim == next
    {
      CountMiss(a, lines[a.index, v].valid, lines[a.index, v].dirty, next, l);
      Write(a.index, v, Line(a.store, true, a.tag, counter), order, l, next, counter - 1);
    }

    /** `touch_cache` after the address has been split. */
    method TouchAccess(a: Access, ghost next: Sim)
      requires counter > 0 && Shown(counter - 1) && Counted() && a.index < Pow2(s)
               && next == Step(sim, ways, Pow2(b), a)
      requires Distinct(Tags(Touch(sim.sets[a.index], ways, a.tag, a.store)))
      requires EvictsDirty(sim.sets[a.index], ways, a.tag) ==> sim.dirtyBytes >= Pow2(b)
      modifies lines, `hits, `misses, `evictions, `dirtyBytes, `dirtyEvictions, `sim, `orders
      ensures Shown(counter) && Counted() && sim == next
    {
      ghost var row, o := Row(a.index), orders[a.index];
      var h := SearchHit(a.index, a.tag);
      if h != -1 {
        ghost var k, e := HitFacts(row, o, sim, counter - 1, ways, Pow2(b), a, h, next);
        TouchHit(a, h, k, e, next);
      } else {
        var v := SearchVictim(a.index);
        ghost var order, t := MissFacts(row, o, sim, counter - 1, ways, Pow2(b), a, v, next);
        TouchMiss(a, v, order, t, next);
      }
    }

    /** The same with the time advanced before and the trace extended after. */
    method TouchSet(a: Access)
      requires Valid() && a.index < Pow2(s)
      modifies this, lines
      ensures Valid() && trace == old(trace) + [a]
    {
      counter := counter + 1;
      NextAccess(Pow2(s), ways, Pow2(b), trace, a);
      TouchAccess(a, Step(sim, ways, Pow2(b), a));
      trace := trace + [a];
    }

    /** `touch_cache`: the lists and the statistics are those of the trace with one more operation. */
    method TouchCache(store: bool, address: nat)
      requires Valid()
      modifies this, lines
      ensures Valid() && trace == old(trace) + [Split(address, s, b, store)]
    {
      TouchSet(Split(address, s, b, store));
    }

    /** `process_trace_file` without the reading: one `touch_cache` for every operation. */
    method Process(operations: seq<(bool, nat)>)
      requires Valid()
      modifies this, lines
      ensures Valid() && trace == old(trace) + Splits(operations, s, b)
    {
      var i := 0;
      ghost var start, done := trace, [];
      while i < |operations|
        invariant 0 <= i <= |operations| && Valid() && trace == start + done && done == Splits(operations[..i], s, b)
      {
        SplitsStep(operations, i, s, b);
        var (store, address) := operations[i];
        Longer(start, done, Split(address, s, b, store));
        TouchCache(store, address);
        done := done + [Split(address, s, b, store)];
        i := i + 1;
      }
      assert operations[..i] == operations;
    }

    /** The whole program on a fresh cache: the hits and misses it reports. */
    method Simulate(operations: seq<(bool, nat)>)
      requires Valid() && trace == []
      modifies this, lines
      ensures Valid() && trace == Splits(operations, s, b)
      ensures hits == HitCount(operations, s, b, ways) && misses == |operations| - hits
    {
      Process(operations);
      assert trace == Splits(operations, s, b);
      HitsAreCounted(operations, s, b, ways);
    }
  }

  lemma Longer(start: seq<Access>, done: seq<Access>, a: Access)
    ensures start + done + [a] == start + (done + [a])
  {
  }

  lemma SplitsStep(operations: seq<(bool, nat)>, i: nat, s: nat, b: nat)
    requires i < |operations|
    ensures Splits(operations[..i + 1], s, b)
         == Splits(operations[..i], s, b) + [Split(operations[i].1, s, b, operations[i].0)]
  {
    assert operations[..i + 1][..i] == operations[..i];
  }

  /** What a hit does to the state; `was` is whether the line was dirty, `l` the new list. */
  ghost predicate HitOutcome(c: Sim, next: Sim, unit: nat, a: Access, was: bool, l: seq<Entry>) {
    && a.index < |c.sets| && next.sets == c.sets[a.index := l]
    && next.hits == c.hits + 1 && next.misses == c.misses && next.evictions == c.evictions
    && next.dirtyBytes == c.dirtyBytes + Sized(unit, a.store && !was) && next.dirtyEvictions == c.dirtyEvictions
  }

  lemma StepOnHit(c: Sim, ways: nat, unit: nat, a: Access, k: nat)
    requires ways > 0 && a.index < |c.sets| && Find(c.sets[a.index], a.tag) == k
    ensures var l := c.sets[a.index]; var t := [Entry(a.tag, l[k].dirty || a.store)] + Without(l, k);
            Touch(l, ways, a.tag, a.store) == t && HitOutcome(c, Step(c, ways, unit, a), unit, a, l[k].dirty, t)
  {
  }

  /** What a miss does to the state; `evicts` and `was` say whether a line goes and whether it was dirty. */
  ghost predicate MissOutcome(c: Sim, next: Sim, unit: nat, a: Access, evicts: bool, was: bool, l: seq<Entry>) {
    && a.index < |c.sets| && next.sets == c.sets[a.index := l]
    && next.hits == c.hits && next.misses == c.misses + 1 && next.evictions == c.evictions + Ones(evicts)
    && next.dirtyBytes == c.dirtyBytes - Sized(unit, evicts && was) + Sized(unit, a.store)
    && next.dirtyEvictions == c.dirtyEvictions + Sized(unit, evicts && was)
    && (evicts && was ==> c.dirtyBytes >= unit)
  }

  lemma StepOnMiss(c: Sim, ways: nat, unit: nat, a: Access)
    requires ways > 0 && a.index < |c.sets| && !IsHit(c.sets[a.index], a.tag)
    requires EvictsDirty(c.sets[a.index], ways, a.tag) ==> c.dirtyBytes >= unit
    ensures var l := c.sets[a.index];
            forall evicts, was | evicts == Evicts(l, ways, a.tag) && (evicts ==> was == EvictsDirty(l, ways, a.tag)) ::
              MissOutcome(c, Step(c, ways, unit, a), unit, a, evicts, was, Touch(l, ways, a.tag, a.store))
  {
  }

  /** What the hit half of `touch_cache` needs to know about the line found. */
  lemma HitFacts(row: seq<Line>, o: seq<nat>, c: Sim, counter: nat, ways: nat, unit: nat, a: Access, h: nat, next: Sim)
    returns (k: nat, e: Entry)
    requires ways > 0 && a.index < |c.sets| && next == Step(c, ways, unit, a)
             && Represents(row, o, c.sets[a.index], counter)
    requires h < |row| && row[h].valid && row[h].tag == a.tag
    requires Distinct(Tags(Touch(c.sets[a.index], ways, a.tag, a.store)))
    ensures k < |o| && h == o[k] && e == Entry(a.tag, row[h].dirty || a.store)
    ensures var t := [e] + Without(c.sets[a.index], k);
            Distinct(Tags(t)) && HitOutcome(c, next, unit, a, row[h].dirty, t)
  {
    var l := c.sets[a.index];
    k := FoundEntry(row, o, l, counter, a.tag, h);
    assert Holds(row, o[k], l[k], counter);
    e := Entry(a.tag, l[k].dirty || a.store);
    StepOnHit(c, ways, unit, a, k);
  }

  /** What the miss half needs to know about the line chosen. */
  lemma MissFacts(row: seq<Line>, o: seq<nat>, c: Sim, counter: nat, ways: nat, unit: nat, a: Access, v: nat, next: Sim)
    returns (order: seq<nat>, t: seq<Entry>)
    requires |row| == ways > 0 && a.index < |c.sets| && next == Step(c, ways, unit, a)
             && Represents(row, o, c.sets[a.index], counter)
    requires forall i | 0 <= i < ways :: !(row[i].valid && row[i].tag == a.tag)
    requires v < ways && forall i | 0 <= i < v :: row[i].valid
    requires row[v].valid ==> forall i | 0 <= i < ways :: row[i].valid && row[v].lruCounter <= row[i].lruCounter
    requires Distinct(Tags(Touch(c.sets[a.index], ways, a.tag, a.store)))
    requires EvictsDirty(c.sets[a.index], ways, a.tag) ==> c.dirtyBytes >= unit
    ensures Represents(row[v := Line(a.store, true, a.tag, counter + 1)], order, t, counter + 1)
    ensures MissOutcome(c, next, unit, a, row[v].valid, row[v].dirty, t)
  {
    var l := c.sets[a.index];
    t := Touch(l, ways, a.tag, a.store);
    NotFound(row, o, l, counter, a.tag);
    order := Chosen(row, o, l, counter, ways, a, v);
    StepOnMiss(c, ways, unit, a);
  }

  /** What `touch_cache` relies on: tags stay distinct, and the bytes of a dirty victim have been counted. */
  lemma NextAccess(sets: nat, ways: nat, unit: nat, trace: seq<Access>, a: Access)
    requires ways > 0 && InRange(trace, sets) && a.index < sets
    ensures var c := After(sets, ways, unit, trace); var l := c.sets[a.index];
            && After(sets, ways, unit, trace + [a]) == Step(c, ways, unit, a)
            && Distinct(Tags(Touch(l, ways, a.tag, a.store)))
            && (EvictsDirty(l, ways, a.tag) ==> c.dirtyBytes >= unit)
  {
    assert (trace + [a])[..|trace|] == trace;
    DistinctEntries(sets, ways, unit, trace + [a], a.index);
    if EvictsDirty(After(sets, ways, unit, trace).sets[a.index], ways, a.tag) {
      EnoughDirtyBytes(sets, ways, unit, trace, a);
    }
  }

  /** The bytes of a dirty victim are part of the dirty bytes. */
  lemma EnoughDirtyBytes(sets: nat, ways: nat, unit: nat, trace: seq<Access>, a: Access)
    requires ways > 0 && InRange(trace, sets) && a.index < sets
    requires EvictsDirty(After(sets, ways, unit, trace).sets[a.index], ways, a.tag)
    ensures After(sets, ways, unit, trace).dirtyBytes >= unit
  {
    DirtyBytesConserved(sets, ways, unit, trace);
    SetsWithinWays(sets, ways, unit, trace);
    DirtyVictim(After(sets, ways, unit, trace), ways, unit, a);
  }

  lemma DirtyVictim(c: Sim, ways: nat, unit: nat, a: Access)
    requires ways > 0 && a.index < |c.sets| && WithinWays(c.sets, ways) && EvictsDirty(c.sets[a.index], ways, a.tag)
    ensures unit * Lines(c.sets, true) >= unit
  {
    var load := a.(store := false);
    DirtyStep(c, ways, unit, load);
    NotBelow(unit, Lines(Step(c, ways, unit, load).sets, true));
    assert !MakesDirty(c.sets[a.index], load);
  }

  lemma NotBelow(unit: nat, n: nat)
    ensures unit * n >= 0
  {
  }

  /** The line a miss takes, as `search_victim_or_empty_line_idx` finds it, and the order with it in front. */
  lemma Chosen(row: seq<Line>, o: seq<nat>, l: seq<Entry>, counter: nat, ways: nat, a: Access, v: nat)
    returns (order: seq<nat>)
    requires Represents(row, o, l, counter) && |row| == ways > 0 && v < ways && !IsHit(l, a.tag)
    requires Distinct(Tags(Touch(l, ways, a.tag, a.store)))
    requires forall i | 0 <= i < v :: row[i].valid
    requires row[v].valid ==> forall i | 0 <= i < ways :: row[i].valid && row[v].lruCounter <= row[i].lruCounter
    ensures row[v].valid == Evicts(l, ways, a.tag) && (row[v].valid ==> row[v].dirty == EvictsDirty(l, ways, a.tag))
    ensures Represents(row[v := Line(a.store, true, a.tag, counter + 1)], order, Touch(l, ways, a.tag, a.store),
            counter + 1)
  {
    var line, e := Line(a.store, true, a.tag, counter + 1), Entry(a.tag, a.store);
    if |o| < ways {
      assert !row[|o|].valid && v == |o|;
      order := [v] + o;
      Filled(row, o, l, counter, line, e);
    } else {
      SmallestIsLast(row, o, l, counter, v);
      assert Holds(row, o[ways - 1], l[ways - 1], counter);
      assert Without(l, ways - 1) == l[..ways - 1];
      order := [v] + Without(o, ways - 1);
      Stamped(row, o, l, counter, ways - 1, line, e);
    }
  }

  /** The operations of a trace with their addresses split. */
  ghost function Splits(operations: seq<(bool, nat)>, s: nat, b: nat): seq<Access> {
    if operations == [] then []
    else
      var (store, address) := operations[|operations| - 1];
      Splits(operations[..|operations| - 1], s, b) + [Split(address, s, b, store)]
  }

  // Hits told on addresses.

  /** The block of 2^b bytes that the last operation uses; blocks of 2^b bytes go by address / 2^b. */
  ghost function LastBlock(operations: seq<(bool, nat)>, b: nat): nat
    requires operations != []
  {
    ShiftRight(operations[|operations| - 1].1, b)
  }

  /** The block has been used. */
  ghost predicate Used(operations: seq<(bool, nat)>, b: nat, block: nat) {
    exists i :: 0 <= i < |operations| && ShiftRight(operations[i].1, b) == block
  }

  /** The other blocks of the same set that have been used since the block was. */
  ghost function Rivals(operations: seq<(bool, nat)>, s: nat, b: nat, block: nat): set<nat> {
    if operations == [] || LastBlock(operations, b) == block then {}
    else
      var last := LastBlock(operations, b);
      Rivals(operations[..|operations| - 1], s, b, block) + if LowBits(last, s) == LowBits(block, s) then {last} else {}
  }

  /** Operation `i` uses the block `d`, and neither it nor a later one uses `block`. */
  ghost predicate UsedSince(operations: seq<(bool, nat)>, b: nat, block: nat, d: nat, i: nat) {
    && i < |operations| && ShiftRight(operations[i].1, b) == d
    && forall j | i <= j < |operations| :: ShiftRight(operations[j].1, b) != block
  }

  lemma {:induction false} RivalsAre(operations: seq<(bool, nat)>, s: nat, b: nat, block: nat, d: nat)
    ensures d in Rivals(operations, s, b, block) <==>
            LowBits(d, s) == LowBits(block, s) && exists i :: UsedSince(operations, b, block, d, i)
  {
    if operations != [] {
      var n := |operations| - 1;
      RivalsAre(operations[..n], s, b, block, d);
      forall i: nat | i < n
        ensures UsedSince(operations, b, block, d, i) <==>
                UsedSince(operations[..n], b, block, d, i) && LastBlock(operations, b) != block {
        assert forall j | 0 <= j < n :: operations[..n][j] == operations[j];
        assert LastBlock(operations, b) == ShiftRight(operations[n].1, b);
      }
      assert UsedSince(operations, b, block, d, n) <==> LastBlock(operations, b) == d && d != block;
    }
  }

  /** An operation on the block hits: fewer other blocks of its set than lines were used since it was. */
  ghost predicate HitsAt(operations: seq<(bool, nat)>, s: nat, b: nat, ways: nat, block: nat) {
    Used(operations, b, block) && |Rivals(operations, s, b, block)| < ways
  }

  /** How many operations hit. */
  ghost function HitCount(operations: seq<(bool, nat)>, s: nat, b: nat, ways: nat): nat {
    if operations == [] then 0
    else
      var before := operations[..|operations| - 1];
      HitCount(before, s, b, ways) + Ones(HitsAt(before, s, b, ways, LastBlock(operations, b)))
  }

  /** The block with a given set and tag. */
  lemma {:induction false} BlockWith(q: nat, tag: nat, s: nat) returns (d: nat)
    requires q < Pow2(s)
    ensures LowBits(d, s) == q && ShiftRight(d, s) == tag
  {
    if s == 0 {
      d := tag;
    } else {
      var rest := BlockWith(q / 2, tag, s - 1);
      d := q % 2 + 2 * rest;
      assert d / 2 == rest && d % 2 == q % 2;
    }
  }

  /** `x` are the blocks of set `q` whose tags are in `y`. */
  ghost predicate BlocksOf(x: set<nat>, y: set<nat>, q: nat, s: nat) {
    forall d: nat :: d in x <==> LowBits(d, s) == q && ShiftRight(d, s) in y
  }

  lemma {:induction false} SameNumber(x: set<nat>, y: set<nat>, q: nat, s: nat)
    requires q < Pow2(s) && BlocksOf(x, y, q, s)
    ensures |x| == |y|
    decreases |y|
  {
    if y == {} {
      assert x == {};
    } else {
      var tag :| tag in y;
      var d := BlockWith(q, tag, s);
      forall e: nat ensures e in x - {d} <==> LowBits(e, s) == q && ShiftRight(e, s) in y - {tag} {
        if LowBits(e, s) == q && ShiftRight(e, s) == tag {
          BitsDetermine(d, e, s);
        }
      }
      SameNumber(x - {d}, y - {tag}, q, s);
      assert x == x - {d} + {d} && y == y - {tag} + {tag};
    }
  }

  lemma OneMoreBlock(x: set<nat>, y: set<nat>, q: nat, s: nat, d: nat)
    requires BlocksOf(x, y, q, s) && LowBits(d, s) == q
    ensures BlocksOf(x + {d}, y + {ShiftRight(d, s)}, q, s)
  {
    forall e: nat ensures e in x + {d} <==> LowBits(e, s) == q && ShiftRight(e, s) in y + {ShiftRight(d, s)} {
      if LowBits(e, s) == q && ShiftRight(e, s) == ShiftRight(d, s) {
        BitsDetermine(d, e, s);
      }
    }
  }

  lemma UsedLast(operations: seq<(bool, nat)>, b: nat, block: nat)
    requires operations != []
    ensures Used(operations, b, block) <==>
            Used(operations[..|operations| - 1], b, block) || LastBlock(operations, b) == block
  {
    var n := |operations| - 1;
    assert forall i | 0 <= i < n :: operations[..n][i] == operations[i];
  }

  lemma SinceLast(h: seq<nat>, u: nat, t: nat)
    ensures Since(h + [u], t) == if u == t then {} else Since(h, t) + {u}
  {
    assert (h + [u])[..|h|] == h;
  }

  /** The tags used in the set of the block. */
  ghost function TagsUsed(operations: seq<(bool, nat)>, s: nat, b: nat, block: nat): seq<nat> {
    History(Splits(operations, s, b), LowBits(block, s))
  }

  lemma TagsUsedLast(operations: seq<(bool, nat)>, s: nat, b: nat, block: nat)
    requires operations != []
    ensures var last := LastBlock(operations, b);
            TagsUsed(operations, s, b, block) ==
            TagsUsed(operations[..|operations| - 1], s, b, block)
            + if LowBits(last, s) == LowBits(block, s) then [ShiftRight(last, s)] else []
  {
    var n := |operations| - 1;
    SplitBlock(operations[n].1, s, b, operations[n].0);
    var t, a := Splits(operations[..n], s, b), Split(operations[n].1, s, b, operations[n].0);
    assert (t + [a])[..|t|] == t;
  }

  /** The rivals of a block are the tags used in its set since its own was. */
  lemma {:induction false} RivalsAreSince(operations: seq<(bool, nat)>, s: nat, b: nat, block: nat)
    ensures Used(operations, b, block) <==> ShiftRight(block, s) in TagsUsed(operations, s, b, block)
    ensures BlocksOf(Rivals(operations, s, b, block), Since(TagsUsed(operations, s, b, block), ShiftRight(block, s)),
                     LowBits(block, s), s)
  {
    if operations != [] {
      var before, last := operations[..|operations| - 1], LastBlock(operations, b);
      RivalsAreSince(before, s, b, block);
      UsedLast(operations, b, block);
      TagsUsedLast(operations, s, b, block);
      var x, h, t := Rivals(before, s, b, block), TagsUsed(before, s, b, block), ShiftRight(block, s);
      SinceLast(h, ShiftRight(last, s), t);
      if last == block {
        assert Rivals(operations, s, b, block) == {} == Since(h + [t], t);
      } else if LowBits(last, s) == LowBits(block, s) {
        SameBlockOnly(last, block, s);
        OneMoreBlock(x, Since(h, t), LowBits(block, s), s, last);
        assert Rivals(operations, s, b, block) == x + {last};
      } else {
        assert Rivals(operations, s, b, block) == x && TagsUsed(operations, s, b, block) == h;
      }
    }
  }

  lemma SameBlockOnly(d: nat, e: nat, s: nat)
    requires LowBits(d, s) == LowBits(e, s) && d != e
    ensures ShiftRight(d, s) != ShiftRight(e, s)
  {
    if ShiftRight(d, s) == ShiftRight(e, s) {
      BitsDetermine(d, e, s);
    }
  }

  lemma {:induction false} SplitsInRange(operations: seq<(bool, nat)>, s: nat, b: nat)
    ensures |Splits(operations, s, b)| == |operations| && InRange(Splits(operations, s, b), Pow2(s))
  {
    if operations != [] {
      SplitsInRange(operations[..|operations| - 1], s, b);
    }
  }

  /**
   * After any operations, one on a given block hits exactly when the block was used before, and fewer other blocks with
   * the same remainder by 2^s than the set has lines were used since.
   */
  lemma HitOnBlocks(operations: seq<(bool, nat)>, s: nat, b: nat, ways: nat, address: nat, store: bool)
    requires ways > 0
    ensures InRange(Splits(operations, s, b), Pow2(s))
    ensures var a := Split(address, s, b, store);
            IsHit(After(Pow2(s), ways, Pow2(b), Splits(operations, s, b)).sets[a.index], a.tag)
            <==> HitsAt(operations, s, b, ways, ShiftRight(address, b))
  {
    var block := ShiftRight(address, b);
    var h, t := TagsUsed(operations, s, b, block), ShiftRight(block, s);
    SplitsInRange(operations, s, b);
    SplitBlock(address, s, b, store);
    HitExactly(Pow2(s), ways, Pow2(b), Splits(operations, s, b), Split(address, s, b, store));
    RivalsAreSince(operations, s, b, block);
    SameNumber(Rivals(operations, s, b, block), Since(h, t), LowBits(block, s), s);
  }

  /** The hits counted are the operations that hit so. */
  lemma {:induction false} HitsAreCounted(operations: seq<(bool, nat)>, s: nat, b: nat, ways: nat)
    requires ways > 0
    ensures InRange(Splits(operations, s, b), Pow2(s))
    ensures var c := After(Pow2(s), ways, Pow2(b), Splits(operations, s, b));
            c.hits == HitCount(operations, s, b, ways) && c.misses == |operations| - c.hits
  {
    SplitsInRange(operations, s, b);
    HitsAndMisses(Pow2(s), ways, Pow2(b), Splits(operations, s, b));
    if operations != [] {
      var n := |operations| - 1;
      HitsAreCounted(operations[..n], s, b, ways);
      HitOnBlocks(operations[..n], s, b, ways, operations[n].1, operations[n].0);
      var t, a := Splits(operations[..n], s, b), Split(operations[n].1, s, b, operations[n].0);
      assert (t + [a])[..|t|] == t && Splits(operations, s, b) == t + [a];
    }
  }
}
