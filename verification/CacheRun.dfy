/** Runs of the cache simulator over all its sets: what the statistics count and how associativities compare. */
module CacheRun {
  import opened LruStack
  import opened Sequences

  /** One memory operation after the address has been split. */
  datatype Access = Access(index: nat, tag: nat, store: bool)

  /** The recency lists and the statistics; `dirtyBytes` is an integer here, it is proved never to go below zero. */
  datatype Sim = Sim(sets: seq<seq<Entry>>, hits: nat, misses: nat, evictions: nat, dirtyBytes: int,
      dirtyEvictions: nat)

  predicate IsHit(l: seq<Entry>, tag: nat) { Find(l, tag) >= 0 }

  /** A miss in a full set. */
  predicate Evicts(l: seq<Entry>, ways: nat, tag: nat) { !IsHit(l, tag) && |l| >= ways > 0 }

  predicate EvictsDirty(l: seq<Entry>, ways: nat, tag: nat) { Evicts(l, ways, tag) && l[ways - 1].dirty }

  /** A clean line, or one that was not there, becomes dirty. */
  predicate MakesDirty(l: seq<Entry>, a: Access) {
    a.store && !(IsHit(l, a.tag) && l[Find(l, a.tag)].dirty)
  }

  function Ones(b: bool): nat { if b then 1 else 0 }

  function Sized(unit: nat, b: bool): nat { if b then unit else 0 }

  /** `touch_cache`; `unit` is the number of bytes in a line. */
  function Step(c: Sim, ways: nat, unit: nat, a: Access): Sim
    requires ways > 0 && a.index < |c.sets|
  {
    var l := c.sets[a.index];
    Sim(
      c.sets[a.index := Touch(l, ways, a.tag, a.store)],
      c.hits + Ones(IsHit(l, a.tag)),
      c.misses + Ones(!IsHit(l, a.tag)),
      c.evictions + Ones(Evicts(l, ways, a.tag)),
      c.dirtyBytes - Sized(unit, EvictsDirty(l, ways, a.tag)) + Sized(unit, MakesDirty(l, a)),
      c.dirtyEvictions + Sized(unit, EvictsDirty(l, ways, a.tag)))
  }

  ghost predicate InRange(trace: seq<Access>, sets: nat) {
    forall i | 0 <= i < |trace| :: trace[i].index < sets
  }

  /** `init_cache`. */
  function Start(sets: nat): Sim {
    Sim(seq(sets, i => []), 0, 0, 0, 0, 0)
  }

  /** The fold over a trace. */
  ghost function After(sets: nat, ways: nat, unit: nat, trace: seq<Access>): (c: Sim)
    requires ways > 0 && InRange(trace, sets)
    ensures |c.sets| == sets
  {
    if trace == [] then Start(sets)
    else Step(After(sets, ways, unit, trace[..|trace| - 1]), ways, unit, trace[|trace| - 1])
  }

  ghost function DirtyIn(l: seq<Entry>): nat {
    if l == [] then 0 else DirtyIn(l[..|l| - 1]) + Ones(l[|l| - 1].dirty)
  }

  /** Lines in use, or dirty ones only, over all sets. */
  ghost function Lines(sets: seq<seq<Entry>>, dirtyOnly: bool): nat {
    if sets == [] then 0
    else Lines(sets[..|sets| - 1], dirtyOnly) + if dirtyOnly then DirtyIn(sets[|sets| - 1]) else |sets[|sets| - 1]|
  }

  lemma {:induction false} LinesUpdated(sets: seq<seq<Entry>>, q: nat, l: seq<Entry>, dirtyOnly: bool)
    requires q < |sets|
    ensures Lines(sets[q := l], dirtyOnly) + (if dirtyOnly then DirtyIn(sets[q]) else |sets[q]|)
         == Lines(sets, dirtyOnly) + (if dirtyOnly then DirtyIn(l) else |l|)
  {
    var n := |sets| - 1;
    if q < n {
      LinesUpdated(sets[..n], q, l, dirtyOnly);
      assert sets[q := l][..n] == sets[..n][q := l];
    } else {
      assert sets[q := l][..n] == sets[..n];
    }
  }

  lemma {:induction false} NoLines(sets: nat, dirtyOnly: bool)
    ensures Lines(Start(sets).sets, dirtyOnly) == 0
  {
    if sets > 0 {
      NoLines(sets - 1, dirtyOnly);
      assert Start(sets).sets[..sets - 1] == Start(sets - 1).sets;
    }
  }

  lemma {:induction false} DirtyJoined(k: seq<Entry>, l: seq<Entry>)
    ensures DirtyIn(k + l) == DirtyIn(k) + DirtyIn(l)
  {
    if l == [] {
      assert k + l == k;
    } else {
      var m := |l| - 1;
      DirtyJoined(k, l[..m]);
      assert (k + l)[..|k + l| - 1] == k + l[..m];
    }
  }

  lemma DirtyOne(e: Entry)
    ensures DirtyIn([e]) == Ones(e.dirty)
  {
    assert [e][..0] == [];
  }

  /** Moving an entry to the front, with a new dirty bit, changes the count by that bit. */
  lemma MovedCount(l: seq<Entry>, k: nat, e: Entry)
    requires k < |l|
    ensures DirtyIn([e] + Without(l, k)) + Ones(l[k].dirty) == DirtyIn(l) + Ones(e.dirty)
  {
    var p, q, w := l[..k], l[k + 1..], Without(l, k);
    AddedCount(w, e);
    SplitCount(p, l[k], q);
    Reassembled(l, k);
  }

  lemma Reassembled(l: seq<Entry>, k: nat)
    requires k < |l|
    ensures l == l[..k] + ([l[k]] + l[k + 1..])
  {
  }

  lemma SplitCount(p: seq<Entry>, e: Entry, q: seq<Entry>)
    ensures DirtyIn(p + ([e] + q)) == DirtyIn(p + q) + Ones(e.dirty)
  {
    AddedCount(q, e);
    DirtyJoined(p, [e] + q);
    DirtyJoined(p, q);
  }

  lemma AddedCount(l: seq<Entry>, e: Entry)
    ensures DirtyIn([e] + l) == DirtyIn(l) + Ones(e.dirty)
  {
    DirtyOne(e);
    DirtyJoined([e], l);
  }

  /** What an access does to the number of lines of its set. */
  lemma TouchLength(l: seq<Entry>, ways: nat, a: Access)
    requires ways > 0 && |l| <= ways
    ensures var t := Touch(l, ways, a.tag, a.store);
            |t| + Ones(Evicts(l, ways, a.tag)) == |l| + Ones(!IsHit(l, a.tag)) && |t| <= ways
  {
  }

  /** What an access does to the number of dirty lines of its set. */
  lemma TouchDirty(l: seq<Entry>, ways: nat, a: Access)
    requires ways > 0 && |l| <= ways
    ensures DirtyIn(Touch(l, ways, a.tag, a.store)) + Ones(EvictsDirty(l, ways, a.tag)) ==
            DirtyIn(l) + Ones(MakesDirty(l, a))
  {
    var k := Find(l, a.tag);
    if k >= 0 {
      MovedCount(l, k, Entry(a.tag, l[k].dirty || a.store));
    } else if |l| < ways {
      AddedCount(l, Entry(a.tag, a.store));
    } else {
      MovedCount(l, ways - 1, Entry(a.tag, a.store));
      assert Without(l, ways - 1) == l[..ways - 1];
    }
  }

  /** How often a clean line, or one that was not there, has become dirty. */
  ghost function TimesMadeDirty(sets: nat, ways: nat, unit: nat, trace: seq<Access>): nat
    requires ways > 0 && InRange(trace, sets)
  {
    if trace == [] then 0
    else
      var c, a := After(sets, ways, unit, trace[..|trace| - 1]), trace[|trace| - 1];
      TimesMadeDirty(sets, ways, unit, trace[..|trace| - 1]) + Ones(MakesDirty(c.sets[a.index], a))
  }

  ghost predicate WithinWays(sets: seq<seq<Entry>>, ways: nat) {
    forall q | 0 <= q < |sets| :: |sets[q]| <= ways
  }

  lemma {:induction false} SetsWithinWays(sets: nat, ways: nat, unit: nat, trace: seq<Access>)
    requires ways > 0 && InRange(trace, sets)
    ensures WithinWays(After(sets, ways, unit, trace).sets, ways)
  {
    if trace != [] {
      var c, a := After(sets, ways, unit, trace[..|trace| - 1]), trace[|trace| - 1];
      SetsWithinWays(sets, ways, unit, trace[..|trace| - 1]);
      TouchLength(c.sets[a.index], ways, a);
    }
  }

  lemma {:induction false} HitsAndMisses(sets: nat, ways: nat, unit: nat, trace: seq<Access>)
    requires ways > 0 && InRange(trace, sets)
    ensures var c := After(sets, ways, unit, trace); c.hits + c.misses == |trace|
  {
    if trace != [] {
      HitsAndMisses(sets, ways, unit, trace[..|trace| - 1]);
    }
  }

  /** Every miss brings a line in, and every eviction takes one out. */
  lemma {:induction false} EvictionsAreMissesNotResident(sets: nat, ways: nat, unit: nat, trace: seq<Access>)
    requires ways > 0 && InRange(trace, sets)
    ensures var c := After(sets, ways, unit, trace); c.evictions + Lines(c.sets, false) == c.misses
  {
    if trace == [] {
      NoLines(sets, false);
    } else {
      var c, a := After(sets, ways, unit, trace[..|trace| - 1]), trace[|trace| - 1];
      EvictionsAreMissesNotResident(sets, ways, unit, trace[..|trace| - 1]);
      SetsWithinWays(sets, ways, unit, trace[..|trace| - 1]);
      TouchLength(c.sets[a.index], ways, a);
      LinesUpdated(c.sets, a.index, Touch(c.sets[a.index], ways, a.tag, a.store), false);
    }
  }

  /**
   * The dirty bytes are those of the dirty lines, and every line that became dirty is dirty still or was written back.
   */
  lemma {:induction false} DirtyBytesConserved(sets: nat, ways: nat, unit: nat, trace: seq<Access>)
    requires ways > 0 && InRange(trace, sets)
    ensures var c := After(sets, ways, unit, trace);
            c.dirtyBytes == unit * Lines(c.sets, true)
            && c.dirtyBytes + c.dirtyEvictions == unit * TimesMadeDirty(sets, ways, unit, trace)
  {
    if trace == [] {
      NoLines(sets, true);
    } else {
      var c, a := After(sets, ways, unit, trace[..|trace| - 1]), trace[|trace| - 1];
      DirtyBytesConserved(sets, ways, unit, trace[..|trace| - 1]);
      SetsWithinWays(sets, ways, unit, trace[..|trace| - 1]);
      DirtyStep(c, ways, unit, a);
      var made := MakesDirty(c.sets[a.index], a);
      Scaled(unit, TimesMadeDirty(sets, ways, unit, trace[..|trace| - 1]), TimesMadeDirty(sets, ways, unit, trace),
          false, made);
    }
  }

  lemma Scaled(unit: nat, x: nat, y: nat, evicted: bool, made: bool)
    requires y + Ones(evicted) == x + Ones(made)
    ensures unit * y + Sized(unit, evicted) == unit * x + Sized(unit, made)
  {
    assert unit * (y + Ones(evicted)) == unit * y + Sized(unit, evicted);
    assert unit * (x + Ones(made)) == unit * x + Sized(unit, made);
  }

  lemma DirtyStep(c: Sim, ways: nat, unit: nat, a: Access)
    requires ways > 0 && a.index < |c.sets| && WithinWays(c.sets, ways)
    ensures var l := c.sets[a.index];
            unit * Lines(Step(c, ways, unit, a).sets, true) + Sized(unit, EvictsDirty(l, ways, a.tag))
            == unit * Lines(c.sets, true) + Sized(unit, MakesDirty(l, a))
  {
    var l := c.sets[a.index];
    var t := Touch(l, ways, a.tag, a.store);
    TouchDirty(l, ways, a);
    LinesUpdated(c.sets, a.index, t, true);
    Scaled(unit, Lines(c.sets, true), Lines(c.sets[a.index := t], true), EvictsDirty(l, ways, a.tag), MakesDirty(l, a));
  }

  /** The tags used in set `q`, in order. */
  ghost function History(trace: seq<Access>, q: nat): seq<nat> {
    if trace == [] then []
    else
      var a := trace[|trace| - 1];
      History(trace[..|trace| - 1], q) + if a.index == q then [a.tag] else []
  }

  lemma StackLast(h: seq<nat>, t: nat)
    ensures Stack(h + [t]) == Front(Stack(h), t)
  {
    assert (h + [t])[..|h|] == h;
  }

  /** Every set holds the most recently used distinct tags of its history, as many as it has lines. */
  lemma {:induction false} SetIsTopOfStack(sets: nat, ways: nat, unit: nat, trace: seq<Access>, q: nat)
    requires ways > 0 && InRange(trace, sets) && q < sets
    ensures Tags(After(sets, ways, unit, trace).sets[q]) == Top(Stack(History(trace, q)), ways)
  {
    if trace != [] {
      var before, a := trace[..|trace| - 1], trace[|trace| - 1];
      SetIsTopOfStack(sets, ways, unit, before, q);
      var l, h := After(sets, ways, unit, before).sets[q], History(before, q);
      if a.index == q {
        StackDistinct(h);
        AgreeIsTop(l, Stack(h), ways);
        TouchKeepsTop(l, ways, Stack(h), a.tag, a.store);
        StackLast(h, a.tag);
        AgreeIsTop(Touch(l, ways, a.tag, a.store), Stack(h + [a.tag]), ways);
      } else {
        assert History(trace, q) == h;
      }
    }
  }

  lemma InTags(l: seq<Entry>, tag: nat)
    ensures IsHit(l, tag) <==> tag in Tags(l)
  {
    if IsHit(l, tag) {
      assert Tags(l)[Find(l, tag)] == tag;
    }
  }

  /** An access hits exactly when fewer other tags than lines were used in its set since its own tag was. */
  lemma HitExactly(sets: nat, ways: nat, unit: nat, trace: seq<Access>, a: Access)
    requires ways > 0 && InRange(trace, sets) && a.index < sets
    ensures var h := History(trace, a.index);
            IsHit(After(sets, ways, unit, trace).sets[a.index], a.tag) <==> a.tag in h && |Since(h, a.tag)| < ways
  {
    SetIsTopOfStack(sets, ways, unit, trace, a.index);
    InTags(After(sets, ways, unit, trace).sets[a.index], a.tag);
    HitIffRecent(History(trace, a.index), a.tag, ways);
  }

  /** More lines per set hold at least the same tags after every access. */
  lemma Inclusion(sets: nat, small: nat, large: nat, unit: nat, trace: seq<Access>, q: nat, tag: nat)
    requires 0 < small <= large && InRange(trace, sets) && q < sets
    requires IsHit(After(sets, small, unit, trace).sets[q], tag)
    ensures IsHit(After(sets, large, unit, trace).sets[q], tag)
  {
    SetIsTopOfStack(sets, small, unit, trace, q);
    SetIsTopOfStack(sets, large, unit, trace, q);
    InTags(After(sets, small, unit, trace).sets[q], tag);
    InTags(After(sets, large, unit, trace).sets[q], tag);
    TopInclusion(Stack(History(trace, q)), small, large, tag);
  }

  /** So misses never increase with associativity. */
  lemma {:induction false} MissesNeverIncrease(sets: nat, small: nat, large: nat, unit: nat, trace: seq<Access>)
    requires 0 < small <= large && InRange(trace, sets)
    ensures After(sets, large, unit, trace).misses <= After(sets, small, unit, trace).misses
  {
    if trace != [] {
      var before, a := trace[..|trace| - 1], trace[|trace| - 1];
      MissesNeverIncrease(sets, small, large, unit, before);
      if IsHit(After(sets, small, unit, before).sets[a.index], a.tag) {
        Inclusion(sets, small, large, unit, before, a.index, a.tag);
      }
    }
  }

  /** The victim is the least recently used line: every other tag in the set was used after it. */
  lemma VictimLeastRecent(sets: nat, ways: nat, unit: nat, trace: seq<Access>, a: Access, tag: nat)
    requires ways > 0 && InRange(trace, sets) && a.index < sets
    requires var l := After(sets, ways, unit, trace).sets[a.index]; Evicts(l, ways, a.tag) && IsHit(l, tag)
    ensures var l := After(sets, ways, unit, trace).sets[a.index]; var victim := l[ways - 1].tag;
            tag != victim ==> tag in Since(History(trace, a.index), victim)
  {
    var l, h := After(sets, ways, unit, trace).sets[a.index], History(trace, a.index);
    SetIsTopOfStack(sets, ways, unit, trace, a.index);
    SetsWithinWays(sets, ways, unit, trace);
    StackDistinct(h);
    LastIsOldest(l, ways, Stack(h), tag);
    if tag != l[ways - 1].tag {
      AboveIsSince(h, l[ways - 1].tag);
    }
  }

  lemma LastIsOldest(l: seq<Entry>, ways: nat, s: seq<nat>, tag: nat)
    requires 0 < ways == |l| && Tags(l) == Top(s, ways) && Distinct(s) && IsHit(l, tag)
    ensures var v := l[ways - 1].tag; v in s && (tag != v ==> tag in Above(s, v))
  {
    var v, k := l[ways - 1].tag, Find(l, tag);
    assert s[ways - 1] == Tags(l)[ways - 1] == v;
    assert s[k] == Tags(l)[k] == tag;
    assert Position(s, tag) == k && Position(s, v) == ways - 1;
    if tag != v {
      assert Higher(s, tag, v);
    }
  }

  predicate Uses(a: Access, q: nat, tag: nat) { a.index == q && a.tag == tag }

  /** Which operations of the trace hit. */
  ghost function Outcomes(sets: nat, ways: nat, unit: nat, trace: seq<Access>): (hits: seq<bool>)
    requires ways > 0 && InRange(trace, sets)
    ensures |hits| == |trace|
  {
    if trace == [] then []
    else
      var before, a := trace[..|trace| - 1], trace[|trace| - 1];
      Outcomes(sets, ways, unit, before) + [IsHit(After(sets, ways, unit, before).sets[a.index], a.tag)]
  }

  ghost function Trues(s: seq<bool>): nat {
    if s == [] then 0 else Trues(s[..|s| - 1]) + Ones(s[|s| - 1])
  }

  /** The counter of hits counts the operations that hit. */
  lemma {:induction false} HitsAreOutcomes(sets: nat, ways: nat, unit: nat, trace: seq<Access>)
    requires ways > 0 && InRange(trace, sets)
    ensures After(sets, ways, unit, trace).hits == Trues(Outcomes(sets, ways, unit, trace))
  {
    if trace != [] {
      var before, o := trace[..|trace| - 1], Outcomes(sets, ways, unit, trace);
      HitsAreOutcomes(sets, ways, unit, before);
      assert o[..|o| - 1] == Outcomes(sets, ways, unit, before);
    }
  }

  /** Operation `j` stores to the block, and the block has not been filled again since. */
  ghost predicate StoredAndKept(trace: seq<Access>, hits: seq<bool>, j: nat, q: nat, tag: nat)
    requires |hits| == |trace| && j < |trace|
  {
    trace[j].store && Uses(trace[j], q, tag) && forall k | j < k < |trace| && Uses(trace[k], q, tag) :: hits[k]
  }

  /** Some operation stores to the block, and the block has not been filled again since. */
  ghost predicate Stores(trace: seq<Access>, hits: seq<bool>, q: nat, tag: nat)
    requires |hits| == |trace|
  {
    exists j :: 0 <= j < |trace| && StoredAndKept(trace, hits, j, q, tag)
  }

  lemma StoresOneMore(trace: seq<Access>, hits: seq<bool>, a: Access, hit: bool, q: nat, tag: nat)
    requires |hits| == |trace|
    ensures Stores(trace + [a], hits + [hit], q, tag) ==
      ((a.store && Uses(a, q, tag)) || (Stores(trace, hits, q, tag) && (Uses(a, q, tag) ==> hit)))
  {
    var n, more, also := |trace|, trace + [a], hits + [hit];
    forall j | 0 <= j < n ensures StoredAndKept(more, also, j, q, tag) ==
      (StoredAndKept(trace, hits, j, q, tag) && (Uses(a, q, tag) ==> hit)) {
      assert forall k | 0 <= k < n :: more[k] == trace[k] && also[k] == hits[k];
      assert more[n] == a && also[n] == hit;
    }
    assert StoredAndKept(more, also, n, q, tag) <==> a.store && Uses(a, q, tag);
  }

  lemma TouchedHead(l: seq<Entry>, ways: nat, tag: nat, store: bool)
    requires ways > 0
    ensures Touch(l, ways, tag, store)[0] == Entry(tag, store || (IsHit(l, tag) && l[Find(l, tag)].dirty))
  {
  }

  lemma TouchedTail(l: seq<Entry>, ways: nat, tag: nat, store: bool, i: nat)
    requires ways > 0 && |l| <= ways && 0 < i < |Touch(l, ways, tag, store)|
             && Distinct(Tags(Touch(l, ways, tag, store)))
    ensures Touch(l, ways, tag, store)[i] in l && Touch(l, ways, tag, store)[i].tag != tag
  {
    var t := Touch(l, ways, tag, store);
    TouchAt(l, ways, tag, store);
    assert Tags(t)[0] != Tags(t)[i];
  }

  lemma TouchedEntry(l: seq<Entry>, ways: nat, tag: nat, store: bool, e: Entry)
    requires ways > 0 && |l| <= ways && e in Touch(l, ways, tag, store) && Distinct(Tags(Touch(l, ways, tag, store)))
    ensures e == Entry(tag, store || (IsHit(l, tag) && l[Find(l, tag)].dirty)) || (e.tag != tag && e in l)
  {
    var t := Touch(l, ways, tag, store);
    var i :| 0 <= i < |t| && t[i] == e;
    if i == 0 {
      TouchedHead(l, ways, tag, store);
    } else {
      TouchedTail(l, ways, tag, store, i);
    }
  }

  lemma DistinctEntries(sets: nat, ways: nat, unit: nat, trace: seq<Access>, q: nat)
    requires ways > 0 && InRange(trace, sets) && q < sets
    ensures Distinct(Tags(After(sets, ways, unit, trace).sets[q]))
  {
    SetIsTopOfStack(sets, ways, unit, trace, q);
    StackDistinct(History(trace, q));
  }

  lemma SetAfter(sets: nat, ways: nat, unit: nat, before: seq<Access>, a: Access, q: nat)
    requires ways > 0 && InRange(before + [a], sets) && q < sets && InRange(before, sets) && a.index < sets
    ensures var l := After(sets, ways, unit, before).sets[q];
            After(sets, ways, unit, before + [a]).sets[q] == if a.index == q then Touch(l, ways, a.tag, a.store) else l
    ensures Outcomes(sets, ways, unit, before + [a])
         == Outcomes(sets, ways, unit, before) + [IsHit(After(sets, ways, unit, before).sets[a.index], a.tag)]
  {
    assert (before + [a])[..|before|] == before;
  }

  /** A line is dirty exactly when its block was stored to since its last fill, the filling store included. */
  lemma {:induction false} DirtyExactly(sets: nat, ways: nat, unit: nat, trace: seq<Access>, q: nat, e: Entry)
    requires ways > 0 && InRange(trace, sets) && q < sets && e in After(sets, ways, unit, trace).sets[q]
    ensures e.dirty <==> Stores(trace, Outcomes(sets, ways, unit, trace), q, e.tag)
  {
    assert |trace| > 0;
    var before, a := trace[..|trace| - 1], trace[|trace| - 1];
    assert trace == before + [a];
    var l := LineBefore(sets, ways, unit, before, a, q, e);
    if Uses(a, q, e.tag) {
      if IsHit(l, e.tag) {
        DirtyExactly(sets, ways, unit, before, q, l[Find(l, e.tag)]);
      }
    } else {
      DirtyExactly(sets, ways, unit, before, q, e);
    }
  }

  /**
   * The set before the last operation, and what that operation did to the entry and to the stores that count for it.
   */
  lemma LineBefore(sets: nat, ways: nat, unit: nat, before: seq<Access>, a: Access, q: nat, e: Entry)
    returns (l: seq<Entry>)
    requires ways > 0 && InRange(before + [a], sets) && q < sets
    requires e in After(sets, ways, unit, before + [a]).sets[q]
    ensures InRange(before, sets) && l == After(sets, ways, unit, before).sets[q]
    ensures if Uses(a, q, e.tag) then e.dirty == (a.store || (IsHit(l, e.tag) && l[Find(l, e.tag)].dirty)) else e in l
    ensures Stores(before + [a], Outcomes(sets, ways, unit, before + [a]), q, e.tag) ==
      ((a.store && Uses(a, q, e.tag))
       || (Stores(before, Outcomes(sets, ways, unit, before), q, e.tag) && (Uses(a, q, e.tag) ==> IsHit(l, e.tag))))
  {
    InRangeBefore(before, a, sets);
    l := After(sets, ways, unit, before).sets[q];
    SetAfter(sets, ways, unit, before, a, q);
    StoresOneMore(before, Outcomes(sets, ways, unit, before), a,
                  IsHit(After(sets, ways, unit, before).sets[a.index], a.tag), q, e.tag);
    SetsWithinWays(sets, ways, unit, before);
    DistinctEntries(sets, ways, unit, before + [a], q);
    EntryFrom(l, ways, a, q, e);
  }

  lemma InRangeBefore(before: seq<Access>, a: Access, sets: nat)
    requires InRange(before + [a], sets)
    ensures InRange(before, sets) && a.index < sets
  {
    var all := before + [a];
    assert all[|before|] == a;
    forall i | 0 <= i < |before| ensures before[i].index < sets {
      assert all[i] == before[i];
    }
  }

  /** Where an entry and its dirty bit come from at an operation. */
  lemma EntryFrom(l: seq<Entry>, ways: nat, a: Access, q: nat, e: Entry)
    requires ways > 0 && |l| <= ways
    requires var t := if a.index == q then Touch(l, ways, a.tag, a.store) else l; e in t && Distinct(Tags(t))
    ensures if Uses(a, q, e.tag) then e.dirty == (a.store || (IsHit(l, e.tag) && l[Find(l, e.tag)].dirty)) else e in l
  {
    if a.index == q {
      TouchedEntry(l, ways, a.tag, a.store, e);
    }
  }
}
