/** One set of the simulated cache as a recency list, and the stack of which every associativity keeps a prefix. */
module LruStack {
  import opened Sequences

  datatype Entry = Entry(tag: nat, dirty: bool)

  /** Where the tag is, or -1. */
  function Find(l: seq<Entry>, tag: nat): (r: int)
    ensures -1 <= r < |l|
    ensures r >= 0 ==> l[r].tag == tag
    ensures forall i | 0 <= i < (if r >= 0 then r else |l|) :: l[i].tag != tag
  {
    FindFrom(l, tag, 0)
  }

  function FindFrom(l: seq<Entry>, tag: nat, from: nat): (r: int)
    requires from <= |l|
    ensures r == -1 || from <= r < |l|
    ensures r >= 0 ==> l[r].tag == tag
    ensures forall i | from <= i < (if r >= 0 then r else |l|) :: l[i].tag != tag
    decreases |l| - from
  {
    if from == |l| then -1 else if l[from].tag == tag then from else FindFrom(l, tag, from + 1)
  }

  /** `touch_cache` on the recency list, most recent first: the last entry of a full list is the victim. */
  function Touch(l: seq<Entry>, ways: nat, tag: nat, store: bool): seq<Entry>
    requires ways > 0
  {
    var k := Find(l, tag);
    if k >= 0 then [Entry(tag, l[k].dirty || store)] + Without(l, k)
    else if |l| < ways then [Entry(tag, store)] + l
    else [Entry(tag, store)] + l[..ways - 1]
  }

  function Tags(l: seq<Entry>): (s: seq<nat>)
    ensures |s| == |l| && forall i | 0 <= i < |l| :: s[i] == l[i].tag
  {
    seq(|l|, i requires 0 <= i < |l| => l[i].tag)
  }

  /** A tag moved or added to the front. */
  ghost function Front(s: seq<nat>, t: nat): seq<nat> {
    if t in s then [t] + Without(s, Position(s, t)) else [t] + s
  }

  ghost function Position(s: seq<nat>, t: nat): (k: nat)
    requires t in s
    ensures k < |s| && s[k] == t && forall i | 0 <= i < k :: s[i] != t
  {
    PositionFrom(s, t, 0)
  }

  ghost function PositionFrom(s: seq<nat>, t: nat, from: nat): (k: nat)
    requires from <= |s| && t in s[from..]
    ensures from <= k < |s| && s[k] == t && forall i | from <= i < k :: s[i] != t
    decreases |s| - from
  {
    if s[from] == t then from else PositionFrom(s, t, from + 1)
  }

  /** All tags of a history, the most recent first, each once. */
  ghost function Stack(h: seq<nat>): seq<nat> {
    if h == [] then [] else Front(Stack(h[..|h| - 1]), h[|h| - 1])
  }

  /** The first `n` elements, or all. */
  ghost function Top(s: seq<nat>, n: nat): seq<nat> {
    if n < |s| then s[..n] else s
  }

  lemma FrontDistinct(s: seq<nat>, t: nat)
    requires Distinct(s)
    ensures Distinct(Front(s, t))
    ensures forall x :: x in Front(s, t) <==> x == t || x in s
  {
    var f := Front(s, t);
    if t in s {
      var k := Position(s, t);
      assert forall i | 0 < i < |f| :: f[i] == s[if i <= k then i - 1 else i];
      forall x | x in s ensures x in f {
        var i :| 0 <= i < |s| && s[i] == x;
        assert x == f[if i < k then i + 1 else if i == k then 0 else i];
      }
    }
  }

  lemma {:induction false} StackDistinct(h: seq<nat>)
    ensures Distinct(Stack(h)) && forall x :: x in Stack(h) <==> x in h
  {
    if h != [] {
      var g := h[..|h| - 1];
      StackDistinct(g);
      FrontDistinct(Stack(g), h[|h| - 1]);
      assert h == g + [h[|h| - 1]];
    }
  }

  /** How many tags lie above `t`; all of them if it is not there. */
  ghost function Depth(s: seq<nat>, t: nat): nat {
    if t in s then Position(s, t) else |s|
  }

  /** `f` is `s` with element `p`, or a new one if `p` is past the end, moved to the front. */
  ghost predicate StackMoved(s: seq<nat>, f: seq<nat>, p: nat) {
    |f| == (if p < |s| then |s| else |s| + 1) && forall i | 0 < i < |f| :: f[i] == s[if i <= p then i - 1 else i]
  }

  lemma FrontAt(s: seq<nat>, t: nat)
    ensures Front(s, t)[0] == t && StackMoved(s, Front(s, t), Depth(s, t)) && Depth(s, t) <= |s|
  {
    if t in s {
      MovedToFront(s, Without(s, Position(s, t)), t, Position(s, t));
    }
  }

  lemma MovedToFront(s: seq<nat>, rest: seq<nat>, t: nat, p: nat)
    requires p < |s| && rest == Without(s, p)
    ensures StackMoved(s, [t] + rest, p)
  {
    var f := [t] + rest;
    forall i | 0 < i < |f| ensures f[i] == s[if i <= p then i - 1 else i] {
      assert f[i] == rest[i - 1];
    }
  }

  /** `t` is `l` with element `k` moved to the front, or with a new one there and at most `ways` in all. */
  ghost predicate ListMoved(l: seq<Entry>, t: seq<Entry>, k: int, ways: nat) {
    && |t| == (if k >= 0 then |l| else if |l| < ways then |l| + 1 else ways)
    && forall i | 0 < i < |t| ::
        0 <= (if k >= 0 && i > k then i else i - 1) < |l| && t[i] == l[if k >= 0 && i > k then i else i - 1]
  }

  lemma TouchAt(l: seq<Entry>, ways: nat, tag: nat, store: bool)
    requires ways > 0 && |l| <= ways
    ensures var t := Touch(l, ways, tag, store); ListMoved(l, t, Find(l, tag), ways) && |t| > 0 && t[0].tag == tag
  {
    var k := Find(l, tag);
    if k >= 0 {
      FrontOfRest(Entry(tag, l[k].dirty || store), l, k);
    } else if |l| < ways {
    } else {
    }
  }

  lemma FrontOfRest(e: Entry, l: seq<Entry>, k: nat)
    requires k < |l|
    ensures forall i | 0 < i < |l| :: ([e] + Without(l, k))[i] == l[if i > k then i else i - 1]
  {
  }

  /** The list has the tags of the top of the stack. */
  ghost predicate Agree(l: seq<Entry>, s: seq<nat>, ways: nat) {
    |l| == (if ways < |s| then ways else |s|) && forall i | 0 <= i < |l| :: l[i].tag == s[i]
  }

  lemma AgreeIsTop(l: seq<Entry>, s: seq<nat>, ways: nat)
    ensures Agree(l, s, ways) <==> Tags(l) == Top(s, ways)
  {
    assert Tags(l) == Top(s, ways) ==> forall i | 0 <= i < |l| :: l[i].tag == Tags(l)[i] == s[i];
  }

  /** The list finds a tag where the stack has it, if that is within the list. */
  lemma FindInTop(l: seq<Entry>, ways: nat, s: seq<nat>, tag: nat)
    requires Distinct(s) && Agree(l, s, ways)
    ensures if Depth(s, tag) < |l| then Find(l, tag) == Depth(s, tag) else Find(l, tag) == -1
  {
  }

  /** The two moves to the front agree; `k` and `p` say where the tag was. */
  lemma MovesAgree(l: seq<Entry>, s: seq<nat>, t: seq<Entry>, f: seq<nat>, ways: nat, k: int, p: nat)
    requires ways > 0 && Agree(l, s, ways) && ListMoved(l, t, k, ways) && StackMoved(s, f, p) && p <= |s|
    requires k == if p < |l| then p else -1
    requires |t| > 0 && t[0].tag == f[0]
    ensures Agree(t, f, ways)
  {
    forall i | 0 <= i < |t| ensures t[i].tag == f[i] {
    }
  }

  /** A cache of any associativity keeps the top of the stack. */
  lemma TouchKeepsTop(l: seq<Entry>, ways: nat, s: seq<nat>, tag: nat, store: bool)
    requires ways > 0 && Distinct(s) && Agree(l, s, ways)
    ensures Agree(Touch(l, ways, tag, store), Front(s, tag), ways)
  {
    FindInTop(l, ways, s, tag);
    FrontAt(s, tag);
    TouchAt(l, ways, tag, store);
    MovesAgree(l, s, Touch(l, ways, tag, store), Front(s, tag), ways, Find(l, tag), Depth(s, tag));
  }

  /** The distinct tags of a history since the last occurrence of `t`. */
  ghost function Since(h: seq<nat>, t: nat): set<nat> {
    if h == [] || h[|h| - 1] == t then {} else Since(h[..|h| - 1], t) + {h[|h| - 1]}
  }

  ghost function Elements(s: seq<nat>): set<nat> {
    set x | x in s
  }

  lemma {:induction false} DistinctCount(s: seq<nat>)
    requires Distinct(s)
    ensures |Elements(s)| == |s|
  {
    if s != [] {
      DistinctCount(s[..|s| - 1]);
      assert Elements(s) == Elements(s[..|s| - 1]) + {s[|s| - 1]};
    }
  }

  /** The tags above `t`. */
  ghost function Above(s: seq<nat>, t: nat): set<nat>
    requires t in s
  {
    set x | x in s && Higher(s, x, t)
  }

  lemma AboveCount(s: seq<nat>, t: nat)
    requires Distinct(s) && t in s
    ensures |Above(s, t)| == Position(s, t)
  {
    var k := Position(s, t);
    DistinctCount(s[..k]);
    forall x ensures x in Elements(s[..k]) <==> x in Above(s, t) {
      if x in s[..k] {
        var i :| 0 <= i < k && s[i] == x;
        assert Position(s, x) == i;
      }
      if x in Above(s, t) {
        assert s[..k][Position(s, x)] == x;
      }
    }
    assert Elements(s[..k]) == Above(s, t);
  }

  /** Where `t` goes when another tag comes to the front. */
  lemma FrontPosition(s: seq<nat>, u: nat, t: nat)
    requires Distinct(s) && t in s && u != t
    ensures t in Front(s, u)
    ensures Position(Front(s, u), t) == if Position(s, t) < Depth(s, u) then Position(s, t) + 1 else Position(s, t)
  {
    var f, k := Front(s, u), Position(s, t);
    var j := if k < Depth(s, u) then k + 1 else k;
    FrontAt(s, u);
    FrontDistinct(s, u);
    assert f[j] == t;
  }

  /** `x` lies above `t`. */
  ghost predicate Higher(s: seq<nat>, x: nat, t: nat) {
    x in s && t in s && Position(s, x) < Position(s, t)
  }

  lemma StillHigher(s: seq<nat>, u: nat, t: nat, x: nat)
    requires Distinct(s) && t in s && u != t
    ensures Higher(Front(s, u), x, t) <==> x == u || Higher(s, x, t)
  {
    FrontPosition(s, u, t);
    FrontDistinct(s, u);
    if x == u {
      assert Front(s, u)[0] == u && Position(Front(s, u), u) == 0;
    } else if x in s {
      FrontPosition(s, u, x);
      assert s[Position(s, x)] == x && s[Position(s, t)] == t;
      assert u in s ==> s[Position(s, u)] == u;
    }
  }

  /** Above `t` in the stack are exactly the tags used since `t` was. */
  lemma {:induction false} AboveIsSince(h: seq<nat>, t: nat)
    requires t in h
    ensures t in Stack(h) && Above(Stack(h), t) == Since(h, t)
  {
    var g, u := h[..|h| - 1], h[|h| - 1];
    assert h == g + [u];
    StackDistinct(g);
    StackDistinct(h);
    if u == t {
      assert Stack(h)[0] == t && Position(Stack(h), t) == 0;
    } else {
      AboveIsSince(g, t);
      forall x ensures x in Above(Stack(h), t) <==> x in Since(h, t) {
        StillHigher(Stack(g), u, t, x);
        assert x in Above(Stack(g), t) <==> Higher(Stack(g), x, t);
      }
    }
  }

  /** An access hits exactly when fewer other tags than the set has lines were used since the last access to its tag. */
  lemma HitIffRecent(h: seq<nat>, t: nat, ways: nat)
    requires ways > 0
    ensures t in Top(Stack(h), ways) <==> t in h && |Since(h, t)| < ways
  {
    StackDistinct(h);
    var s := Stack(h);
    if t in h {
      AboveIsSince(h, t);
      AboveCount(s, t);
      var k := Position(s, t);
      assert k < ways ==> Top(s, ways)[k] == t;
    }
  }

  /** More lines keep at least the same tags. */
  lemma TopInclusion(s: seq<nat>, small: nat, large: nat, t: nat)
    requires small <= large && t in Top(s, small)
    ensures t in Top(s, large)
  {
    var i :| 0 <= i < |Top(s, small)| && Top(s, small)[i] == t;
    assert Top(s, large)[i] == t;
  }
}
