/** The shape of the splay tree of malloc/stree.c as a value, and what splaying does to it. */
module SplayShape {

  /** A `node_t`. Records are pointers; 0 stands for NULL. */
  class Node {
    const key: int
    const record: nat
    var left: Node?
    var right: Node?
    var parent: Node?

    constructor (key: int, record: nat, parent: Node?)
      ensures this.key == key && this.record == record && this.parent == parent && left == null && right == null
    {
      this.key, this.record, this.parent, left, right := key, record, parent, null, null;
    }
  }

  datatype Tree = Leaf | Branch(left: Tree, node: Node, right: Tree)

  /** The way from the root down to a subtree: each step names what lies beside it. */
  datatype Path =
    | Top
    | LeftOf(up: Path, node: Node, right: Tree)
    | RightOf(left: Tree, node: Node, up: Path)

  /** The whole tree when `t` hangs at the end of `p`. */
  ghost function Plug(t: Tree, p: Path): Tree
    decreases p
  {
    match p
    case Top => t
    case LeftOf(up, n, r) => Plug(Branch(t, n, r), up)
    case RightOf(l, n, up) => Plug(Branch(l, n, t), up)
  }

  /** The nodes in key order. */
  ghost function InOrder(t: Tree): seq<Node> {
    match t
    case Leaf => []
    case Branch(l, n, r) => InOrder(l) + [n] + InOrder(r)
  }

  /** The nodes that come before the end of the path in key order. */
  ghost function Before(p: Path): seq<Node> {
    match p
    case Top => []
    case LeftOf(up, n, r) => Before(up)
    case RightOf(l, n, up) => Before(up) + InOrder(l) + [n]
  }

  /** The nodes that come after it. */
  ghost function After(p: Path): seq<Node> {
    match p
    case Top => []
    case LeftOf(up, n, r) => [n] + InOrder(r) + After(up)
    case RightOf(l, n, up) => After(up)
  }

  lemma Regroup<T>(a: seq<T>, b: seq<T>, c: seq<T>, d: seq<T>, e: seq<T>)
    ensures a + (b + c + d) + e == a + b + (c + d + e)
    ensures a + (b + c + d) + e == (a + b + c) + d + e
    ensures a + (b + c + d) + e == (a + b) + c + (d + e)
  {
  }

  lemma {:induction false} PlugInOrder(t: Tree, p: Path)
    ensures InOrder(Plug(t, p)) == Before(p) + InOrder(t) + After(p)
    decreases p
  {
    match p
    case Top =>
    case LeftOf(up, n, r) =>
      PlugInOrder(Branch(t, n, r), up);
      Regroup(Before(up), InOrder(t), [n], InOrder(r), After(up));
    case RightOf(l, n, up) =>
      PlugInOrder(Branch(l, n, t), up);
      Regroup(Before(up), InOrder(l), [n], InOrder(t), After(up));
  }

  /** What one more node at a leaf does to the order. */
  lemma SingleInOrder(x: Node, p: Path)
    ensures InOrder(Plug(Leaf, p)) == Before(p) + After(p)
    ensures InOrder(Plug(Branch(Leaf, x, Leaf), p)) == Before(p) + [x] + After(p)
  {
    PlugInOrder(Leaf, p);
    PlugInOrder(Branch(Leaf, x, Leaf), p);
    assert InOrder(Branch(Leaf, x, Leaf)) == [x];
  }

  /** A rotation keeps the order of the nodes. */
  lemma RotationKeepsOrder(a: Tree, x: Node, b: Tree, y: Node, c: Tree)
    ensures InOrder(Branch(Branch(a, x, b), y, c)) == InOrder(Branch(a, x, Branch(b, y, c)))
  {
    Regroup([], InOrder(a) + [x], InOrder(b), [y], InOrder(c));
    Regroup(InOrder(a) + [x], InOrder(b), [y], InOrder(c), []);
  }

  /**
   * `splay`: the tree after the node `x`, with subtrees `a` and `b` at the end of `p`, has been rotated up to the root.
   */
  ghost function SplayUp(a: Tree, x: Node, b: Tree, p: Path): Tree
    decreases p
  {
    match p
    case Top => Branch(a, x, b)
    case LeftOf(Top, y, c) => Branch(a, x, Branch(b, y, c))
    case RightOf(c, y, Top) => Branch(Branch(c, y, a), x, b)
    case LeftOf(LeftOf(up, z, d), y, c) => SplayUp(a, x, Branch(b, y, Branch(c, z, d)), up)
    case RightOf(c, y, RightOf(d, z, up)) => SplayUp(Branch(Branch(d, z, c), y, a), x, b, up)
    case LeftOf(RightOf(d, z, up), y, c) => SplayUp(Branch(d, z, a), x, Branch(b, y, c), up)
    case RightOf(c, y, LeftOf(up, z, d)) => SplayUp(Branch(c, y, a), x, Branch(b, z, d), up)
  }

  /** The number of iterations of `splay`'s loop. */
  ghost function Steps(p: Path): nat {
    match p
    case Top => 0
    case LeftOf(Top, _, _) => 1
    case RightOf(_, _, Top) => 1
    case LeftOf(LeftOf(up, _, _), _, _) => 1 + Steps(up)
    case RightOf(_, _, RightOf(_, _, up)) => 1 + Steps(up)
    case LeftOf(RightOf(_, _, up), _, _) => 1 + Steps(up)
    case RightOf(_, _, LeftOf(up, _, _)) => 1 + Steps(up)
  }

  ghost function Depth(p: Path): nat {
    match p
    case Top => 0
    case LeftOf(up, _, _) => 1 + Depth(up)
    case RightOf(_, _, up) => 1 + Depth(up)
  }

  /** Every iteration but the last takes the node two levels up. */
  lemma {:induction false} StepsAreHalves(p: Path)
    ensures Depth(p) <= 2 * Steps(p) <= Depth(p) + 1
  {
    match p
    case LeftOf(LeftOf(up, _, _), _, _) => StepsAreHalves(up);
    case RightOf(_, _, RightOf(_, _, up)) => StepsAreHalves(up);
    case LeftOf(RightOf(_, _, up), _, _) => StepsAreHalves(up);
    case RightOf(_, _, LeftOf(up, _, _)) => StepsAreHalves(up);
    case _ =>
  }

  /** The whole order only depends on the order of the part. */
  lemma SameOrderPlugged(t: Tree, u: Tree, p: Path)
    requires InOrder(t) == InOrder(u)
    ensures InOrder(Plug(t, p)) == InOrder(Plug(u, p))
  {
    PlugInOrder(t, p);
    PlugInOrder(u, p);
  }

  /** Splaying makes `x` the root and leaves the order of the nodes as it was. */
  lemma {:induction false} SplayKeepsOrder(a: Tree, x: Node, b: Tree, p: Path)
    ensures var s := SplayUp(a, x, b, p); s.Branch? && s.node == x && InOrder(s) == InOrder(Plug(Branch(a, x, b), p))
    decreases p
  {
    match p
    case Top =>
    case LeftOf(Top, y, c) =>
      RotationKeepsOrder(a, x, b, y, c);
    case RightOf(c, y, Top) =>
      RotationKeepsOrder(c, y, a, x, b);
    case LeftOf(LeftOf(up, z, d), y, c) =>
      RotationKeepsOrder(Branch(a, x, b), y, c, z, d);
      RotationKeepsOrder(a, x, b, y, Branch(c, z, d));
      SplayKeepsOrder(a, x, Branch(b, y, Branch(c, z, d)), up);
      SameOrderPlugged(Branch(Branch(Branch(a, x, b), y, c), z, d), Branch(a, x, Branch(b, y, Branch(c, z, d))), up);
    case RightOf(c, y, RightOf(d, z, up)) =>
      RotationKeepsOrder(d, z, c, y, Branch(a, x, b));
      RotationKeepsOrder(Branch(d, z, c), y, a, x, b);
      SplayKeepsOrder(Branch(Branch(d, z, c), y, a), x, b, up);
      SameOrderPlugged(Branch(d, z, Branch(c, y, Branch(a, x, b))), Branch(Branch(Branch(d, z, c), y, a), x, b), up);
    case LeftOf(RightOf(d, z, up), y, c) =>
      RotationKeepsOrder(a, x, b, y, c);
      RotationKeepsOrder(d, z, a, x, Branch(b, y, c));
      SplayKeepsOrder(Branch(d, z, a), x, Branch(b, y, c), up);
      SameOrderPlugged(Branch(d, z, Branch(Branch(a, x, b), y, c)), Branch(Branch(d, z, a), x, Branch(b, y, c)), up);
    case RightOf(c, y, LeftOf(up, z, d)) =>
      RotationKeepsOrder(c, y, a, x, b);
      RotationKeepsOrder(Branch(c, y, a), x, b, z, d);
      SplayKeepsOrder(Branch(c, y, a), x, Branch(b, z, d), up);
      SameOrderPlugged(Branch(Branch(c, y, Branch(a, x, b)), z, d), Branch(Branch(c, y, a), x, Branch(b, z, d)), up);
  }

  /** The leftmost node of a subtree, and the subtree without it. */
  ghost function Minimum(t: Tree): Node
    requires t.Branch?
  {
    if t.left.Leaf? then t.node else Minimum(t.left)
  }

  ghost function WithoutMinimum(t: Tree): Tree
    requires t.Branch?
  {
    if t.left.Leaf? then t.right else Branch(WithoutMinimum(t.left), t.node, t.right)
  }

  lemma {:induction false} MinimumFirst(t: Tree)
    requires t.Branch?
    ensures InOrder(t) == [Minimum(t)] + InOrder(WithoutMinimum(t))
  {
    if t.left.Branch? {
      MinimumFirst(t.left);
    }
  }

  /** `tree_remove` once the node to remove is the root of `l`, `r`: the successor takes its place. */
  ghost function Join(l: Tree, r: Tree): Tree {
    if l.Leaf? then r else if r.Leaf? then l else Branch(l, Minimum(r), WithoutMinimum(r))
  }

  lemma JoinOrder(l: Tree, r: Tree)
    ensures InOrder(Join(l, r)) == InOrder(l) + InOrder(r)
  {
    if r.Branch? {
      MinimumFirst(r);
    }
  }

  /** Where the search for `key` ends: at the node that has it or at a leaf. */
  ghost function Locate(t: Tree, key: int, p: Path): (Tree, Path) {
    if t.Leaf? || key == t.node.key then (t, p)
    else if key > t.node.key then Locate(t.right, key, RightOf(t.left, t.node, p))
    else Locate(t.left, key, LeftOf(p, t.node, t.right))
  }

  lemma {:induction false} LocatePlug(t: Tree, key: int, p: Path)
    ensures var (s, q) := Locate(t, key, p); Plug(s, q) == Plug(t, p) && (s.Branch? ==> s.node.key == key)
  {
    if t.Branch? && key != t.node.key {
      if key > t.node.key {
        LocatePlug(t.right, key, RightOf(t.left, t.node, p));
      } else {
        LocatePlug(t.left, key, LeftOf(p, t.node, t.right));
      }
    }
  }

  /** Keys strictly increase along the sequence. */
  ghost predicate Sorted(s: seq<Node>) {
    forall i, j | 0 <= i < j < |s| :: s[i].key < s[j].key
  }

  /** A sorted sequence of nodes as a map from keys to records. */
  ghost function Contents(s: seq<Node>): map<int, nat> {
    if s == [] then map[] else Contents(s[..|s| - 1])[s[|s| - 1].key := s[|s| - 1].record]
  }

  /** A node of the sequence has the key. */
  ghost predicate HasKey(s: seq<Node>, k: int) {
    exists i :: 0 <= i < |s| && s[i].key == k
  }

  lemma HasKeyLast(t: seq<Node>, n: Node, k: int)
    ensures HasKey(t + [n], k) <==> k == n.key || HasKey(t, k)
  {
    var s := t + [n];
    assert s[|t|] == n;
    if HasKey(t, k) {
      var i :| 0 <= i < |t| && t[i].key == k;
      assert s[i].key == k;
    }
    if HasKey(s, k) {
      var i :| 0 <= i < |s| && s[i].key == k;
      assert i < |t| ==> t[i].key == k;
    }
  }

  lemma ContentsStep(s: seq<Node>, t: seq<Node>, n: Node)
    requires s == t + [n]
    ensures Contents(s) == Contents(t)[n.key := n.record]
  {
    assert s[..|s| - 1] == t;
  }

  lemma {:induction false} KeysOf(s: seq<Node>, k: int)
    ensures k in Contents(s) <==> HasKey(s, k)
  {
    if s != [] {
      var t, n := s[..|s| - 1], s[|s| - 1];
      assert s == t + [n];
      KeysOf(t, k);
      HasKeyLast(t, n, k);
      ContentsStep(s, t, n);
    }
  }

  lemma {:induction false} RecordAt(s: seq<Node>, i: nat)
    requires Sorted(s) && i < |s|
    ensures s[i].key in Contents(s) && Contents(s)[s[i].key] == s[i].record
  {
    var t, n := s[..|s| - 1], s[|s| - 1];
    ContentsStep(s, t, n);
    if i < |t| {
      assert t[i] == s[i] && s[i].key < n.key;
      RecordAt(t, i);
    }
  }

  lemma {:induction false} AsManyKeys(s: seq<Node>)
    requires Sorted(s)
    ensures |Contents(s)| == |s|
  {
    if s != [] {
      var t, n := s[..|s| - 1], s[|s| - 1];
      AsManyKeys(t);
      KeysOf(t, n.key);
      ContentsStep(s, t, n);
      assert n.key !in Contents(t);
    }
  }

  lemma ContentsOf(s: seq<Node>)
    requires Sorted(s)
    ensures forall k :: k in Contents(s) <==> exists i :: 0 <= i < |s| && s[i].key == k
    ensures forall i | 0 <= i < |s| :: s[i].key in Contents(s) && Contents(s)[s[i].key] == s[i].record
    ensures |Contents(s)| == |s|
  {
    forall k ensures k in Contents(s) <==> HasKey(s, k) {
      KeysOf(s, k);
    }
    forall i | 0 <= i < |s| ensures s[i].key in Contents(s) && Contents(s)[s[i].key] == s[i].record {
      RecordAt(s, i);
    }
    AsManyKeys(s);
  }

  /** Where the search goes, everything passed on the left is smaller and everything passed on the right larger. */
  ghost predicate Bracketed(p: Path, key: int) {
    && (forall i | 0 <= i < |Before(p)| :: Before(p)[i].key < key)
    && (forall i | 0 <= i < |After(p)| :: key < After(p)[i].key)
  }

  lemma {:induction false} LocateBracketed(t: Tree, key: int, p: Path)
    requires Sorted(InOrder(t)) && Bracketed(p, key)
    ensures Bracketed(Locate(t, key, p).1, key)
  {
    if t.Branch? && key != t.node.key {
      BracketStep(t, key, p);
      if key > t.node.key {
        LocateBracketed(t.right, key, RightOf(t.left, t.node, p));
      } else {
        LocateBracketed(t.left, key, LeftOf(p, t.node, t.right));
      }
    }
  }

  lemma SortedParts(l: seq<Node>, n: Node, r: seq<Node>)
    requires Sorted(l + [n] + r)
    ensures Sorted(l) && Sorted(r)
    ensures (forall i | 0 <= i < |l| :: l[i].key < n.key) && (forall i | 0 <= i < |r| :: n.key < r[i].key)
  {
    var s := l + [n] + r;
    assert s[|l|] == n;
    assert forall i | 0 <= i < |l| :: l[i] == s[i];
    assert forall i | 0 <= i < |r| :: r[i] == s[|l| + 1 + i];
  }

  lemma BracketStep(t: Tree, key: int, p: Path)
    requires t.Branch? && Sorted(InOrder(t)) && Bracketed(p, key)
    ensures Sorted(InOrder(t.left)) && Sorted(InOrder(t.right))
    ensures key > t.node.key ==> Bracketed(RightOf(t.left, t.node, p), key)
    ensures key < t.node.key ==> Bracketed(LeftOf(p, t.node, t.right), key)
  {
    SortedParts(InOrder(t.left), t.node, InOrder(t.right));
  }

  lemma SortedWithout(s: seq<Node>, n: Node, u: seq<Node>)
    requires Sorted(s + [n] + u)
    ensures Sorted(s + u)
  {
    var all, rest := s + [n] + u, s + u;
    assert forall i | 0 <= i < |rest| :: rest[i] == all[if i < |s| then i else i + 1];
  }

  lemma SortedFront(s: seq<Node>, n: Node)
    requires Sorted(s + [n])
    ensures Sorted(s) && n.key !in Contents(s)
  {
    SortedParts(s, n, []);
    assert s + [n] + [] == s + [n];
    ContentsOf(s);
  }

  lemma ContentsLast(s: seq<Node>, w: Node)
    ensures Contents(s + [w]) == Contents(s)[w.key := w.record]
  {
    assert (s + [w])[..|s|] == s;
  }

  lemma UpdatesCommute(m: map<int, nat>, j: int, u: nat, k: int, v: nat)
    requires j != k
    ensures m[j := u][k := v] == m[k := v][j := u]
  {
  }

  /** One node more or less in a sorted sequence is one key more or less in the map. */
  lemma {:induction false} ContentsWith(s: seq<Node>, n: Node, u: seq<Node>)
    requires Sorted(s + [n] + u)
    ensures n.key !in Contents(s + u) && Contents(s + [n] + u) == Contents(s + u)[n.key := n.record]
  {
    if u == [] {
      assert s + u == s && s + [n] + u == s + [n];
      SortedFront(s, n);
      ContentsLast(s, n);
    } else {
      var v, w := u[..|u| - 1], u[|u| - 1];
      assert s + [n] + u == (s + [n] + v) + [w] && s + u == (s + v) + [w];
      SortedFront(s + [n] + v, w);
      ContentsWith(s, n, v);
      ContentsLast(s + [n] + v, w);
      ContentsLast(s + v, w);
      assert n.key in Contents(s + [n] + v);
      UpdatesCommute(Contents(s + v), n.key, n.record, w.key, w.record);
    }
  }

  /** A key that belongs at the end of a path is not in the rest of the tree. */
  lemma BracketedSorted(p: Path, n: Node)
    requires Sorted(Before(p) + After(p)) && Bracketed(p, n.key)
    ensures Sorted(Before(p) + [n] + After(p))
  {
    var l, r := Before(p), After(p);
    var all := l + [n] + r;
    forall i, j | 0 <= i < j < |all| ensures all[i].key < all[j].key {
      assert i < |l| ==> all[i] == l[i] && all[i] == (l + r)[i];
      assert j < |l| ==> all[j] == l[j] && all[j] == (l + r)[j];
      assert i > |l| ==> all[i] == r[i - |l| - 1] && all[i] == (l + r)[i - 1];
      assert j > |l| ==> all[j] == r[j - |l| - 1] && all[j] == (l + r)[j - 1];
    }
  }

  /** What a search learns about the map: `(t, p)` is where it ended. */
  lemma SearchFinds(whole: Tree, key: int)
    requires Sorted(InOrder(whole))
    ensures var (t, p) := Locate(whole, key, Top); var m := Contents(InOrder(whole));
            Bracketed(p, key)
            && InOrder(whole) == Before(p) + InOrder(t) + After(p)
            && (t.Branch? <==> key in m)
            && (t.Branch? ==> t.node.key == key && m[key] == t.node.record)
  {
    var (t, p) := Locate(whole, key, Top);
    LocatePlug(whole, key, Top);
    LocateBracketed(whole, key, Top);
    PlugInOrder(t, p);
    if t.Branch? {
      var l, r := Before(p) + InOrder(t.left), InOrder(t.right) + After(p);
      Regroup(Before(p), InOrder(t.left), [t.node], InOrder(t.right), After(p));
      ContentsWith(l, t.node, r);
    } else {
      assert InOrder(whole) == Before(p) + After(p);
      KeyAbsent(Before(p), After(p), key);
    }
  }

  lemma KeyAbsent(l: seq<Node>, r: seq<Node>, key: int)
    requires Sorted(l + r)
    requires (forall i | 0 <= i < |l| :: l[i].key < key) && (forall i | 0 <= i < |r| :: key < r[i].key)
    ensures key !in Contents(l + r)
  {
    ContentsOf(l + r);
    NotBetween(l, r, key);
  }

  lemma NotBetween(l: seq<Node>, r: seq<Node>, key: int)
    requires (forall i | 0 <= i < |l| :: l[i].key < key) && (forall i | 0 <= i < |r| :: key < r[i].key)
    ensures forall i | 0 <= i < |l + r| :: (l + r)[i].key != key && ((l + r)[i].key < key <==> i < |l|)
  {
    forall i | 0 <= i < |l + r| ensures (l + r)[i].key != key && ((l + r)[i].key < key <==> i < |l|) {
      assert (l + r)[i] == if i < |l| then l[i] else r[i - |l|];
    }
  }

  /** `r` is the record of the greatest key up to `key`, or 0 when there is none. */
  ghost predicate Nearest(m: map<int, nat>, key: int, r: nat) {
    || ((forall k | k in m :: k > key) && r == 0)
    || (exists k :: k in m && k <= key && m[k] == r && forall j | j in m && j <= key :: j <= k)
  }

  /** The greatest key up to `key` is the one found or the last one passed on the left. */
  lemma NearestFound(whole: Tree, key: int, r: nat)
    requires Sorted(InOrder(whole))
    requires var (t, p) := Locate(whole, key, Top); var l := Before(p);
             r == if t.Branch? then t.node.record else if l == [] then 0 else l[|l| - 1].record
    ensures Nearest(Contents(InOrder(whole)), key, r)
  {
    var (t, p) := Locate(whole, key, Top);
    SearchFinds(whole, key);
    if t.Leaf? {
      assert InOrder(whole) == Before(p) + After(p);
      LastIsNearest(Before(p), After(p), key, r);
    }
  }

  lemma LastIsNearest(l: seq<Node>, u: seq<Node>, key: int, r: nat)
    requires Sorted(l + u)
    requires (forall i | 0 <= i < |l| :: l[i].key < key) && (forall i | 0 <= i < |u| :: key < u[i].key)
    requires r == if l == [] then 0 else l[|l| - 1].record
    ensures Nearest(Contents(l + u), key, r)
  {
    var s := l + u;
    ContentsOf(s);
    NotBetween(l, u, key);
    if l == [] {
      assert forall i | 0 <= i < |s| :: s[i].key >= key;
    } else {
      var last := s[|l| - 1];
      assert last == l[|l| - 1];
      forall j | j in Contents(s) && j <= key ensures j <= last.key {
        var i :| 0 <= i < |s| && s[i].key == j;
        assert i < |l|;
      }
      assert last.key in Contents(s) && Contents(s)[last.key] == r;
    }
  }
}
