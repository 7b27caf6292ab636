/** The amortised bound on splaying: iterations of `splay`'s loop against the sum of floor(log2(subtree size)). */
module SplayCost {
  import opened Arithmetic
  import opened SplayShape

  /** How often `p` can be doubled without going past `n`. */
  ghost function Doublings(n: nat, p: nat): nat
    requires p > 0
    decreases n - p
  {
    if 2 * p <= n then 1 + Doublings(n, 2 * p) else 0
  }

  /** floor(log2 n), and 0 for 0. */
  ghost function Log2(n: nat): nat { Doublings(n, 1) }

  lemma {:induction false} DoublingsMonotone(m: nat, n: nat, p: nat)
    requires m <= n && p > 0
    ensures Doublings(m, p) <= Doublings(n, p)
    decreases n - p
  {
    if 2 * p <= m {
      DoublingsMonotone(m, n, 2 * p);
    }
  }

  lemma Log2Monotone(m: nat, n: nat)
    requires m <= n
    ensures Log2(m) <= Log2(n)
  {
    DoublingsMonotone(m, n, 1);
  }

  lemma {:induction false} DoublingsBounds(n: nat, j: nat)
    requires Pow2(j) <= n
    ensures Pow2(j + Doublings(n, Pow2(j))) <= n < 2 * Pow2(j + Doublings(n, Pow2(j)))
    decreases n - Pow2(j)
  {
    if 2 * Pow2(j) <= n {
      assert Pow2(j + 1) == 2 * Pow2(j);
      DoublingsBounds(n, j + 1);
      assert j + Doublings(n, Pow2(j)) == j + 1 + Doublings(n, Pow2(j + 1));
    }
  }

  lemma Log2Bounds(n: nat)
    requires n > 0
    ensures Pow2(Log2(n)) <= n < 2 * Pow2(Log2(n))
  {
    assert Pow2(0) == 1;
    DoublingsBounds(n, 0);
  }

  /** Two parts of the same rank add up to more than that rank. */
  lemma RankOfSum(m: nat, n: nat, k: nat)
    requires m > 0 && n > 0 && Log2(m) >= k && Log2(n) >= k
    ensures Log2(m + n) >= k + 1
  {
    Log2Bounds(m);
    Log2Bounds(n);
    Log2Bounds(m + n);
    Pow2Monotone(k, Log2(m));
    Pow2Monotone(k, Log2(n));
    if Log2(m + n) <= k {
      Pow2Monotone(Log2(m + n), k);
    }
  }

  ghost function Size(t: Tree): nat {
    match t
    case Leaf => 0
    case Branch(l, _, r) => Size(l) + 1 + Size(r)
  }

  ghost function Rank(t: Tree): nat { Log2(Size(t)) }

  /** The potential: the ranks of all subtrees added up. */
  ghost function Potential(t: Tree): nat {
    match t
    case Leaf => 0
    case Branch(l, _, r) => Potential(l) + Rank(t) + Potential(r)
  }

  /** The size of a part of the given size with the node above it and that node's other subtree. */
  ghost function Grown(size: nat, sibling: Tree): nat { size + 1 + Size(sibling) }

  /** The potential of a whole tree is that of a part plus what the path adds, which only depends on the part's size. */
  ghost function Above(size: nat, p: Path): nat
    decreases p
  {
    match p
    case Top => 0
    case LeftOf(up, _, r) => Potential(r) + Log2(Grown(size, r)) + Above(Grown(size, r), up)
    case RightOf(l, _, up) => Potential(l) + Log2(Grown(size, l)) + Above(Grown(size, l), up)
  }

  ghost function Whole(size: nat, p: Path): nat
    decreases p
  {
    match p
    case Top => size
    case LeftOf(up, _, r) => Whole(Grown(size, r), up)
    case RightOf(l, _, up) => Whole(Grown(size, l), up)
  }

  /** One node and its other subtree around a part. */
  lemma GrownPart(t: Tree, n: Node, s: Tree)
    ensures Size(Branch(t, n, s)) == Grown(Size(t), s) == Size(Branch(s, n, t))
    ensures Potential(Branch(t, n, s)) == Potential(t) + Potential(s) + Log2(Grown(Size(t), s)) ==
            Potential(Branch(s, n, t))
  {
    assert Size(t) + 1 + Size(s) == Size(s) + 1 + Size(t);
  }

  lemma {:induction false} PlugPotential(t: Tree, p: Path)
    ensures Potential(Plug(t, p)) == Potential(t) + Above(Size(t), p)
    ensures Size(Plug(t, p)) == Whole(Size(t), p) >= Size(t)
    decreases p
  {
    if !p.Top? {
      var u := if p.LeftOf? then Branch(t, p.node, p.right) else Branch(p.left, p.node, t);
      OneNodeUp(t, p, u);
      PlugPotential(u, p.up);
    }
  }

  lemma OneNodeUp(t: Tree, p: Path, u: Tree)
    requires !p.Top? && u == if p.LeftOf? then Branch(t, p.node, p.right) else Branch(p.left, p.node, t)
    ensures Plug(t, p) == Plug(u, p.up) && Size(t) <= Size(u) && Whole(Size(t), p) == Whole(Size(u), p.up)
    ensures Potential(t) + Above(Size(t), p) == Potential(u) + Above(Size(u), p.up)
  {
    GrownPart(t, p.node, if p.LeftOf? then p.right else p.left);
  }

  /** The size of a tree is the number of its nodes. */
  lemma {:induction false} SizeIsCount(t: Tree)
    ensures Size(t) == |InOrder(t)|
  {
    if t.Branch? {
      SizeIsCount(t.left);
      SizeIsCount(t.right);
    }
  }

  /** One iteration pays for itself: `before` and `after` are the subtree at the upper node, `x` the splayed one. */
  ghost predicate Paid(before: Tree, x: Tree, after: Tree) {
    Size(after) == Size(before) && 1 + Potential(after) + 3 * Rank(x) <= Potential(before) + 3 * Rank(before)
  }

  /** The ranks in a zig-zig step: `x` and `sz` end up side by side below `n`. */
  lemma ZigZigRanks(sx: nat, sy: nat, my: nat, sz: nat, n: nat)
    requires 0 < sx <= sy <= n && my <= n && 0 < sz && sx + sz <= n
    ensures 1 + Log2(my) + Log2(sz) + 2 * Log2(sx) <= Log2(sy) + 3 * Log2(n)
  {
    Log2Monotone(sx, sy);
    Log2Monotone(sy, n);
    Log2Monotone(my, n);
    ZigZagSides(sx, sz, n);
  }

  /** The ranks in a zig-zag step: the two upper nodes end up side by side below `n`. */
  lemma ZigZagRanks(sx: nat, sy: nat, m: nat, k: nat, n: nat)
    requires 0 < sx <= sy <= n && m > 0 && k > 0 && m + k <= n
    ensures 1 + Log2(m) + Log2(k) + 2 * Log2(sx) <= Log2(sy) + 3 * Log2(n)
  {
    Log2Monotone(sx, sy);
    Log2Monotone(sx, n);
    ZigZagSides(m, k, n);
  }

  lemma ZigZagSides(m: nat, k: nat, n: nat)
    requires m > 0 && k > 0 && m + k <= n
    ensures Log2(m) <= Log2(n) && Log2(k) <= Log2(n) && Log2(m) + Log2(k) < 2 * Log2(n)
  {
    Log2Monotone(m, n);
    Log2Monotone(k, n);
    Log2Monotone(m + k, n);
    if Log2(m) == Log2(n) && Log2(k) == Log2(n) {
      RankOfSum(m, k, Log2(n));
    }
  }

  /** Size and potential one level down. */
  lemma Opened(l: Tree, n: Node, r: Tree)
    ensures Size(Branch(l, n, r)) == Size(l) + 1 + Size(r)
    ensures Potential(Branch(l, n, r)) == Potential(l) + Log2(Size(l) + 1 + Size(r)) + Potential(r)
  {
  }

  lemma LeftZigZigPaid(a: Tree, x: Node, b: Tree, y: Node, c: Tree, z: Node, d: Tree)
    ensures Paid(Branch(Branch(Branch(a, x, b), y, c), z, d), Branch(a, x, b),
            Branch(a, x, Branch(b, y, Branch(c, z, d))))
  {
    var t, u := Branch(a, x, b), Branch(c, z, d);
    Opened(a, x, b); Opened(t, y, c); Opened(Branch(t, y, c), z, d);
    Opened(c, z, d); Opened(b, y, u); Opened(a, x, Branch(b, y, u));
    ZigZigRanks(Size(t), Size(Branch(t, y, c)), Size(Branch(b, y, u)), Size(u), Size(Branch(Branch(t, y, c), z, d)));
  }

  lemma RightZigZigPaid(a: Tree, x: Node, b: Tree, y: Node, c: Tree, z: Node, d: Tree)
    ensures Paid(Branch(d, z, Branch(c, y, Branch(a, x, b))), Branch(a, x, b),
            Branch(Branch(Branch(d, z, c), y, a), x, b))
  {
    var t, u := Branch(a, x, b), Branch(d, z, c);
    Opened(a, x, b); Opened(c, y, t); Opened(d, z, Branch(c, y, t));
    Opened(d, z, c); Opened(u, y, a); Opened(Branch(u, y, a), x, b);
    ZigZigRanks(Size(t), Size(Branch(c, y, t)), Size(Branch(u, y, a)), Size(u), Size(Branch(d, z, Branch(c, y, t))));
  }

  lemma RightLeftPaid(a: Tree, x: Node, b: Tree, y: Node, c: Tree, z: Node, d: Tree)
    ensures Paid(Branch(d, z, Branch(Branch(a, x, b), y, c)), Branch(a, x, b),
            Branch(Branch(d, z, a), x, Branch(b, y, c)))
  {
    var t, u, v := Branch(a, x, b), Branch(d, z, a), Branch(b, y, c);
    Opened(a, x, b); Opened(t, y, c); Opened(d, z, Branch(t, y, c));
    Opened(d, z, a); Opened(b, y, c); Opened(u, x, v);
    ZigZagRanks(Size(t), Size(Branch(t, y, c)), Size(u), Size(v), Size(Branch(d, z, Branch(t, y, c))));
  }

  lemma LeftRightPaid(a: Tree, x: Node, b: Tree, y: Node, c: Tree, z: Node, d: Tree)
    ensures Paid(Branch(Branch(c, y, Branch(a, x, b)), z, d), Branch(a, x, b),
            Branch(Branch(c, y, a), x, Branch(b, z, d)))
  {
    var t, u, v := Branch(a, x, b), Branch(c, y, a), Branch(b, z, d);
    Opened(a, x, b); Opened(c, y, t); Opened(Branch(c, y, t), z, d);
    Opened(c, y, a); Opened(b, z, d); Opened(u, x, v);
    ZigZagRanks(Size(t), Size(Branch(c, y, t)), Size(u), Size(v), Size(Branch(Branch(c, y, t), z, d)));
  }

  lemma ZigRanks(sx: nat, su: nat, n: nat)
    requires sx <= n && su <= n
    ensures Log2(su) + 2 * Log2(sx) <= 3 * Log2(n)
  {
    Log2Monotone(sx, n);
    Log2Monotone(su, n);
  }

  lemma LeftZigPaid(a: Tree, x: Node, b: Tree, y: Node, c: Tree)
    ensures Potential(Branch(a, x, Branch(b, y, c))) + 3 * Rank(Branch(a, x, b))
            <= Potential(Branch(Branch(a, x, b), y, c)) + 3 * Rank(Branch(Branch(a, x, b), y, c))
  {
    var t, u := Branch(a, x, b), Branch(b, y, c);
    Opened(a, x, b); Opened(t, y, c); Opened(b, y, c); Opened(a, x, u);
    ZigRanks(Size(t), Size(u), Size(Branch(t, y, c)));
  }

  lemma RightZigPaid(a: Tree, x: Node, b: Tree, y: Node, c: Tree)
    ensures Potential(Branch(Branch(c, y, a), x, b)) + 3 * Rank(Branch(a, x, b))
            <= Potential(Branch(c, y, Branch(a, x, b))) + 3 * Rank(Branch(c, y, Branch(a, x, b)))
  {
    var t, u := Branch(a, x, b), Branch(c, y, a);
    Opened(a, x, b); Opened(c, y, t); Opened(c, y, a); Opened(u, x, b);
    ZigRanks(Size(t), Size(u), Size(Branch(c, y, t)));
  }

  /** An iteration that pays for itself at the upper node pays for itself in the whole tree. */
  lemma PaidPlugged(before: Tree, x: Tree, after: Tree, up: Path)
    requires Paid(before, x, after)
    ensures 1 + Potential(Plug(after, up)) + 3 * Rank(x) <= Potential(Plug(before, up)) + 3 * Rank(after)
    ensures Size(Plug(after, up)) == Size(Plug(before, up))
  {
    PlugPotential(before, up);
    PlugPotential(after, up);
  }

  /** A splay of `x` costs at most 3 (rank of the root - rank of x) + 1, amortised. */
  lemma {:induction false} SplayAmortised(a: Tree, x: Node, b: Tree, p: Path)
    ensures var whole, part := Plug(Branch(a, x, b), p), Branch(a, x, b);
            Steps(p) + Potential(SplayUp(a, x, b, p)) + 3 * Rank(part) <= Potential(whole) + 3 * Rank(whole) + 1
            && Size(SplayUp(a, x, b, p)) == Size(whole)
    decreases p
  {
    var part := Branch(a, x, b);
    match p
    case Top =>
    case LeftOf(Top, y, c) => LeftZigPaid(a, x, b, y, c);
    case RightOf(c, y, Top) => RightZigPaid(a, x, b, y, c);
    case LeftOf(LeftOf(up, z, d), y, c) =>
      var b' := Branch(b, y, Branch(c, z, d));
      SplayAmortised(a, x, b', up);
      LeftZigZigPaid(a, x, b, y, c, z, d);
      PaidPlugged(Branch(Branch(part, y, c), z, d), part, Branch(a, x, b'), up);
    case RightOf(c, y, RightOf(d, z, up)) =>
      var a' := Branch(Branch(d, z, c), y, a);
      SplayAmortised(a', x, b, up);
      RightZigZigPaid(a, x, b, y, c, z, d);
      PaidPlugged(Branch(d, z, Branch(c, y, part)), part, Branch(a', x, b), up);
    case LeftOf(RightOf(d, z, up), y, c) =>
      var a', b' := Branch(d, z, a), Branch(b, y, c);
      SplayAmortised(a', x, b', up);
      RightLeftPaid(a, x, b, y, c, z, d);
      PaidPlugged(Branch(d, z, Branch(part, y, c)), part, Branch(a', x, b'), up);
    case RightOf(c, y, LeftOf(up, z, d)) =>
      var a', b' := Branch(c, y, a), Branch(b, z, d);
      SplayAmortised(a', x, b', up);
      LeftRightPaid(a, x, b, y, c, z, d);
      PaidPlugged(Branch(Branch(c, y, part), z, d), part, Branch(a', x, b'), up);
  }

  /** Growing a part by one node: only ranks that cross a power of two rise, each power at most once. */
  lemma {:induction false} GrowthAbove(size: nat, p: Path)
    ensures Above(size + 1, p) + Log2(size + 1) <= Above(size, p) + Log2(Whole(size + 1, p))
    decreases p
  {
    match p
    case Top =>
    case LeftOf(up, _, r) =>
      GrowthAbove(Grown(size, r), up);
      GrowthBeside(size, r);
    case RightOf(l, _, up) =>
      GrowthAbove(Grown(size, l), up);
      GrowthBeside(size, l);
  }

  lemma GrowthBeside(size: nat, sibling: Tree)
    ensures Grown(size + 1, sibling) == Grown(size, sibling) + 1 && Log2(size + 1) <= Log2(Grown(size, sibling))
  {
    Log2Monotone(size + 1, Grown(size, sibling));
  }

  lemma Single(x: Node)
    ensures Size(Leaf) == 0 && Potential(Leaf) == 0
    ensures Size(Branch(Leaf, x, Leaf)) == 1 && Rank(Branch(Leaf, x, Leaf)) == 0
            && Potential(Branch(Leaf, x, Leaf)) == 0
  {
  }

  lemma {:induction false} PlugSize(t: Tree, p: Path)
    ensures Size(Plug(t, p)) == Whole(Size(t), p)
    decreases p
  {
    match p
    case Top =>
    case LeftOf(up, n, r) => PlugSize(Branch(t, n, r), up);
    case RightOf(l, n, up) => PlugSize(Branch(l, n, t), up);
  }

  lemma {:induction false} WholeGrows(size: nat, p: Path)
    ensures Whole(size + 1, p) == Whole(size, p) + 1
    decreases p
  {
    match p
    case Top =>
    case LeftOf(up, _, r) =>
      WholeGrows(Grown(size, r), up);
      assert Grown(size + 1, r) == Grown(size, r) + 1;
    case RightOf(l, _, up) =>
      WholeGrows(Grown(size, l), up);
      assert Grown(size + 1, l) == Grown(size, l) + 1;
  }

  lemma AttachSize(x: Node, p: Path)
    ensures Size(Plug(Branch(Leaf, x, Leaf), p)) == Whole(1, p) == Size(Plug(Leaf, p)) + 1
  {
    PlugSize(Leaf, p);
    PlugSize(Branch(Leaf, x, Leaf), p);
    WholeGrows(0, p);
  }

  /** A tree of one node in place of none raises the potential by the rank of the whole at most. */
  lemma PlugGrows(t: Tree, u: Tree, p: Path)
    requires Size(t) == 0 && Size(u) == 1 && Potential(t) == Potential(u) == 0
    ensures Potential(Plug(u, p)) <= Potential(Plug(t, p)) + Log2(Whole(1, p))
  {
    PlugPotential(t, p);
    PlugPotential(u, p);
    GrowthAbove(0, p);
  }

  /** Hanging a node at a leaf raises the potential by the rank of the whole at most. */
  lemma AttachPotential(x: Node, p: Path)
    ensures var before, whole := Plug(Leaf, p), Plug(Branch(Leaf, x, Leaf), p);
            Potential(whole) <= Potential(before) + Rank(whole)
  {
    Single(x);
    var leaf, one := Leaf, Branch(Leaf, x, Leaf);
    PlugSize(one, p);
    PlugGrows(leaf, one, p);
  }

  /** `tree_insert` of a new key costs at most 4 floor(log2 n) + 1 amortised, for `n` nodes after the insert. */
  lemma InsertAmortised(x: Node, p: Path)
    ensures var before, after := Plug(Leaf, p), SplayUp(Leaf, x, Leaf, p);
            Size(after) == Size(before) + 1
            && Steps(p) + Potential(after) <= Potential(before) + 4 * Log2(Size(after)) + 1
  {
    SplayAmortised(Leaf, x, Leaf, p);
    Single(x);
    AttachSize(x, p);
    AttachPotential(x, p);
  }

  lemma {:induction false} MinimumCheaper(t: Tree)
    requires t.Branch?
    ensures Size(WithoutMinimum(t)) == Size(t) - 1 && Potential(WithoutMinimum(t)) <= Potential(t)
  {
    if t.left.Branch? {
      MinimumCheaper(t.left);
      Log2Monotone(Size(t) - 1, Size(t));
    }
  }

  /** Splicing out the root raises no rank. */
  lemma JoinCheaper(l: Tree, z: Node, r: Tree)
    ensures Size(Join(l, r)) == Size(Branch(l, z, r)) - 1 && Potential(Join(l, r)) <= Potential(Branch(l, z, r))
  {
    if l.Branch? && r.Branch? {
      MinimumCheaper(r);
      Opened(l, Minimum(r), WithoutMinimum(r));
      Log2Monotone(Size(l) + Size(r), Size(l) + 1 + Size(r));
    }
  }

  /** `tree_remove` of a present key costs at most 4 floor(log2 n) + 1 amortised, for `n` nodes before it. */
  lemma RemoveAmortised(a: Tree, x: Node, b: Tree, p: Path)
    ensures var before, s := Plug(Branch(a, x, b), p), SplayUp(a, x, b, p);
            s.Branch? && Size(Join(s.left, s.right)) == Size(before) - 1
            && Steps(p) + Potential(Join(s.left, s.right)) <= Potential(before) + 4 * Log2(Size(before)) + 1
  {
    SplayAmortised(a, x, b, p);
    SplayKeepsOrder(a, x, b, p);
    var s := SplayUp(a, x, b, p);
    JoinCheaper(s.left, s.node, s.right);
  }

  /** A call that changes the tree. */
  datatype Call = Insert(node: Node) | Remove(key: int)

  /** `tree_insert` and `tree_remove` on shapes. */
  ghost function Apply(t: Tree, c: Call): Tree {
    match c
    case Insert(n) =>
      var (s, p) := Locate(t, n.key, Top);
      if s.Branch? then t else SplayUp(Leaf, n, Leaf, p)
    case Remove(k) =>
      var (s, p) := Locate(t, k, Top);
      if s.Leaf? then t else var u := SplayUp(s.left, s.node, s.right, p); if u.Leaf? then u else Join(u.left, u.right)
  }

  /** The iterations of `splay`'s loop in the call. */
  ghost function Cost(t: Tree, c: Call): nat {
    var (s, p) := Locate(t, if c.Insert? then c.node.key else c.key, Top);
    if s.Branch? == c.Insert? then 0 else Steps(p)
  }

  /** The count `n` of the bound: nodes after an insert or before a remove. */
  ghost function Bound(t: Tree, c: Call): nat {
    4 * Log2(Size(if c.Insert? then Apply(t, c) else t)) + 1
  }

  lemma CallAmortised(t: Tree, c: Call)
    ensures Cost(t, c) + Potential(Apply(t, c)) <= Potential(t) + Bound(t, c)
  {
    var (s, p) := Locate(t, if c.Insert? then c.node.key else c.key, Top);
    LocatePlug(t, if c.Insert? then c.node.key else c.key, Top);
    match c
    case Insert(n) =>
      if s.Leaf? {
        InsertAmortised(n, p);
      }
    case Remove(k) =>
      if s.Branch? {
        RemoveAmortised(s.left, s.node, s.right, p);
      }
  }

  ghost function Final(t: Tree, calls: seq<Call>): Tree
    decreases |calls|
  {
    if calls == [] then t else Final(Apply(t, calls[0]), calls[1..])
  }

  ghost function TotalCost(t: Tree, calls: seq<Call>): nat
    decreases |calls|
  {
    if calls == [] then 0 else Cost(t, calls[0]) + TotalCost(Apply(t, calls[0]), calls[1..])
  }

  ghost function TotalBound(t: Tree, calls: seq<Call>): nat
    decreases |calls|
  {
    if calls == [] then 0 else Bound(t, calls[0]) + TotalBound(Apply(t, calls[0]), calls[1..])
  }

  lemma {:induction false} RunAmortised(t: Tree, calls: seq<Call>)
    ensures TotalCost(t, calls) + Potential(Final(t, calls)) <= Potential(t) + TotalBound(t, calls)
    decreases |calls|
  {
    if calls != [] {
      CallAmortised(t, calls[0]);
      RunAmortised(Apply(t, calls[0]), calls[1..]);
    }
  }

  /**
   * Over any run from the empty tree, `splay`'s loop iterates at most the sum of 4 floor(log2 n) + 1 over the calls.
   */
  lemma RunFromEmpty(calls: seq<Call>)
    ensures TotalCost(Leaf, calls) <= TotalBound(Leaf, calls)
  {
    RunAmortised(Leaf, calls);
  }
}
