/** The pointers of the splay tree as a map, and what a rotation's stores do to them: malloc/stree.c:165-244. */
module SplayLinks {
  import opened SplayShape

  datatype Links = Links(left: Node?, right: Node?, parent: Node?)

  /** The pointers of a set of nodes. */
  type Memory = map<Node, Links>

  /** The memory the nodes in `s` hold now. */
  ghost function Snapshot(s: set<Node>): Memory
    reads s
  {
    map n | n in s :: Links(n.left, n.right, n.parent)
  }

  ghost function Nodes(t: Tree): set<Node> {
    match t
    case Leaf => {}
    case Branch(l, n, r) => Nodes(l) + {n} + Nodes(r)
  }

  ghost function PathNodes(p: Path): set<Node> {
    match p
    case Top => {}
    case LeftOf(up, n, r) => {n} + Nodes(r) + PathNodes(up)
    case RightOf(l, n, up) => {n} + Nodes(l) + PathNodes(up)
  }

  /** No node occurs twice. */
  ghost predicate DistinctNodes(t: Tree) {
    match t
    case Leaf => true
    case Branch(l, n, r) =>
      n !in Nodes(l) && n !in Nodes(r) && Nodes(l) !! Nodes(r) && DistinctNodes(l) && DistinctNodes(r)
  }

  ghost predicate DistinctPath(p: Path) {
    match p
    case Top => true
    case LeftOf(up, n, r) =>
      n !in Nodes(r) && n !in PathNodes(up) && Nodes(r) !! PathNodes(up) && DistinctNodes(r)
      && DistinctPath(up)
    case RightOf(l, n, up) =>
      n !in Nodes(l) && n !in PathNodes(up) && Nodes(l) !! PathNodes(up) && DistinctNodes(l)
      && DistinctPath(up)
  }

  function RootOf(t: Tree): Node? {
    if t.Leaf? then null else t.node
  }

  /** The node right above the end of the path. */
  function ParentAt(p: Path): Node? {
    if p.Top? then null else p.node
  }

  /** The pointers in the nodes of `t` are those of the shape, and `up` is the parent of its root. */
  ghost predicate Linked(m: Memory, t: Tree, up: Node?) {
    match t
    case Leaf => true
    case Branch(l, n, r) => n in m && m[n] == Links(RootOf(l), RootOf(r), up) && Linked(m, l, n) && Linked(m, r, n)
  }

  /** The same for the nodes of a path that ends in `hole`. */
  ghost predicate LinkedPath(m: Memory, p: Path, hole: Node?) {
    match p
    case Top => true
    case LeftOf(up, n, r) =>
      n in m && m[n] == Links(hole, RootOf(r), ParentAt(up)) && Linked(m, r, n)
      && LinkedPath(m, up, n)
    case RightOf(l, n, up) =>
      n in m && m[n] == Links(RootOf(l), hole, ParentAt(up)) && Linked(m, l, n)
      && LinkedPath(m, up, n)
  }

  /** `t` hangs at the end of `p` in memory. */
  ghost predicate Located(m: Memory, t: Tree, p: Path) {
    DistinctNodes(t) && DistinctPath(p) && Nodes(t) !! PathNodes(p) && Linked(m, t, ParentAt(p))
        && LinkedPath(m, p, RootOf(t))
  }

  /** The two memories agree on `s`. */
  ghost predicate Same(m: Memory, r: Memory, s: set<Node>) {
    forall n | n in s && n in m :: n in r && r[n] == m[n]
  }

  lemma {:induction false} LinkedSame(m: Memory, r: Memory, t: Tree, up: Node?)
    requires Linked(m, t, up) && Same(m, r, Nodes(t))
    ensures Linked(r, t, up)
  {
    if t.Branch? {
      LinkedSame(m, r, t.left, t.node);
      LinkedSame(m, r, t.right, t.node);
    }
  }

  lemma {:induction false} LinkedPathSame(m: Memory, r: Memory, p: Path, hole: Node?)
    requires LinkedPath(m, p, hole) && Same(m, r, PathNodes(p))
    ensures LinkedPath(r, p, hole)
  {
    match p
    case Top =>
    case LeftOf(up, n, t) =>
      LinkedSame(m, r, t, n);
      LinkedPathSame(m, r, up, n);
    case RightOf(t, n, up) =>
      LinkedSame(m, r, t, n);
      LinkedPathSame(m, r, up, n);
  }

  /** Only the parent of the root of `t` changes. */
  lemma LinkedBelow(m: Memory, r: Memory, t: Tree, up: Node?, newUp: Node?)
    requires DistinctNodes(t) && Linked(m, t, up)
    requires t.Branch? ==> t.node in r && r[t.node] == m[t.node].(parent := newUp)
    requires t.Branch? ==> Same(m, r, Nodes(t) - {t.node})
    ensures Linked(r, t, newUp)
  {
    if t.Branch? {
      LinkedSame(m, r, t.left, t.node);
      LinkedSame(m, r, t.right, t.node);
    }
  }

  /** The pointer down to the end of the path changes from `hole` to `y`. */
  lemma LinkedPathAbove(m: Memory, r: Memory, p: Path, hole: Node, y: Node?)
    requires DistinctPath(p) && LinkedPath(m, p, hole) && hole !in PathNodes(p)
    requires p.Top? || (p.node in r && r[p.node] == Redirected(m[p.node], hole, y))
    requires !p.Top? ==> Same(m, r, PathNodes(p) - {p.node})
    ensures LinkedPath(r, p, y)
  {
    match p
    case Top =>
    case LeftOf(up, n, t) =>
      LinkedSame(m, r, t, n);
      LinkedPathSame(m, r, up, n);
    case RightOf(t, n, up) =>
      LinkedSame(m, r, t, n);
      LinkedPathSame(m, r, up, n);
      assert t.Branch? ==> t.node in Nodes(t);
  }

  /** `if (x == parent->left) parent->left = y; else parent->right = y;` */
  ghost function Redirected(l: Links, x: Node, y: Node?): Links {
    if l.left == x then l.(left := y) else l.(right := y)
  }

  /** The part shared by both rotations and `replace`: whatever points down to `x` points to `y`. */
  ghost function Relinked(m: Memory, x: Node, y: Node?): Memory
    requires x in m && (m[x].parent != null ==> m[x].parent in m)
  {
    var up := m[x].parent;
    if up == null then m else m[up := Redirected(m[up], x, y)]
  }

  /** `if (n) n->parent = up;` */
  ghost function Reparented(m: Memory, n: Node?, up: Node?): Memory
    requires n != null ==> n in m
  {
    if n == null then m else m[n := m[n].(parent := up)]
  }

  /** The pointers a rotation of `x` and its child `y` follows lead to nodes in `m` other than these two. */
  ghost predicate Followable(m: Memory, x: Node, y: Node, middle: Node?)
    requires x in m
  {
    && x != y && middle != x && middle != y && m[x].parent != x && m[x].parent != y
    && (middle != null ==> middle in m) && (m[x].parent != null ==> m[x].parent in m)
  }

  /** The stores of both rotations at a node without the child to turn up: the node loses its place. */
  ghost function CutOff(m: Memory, x: Node): Memory
    requires x in m && m[x].parent != x && (m[x].parent != null ==> m[x].parent in m)
  {
    var m1 := Relinked(m, x, null);
    m1[x := m1[x].(parent := null)]
  }

  /** The stores of `right_rotate` at a node whose left child is `y`. */
  ghost function RotatedRight(m: Memory, x: Node, y: Node): Memory
    requires x in m && y in m && Followable(m, x, y, m[y].right)
  {
    var m1 := Reparented(m[x := m[x].(left := m[y].right)], m[y].right, x);
    var m2 := m1[y := m1[y].(parent := m1[x].parent)];
    var m3 := Relinked(m2, x, y);
    var m4 := m3[y := m3[y].(right := x)];
    m4[x := m4[x].(parent := y)]
  }

  /** The stores of `left_rotate` at a node whose right child is `y`. */
  ghost function RotatedLeft(m: Memory, x: Node, y: Node): Memory
    requires x in m && y in m && Followable(m, x, y, m[y].left)
  {
    var m1 := Reparented(m[x := m[x].(right := m[y].left)], m[y].left, x);
    var m2 := m1[y := m1[y].(parent := m1[x].parent)];
    var m3 := Relinked(m2, x, y);
    var m4 := m3[y := m3[y].(left := x)];
    m4[x := m4[x].(parent := y)]
  }

  /** Three subtrees, two nodes and a path that share no node. */
  ghost predicate Separate(a: Tree, b: Tree, c: Tree, x: Node, y: Node, p: Path) {
    && DistinctNodes(a) && DistinctNodes(b) && DistinctNodes(c) && DistinctPath(p)
    && Nodes(a) !! Nodes(b) && Nodes(a) !! Nodes(c) && Nodes(b) !! Nodes(c)
    && Nodes(a) !! PathNodes(p) && Nodes(b) !! PathNodes(p) && Nodes(c) !! PathNodes(p)
    && x != y && x !in PathNodes(p) && y !in PathNodes(p)
    && x !in Nodes(a) && x !in Nodes(b) && x !in Nodes(c)
    && y !in Nodes(a) && y !in Nodes(b) && y !in Nodes(c)
  }

  /** Stores to the nodes of `s` only. */
  ghost predicate OnlyAt(m: Memory, r: Memory, s: set<Node>) {
    forall n | n in m && n !in s :: n in r && r[n] == m[n]
  }

  lemma LinkedApart(m: Memory, r: Memory, s: set<Node>, t: Tree, up: Node?)
    requires OnlyAt(m, r, s) && Nodes(t) !! s && Linked(m, t, up)
    ensures Linked(r, t, up)
  {
    LinkedSame(m, r, t, up);
  }

  /** The node at the top of `t`, if there is one. */
  ghost function TopOf(t: Tree): set<Node> {
    if t.Leaf? then {} else {t.node}
  }

  /** The node at the end of `p`, if there is one. */
  ghost function EndOf(p: Path): set<Node> {
    if p.Top? then {} else {p.node}
  }

  lemma EndsBelong(t: Tree, p: Path)
    ensures TopOf(t) <= Nodes(t) && EndOf(p) <= PathNodes(p)
  {
  }

  lemma RotationTouches(a: Tree, b: Tree, c: Tree, x: Node, y: Node, p: Path)
    requires Separate(a, b, c, x, y, p)
    ensures var s := {x, y} + TopOf(b) + EndOf(p);
            Nodes(a) !! s && Nodes(c) !! s && s * Nodes(b) <= TopOf(b) && s * PathNodes(p) <= EndOf(p)
  {
    EndsBelong(b, p);
  }

  /** What a rotation leaves in memory, whichever way it turns. */
  lemma RotationParts(m: Memory, r: Memory, a: Tree, b: Tree, c: Tree, x: Node, y: Node, p: Path)
    requires Separate(a, b, c, x, y, p)
    requires Linked(m, a, y) && Linked(m, b, y) && Linked(m, c, x) && LinkedPath(m, p, x)
    requires b.Branch? ==> b.node in r && r[b.node] == m[b.node].(parent := x)
    requires p.Top? || (p.node in r && r[p.node] == Redirected(m[p.node], x, y))
    requires OnlyAt(m, r, {x, y} + TopOf(b) + EndOf(p))
    ensures Linked(r, a, y) && Linked(r, b, x) && Linked(r, c, x) && LinkedPath(r, p, y)
  {
    var s := {x, y} + TopOf(b) + EndOf(p);
    RotationTouches(a, b, c, x, y, p);
    LinkedApart(m, r, s, a, y);
    LinkedApart(m, r, s, c, x);
    RotationMiddle(m, r, s, b, x, y);
    RotationPath(m, r, s, p, x, y);
  }

  lemma RotationMiddle(m: Memory, r: Memory, s: set<Node>, b: Tree, x: Node, y: Node)
    requires OnlyAt(m, r, s) && s * Nodes(b) <= TopOf(b) && DistinctNodes(b) && Linked(m, b, y)
    requires b.Branch? ==> b.node in r && r[b.node] == m[b.node].(parent := x)
    ensures Linked(r, b, x)
  {
    forall n | n in Nodes(b) - TopOf(b) ensures n !in s {
      assert n in s ==> n in s * Nodes(b);
    }
    LinkedBelow(m, r, b, y, x);
  }

  lemma RotationPath(m: Memory, r: Memory, s: set<Node>, p: Path, x: Node, y: Node)
    requires OnlyAt(m, r, s) && s * PathNodes(p) <= EndOf(p) && DistinctPath(p) && LinkedPath(m, p, x)
             && x !in PathNodes(p)
    requires p.Top? || (p.node in r && r[p.node] == Redirected(m[p.node], x, y))
    ensures LinkedPath(r, p, y)
  {
    forall n | n in PathNodes(p) - EndOf(p) ensures n !in s {
      assert n in s ==> n in s * PathNodes(p);
    }
    LinkedPathAbove(m, r, p, x, y);
  }

  lemma RightFollowable(m: Memory, a: Tree, y: Node, b: Tree, x: Node, c: Tree, p: Path)
    requires Located(m, Branch(Branch(a, y, b), x, c), p)
    ensures x in m && y in m && m[x].left == y && m[y].right == RootOf(b) && m[x].parent == ParentAt(p)
            && Followable(m, x, y, m[y].right)
  {
    assert Linked(m, Branch(a, y, b), x) && Linked(m, b, y) && DistinctNodes(Branch(a, y, b));
    EndsBelong(b, p);
    assert p.Top? || p.node in m;
  }

  lemma LeftFollowable(m: Memory, c: Tree, x: Node, b: Tree, y: Node, a: Tree, p: Path)
    requires Located(m, Branch(c, x, Branch(b, y, a)), p)
    ensures x in m && y in m && m[x].right == y && m[y].left == RootOf(b) && m[x].parent == ParentAt(p)
            && Followable(m, x, y, m[y].left)
  {
    assert Linked(m, Branch(b, y, a), x) && Linked(m, b, y) && DistinctNodes(Branch(b, y, a));
    EndsBelong(b, p);
    assert p.Top? || p.node in m;
  }

  /** `right_rotate` turns the shape. */
  lemma RotateRightLocated(m: Memory, a: Tree, y: Node, b: Tree, x: Node, c: Tree, p: Path)
    requires Located(m, Branch(Branch(a, y, b), x, c), p)
    requires x in m && y in m && Followable(m, x, y, m[y].right)
    ensures Located(RotatedRight(m, x, y), Branch(a, y, Branch(b, x, c)), p)
  {
    assert DistinctNodes(Branch(a, y, b)) && Linked(m, Branch(a, y, b), x);
    EndsBelong(b, p);
    RotationParts(m, RotatedRight(m, x, y), a, b, c, x, y, p);
    assert DistinctNodes(Branch(b, x, c)) && Linked(RotatedRight(m, x, y), Branch(b, x, c), y);
  }

  /** `left_rotate` turns it back. */
  lemma RotateLeftLocated(m: Memory, c: Tree, x: Node, b: Tree, y: Node, a: Tree, p: Path)
    requires Located(m, Branch(c, x, Branch(b, y, a)), p)
    requires x in m && y in m && Followable(m, x, y, m[y].left)
    ensures Located(RotatedLeft(m, x, y), Branch(Branch(c, x, b), y, a), p)
  {
    assert DistinctNodes(Branch(b, y, a)) && Linked(m, Branch(b, y, a), x);
    EndsBelong(b, p);
    RotationParts(m, RotatedLeft(m, x, y), a, b, c, x, y, p);
    assert DistinctNodes(Branch(c, x, b)) && Linked(RotatedLeft(m, x, y), Branch(c, x, b), y);
  }

  /** Looking at a child instead of the whole subtree. */
  lemma Descend(m: Memory, t: Tree, p: Path)
    requires t.Branch? && Located(m, t, p)
    ensures Located(m, t.left, LeftOf(p, t.node, t.right)) && Located(m, t.right, RightOf(t.left, t.node, p))
  {
  }

  /** Looking at the subtree one node further up. */
  lemma Ascend(m: Memory, t: Tree, p: Path)
    ensures p.LeftOf? && Located(m, t, p) ==> Located(m, Branch(t, p.node, p.right), p.up)
    ensures p.RightOf? && Located(m, t, p) ==> Located(m, Branch(p.left, p.node, t), p.up)
  {
  }

  lemma {:induction false} AscendAll(m: Memory, t: Tree, p: Path)
    requires Located(m, t, p)
    ensures Located(m, Plug(t, p), Top)
    decreases p
  {
    Ascend(m, t, p);
    match p
    case Top =>
    case LeftOf(up, n, r) => AscendAll(m, Branch(t, n, r), up);
    case RightOf(l, n, up) => AscendAll(m, Branch(l, n, t), up);
  }

  lemma {:induction false} PlugNodes(t: Tree, p: Path)
    ensures Nodes(Plug(t, p)) == Nodes(t) + PathNodes(p)
    decreases p
  {
    match p
    case Top =>
    case LeftOf(up, n, r) => PlugNodes(Branch(t, n, r), up);
    case RightOf(l, n, up) => PlugNodes(Branch(l, n, t), up);
  }

  /** Below the root, what hangs at the end of a path does not matter for which node is the root. */
  lemma {:induction false} PlugRoot(t: Tree, u: Tree, p: Path)
    requires !p.Top? || RootOf(t) == RootOf(u)
    ensures RootOf(Plug(t, p)) == RootOf(Plug(u, p))
    decreases p
  {
    match p
    case Top =>
    case LeftOf(up, n, r) => PlugRoot(Branch(t, n, r), Branch(u, n, r), up);
    case RightOf(l, n, up) => PlugRoot(Branch(l, n, t), Branch(l, n, u), up);
  }

  /** What the pointers around the end of a path say. */
  lemma Surroundings(m: Memory, t: Tree, p: Path)
    requires Located(m, t, p) && t.Branch?
    ensures t.node in m && m[t.node] == Links(RootOf(t.left), RootOf(t.right), ParentAt(p))
    ensures p.LeftOf? ==>
            p.node in m && m[p.node].left == t.node && m[p.node].right != t.node
            && m[p.node].parent == ParentAt(p.up)
    ensures p.RightOf? ==>
            p.node in m && m[p.node].right == t.node && m[p.node].left != t.node
            && m[p.node].parent == ParentAt(p.up)
  {
  }

  /** `replace` of the root of `t` by the root of a part of `t`. */
  lemma SpliceLocated(m: Memory, t: Tree, v: Tree, up: Node?, p: Path)
    requires t.Branch? && Located(m, t, p) && (!p.Top? ==> p.node in m)
    requires t.node in m && m[t.node].parent == ParentAt(p)
    requires Nodes(v) <= Nodes(t) - {t.node} && DistinctNodes(v) && Linked(m, v, up)
    requires v.Branch? ==> v.node in m
    ensures Located(Reparented(Relinked(m, t.node, RootOf(v)), RootOf(v), ParentAt(p)), v, p)
  {
    EndsBelong(v, p);
    var r := Reparented(Relinked(m, t.node, RootOf(v)), RootOf(v), ParentAt(p));
    LinkedBelow(m, r, v, up, ParentAt(p));
    LinkedPathAbove(m, r, p, t.node, RootOf(v));
  }

  /** A new node hung at a leaf. */
  lemma AttachLocated(m: Memory, r: Memory, z: Node, p: Path)
    requires Located(m, Leaf, p) && z !in PathNodes(p)
    requires z in r && r[z] == Links(null, null, ParentAt(p))
    requires !p.Top? ==> p.node in m && p.node in r
    requires !p.Top? ==> r[p.node] == if p.LeftOf? then m[p.node].(left := z) else m[p.node].(right := z)
    requires Same(m, r, PathNodes(p) - EndOf(p))
    ensures Located(r, Branch(Leaf, z, Leaf), p)
  {
    match p
    case Top =>
    case LeftOf(up, n, t) =>
      LinkedSame(m, r, t, n);
      LinkedPathSame(m, r, up, n);
    case RightOf(t, n, up) =>
      LinkedSame(m, r, t, n);
      LinkedPathSame(m, r, up, n);
  }

  lemma {:induction false} MinimumNodes(t: Tree)
    requires t.Branch? && DistinctNodes(t)
    ensures DistinctNodes(WithoutMinimum(t)) && Minimum(t) !in Nodes(WithoutMinimum(t))
    ensures Nodes(t) == Nodes(WithoutMinimum(t)) + {Minimum(t)}
  {
    if t.left.Branch? {
      MinimumNodes(t.left);
    }
  }

  /** Taking `z` out of its tree takes it out of the nodes. */
  lemma JoinNodes(l: Tree, z: Node, r: Tree)
    requires DistinctNodes(Branch(l, z, r))
    ensures Nodes(Join(l, r)) == Nodes(Branch(l, z, r)) - {z}
  {
    if r.Branch? {
      MinimumNodes(r);
    }
  }

  /** `y` has the right subtree of the root `z` and only the left one is still to come. */
  ghost predicate HalfJoined(m: Memory, l: Tree, z: Node, y: Node, r: Tree) {
    && DistinctNodes(Branch(l, y, r)) && z !in Nodes(Branch(l, y, r)) && l.Branch?
    && y in m && m[y].right == RootOf(r) && Linked(m, r, y)
    && z in m && m[z].left == RootOf(l) && m[z].parent == null && Linked(m, l, z) && l.node in m
  }

  lemma TookRight(m: Memory, l: Tree, z: Node, y: Node, r: Tree)
    requires Located(m, Branch(l, z, r), Top) && l.Branch? && r.Branch? && y in m && y !in Nodes(Branch(l, z, r))
    ensures z in m && m[z].right == r.node && r.node in m
    ensures HalfJoined(m[y := m[y].(right := r.node)][r.node := m[r.node].(parent := y)], l, z, y, r)
  {
    EndsBelong(r, Top);
    EndsBelong(l, Top);
    assert Linked(m, r, z) && Linked(m, l, z);
    var m' := m[y := m[y].(right := r.node)][r.node := m[r.node].(parent := y)];
    LinkedSame(m, m', l, z);
    LinkedBelow(m, m', r, z, y);
  }

  lemma TookLeft(m: Memory, l: Tree, z: Node, y: Node, r: Tree)
    requires HalfJoined(m, l, z, y, r)
    ensures Located(m[y := Links(l.node, m[y].right, null)][l.node := m[l.node].(parent := y)] - {z},
            Branch(l, y, r), Top)
  {
    var m' := m[y := Links(l.node, m[y].right, null)][l.node := m[l.node].(parent := y)] - {z};
    EndsBelong(l, Top);
    LinkedSame(m, m', r, y);
    LinkedBelow(m, m', l, z, y);
  }
}
