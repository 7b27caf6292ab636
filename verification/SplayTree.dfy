/** The splay tree of malloc/stree.c, in place on nodes with parent pointers. */
module SplayTree {
  import opened SplayShape
  import opened SplayLinks
  import opened SplayCost

  class SplayTree {
    var root: Node?
    var nodeCount: nat
    ghost var nodes: set<Node>
    ghost var shape: Tree

    /** The pointers form `shape`, its keys strictly increase, and the count is right. */
    ghost predicate Valid()
      reads this, nodes
    {
      At(shape, Top) && Sorted(InOrder(shape)) && nodeCount == |InOrder(shape)|
    }

    /** The finite map the tree stands for. */
    ghost function Records(): map<int, nat>
      reads `shape
    {
      Contents(InOrder(shape))
    }

    constructor ()
      ensures Valid() && shape == Leaf && Records() == map[]
    {
      root, nodeCount, nodes, shape := null, 0, {}, Leaf;
    }

    /** `t` hangs at the end of `p`, together they are the whole tree, and `root` points to it. */
    ghost predicate At(t: Tree, p: Path)
      reads `root, `nodes, nodes
    {
      nodes == Nodes(Plug(t, p)) && root == RootOf(Plug(t, p)) && Located(Snapshot(nodes), t, p)
    }

    method SetLeft(n: Node, v: Node?)
      requires n in nodes
      modifies n`left
      ensures Snapshot(nodes) == old(Snapshot(nodes))[n := Links(v, old(n.right), old(n.parent))]
    {
      n.left := v;
    }

    method SetRight(n: Node, v: Node?)
      requires n in nodes
      modifies n`right
      ensures Snapshot(nodes) == old(Snapshot(nodes))[n := Links(old(n.left), v, old(n.parent))]
    {
      n.right := v;
    }

    method SetParent(n: Node, v: Node?)
      requires n in nodes
      modifies n`parent
      ensures Snapshot(nodes) == old(Snapshot(nodes))[n := Links(old(n.left), old(n.right), v)]
    {
      n.parent := v;
    }

    /** The middle of both rotations and of `replace`: whatever points down to `x` points to `y`. */
    method Relink(x: Node, y: Node?)
      requires x in nodes && (x.parent != null ==> x.parent in nodes)
      modifies this`root, nodes
      ensures Snapshot(nodes) == Relinked(old(Snapshot(nodes)), x, y)
      ensures root == if old(x.parent) == null then y else old(root)
    {
      if x.parent == null {
        root := y;
      } else if x == x.parent.left {
        SetLeft(x.parent, y);
      } else {
        SetRight(x.parent, y);
      }
    }

    /** `right_rotate` at `x`; `splay` never calls it without a left child. */
    method RotateRight(x: Node)
      requires x in nodes && x.parent != x && (x.parent != null ==> x.parent in nodes)
      requires x.left != null ==> x.left in nodes && Followable(Snapshot(nodes), x, x.left, x.left.right)
      modifies this`root, nodes
      ensures if old(x.left) == null then Snapshot(nodes) == CutOff(old(Snapshot(nodes)), x)
              else old(x.left) in nodes && Snapshot(nodes) == RotatedRight(old(Snapshot(nodes)), x, old(x.left))
      ensures root == if old(x.parent) == null then old(x.left) else old(root)
    {
      var y := x.left;
      if y != null {
        SetLeft(x, y.right);
        if y.right != null {
          SetParent(y.right, x);
        }
        SetParent(y, x.parent);
      }
      Relink(x, y);
      if y != null {
        SetRight(y, x);
      }
      SetParent(x, y);
    }

    /** `left_rotate` at `x`; `splay` never calls it without a right child. */
    method RotateLeft(x: Node)
      requires x in nodes && x.parent != x && (x.parent != null ==> x.parent in nodes)
      requires x.right != null ==> x.right in nodes && Followable(Snapshot(nodes), x, x.right, x.right.left)
      modifies this`root, nodes
      ensures if old(x.right) == null then Snapshot(nodes) == CutOff(old(Snapshot(nodes)), x)
              else old(x.right) in nodes && Snapshot(nodes) == RotatedLeft(old(Snapshot(nodes)), x, old(x.right))
      ensures root == if old(x.parent) == null then old(x.right) else old(root)
    {
      var y := x.right;
      if y != null {
        SetRight(x, y.left);
        if y.left != null {
          SetParent(y.left, x);
        }
        SetParent(y, x.parent);
      }
      Relink(x, y);
      if y != null {
        SetLeft(y, x);
      }
      SetParent(x, y);
    }

    /** What `right_rotate` does to the shape. */
    method TurnRight(x: Node, ghost a: Tree, ghost y: Node, ghost b: Tree, ghost c: Tree, ghost p: Path)
      requires At(Branch(Branch(a, y, b), x, c), p)
      modifies this`root, nodes
      ensures At(Branch(a, y, Branch(b, x, c)), p)
    {
      ghost var m := Snapshot(nodes);
      RightFollowable(m, a, y, b, x, c, p);
      RotateRight(x);
      WholeAfterRight(m, Snapshot(nodes), nodes, root, a, y, b, x, c, p);
    }

    /** What `left_rotate` does to the shape. */
    method TurnLeft(x: Node, ghost c: Tree, ghost b: Tree, ghost y: Node, ghost a: Tree, ghost p: Path)
      requires At(Branch(c, x, Branch(b, y, a)), p)
      modifies this`root, nodes
      ensures At(Branch(Branch(c, x, b), y, a), p)
    {
      ghost var m := Snapshot(nodes);
      LeftFollowable(m, c, x, b, y, a, p);
      RotateLeft(x);
      WholeAfterLeft(m, Snapshot(nodes), nodes, root, c, x, b, y, a, p);
    }

    /** The subtree one node further up. */
    lemma Up(t: Tree, p: Path)
      requires At(t, p)
      ensures p.LeftOf? ==> At(Branch(t, p.node, p.right), p.up)
      ensures p.RightOf? ==> At(Branch(p.left, p.node, t), p.up)
    {
      Ascend(Snapshot(nodes), t, p);
    }

    /** The subtrees one node further down. */
    lemma Down(t: Tree, p: Path)
      requires At(t, p) && t.Branch?
      ensures At(t.left, LeftOf(p, t.node, t.right)) && At(t.right, RightOf(t.left, t.node, p))
    {
      Descend(Snapshot(nodes), t, p);
    }

    /** The pointers around the end of a path. */
    lemma Around(t: Tree, p: Path)
      requires At(t, p) && t.Branch?
      ensures t.node in nodes && t.node.left == RootOf(t.left) && t.node.right == RootOf(t.right)
              && t.node.parent == ParentAt(p)
      ensures p.LeftOf? ==>
              p.node in nodes && p.node.left == t.node && p.node.right != t.node
              && p.node.parent == ParentAt(p.up)
      ensures p.RightOf? ==>
              p.node in nodes && p.node.right == t.node && p.node.left != t.node
              && p.node.parent == ParentAt(p.up)
    {
      var m := Snapshot(nodes);
      Surroundings(m, t, p);
      assert m[t.node] == Links(t.node.left, t.node.right, t.node.parent);
      assert !p.Top? ==> m[p.node] == Links(p.node.left, p.node.right, p.node.parent);
    }

    /** Two right rotations: `x` is a left child of a left child. */
    method ZigZigRight(x: Node, ghost a: Tree, ghost b: Tree, ghost y: Node, ghost c: Tree, ghost z: Node,
            ghost d: Tree, ghost up: Path)
      requires At(Branch(a, x, b), LeftOf(LeftOf(up, z, d), y, c)) && x.parent == y && y.parent == z
      modifies this`root, nodes
      ensures At(Branch(a, x, Branch(b, y, Branch(c, z, d))), up)
    {
      Up(Branch(a, x, b), LeftOf(LeftOf(up, z, d), y, c));
      Up(Branch(Branch(a, x, b), y, c), LeftOf(up, z, d));
      TurnRight(x.parent.parent, Branch(a, x, b), y, c, d, up);
      Down(Branch(Branch(a, x, b), y, Branch(c, z, d)), up);
      Around(Branch(a, x, b), LeftOf(up, y, Branch(c, z, d)));
      TurnRight(x.parent, a, x, b, Branch(c, z, d), up);
    }

    /** Two left rotations: `x` is a right child of a right child. */
    method ZigZigLeft(x: Node, ghost a: Tree, ghost b: Tree, ghost y: Node, ghost c: Tree, ghost z: Node, ghost d: Tree,
            ghost up: Path)
      requires At(Branch(a, x, b), RightOf(c, y, RightOf(d, z, up))) && x.parent == y && y.parent == z
      modifies this`root, nodes
      ensures At(Branch(Branch(Branch(d, z, c), y, a), x, b), up)
    {
      Up(Branch(a, x, b), RightOf(c, y, RightOf(d, z, up)));
      Up(Branch(c, y, Branch(a, x, b)), RightOf(d, z, up));
      TurnLeft(x.parent.parent, d, c, y, Branch(a, x, b), up);
      Down(Branch(Branch(d, z, c), y, Branch(a, x, b)), up);
      Around(Branch(a, x, b), RightOf(Branch(d, z, c), y, up));
      TurnLeft(x.parent, Branch(d, z, c), a, x, b, up);
    }

    /** A right and a left rotation: `x` is a left child of a right child. */
    method ZigZagRight(x: Node, ghost a: Tree, ghost b: Tree, ghost y: Node, ghost c: Tree, ghost z: Node,
            ghost d: Tree, ghost up: Path)
      requires At(Branch(a, x, b), LeftOf(RightOf(d, z, up), y, c)) && x.parent == y
      modifies this`root, nodes
      ensures At(Branch(Branch(d, z, a), x, Branch(b, y, c)), up)
    {
      Up(Branch(a, x, b), LeftOf(RightOf(d, z, up), y, c));
      TurnRight(x.parent, a, x, b, c, RightOf(d, z, up));
      Around(Branch(a, x, Branch(b, y, c)), RightOf(d, z, up));
      Up(Branch(a, x, Branch(b, y, c)), RightOf(d, z, up));
      TurnLeft(x.parent, d, a, x, Branch(b, y, c), up);
    }

    /** A left and a right rotation: `x` is a right child of a left child. */
    method ZigZagLeft(x: Node, ghost a: Tree, ghost b: Tree, ghost y: Node, ghost c: Tree, ghost z: Node, ghost d: Tree,
            ghost up: Path)
      requires At(Branch(a, x, b), RightOf(c, y, LeftOf(up, z, d))) && x.parent == y
      modifies this`root, nodes
      ensures At(Branch(Branch(c, y, a), x, Branch(b, z, d)), up)
    {
      Up(Branch(a, x, b), RightOf(c, y, LeftOf(up, z, d)));
      TurnLeft(x.parent, c, a, x, b, LeftOf(up, z, d));
      Around(Branch(Branch(c, y, a), x, b), LeftOf(up, z, d));
      Up(Branch(Branch(c, y, a), x, b), LeftOf(up, z, d));
      TurnRight(x.parent, Branch(c, y, a), x, b, d, up);
    }

    /** One round of `splay`'s loop. */
    method SplayRound(x: Node, ghost a: Tree, ghost b: Tree, ghost p: Path)
      returns (ghost l: Tree, ghost r: Tree, ghost q: Path)
      requires At(Branch(a, x, b), p) && x.parent != null
      modifies this`root, nodes
      ensures At(Branch(l, x, r), q) && SplayUp(l, x, r, q) == SplayUp(a, x, b, p)
      ensures Steps(q) + 1 == Steps(p) && q < p
    {
      Around(Branch(a, x, b), p);
      Up(Branch(a, x, b), p);
      if p.LeftOf? {
        Around(Branch(Branch(a, x, b), p.node, p.right), p.up);
      } else {
        Around(Branch(p.left, p.node, Branch(a, x, b)), p.up);
      }
      if x.parent.parent == null {
        q := Top;
        if x.parent.left == x {
          TurnRight(x.parent, a, x, b, p.right, Top);
          l, r := a, Branch(b, p.node, p.right);
        } else {
          TurnLeft(x.parent, p.left, a, x, b, Top);
          l, r := Branch(p.left, p.node, a), b;
        }
      } else if x.parent.left == x && x.parent.parent.left == x.parent {
        ZigZigRight(x, a, b, p.node, p.right, p.up.node, p.up.right, p.up.up);
        l, r, q := a, Branch(b, p.node, Branch(p.right, p.up.node, p.up.right)), p.up.up;
      } else if x.parent.right == x && x.parent.parent.right == x.parent {
        ZigZigLeft(x, a, b, p.node, p.left, p.up.node, p.up.left, p.up.up);
        l, r, q := Branch(Branch(p.up.left, p.up.node, p.left), p.node, a), b, p.up.up;
      } else if x.parent.left == x && x.parent.parent.right == x.parent {
        ZigZagRight(x, a, b, p.node, p.right, p.up.node, p.up.left, p.up.up);
        l, r, q := Branch(p.up.left, p.up.node, a), Branch(b, p.node, p.right), p.up.up;
      } else {
        ZigZagLeft(x, a, b, p.node, p.left, p.up.node, p.up.right, p.up.up);
        l, r, q := Branch(p.left, p.node, a), Branch(b, p.up.node, p.up.right), p.up.up;
      }
    }

    /** `splay`; `steps` counts the rounds of its loop. */
    method Splay(x: Node, ghost a: Tree, ghost b: Tree, ghost p: Path) returns (ghost steps: nat)
      requires At(Branch(a, x, b), p)
      modifies this`root, nodes
      ensures At(SplayUp(a, x, b, p), Top) && steps == Steps(p)
    {
      ghost var l, r, q := a, b, p;
      steps := 0;
      Around(Branch(a, x, b), p);
      while x.parent != null
        invariant At(Branch(l, x, r), q) && x.parent == ParentAt(q)
        invariant SplayUp(l, x, r, q) == SplayUp(a, x, b, p) && steps + Steps(q) == Steps(p)
        decreases q
      {
        l, r, q := SplayRound(x, l, r, q);
        Around(Branch(l, x, r), q);
        steps := steps + 1;
      }
    }

    /** One step of every search loop: where the search for `key` goes from the node `z`. */
    lemma SearchStep(t: Tree, key: int, p: Path)
      requires At(t, p) && t.Branch? && key != t.node.key
      ensures t.node in nodes && t.node.left == RootOf(t.left) && t.node.right == RootOf(t.right)
      ensures key > t.node.key
              ==> At(t.right, RightOf(t.left, t.node, p))
                  && Locate(t, key, p) == Locate(t.right, key, RightOf(t.left, t.node, p))
      ensures key < t.node.key
              ==> At(t.left, LeftOf(p, t.node, t.right))
                  && Locate(t, key, p) == Locate(t.left, key, LeftOf(p, t.node, t.right))
    {
      Around(t, p);
      Down(t, p);
    }

    /** `tree_find`: the map's record, or NULL. */
    method Find(key: int) returns (r: nat)
      requires Valid()
      ensures r == if key in Records() then Records()[key] else 0
    {
      var z := root;
      ghost var t, p := shape, Top;
      SearchFinds(shape, key);
      while z != null
        invariant At(t, p) && z == RootOf(t) && Locate(t, key, p) == Locate(shape, key, Top)
        decreases t
      {
        if key == z.key {
          return z.record;
        }
        SearchStep(t, key, p);
        if key > z.key {
          z := z.right;
          t, p := t.right, RightOf(t.left, t.node, p);
        } else {
          z := z.left;
          t, p := t.left, LeftOf(p, t.node, t.right);
        }
      }
      return 0;
    }

    /** `tree_find_nearest`: the record of the greatest key up to `key`, or NULL. */
    method FindNearest(key: int) returns (r: nat)
      requires Valid()
      ensures Nearest(Records(), key, r)
    {
      var z := root;
      var n: Node? := null;
      ghost var t, p := shape, Top;
      while z != null
        invariant At(t, p) && z == RootOf(t) && Locate(t, key, p) == Locate(shape, key, Top)
        invariant Plug(t, p) == shape
        invariant n == if Before(p) == [] then null else Before(p)[|Before(p)| - 1]
        invariant n != null && t.Branch? ==> n.key < t.node.key
        decreases t
      {
        if key == z.key {
          NearestFound(shape, key, z.record);
          return z.record;
        }
        SearchStep(t, key, p);
        if key > z.key {
          if n == null || n.key < z.key {
            n := z;
          }
          z := z.right;
          t, p := t.right, RightOf(t.left, t.node, p);
        } else {
          z := z.left;
          t, p := t.left, LeftOf(p, t.node, t.right);
        }
        InsideGrows(shape, t, p);
      }
      r := if n != null then n.record else 0;
      NearestFound(shape, key, r);
    }

    /** The search of `tree_insert`: whether the key is there, and if not, below which node it belongs. */
    method SeekLeaf(key: int) returns (found: bool, p: Node?, ghost q: Path)
      requires Valid()
      ensures found == (key in Records())
      ensures found ==> Locate(shape, key, Top).0.Branch?
      ensures !found ==> Locate(shape, key, Top) == (Leaf, q) && At(Leaf, q) && p == ParentAt(q)
      ensures !found ==> (q.LeftOf? ==> key < q.node.key) && (q.RightOf? ==> q.node.key < key)
    {
      var z := root;
      p := null;
      ghost var t := shape;
      q := Top;
      SearchFinds(shape, key);
      while z != null
        invariant At(t, q) && z == RootOf(t) && p == ParentAt(q) && Locate(t, key, q) == Locate(shape, key, Top)
        invariant (q.LeftOf? ==> key < q.node.key) && (q.RightOf? ==> q.node.key < key)
        decreases t
      {
        p := z;
        if key == z.key {
          return true, p, q;
        }
        SearchStep(t, key, q);
        if key > z.key {
          z := z.right;
          t, q := t.right, RightOf(t.left, t.node, q);
        } else {
          z := z.left;
          t, q := t.left, LeftOf(q, t.node, t.right);
        }
      }
      found := false;
    }

    method AttachAndSplay(x: Node, p: Node?, ghost q: Path) returns (ghost steps: nat)
      requires At(Leaf, q) && p == ParentAt(q) && x !in nodes && x.left == null && x.right == null && x.parent == p
      requires (q.LeftOf? ==> x.key < q.node.key) && (q.RightOf? ==> q.node.key < x.key)
      modifies `root, `nodes, nodes, x
      ensures nodes == old(nodes) + {x} && At(SplayUp(Leaf, x, Leaf, q), Top) && steps == Steps(q)
    {
      Attach(x, p, q);
      steps := Splay(x, Leaf, Leaf, q);
    }

    /** The tree now has this shape. */
    ghost method Settle(t: Tree)
      requires At(t, Top) && Sorted(InOrder(t)) && nodeCount == |InOrder(t)|
      modifies `shape
      ensures Valid() && shape == t && Records() == Contents(InOrder(t))
    {
      shape := t;
    }

    /** `tree_insert`: duplicates change nothing; a new key is added to the map and its node ends at the root. */
    method Insert(key: int, record: nat) returns (inserted: bool, ghost node: Node?, ghost steps: nat)
      requires Valid()
      modifies this, nodes
      ensures Valid() && fresh(nodes - old(nodes))
      ensures inserted == (key !in old(Records()))
      ensures Records() == if inserted then old(Records())[key := record] else old(Records())
      ensures inserted <==> node != null
      ensures inserted ==> node == root && node.key == key && node.record == record && nodes == old(nodes) + {node}
      ensures inserted ==> shape == Apply(old(shape), Call.Insert(node)) && steps == Cost(old(shape), Call.Insert(node))
      ensures !inserted ==> shape == old(shape) && steps == 0 && nodes == old(nodes)
    {
      ghost var whole := shape;
      var found, p, q := SeekLeaf(key);
      if found {
        return false, null, 0;
      }
      var x := new Node(key, record, p);
      steps := AttachAndSplay(x, p, q);
      ghost var u := SplayUp(Leaf, x, Leaf, q);
      nodeCount := nodeCount + 1;
      InsertedOrder(whole, x, q, u);
      assert shape == whole && nodeCount == |InOrder(u)|;
      Settle(u);
      inserted, node := true, x;
    }

    /** The new node becomes a child of the last node passed. */
    method Attach(x: Node, p: Node?, ghost q: Path)
      requires At(Leaf, q) && p == ParentAt(q) && x !in nodes && x.left == null && x.right == null && x.parent == p
      requires (q.LeftOf? ==> x.key < q.node.key) && (q.RightOf? ==> q.node.key < x.key)
      modifies this`root, this`nodes, nodes
      ensures nodes == old(nodes) + {x} && At(Branch(Leaf, x, Leaf), q)
    {
      ghost var m := Snapshot(nodes);
      PlugNodes(Leaf, q);
      PlugNodes(Branch(Leaf, x, Leaf), q);
      assert !q.Top? ==> q.node in nodes;
      nodes := nodes + {x};
      if p == null {
        root := x;
      } else if p.key < x.key {
        p.right := x;
      } else {
        p.left := x;
      }
      AttachLocated(m, Snapshot(nodes), x, q);
      if !q.Top? {
        AttachedRoot(x, q);
      }
    }

    /** `replace`: `v` takes the place of `u`. */
    method Replace(u: Node, v: Node?)
      requires u in nodes && (u.parent != null ==> u.parent in nodes) && (v != null ==> v in nodes && v != u)
      modifies `root, nodes
      ensures Snapshot(nodes) == Reparented(Relinked(old(Snapshot(nodes)), u, v), v, old(u.parent))
      ensures root == if old(u.parent) == null then v else old(root)
    {
      Relink(u, v);
      if v != null {
        assert u.parent == Snapshot(nodes)[u].parent;
        SetParent(v, u.parent);
      }
    }

    /** `replace` of a node with one child or none by that child. */
    method SpliceOut(u: Node, v: Node?, ghost l: Tree, ghost r: Tree, ghost s: Tree, ghost p: Path)
      requires At(Branch(l, u, r), p) && ((l.Leaf? && s == r) || (r.Leaf? && s == l)) && v == RootOf(s)
      modifies `root, `nodes, nodes
      ensures nodes == old(nodes) - {u} && At(s, p)
    {
      ghost var m, t := Snapshot(nodes), Branch(l, u, r);
      Around(t, p);
      Parts(m, l, u, r, p);
      Replace(u, v);
      Spliced(m, l, u, r, s, p);
      SnapshotWithout(nodes, u);
      nodes := nodes - {u};
    }

    /** `subtree_minimum`. */
    method FindMinimum(u: Node, ghost t: Tree, ghost p: Path) returns (y: Node, ghost b: Tree, ghost q: Path)
      requires At(t, p) && t.Branch? && t.node == u
      ensures At(Branch(Leaf, y, b), q) && y == Minimum(t) && Plug(b, q) == Plug(WithoutMinimum(t), p)
      ensures if t.left.Leaf? then q == p && b == t.right else q.LeftOf? && q.node in Nodes(t)
    {
      y := u;
      ghost var s := t;
      q := p;
      Around(s, q);
      while y.left != null
        invariant At(s, q) && s.Branch? && s.node == y && y.left == RootOf(s.left)
        invariant Minimum(s) == Minimum(t) && Plug(WithoutMinimum(s), q) == Plug(WithoutMinimum(t), p)
        invariant Nodes(s) <= Nodes(t)
        invariant (q == p && s == t) || (t.left.Branch? && q.LeftOf? && q.node in Nodes(t))
        decreases s
      {
        Down(s, q);
        y := y.left;
        s, q := s.left, LeftOf(q, s.node, s.right);
        Around(s, q);
      }
      b := s.right;
    }

    /** `y->right = z->right; y->right->parent = y;` for a node `y` that has just been spliced out. */
    method TakeRight(z: Node, y: Node, ghost l: Tree, ghost r: Tree)
      requires At(Branch(l, z, r), Top) && l.Branch? && r.Branch? && y !in nodes
      modifies `nodes, nodes, y
      ensures nodes == old(nodes) + {y} && HalfJoined(Snapshot(nodes), l, z, y, r)
    {
      Around(Branch(l, z, r), Top);
      nodes := nodes + {y};
      ghost var m := Snapshot(nodes);
      LinkedSame(old(Snapshot(nodes)), m, Branch(l, z, r), null);
      TookRight(m, l, z, y, r);
      SetRight(y, z.right);
      SetParent(y.right, y);
    }

    /** `replace(tree, z, y); y->left = z->left; y->left->parent = y;` */
    method TakeLeft(z: Node, y: Node, ghost l: Tree, ghost r: Tree)
      requires HalfJoined(Snapshot(nodes), l, z, y, r) && nodes == Nodes(Branch(l, y, r)) + {z}
      modifies `root, `nodes, nodes
      ensures nodes == old(nodes) - {z} && At(Branch(l, y, r), Top)
    {
      ghost var m := Snapshot(nodes);
      TookLeft(m, l, z, y, r);
      StoreLeft(z, y, l, r);
      SnapshotWithout(nodes, z);
      nodes := nodes - {z};
    }

    method StoreLeft(z: Node, y: Node, ghost l: Tree, ghost r: Tree)
      requires HalfJoined(Snapshot(nodes), l, z, y, r)
      modifies `root, nodes
      ensures root == y
      ensures var m := old(Snapshot(nodes));
              y in m && l.node in m
                  && Snapshot(nodes) == m[y := Links(l.node, m[y].right, null)][l.node := m[l.node].(parent := y)]
    {
      assert l.node != y && l.node != z && y != z;
      Replace(z, y);
      SetLeft(y, z.left);
      SetParent(y.left, y);
    }

    /** `tree_remove` of the root: it is spliced out, or its successor takes its place. */
    method Unlink(z: Node, ghost l: Tree, ghost r: Tree)
      requires At(Branch(l, z, r), Top)
      modifies `root, `nodes, nodes
      ensures nodes == old(nodes) - {z} && At(Join(l, r), Top)
    {
      Around(Branch(l, z, r), Top);
      if z.left == null {
        SpliceOut(z, z.right, l, r, r, Top);
      } else if z.right == null {
        SpliceOut(z, z.left, l, r, l, Top);
      } else {
        UnlinkInner(z, l, r);
      }
    }

    /** The successor `y` of `z`, further down, leaves its place and takes the right subtree of `z`. */
    method TakeSuccessor(z: Node, y: Node, ghost b: Tree, ghost q: Path, ghost l: Tree, ghost r: Tree)
      requires At(Branch(Leaf, y, b), q) && Plug(b, q) == Branch(l, z, r) && l.Branch? && r.Branch?
      modifies `root, `nodes, nodes
      ensures nodes == old(nodes) && HalfJoined(Snapshot(nodes), l, z, y, r)
    {
      Around(Branch(Leaf, y, b), q);
      SpliceOut(y, y.right, Leaf, b, b, q);
      AscendAll(Snapshot(nodes), b, q);
      TakeRight(z, y, l, r);
    }

    method UnlinkInner(z: Node, ghost l: Tree, ghost r: Tree)
      requires At(Branch(l, z, r), Top) && l.Branch? && r.Branch?
      modifies `root, `nodes, nodes
      ensures nodes == old(nodes) - {z} && At(Branch(l, Minimum(r), WithoutMinimum(r)), Top)
    {
      Around(Branch(l, z, r), Top);
      Parts(Snapshot(nodes), l, z, r, Top);
      JoinNodes(l, z, r);
      Down(Branch(l, z, r), Top);
      var y, b, q := FindMinimum(z.right, r, RightOf(l, z, Top));
      Around(Branch(Leaf, y, b), q);
      if y.parent != z {
        TakeSuccessor(z, y, b, q, l, WithoutMinimum(r));
      } else {
        assert HalfJoined(Snapshot(nodes), l, z, y, b);
      }
      TakeLeft(z, y, l, WithoutMinimum(r));
    }

    /** The search of `tree_remove`. */
    method SeekNode(key: int) returns (z: Node?, ghost t: Tree, ghost p: Path)
      requires Valid()
      ensures (t, p) == Locate(shape, key, Top) && At(t, p) && z == RootOf(t)
      ensures z != null <==> key in Records()
      ensures Plug(t, p) == shape
      ensures z != null ==> z.key == key && z in nodes && Records()[key] == z.record
    {
      z := root;
      t, p := shape, Top;
      SearchFinds(shape, key);
      LocatePlug(shape, key, Top);
      while z != null && z.key != key
        invariant At(t, p) && z == RootOf(t) && Locate(t, key, p) == Locate(shape, key, Top)
        decreases t
      {
        SearchStep(t, key, p);
        if key > z.key {
          z := z.right;
          t, p := t.right, RightOf(t.left, t.node, p);
        } else {
          z := z.left;
          t, p := t.left, LeftOf(p, t.node, t.right);
        }
      }
      if t.Branch? {
        Around(t, p);
      }
    }

    /** `tree_remove`: the record of the key, which leaves the map, or NULL. */
    method Remove(key: int) returns (r: nat, ghost node: Node?, ghost steps: nat)
      requires Valid()
      modifies this, nodes
      ensures Valid()
      ensures r == if key in old(Records()) then old(Records())[key] else 0
      ensures Records() == old(Records()) - {key}
      ensures node != null <==> key in old(Records())
      ensures node != null ==> node.key == key && node in old(nodes) && nodes == old(nodes) - {node}
      ensures node == null ==> nodes == old(nodes)
      ensures shape == Apply(old(shape), Call.Remove(key)) && steps == Cost(old(shape), Call.Remove(key))
    {
      ghost var whole := shape;
      var z, t, p := SeekNode(key);
      if z == null {
        return 0, null, 0;
      }
      ghost var u := SplayUp(t.left, z, t.right, p);
      RemovedOrder(whole, t, p, u);
      steps := SplayAndUnlink(z, t.left, t.right, p, u);
      nodeCount := nodeCount - 1;
      assert shape == whole;
      Settle(Join(u.left, u.right));
      r, node := z.record, z;
    }

    method SplayAndUnlink(z: Node, ghost a: Tree, ghost b: Tree, ghost p: Path, ghost u: Tree)
      returns (ghost steps: nat)
      requires At(Branch(a, z, b), p) && u == SplayUp(a, z, b, p) && u.Branch? && u.node == z
      modifies `root, `nodes, nodes
      ensures nodes == old(nodes) - {z} && At(Join(u.left, u.right), Top) && steps == Steps(p)
    {
      steps := Splay(z, a, b, p);
      Unlink(z, u.left, u.right);
    }
  }

  lemma TurnedWhole(t: Tree, u: Tree, p: Path)
    requires t.Branch? && u.Branch? && Nodes(t) == Nodes(u)
    ensures Nodes(Plug(t, p)) == Nodes(Plug(u, p))
    ensures RootOf(Plug(u, p)) == if p.Top? then u.node else RootOf(Plug(t, p))
  {
    PlugNodes(t, p);
    PlugNodes(u, p);
    if !p.Top? {
      PlugRoot(t, u, p);
    }
  }

  /** The whole tree after a right rotation somewhere in it. */
  lemma WholeAfterRight(m: Memory, r: Memory, s: set<Node>, root: Node?, a: Tree, y: Node, b: Tree, x: Node, c: Tree,
          p: Path)
    requires var t := Branch(Branch(a, y, b), x, c);
             Located(m, t, p) && s == Nodes(Plug(t, p)) && root == if ParentAt(p) == null then y else RootOf(Plug(t, p))
    requires x in m && y in m && Followable(m, x, y, m[y].right) && r == RotatedRight(m, x, y)
    ensures var u := Branch(a, y, Branch(b, x, c));
            Located(r, u, p) && s == Nodes(Plug(u, p)) && root == RootOf(Plug(u, p))
  {
    RotateRightLocated(m, a, y, b, x, c, p);
    TurnedWhole(Branch(Branch(a, y, b), x, c), Branch(a, y, Branch(b, x, c)), p);
  }

  /** The same for a left rotation. */
  lemma WholeAfterLeft(m: Memory, r: Memory, s: set<Node>, root: Node?, c: Tree, x: Node, b: Tree, y: Node, a: Tree,
          p: Path)
    requires var t := Branch(c, x, Branch(b, y, a));
             Located(m, t, p) && s == Nodes(Plug(t, p)) && root == if ParentAt(p) == null then y else RootOf(Plug(t, p))
    requires x in m && y in m && Followable(m, x, y, m[y].left) && r == RotatedLeft(m, x, y)
    ensures var u := Branch(Branch(c, x, b), y, a);
            Located(r, u, p) && s == Nodes(Plug(u, p)) && root == RootOf(Plug(u, p))
  {
    RotateLeftLocated(m, c, x, b, y, a, p);
    TurnedWhole(Branch(c, x, Branch(b, y, a)), Branch(Branch(c, x, b), y, a), p);
  }

  /** A leaf below the root does not matter for which node is the root. */
  lemma AttachedRoot(x: Node, q: Path)
    requires !q.Top?
    ensures RootOf(Plug(Branch(Leaf, x, Leaf), q)) == RootOf(Plug(Leaf, q))
  {
    PlugRoot(Branch(Leaf, x, Leaf), Leaf, q);
  }

  /** The last node before a part of a sorted tree is smaller than the root of the part. */
  lemma InsideGrows(whole: Tree, t: Tree, p: Path)
    requires Sorted(InOrder(whole)) && Plug(t, p) == whole
    ensures t.Branch? && Before(p) != [] ==> Before(p)[|Before(p)| - 1].key < t.node.key
  {
    PlugInOrder(t, p);
    if t.Branch? {
      Regroup(Before(p), InOrder(t.left), [t.node], InOrder(t.right), After(p));
      LastSmaller(Before(p), InOrder(t.left), t.node, InOrder(t.right) + After(p));
    }
  }

  lemma LastSmaller(a: seq<Node>, b: seq<Node>, n: Node, c: seq<Node>)
    requires Sorted((a + b) + [n] + c)
    ensures a != [] ==> a[|a| - 1].key < n.key
  {
    SortedParts(a + b, n, c);
    assert a != [] ==> (a + b)[|a| - 1] == a[|a| - 1];
  }

  /** The order of the keys and the map after an insert. */
  lemma InsertedOrder(whole: Tree, x: Node, p: Path, t: Tree)
    requires Sorted(InOrder(whole)) && Locate(whole, x.key, Top) == (Leaf, p) && t == SplayUp(Leaf, x, Leaf, p)
    ensures t.Branch? && t.node == x && Sorted(InOrder(t)) && |InOrder(t)| == |InOrder(whole)| + 1
    ensures Contents(InOrder(t)) == Contents(InOrder(whole))[x.key := x.record]
  {
    SearchFinds(whole, x.key);
    LocatePlug(whole, x.key, Top);
    SingleInOrder(x, p);
    BracketedSorted(p, x);
    ContentsWith(Before(p), x, After(p));
    SplayKeepsOrder(Leaf, x, Leaf, p);
  }

  /** What a located branch says about its parts. */
  lemma Parts(m: Memory, l: Tree, u: Node, r: Tree, p: Path)
    requires Located(m, Branch(l, u, r), p)
    ensures DistinctNodes(l) && DistinctNodes(r) && Linked(m, l, u) && Linked(m, r, u)
    ensures u !in Nodes(l) && u !in Nodes(r) && Nodes(l) !! Nodes(r)
    ensures u !in PathNodes(p) && (l.Branch? ==> l.node in m && l.node in Nodes(l))
            && (r.Branch? ==> r.node in m && r.node in Nodes(r))
  {
  }

  lemma OnlyChild(l: Tree, u: Node, r: Tree, s: Tree)
    requires u !in Nodes(l) && u !in Nodes(r) && ((l.Leaf? && s == r) || (r.Leaf? && s == l))
    ensures Nodes(s) == Nodes(Branch(l, u, r)) - {u}
  {
  }

  lemma SnapshotWithout(s: set<Node>, u: Node)
    ensures Snapshot(s - {u}) == Snapshot(s) - {u}
  {
  }

  /** `SpliceLocated` for an only child, once the node is gone. */
  lemma Spliced(m: Memory, l: Tree, u: Node, r: Tree, s: Tree, p: Path)
    requires Located(m, Branch(l, u, r), p) && ((l.Leaf? && s == r) || (r.Leaf? && s == l))
    requires u in m && m[u].parent == ParentAt(p) && (!p.Top? ==> p.node in m) && (s.Branch? ==> s.node in m)
    ensures Located(Reparented(Relinked(m, u, RootOf(s)), RootOf(s), ParentAt(p)) - {u}, s, p)
    ensures Nodes(Plug(s, p)) == Nodes(Plug(Branch(l, u, r), p)) - {u}
    ensures RootOf(Plug(s, p)) == if p.Top? then RootOf(s) else RootOf(Plug(Branch(l, u, r), p))
  {
    Parts(m, l, u, r, p);
    OnlyChild(l, u, r, s);
    SpliceLocated(m, Branch(l, u, r), s, u, p);
    SplicedWhole(l, u, r, s, p);
    LocatedWithout(Reparented(Relinked(m, u, RootOf(s)), RootOf(s), ParentAt(p)), s, p, u);
  }

  lemma SplicedWhole(l: Tree, u: Node, r: Tree, s: Tree, p: Path)
    requires Nodes(s) == Nodes(Branch(l, u, r)) - {u} && u !in PathNodes(p)
    ensures Nodes(Plug(s, p)) == Nodes(Plug(Branch(l, u, r), p)) - {u}
    ensures RootOf(Plug(s, p)) == if p.Top? then RootOf(s) else RootOf(Plug(Branch(l, u, r), p))
  {
    PlugNodes(s, p);
    PlugNodes(Branch(l, u, r), p);
    if !p.Top? {
      PlugRoot(s, Branch(l, u, r), p);
    }
  }

  lemma LocatedWithout(m: Memory, t: Tree, p: Path, u: Node)
    requires Located(m, t, p) && u !in Nodes(t) && u !in PathNodes(p)
    ensures Located(m - {u}, t, p)
  {
    LinkedSame(m, m - {u}, t, ParentAt(p));
    LinkedPathSame(m, m - {u}, p, RootOf(t));
  }

  /** The order of the keys and the map after a removal. */
  lemma RemovedOrder(whole: Tree, t: Tree, p: Path, u: Tree)
    requires Sorted(InOrder(whole)) && t.Branch? && u == SplayUp(t.left, t.node, t.right, p) && Plug(t, p) == whole
    ensures u.Branch? && u.node == t.node
    ensures var j := InOrder(Join(u.left, u.right));
            Sorted(j) && |j| == |InOrder(whole)| - 1 && Contents(j) == Contents(InOrder(whole)) - {t.node.key}
  {
    SplayKeepsOrder(t.left, t.node, t.right, p);
    var l, n, r := InOrder(u.left), u.node, InOrder(u.right);
    assert InOrder(whole) == l + [n] + r;
    SortedWithout(l, n, r);
    ContentsWith(l, n, r);
    AddedAndRemoved(Contents(l + r), n.key, n.record);
    JoinOrder(u.left, u.right);
  }

  lemma AddedAndRemoved(m: map<int, nat>, k: int, v: nat)
    requires k !in m
    ensures m[k := v] - {k} == m
  {
  }
}
