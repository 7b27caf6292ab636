/** What any sequence of calls on a splay tree returns and costs, told on the finite map alone. */
module SplayRuns {
  import opened SplayShape
  import opened SplayCost
  import opened SplayTree

  /** A call of the program. */
  datatype Request = Put(key: int, record: nat) | Take(key: int) | Get(key: int)

  type Dictionary = map<int, nat>

  /** The map after a call: `tree_insert` refuses duplicates, `tree_find` changes nothing. */
  ghost function After(m: Dictionary, c: Request): Dictionary {
    match c
    case Put(key, record) => if key in m then m else m[key := record]
    case Take(key) => m - {key}
    case Get(_) => m
  }

  /** What the call returns: whether it inserted, or the record, or 0 for NULL. */
  ghost function Reply(m: Dictionary, c: Request): nat {
    match c
    case Put(key, _) => if key in m then 0 else 1
    case Take(key) => if key in m then m[key] else 0
    case Get(key) => if key in m then m[key] else 0
  }

  /** The rounds of `splay` a call may cost: 4 floor(log2 n) + 1, with n keys after an insert or before a removal. */
  ghost function Allowance(m: Dictionary, c: Request): nat {
    if c.Get? then 0 else 4 * Log2(|if c.Put? then After(m, c) else m|) + 1
  }

  ghost function Final(m: Dictionary, calls: seq<Request>): Dictionary
    decreases |calls|
  {
    if calls == [] then m else Final(After(m, calls[0]), calls[1..])
  }

  ghost function Replies(m: Dictionary, calls: seq<Request>): seq<nat>
    decreases |calls|
  {
    if calls == [] then [] else [Reply(m, calls[0])] + Replies(After(m, calls[0]), calls[1..])
  }

  ghost function TotalAllowance(m: Dictionary, calls: seq<Request>): nat
    decreases |calls|
  {
    if calls == [] then 0 else Allowance(m, calls[0]) + TotalAllowance(After(m, calls[0]), calls[1..])
  }

  /** The map has as many keys as the tree has nodes. */
  lemma KeysAreNodes(t: Tree)
    requires Sorted(InOrder(t))
    ensures |Contents(InOrder(t))| == Size(t)
  {
    ContentsOf(InOrder(t));
    SizeIsCount(t);
  }

  /** One call on the tree: the map, the reply, and the rounds it costs against the potential. */
  method Perform(t: SplayTree, c: Request) returns (reply: nat, ghost steps: nat)
    requires t.Valid()
    modifies t, t.nodes
    ensures t.Valid() && fresh(t.nodes - old(t.nodes))
    ensures t.Records() == After(old(t.Records()), c) && reply == Reply(old(t.Records()), c)
    ensures steps + Potential(t.shape) <= old(Potential(t.shape)) + Allowance(old(t.Records()), c)
  {
    ghost var s := t.shape;
    KeysAreNodes(s);
    match c {
      case Put(key, record) =>
        var inserted;
        ghost var node;
        inserted, node, steps := t.Insert(key, record);
        reply := if inserted then 1 else 0;
        if inserted {
          CallAmortised(s, Call.Insert(node));
          KeysAreNodes(t.shape);
        }
      case Take(key) =>
        ghost var node;
        reply, node, steps := t.Remove(key);
        CallAmortised(s, Call.Remove(key));
      case Get(key) =>
        reply := t.Find(key);
        steps := 0;
    }
  }

  /**
   * Any run of calls: replies and map are those of a finite map, and from an empty tree all rounds of `splay` together
   * stay within the bound.
   */
  method PerformAll(t: SplayTree, calls: seq<Request>) returns (replies: seq<nat>, ghost steps: nat)
    requires t.Valid()
    modifies t, t.nodes
    ensures t.Valid() && fresh(t.nodes - old(t.nodes))
    ensures t.Records() == Final(old(t.Records()), calls) && replies == Replies(old(t.Records()), calls)
    ensures steps <= old(Potential(t.shape)) + TotalAllowance(old(t.Records()), calls)
    ensures old(t.shape) == Leaf ==> steps <= TotalAllowance(map[], calls)
  {
    ghost var m0, p0, used: nat := t.Records(), Potential(t.shape), 0;
    replies, steps := [], 0;
    for i := 0 to |calls|
      invariant t.Valid() && fresh(t.nodes - old(t.nodes))
      invariant Rest(m0, calls, t.Records(), calls[i..], replies, used)
      invariant steps + Potential(t.shape) <= p0 + used
    {
      OneMore(m0, calls, t.Records(), calls[i..], replies, used);
      assert calls[i..][0] == calls[i] && calls[i..][1..] == calls[i + 1..];
      used := used + Allowance(t.Records(), calls[i]);
      var reply;
      ghost var k;
      reply, k := Perform(t, calls[i]);
      replies := replies + [reply];
      steps := steps + k;
    }
  }

  /**
   * After some of the calls: `rest` are to come from the map `m`, `replies` and `used` are what the others returned and
   * were allowed.
   */
  ghost predicate Rest(m0: Dictionary, calls: seq<Request>, m: Dictionary, rest: seq<Request>, replies: seq<nat>,
          used: nat) {
    && Final(m, rest) == Final(m0, calls)
    && replies + Replies(m, rest) == Replies(m0, calls)
    && used + TotalAllowance(m, rest) == TotalAllowance(m0, calls)
  }

  lemma OneMore(m0: Dictionary, calls: seq<Request>, m: Dictionary, rest: seq<Request>, replies: seq<nat>, used: nat)
    requires Rest(m0, calls, m, rest, replies, used) && rest != []
    ensures Rest(m0, calls, After(m, rest[0]), rest[1..], replies + [Reply(m, rest[0])], used + Allowance(m, rest[0]))
  {
    var later := Replies(After(m, rest[0]), rest[1..]);
    assert replies + ([Reply(m, rest[0])] + later) == replies + [Reply(m, rest[0])] + later;
  }
}
