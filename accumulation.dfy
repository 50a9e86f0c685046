/**
 * Accumulated values. getAccumulatedValues on a branch walks breadth-first through the
 * visible nodes beneath it, keeping for each node the parent it was queued from, and
 * groups every visible leaf it meets by the leaf's parent in the other axis. Each group is
 * then folded by the accumulator into one value, cached on the branch under that other
 * parent's id.
 */
module Accumulation {
  import opened Sequences
  import opened TreeNodes
  import opened Paths
  import opened Structure
  import opened Measure
  import opened Lineage
  import opened Dirtying

  /** Leaves grouped by the id of their other parent, in the order they were met. */
  type Groups = map<NodeId, seq<NodeId>>

  /** A queue entry: the node a child was queued from, and the child. */
  type Pair = (NodeId, NodeId)

  /** The leaves of group `o`; none when there is no such group. */
  function Members(g: Groups, o: NodeId): seq<NodeId> {
    if o in g then g[o] else []
  }

  /** `compute` on the group map: leaf `l` joins the group of `o`, creating it when absent. */
  function Group(g: Groups, o: NodeId, l: NodeId): (r: Groups)
    ensures r.Keys == g.Keys + {o}
    ensures forall k :: Members(r, k) == Members(g, k) + (if k == o then [l] else [])
  {
    g[o := Members(g, o) + [l]]
  }

  /** The children of `x`, each paired with `x`, as the loop queues them. */
  function Pairs(x: NodeId, cs: seq<NodeId>): (r: seq<Pair>)
    ensures |r| == |cs| && forall k :: 0 <= k < |cs| ==> r[k] == (x, cs[k])
  {
    seq(|cs|, k requires 0 <= k < |cs| => (x, cs[k]))
  }

  /** The children in a queue of pairs. */
  function Seconds(q: seq<Pair>): (r: seq<NodeId>)
    ensures |r| == |q| && forall k :: 0 <= k < |q| ==> r[k] == q[k].1
  {
    seq(|q|, k requires 0 <= k < |q| => q[k].1)
  }

  /** A popped node's children are queued when it is visible and not a leaf. */
  ghost function Expand<V, A>(nodes: Nodes<V, A>): NodeId -> bool {
    (x: NodeId) => IsVisible(nodes, x) && !IsLeaf(nodes, x)
  }

  /** Every child in the queue is a node. */
  ghost predicate InArena<V, A>(nodes: Nodes<V, A>, q: seq<Pair>) {
    forall k :: 0 <= k < |q| ==> q[k].1 in nodes
  }

  /**
   * The loop of getAccumulatedValues run on queue `q` with groups `g` so far: pop a pair;
   * skip an invisible child, group a visible leaf under its other parent, queue the
   * children of anything else.
   */
  ghost function Gather<V, A>(nodes: Nodes<V, A>, bound: NodeId, q: seq<Pair>, g: Groups): Groups
    requires Wf(nodes, bound) && InArena(nodes, q)
    decreases QSum(nodes, bound, Seconds(q))
  {
    if q == [] then g
    else
      var p, c := q[0].0, q[0].1;
      QueueFacts(nodes, bound, q);
      if !nodes[c].visible then Gather(nodes, bound, q[1..], g)
      else if nodes[c].Leaf? then Gather(nodes, bound, q[1..], Group(g, OtherParent(nodes, p, c), c))
      else Gather(nodes, bound, q[1..] + Pairs(c, Kids(nodes, c)), g)
  }

  /** The groups getAccumulatedValues builds for branch `b`. */
  ghost function GroupsOf<V, A>(nodes: Nodes<V, A>, bound: NodeId, b: NodeId): Groups
    requires Wf(nodes, bound) && b in nodes
  {
    KidsInArena(nodes, bound, b);
    Gather(nodes, bound, Pairs(b, Kids(nodes, b)), map[])
  }

  /** What an accumulator sees of a list of leaves: their classes and values. */
  function ItemsAt<V, A>(nodes: Nodes<V, A>, ls: seq<NodeId>): (r: seq<Item<V>>)
    ensures |r| == |ls| && forall k :: 0 <= k < |ls| ==> r[k] == ItemAt(nodes, ls[k])
  {
    seq(|ls|, k requires 0 <= k < |ls| => ItemAt(nodes, ls[k]))
  }

  /** The cache filled from groups `g`: one folded value per other parent. */
  function Fold<V, A>(nodes: Nodes<V, A>, g: Groups, acc: (seq<Item<V>>, Item<V>) -> A): (r: map<NodeId, A>)
    ensures r.Keys == g.Keys
  {
    map o | o in g :: acc(ItemsAt(nodes, g[o]), ItemAt(nodes, o))
  }

  /** The cache getAccumulatedValues computes for `b`. */
  ghost function Accumulate<V, A>(nodes: Nodes<V, A>, bound: NodeId, b: NodeId,
                                  acc: (seq<Item<V>>, Item<V>) -> A): map<NodeId, A>
    requires Wf(nodes, bound) && b in nodes
  {
    Fold(nodes, GroupsOf(nodes, bound, b), acc)
  }

  /** A root or branch with a freshly computed cache and its `updated` flag cleared. */
  function Refreshed<V, A>(n: Node<V, A>, m: map<NodeId, A>): Node<V, A> {
    match n
    case Root(v, cs, _, _) => Root(v, cs, false, m)
    case Branch(x, v, p, cs, _, _) => Branch(x, v, p, cs, false, m)
    case Leaf(_, _, _, _) => n
  }

  /** The cache has to be (re)computed: the node was updated, or nothing is cached. */
  predicate Stale<V, A>(n: Node<V, A>)
    requires !n.Leaf?
  {
    n.updated || n.cache == map[]
  }

  /** `p` is `b`, or a visible non-leaf the walk from `b` reaches: its children are queued. */
  ghost predicate Feeds<V, A>(nodes: Nodes<V, A>, b: NodeId, p: NodeId) {
    p == b || (Reach(nodes, Expand(nodes), Kids(nodes, b), p) && Expand(nodes)(p))
  }

  /**
   * Leaf `l` is grouped under `o` by the walk from `b`: it is visible and listed by a node
   * whose children the walk queues, and `o` is its parent other than that node.
   */
  ghost predicate Grouped<V, A>(nodes: Nodes<V, A>, b: NodeId, o: NodeId, l: NodeId) {
    && IsLeaf(nodes, l) && IsVisible(nodes, l)
    && exists p :: Feeds(nodes, b, p) && l in Kids(nodes, p) && OtherParent(nodes, p, l) == o
  }

  /** `p` is `c` or lies beneath it, and the walk entering `c` queues the children of `p`. */
  ghost predicate Under<V, A>(nodes: Nodes<V, A>, c: NodeId, p: NodeId) {
    Expand(nodes)(c) && (p == c || (Reach(nodes, Expand(nodes), Kids(nodes, c), p) && Expand(nodes)(p)))
  }

  /** Popping the pair `pr` eventually groups leaf `l` under `o`. */
  ghost predicate Yields<V, A>(nodes: Nodes<V, A>, pr: Pair, o: NodeId, l: NodeId) {
    && IsLeaf(nodes, l) && IsVisible(nodes, l)
    && ((l == pr.1 && OtherParent(nodes, pr.0, l) == o)
        || exists p :: Under(nodes, pr.1, p) && l in Kids(nodes, p) && OtherParent(nodes, p, l) == o)
  }

  lemma KidsInArena<V, A>(nodes: Nodes<V, A>, bound: NodeId, x: NodeId)
    requires Wf(nodes, bound) && x in nodes
    ensures InArena(nodes, Pairs(x, Kids(nodes, x)))
    ensures forall c :: c in Kids(nodes, x) ==> x < c < bound
  {
    forall c | c in Kids(nodes, x) ensures c in nodes && x < c < bound {
      KidFacts(nodes, bound, x, c);
    }
  }

  /** One step of the loop: what it queues is in the arena, and the measure falls. */
  lemma QueueFacts<V, A>(nodes: Nodes<V, A>, bound: NodeId, q: seq<Pair>)
    requires Wf(nodes, bound) && InArena(nodes, q) && q != []
    ensures InArena(nodes, q[1..])
    ensures InArena(nodes, q[1..] + Pairs(q[0].1, Kids(nodes, q[0].1)))
    ensures QSum(nodes, bound, Seconds(q[1..])) < QSum(nodes, bound, Seconds(q))
    ensures QSum(nodes, bound, Seconds(q[1..] + Pairs(q[0].1, Kids(nodes, q[0].1)))) < QSum(nodes, bound, Seconds(q))
  {
    var c := q[0].1;
    KidsInArena(nodes, bound, c);
    var s := Seconds(q);
    assert Seconds(q[1..]) == s[1..];
    assert Seconds(q[1..] + Pairs(c, Kids(nodes, c))) == s[1..] + Kids(nodes, c);
    QSumPop(nodes, bound, s);
  }

  /** Some pair of `q` yields leaf `l` under `o`. */
  ghost predicate AnyYields<V, A>(nodes: Nodes<V, A>, q: seq<Pair>, o: NodeId, l: NodeId) {
    exists k :: 0 <= k < |q| && Yields(nodes, q[k], o, l)
  }

  lemma AnyYieldsCons<V, A>(nodes: Nodes<V, A>, q: seq<Pair>, o: NodeId, l: NodeId)
    requires q != []
    ensures AnyYields(nodes, q, o, l) <==> Yields(nodes, q[0], o, l) || AnyYields(nodes, q[1..], o, l)
  {
    if AnyYields(nodes, q[1..], o, l) {
      var k :| 0 <= k < |q[1..]| && Yields(nodes, q[1..][k], o, l);
      assert q[k + 1] == q[1..][k];
    }
    if AnyYields(nodes, q, o, l) {
      var k :| 0 <= k < |q| && Yields(nodes, q[k], o, l);
      if k > 0 {
        assert q[1..][k - 1] == q[k];
      }
    }
  }

  lemma AnyYieldsAppend<V, A>(nodes: Nodes<V, A>, a: seq<Pair>, b: seq<Pair>, o: NodeId, l: NodeId)
    ensures AnyYields(nodes, a + b, o, l) <==> AnyYields(nodes, a, o, l) || AnyYields(nodes, b, o, l)
  {
    if AnyYields(nodes, a, o, l) {
      var k :| 0 <= k < |a| && Yields(nodes, a[k], o, l);
      assert (a + b)[k] == a[k];
    }
    if AnyYields(nodes, b, o, l) {
      var k :| 0 <= k < |b| && Yields(nodes, b[k], o, l);
      assert (a + b)[|a| + k] == b[k];
    }
    if AnyYields(nodes, a + b, o, l) {
      var k :| 0 <= k < |a + b| && Yields(nodes, (a + b)[k], o, l);
      if k < |a| {
        assert (a + b)[k] == a[k];
      } else {
        assert (a + b)[k] == b[k - |a|];
      }
    }
  }

  /** Walking into a visible non-leaf yields what walking into each of its children yields. */
  lemma YieldsExpand<V, A>(nodes: Nodes<V, A>, pr: Pair, o: NodeId, l: NodeId)
    requires Expand(nodes)(pr.1)
    ensures Yields(nodes, pr, o, l) <==> AnyYields(nodes, Pairs(pr.1, Kids(nodes, pr.1)), o, l)
  {
    var e, c := Expand(nodes), pr.1;
    var cs := Kids(nodes, c);
    var q := Pairs(c, cs);
    if Yields(nodes, pr, o, l) {
      assert l != c by {
        assert IsLeaf(nodes, l);
      }
      var p :| Under(nodes, c, p) && l in Kids(nodes, p) && OtherParent(nodes, p, l) == o;
      if p == c {
        var j :| 0 <= j < |cs| && cs[j] == l;
        assert Yields(nodes, q[j], o, l);
      } else {
        ReachFirstStep(nodes, e, cs, p);
        if p in cs {
          var j :| 0 <= j < |cs| && cs[j] == p;
          assert Under(nodes, cs[j], p);
          assert Yields(nodes, q[j], o, l);
        } else {
          var y :| y in cs && e(y) && Reach(nodes, e, Kids(nodes, y), p);
          var j :| 0 <= j < |cs| && cs[j] == y;
          assert Under(nodes, cs[j], p);
          assert Yields(nodes, q[j], o, l);
        }
      }
    }
    if AnyYields(nodes, q, o, l) {
      var j :| 0 <= j < |q| && Yields(nodes, q[j], o, l);
      var k := cs[j];
      if l == k && OtherParent(nodes, c, l) == o {
        assert Under(nodes, c, c);
      } else {
        var p :| Under(nodes, k, p) && l in Kids(nodes, p) && OtherParent(nodes, p, l) == o;
        if p == k {
          ReachStart(nodes, e, cs, k);
        } else {
          ReachThrough(nodes, e, cs, k, p);
        }
        assert Under(nodes, c, p);
      }
    }
  }

  /**
   * The loop misses nothing and invents nothing: a leaf ends up in group `o` exactly when it
   * was there already or some queued pair yields it under `o`.
   */
  lemma {:induction false} GatherMembers<V, A>(nodes: Nodes<V, A>, bound: NodeId, q: seq<Pair>, g: Groups,
                                               o: NodeId, l: NodeId)
    requires Wf(nodes, bound) && InArena(nodes, q)
    ensures l in Members(Gather(nodes, bound, q, g), o) <==> l in Members(g, o) || AnyYields(nodes, q, o, l)
    decreases QSum(nodes, bound, Seconds(q))
  {
    if q != [] {
      QueueFacts(nodes, bound, q);
      AnyYieldsCons(nodes, q, o, l);
      var p, c := q[0].0, q[0].1;
      if !nodes[c].visible {
        GatherMembers(nodes, bound, q[1..], g, o, l);
      } else if nodes[c].Leaf? {
        GatherMembers(nodes, bound, q[1..], Group(g, OtherParent(nodes, p, c), c), o, l);
      } else {
        var cq := Pairs(c, Kids(nodes, c));
        GatherMembers(nodes, bound, q[1..] + cq, g, o, l);
        YieldsExpand(nodes, q[0], o, l);
        AnyYieldsAppend(nodes, q[1..], cq, o, l);
      }
    }
  }

  /** No group the loop creates is empty. */
  lemma {:induction false} GatherNonEmpty<V, A>(nodes: Nodes<V, A>, bound: NodeId, q: seq<Pair>, g: Groups)
    requires Wf(nodes, bound) && InArena(nodes, q)
    requires forall o :: o in g ==> g[o] != []
    ensures forall o :: o in Gather(nodes, bound, q, g) ==> Gather(nodes, bound, q, g)[o] != []
    decreases QSum(nodes, bound, Seconds(q))
  {
    if q != [] {
      QueueFacts(nodes, bound, q);
      var p, c := q[0].0, q[0].1;
      if !nodes[c].visible {
        GatherNonEmpty(nodes, bound, q[1..], g);
      } else if nodes[c].Leaf? {
        var g' := Group(g, OtherParent(nodes, p, c), c);
        assert forall o :: o in g' ==> Members(g', o) != [];
        GatherNonEmpty(nodes, bound, q[1..], g');
      } else {
        GatherNonEmpty(nodes, bound, q[1..] + Pairs(c, Kids(nodes, c)), g);
      }
    }
  }

  /** What the children of `b` yield is exactly what the walk from `b` groups. */
  lemma YieldsFromBranch<V, A>(nodes: Nodes<V, A>, b: NodeId, o: NodeId, l: NodeId)
    ensures AnyYields(nodes, Pairs(b, Kids(nodes, b)), o, l) <==> Grouped(nodes, b, o, l)
  {
    var e, cs := Expand(nodes), Kids(nodes, b);
    var q := Pairs(b, cs);
    if AnyYields(nodes, q, o, l) {
      var k :| 0 <= k < |q| && Yields(nodes, q[k], o, l);
      var c := cs[k];
      if l == c && OtherParent(nodes, b, l) == o {
        assert Feeds(nodes, b, b);
      } else {
        var p :| Under(nodes, c, p) && l in Kids(nodes, p) && OtherParent(nodes, p, l) == o;
        if p == c {
          ReachStart(nodes, e, cs, c);
        } else {
          ReachThrough(nodes, e, cs, c, p);
        }
        assert Feeds(nodes, b, p);
      }
    }
    if Grouped(nodes, b, o, l) {
      var p :| Feeds(nodes, b, p) && l in Kids(nodes, p) && OtherParent(nodes, p, l) == o;
      if p == b {
        var k :| 0 <= k < |cs| && cs[k] == l;
        assert Yields(nodes, q[k], o, l);
      } else {
        ReachFirstStep(nodes, e, cs, p);
        if p in cs {
          var k :| 0 <= k < |cs| && cs[k] == p;
          assert Under(nodes, cs[k], p);
          assert Yields(nodes, q[k], o, l);
        } else {
          var y :| y in cs && e(y) && Reach(nodes, e, Kids(nodes, y), p);
          var k :| 0 <= k < |cs| && cs[k] == y;
          assert Under(nodes, cs[k], p);
          assert Yields(nodes, q[k], o, l);
        }
      }
    }
  }

  /**
   * The groups of `b`: group `o` holds exactly the visible leaves listed under `b` or under
   * a visible non-leaf reached through visible non-leaves from `b` whose other parent is
   * `o`, and a group exists exactly when it has such a leaf.
   */
  lemma GroupsOfMembers<V, A>(nodes: Nodes<V, A>, bound: NodeId, b: NodeId, o: NodeId)
    requires Wf(nodes, bound) && b in nodes
    ensures forall l :: l in Members(GroupsOf(nodes, bound, b), o) <==> Grouped(nodes, b, o, l)
    ensures o in GroupsOf(nodes, bound, b) <==> exists l :: Grouped(nodes, b, o, l)
  {
    KidsInArena(nodes, bound, b);
    var q := Pairs(b, Kids(nodes, b));
    var g := GroupsOf(nodes, bound, b);
    forall l ensures l in Members(g, o) <==> Grouped(nodes, b, o, l) {
      GatherMembers(nodes, bound, q, map[], o, l);
      YieldsFromBranch(nodes, b, o, l);
    }
    GatherNonEmpty(nodes, bound, q, map[]);
    if o in g {
      assert g[o][0] in Members(g, o);
    }
  }

  /** No queued node is leaf `l` or lies above it: the rest of the walk cannot meet `l`. */
  ghost predicate Clear<V, A>(nodes: Nodes<V, A>, q: seq<Pair>, l: NodeId) {
    forall k :: 0 <= k < |q| ==> Apart(nodes, q[k].1, l)
  }

  /**
   * What keeps the walk from meeting a leaf twice: every queued node is reached from `b`,
   * no queued node is another or lies above it, no group repeats a leaf, and no queued
   * node can still lead to a leaf already grouped.
   */
  ghost predicate Spread<V, A>(nodes: Nodes<V, A>, b: NodeId, q: seq<Pair>, g: Groups) {
    && (forall k :: 0 <= k < |q| ==> Reach(nodes, Expand(nodes), Kids(nodes, b), q[k].1))
    && (forall k1, k2 :: 0 <= k1 < |q| && 0 <= k2 < |q| && k1 != k2 ==> Apart(nodes, q[k1].1, q[k2].1))
    && (forall o, l :: o in g && l in g[o] ==> Clear(nodes, q, l))
    && (forall o :: o in g ==> NoDup(g[o]))
  }

  /** The children of `b`, queued with no group yet, are spread. */
  lemma SpreadStart<V, A>(nodes: Nodes<V, A>, bound: NodeId, b: NodeId)
    requires Wf(nodes, bound) && b in nodes
    ensures Spread(nodes, b, Pairs(b, Kids(nodes, b)), map[])
  {
    var e, cs := Expand(nodes), Kids(nodes, b);
    var q := Pairs(b, cs);
    assert NodeOk(nodes, b);
    forall k | 0 <= k < |q| ensures Reach(nodes, e, cs, q[k].1) {
      ReachStart(nodes, e, cs, cs[k]);
    }
    forall k1, k2 | 0 <= k1 < |q| && 0 <= k2 < |q| && k1 != k2 ensures Apart(nodes, q[k1].1, q[k2].1) {
      if Below(nodes, cs[k1], cs[k2]) {
        ReachStart(nodes, e, cs, cs[k1]);
        ThroughAncestor(nodes, bound, e, e, b, cs[k1], cs[k2], [cs[k2]]);
        assert false;
      }
    }
  }

  /** Popping an entry keeps the rest spread. */
  lemma SpreadDrop<V, A>(nodes: Nodes<V, A>, b: NodeId, q: seq<Pair>, g: Groups)
    requires Spread(nodes, b, q, g) && q != []
    ensures Spread(nodes, b, q[1..], g)
  {
    var r := q[1..];
    forall k | 0 <= k < |r| ensures r[k] == q[k + 1] {
    }
    forall o, l | o in g && l in g[o] ensures Clear(nodes, r, l) {
      assert Clear(nodes, q, l);
    }
  }

  /** Grouping the popped leaf keeps the rest spread: no queued node can lead to it again. */
  lemma SpreadLeaf<V, A>(nodes: Nodes<V, A>, b: NodeId, q: seq<Pair>, g: Groups, o: NodeId)
    requires Spread(nodes, b, q, g) && q != []
    ensures Spread(nodes, b, q[1..], Group(g, o, q[0].1))
  {
    SpreadDrop(nodes, b, q, g);
    var c, r, g' := q[0].1, q[1..], Group(g, o, q[0].1);
    forall k | 0 <= k < |r| ensures Apart(nodes, r[k].1, c) {
      assert r[k] == q[k + 1];
    }
    forall l | l in Members(g, o) ensures l != c {
      assert Clear(nodes, q, l);
    }
    forall o' | o' in g' ensures NoDup(g'[o']) {
      assert g'[o'] == Members(g', o');
      if o' == o {
        var m := Members(g, o);
        assert NoDup(m);
        forall i, j | 0 <= i < j < |m| + 1 ensures (m + [c])[i] != (m + [c])[j] {
          assert (m + [c])[i] == m[i];
          if j < |m| {
            assert (m + [c])[j] == m[j];
          } else {
            assert (m + [c])[j] == c && m[i] in m;
          }
        }
        assert g'[o'] == m + [c];
      }
    }
    forall o', l | o' in g' && l in g'[o'] ensures Clear(nodes, r, l) {
      assert g'[o'] == Members(g', o');
      if l != c {
        assert l in g[o'];
      }
    }
  }

  /** Expanding the popped node keeps the queue spread: its children lie beneath it alone. */
  lemma SpreadExpand<V, A>(nodes: Nodes<V, A>, bound: NodeId, b: NodeId, q: seq<Pair>, g: Groups)
    requires Wf(nodes, bound) && b in nodes && Spread(nodes, b, q, g) && q != [] && Expand(nodes)(q[0].1)
    ensures Spread(nodes, b, q[1..] + Pairs(q[0].1, Kids(nodes, q[0].1)), g)
  {
    SpreadDrop(nodes, b, q, g);
    var e, c := Expand(nodes), q[0].1;
    var cs, r := Kids(nodes, c), q[1..];
    var q' := r + Pairs(c, cs);
    assert NodeOk(nodes, c);
    forall j | 0 <= j < |cs| ensures Reach(nodes, e, Kids(nodes, b), cs[j]) && Apart(nodes, cs[j], c) {
      ReachStep(nodes, e, Kids(nodes, b), c, cs[j]);
      KidFacts(nodes, bound, c, cs[j]);
      if Below(nodes, cs[j], c) {
        BelowLarger(nodes, bound, cs[j], c);
      }
    }
    forall k | 0 <= k < |r| ensures Apart(nodes, c, r[k].1) && Apart(nodes, r[k].1, c) {
      assert r[k] == q[k + 1];
    }
    forall k | 0 <= k < |q'| ensures Reach(nodes, e, Kids(nodes, b), q'[k].1) {
      if k < |r| {
        assert q'[k] == r[k];
      }
    }
    forall k1, k2 | 0 <= k1 < |q'| && 0 <= k2 < |q'| && k1 != k2 ensures Apart(nodes, q'[k1].1, q'[k2].1) {
      if k1 < |r| && k2 < |r| {
        assert q'[k1] == r[k1] && q'[k2] == r[k2];
      } else if k1 < |r| {
        KidNotBelow(nodes, bound, Expand(nodes), b, c, q'[k1].1, q'[k2].1);
        KidApart(nodes, c, q'[k2].1, q'[k1].1);
      } else if k2 < |r| {
        KidApart(nodes, c, q'[k1].1, q'[k2].1);
      } else {
        KidNotBelow(nodes, bound, Expand(nodes), b, c, q'[k1].1, q'[k2].1);
      }
    }
    forall o, l | o in g && l in g[o] ensures Clear(nodes, q', l) {
      assert Clear(nodes, q, l);
      forall k | 0 <= k < |q'| ensures Apart(nodes, q'[k].1, l) {
        if k < |r| {
          assert q'[k] == q[k + 1];
        } else {
          assert Apart(nodes, q[0].1, l);
          KidApart(nodes, c, q'[k].1, l);
        }
      }
    }
  }

  /** The walk never groups a leaf twice: no group it builds repeats a leaf. */
  lemma {:induction false} GatherNoDup<V, A>(nodes: Nodes<V, A>, bound: NodeId, b: NodeId, q: seq<Pair>, g: Groups)
    requires Wf(nodes, bound) && b in nodes && InArena(nodes, q) && Spread(nodes, b, q, g)
    ensures forall o :: o in Gather(nodes, bound, q, g) ==> NoDup(Gather(nodes, bound, q, g)[o])
    decreases QSum(nodes, bound, Seconds(q))
  {
    if q != [] {
      QueueFacts(nodes, bound, q);
      var p, c := q[0].0, q[0].1;
      if !nodes[c].visible {
        SpreadDrop(nodes, b, q, g);
        GatherNoDup(nodes, bound, b, q[1..], g);
      } else if nodes[c].Leaf? {
        SpreadLeaf(nodes, b, q, g, OtherParent(nodes, p, c));
        GatherNoDup(nodes, bound, b, q[1..], Group(g, OtherParent(nodes, p, c), c));
      } else {
        SpreadExpand(nodes, bound, b, q, g);
        GatherNoDup(nodes, bound, b, q[1..] + Pairs(c, Kids(nodes, c)), g);
      }
    }
  }

  /**
   * Each visible leaf reaches the accumulator at most once: a branch has one parent and a
   * leaf one parent per axis, so the walk from `b` meets no leaf twice.
   */
  lemma GroupsOfNoDup<V, A>(nodes: Nodes<V, A>, bound: NodeId, b: NodeId, o: NodeId)
    requires Wf(nodes, bound) && b in nodes && o in GroupsOf(nodes, bound, b)
    ensures NoDup(GroupsOf(nodes, bound, b)[o])
  {
    KidsInArena(nodes, bound, b);
    SpreadStart(nodes, bound, b);
    GatherNoDup(nodes, bound, b, Pairs(b, Kids(nodes, b)), map[]);
  }

  /**
   * The cache getAccumulatedValues computes for `b` holds a value for `o` exactly when some
   * visible leaf is grouped under `o`, and that value folds the group: every grouped leaf,
   * each exactly once, in the order the walk meets them.
   */
  lemma AccumulateMeaning<V, A>(nodes: Nodes<V, A>, bound: NodeId, b: NodeId,
                                acc: (seq<Item<V>>, Item<V>) -> A, o: NodeId)
    requires Wf(nodes, bound) && b in nodes
    ensures o in Accumulate(nodes, bound, b, acc) <==> exists l :: Grouped(nodes, b, o, l)
    ensures o in Accumulate(nodes, bound, b, acc) ==>
      var ls := GroupsOf(nodes, bound, b)[o];
      && NoDup(ls)
      && (forall l :: l in ls <==> Grouped(nodes, b, o, l))
      && Accumulate(nodes, bound, b, acc)[o] == acc(ItemsAt(nodes, ls), ItemAt(nodes, o))
  {
    GroupsOfMembers(nodes, bound, b, o);
    var g := GroupsOf(nodes, bound, b);
    if o in g {
      assert Members(g, o) == g[o];
      GroupsOfNoDup(nodes, bound, b, o);
    }
  }

  /**
   * The loop of getAccumulatedValues: the children of `b`, each paired with `b`, are queued
   * and popped one at a time until the queue is empty.
   */
  method Collect<V, A>(nodes: Nodes<V, A>, bound: NodeId, b: NodeId) returns (groups: Groups)
    requires Wf(nodes, bound) && b in nodes && !nodes[b].Leaf?
    ensures groups == GroupsOf(nodes, bound, b)
  {
    KidsInArena(nodes, bound, b);
    var queue := Pairs(b, nodes[b].children);
    groups := map[];
    while queue != []
      invariant InArena(nodes, queue)
      invariant Gather(nodes, bound, queue, groups) == GroupsOf(nodes, bound, b)
      decreases QSum(nodes, bound, Seconds(queue))
    {
      QueueFacts(nodes, bound, queue);
      var p, c := queue[0].0, queue[0].1;
      if nodes[c].visible {
        if nodes[c].Leaf? {
          groups := Group(groups, OtherParent(nodes, p, c), c);
          queue := queue[1..];
        } else {
          queue := queue[1..] + Pairs(c, nodes[c].children);
        }
      } else {
        queue := queue[1..];
      }
    }
  }

  /** Same structure and same visibility: what the walk and the accumulator look at. */
  ghost predicate SameView<V, A>(a: Nodes<V, A>, b: Nodes<V, A>) {
    SameStructure(a, b) && forall x :: x in a ==> a[x].visible == b[x].visible
  }

  /** Refreshing a cache changes neither the structure nor visibility. */
  lemma RefreshedView<V, A>(nodes: Nodes<V, A>, bound: NodeId, b: NodeId, m: map<NodeId, A>)
    requires Wf(nodes, bound) && b in nodes
    ensures SameView(nodes, nodes[b := Refreshed(nodes[b], m)])
    ensures Wf(nodes[b := Refreshed(nodes[b], m)], bound)
  {
    var n1 := nodes[b := Refreshed(nodes[b], m)];
    assert Strip(n1[b]) == Strip(nodes[b]);
    SameStructureWf(nodes, n1, bound);
  }

  /** The walk only depends on the structure and on visibility. */
  lemma {:induction false} GatherSameView<V, A>(a: Nodes<V, A>, b: Nodes<V, A>, bound: NodeId, q: seq<Pair>, g: Groups)
    requires Wf(a, bound) && SameView(a, b) && InArena(a, q)
    ensures Wf(b, bound) && InArena(b, q)
    ensures Gather(a, bound, q, g) == Gather(b, bound, q, g)
    decreases QSum(a, bound, Seconds(q))
  {
    SameStructureWf(a, b, bound);
    SameStructureKids(a, b);
    if q != [] {
      QueueFacts(a, bound, q);
      var p, c := q[0].0, q[0].1;
      assert Strip(a[c]) == Strip(b[c]);
      if !a[c].visible {
        GatherSameView(a, b, bound, q[1..], g);
      } else if a[c].Leaf? {
        assert OtherParent(a, p, c) == OtherParent(b, p, c);
        GatherSameView(a, b, bound, q[1..], Group(g, OtherParent(a, p, c), c));
      } else {
        GatherSameView(a, b, bound, q[1..] + Pairs(c, Kids(a, c)), g);
      }
    }
  }

  /** The accumulator sees the same items where the structure is the same. */
  lemma FoldSameView<V, A>(a: Nodes<V, A>, b: Nodes<V, A>, g: Groups, acc: (seq<Item<V>>, Item<V>) -> A)
    requires SameStructure(a, b)
    ensures Fold(a, g, acc) == Fold(b, g, acc)
  {
    forall x ensures ItemAt(a, x) == ItemAt(b, x) {
      if x in a {
        assert Strip(a[x]) == Strip(b[x]);
      }
    }
    forall o | o in g ensures ItemsAt(a, g[o]) == ItemsAt(b, g[o]) {
    }
  }

  /**
   * A second getAccumulatedValues with nothing changed in between leaves the arena as the
   * first one left it, and so answers from the same cache: were it to recompute, it would
   * compute the same values.
   */
  lemma AccumulateAgain<V, A>(nodes: Nodes<V, A>, bound: NodeId, b: NodeId, acc: (seq<Item<V>>, Item<V>) -> A)
    requires Wf(nodes, bound) && b in nodes && !nodes[b].Leaf?
    ensures var n1 := nodes[b := Refreshed(nodes[b], Accumulate(nodes, bound, b, acc))];
      && Wf(n1, bound) && !n1[b].updated
      && Accumulate(n1, bound, b, acc) == Accumulate(nodes, bound, b, acc)
      && n1[b := Refreshed(n1[b], Accumulate(n1, bound, b, acc))] == n1
  {
    var m := Accumulate(nodes, bound, b, acc);
    var n1 := nodes[b := Refreshed(nodes[b], m)];
    RefreshedView(nodes, bound, b, m);
    KidsInArena(nodes, bound, b);
    SameStructureKids(nodes, n1);
    GatherSameView(nodes, n1, bound, Pairs(b, Kids(nodes, b)), map[]);
    FoldSameView(nodes, n1, GroupsOf(nodes, bound, b), acc);
  }

  /** The walk from a branch stays below it: what it expands has the same top-level branch. */
  lemma FeedsSameTop<V, A>(nodes: Nodes<V, A>, next: NodeId, b: NodeId, p: NodeId)
    requires Wf(nodes, next) && IsBranch(nodes, b) && Feeds(nodes, b, p)
    ensures IsBranch(nodes, p) && TopOf(nodes, p) == TopOf(nodes, b)
  {
    TopOfIsFirst(nodes, next, b);
    if p != b {
      var e := Expand(nodes);
      var path :| IsPath(nodes, e, path) && path[0] in Kids(nodes, b) && path[|path| - 1] == p;
      var i := 0;
      KidFacts(nodes, next, b, path[0]);
      assert !IsLeaf(nodes, path[0]) by {
        if |path| > 1 {
          assert e(path[0]);
        }
      }
      assert Ancestry(nodes, path[0]) == Ancestry(nodes, b) + [path[0]];
      while i < |path| - 1
        invariant 0 <= i < |path|
        invariant IsBranch(nodes, path[i]) && Ancestry(nodes, path[i]) != []
        invariant Ancestry(nodes, path[i])[0] == Ancestry(nodes, b)[0]
      {
        assert e(path[i]) && path[i + 1] in Kids(nodes, path[i]);
        KidFacts(nodes, next, path[i], path[i + 1]);
        assert !IsLeaf(nodes, path[i + 1]) by {
          if i + 1 < |path| - 1 {
            assert e(path[i + 1]);
          }
        }
        assert Ancestry(nodes, path[i + 1]) == Ancestry(nodes, path[i]) + [path[i + 1]];
        i := i + 1;
      }
      TopOfIsFirst(nodes, next, p);
    }
  }

  /**
   * Cache invalidation: when a leaf the walk from a branch `b` may meet is shown, hidden,
   * added with `updated` or deleted, `b` is among the branches setUpdated flags for the
   * leaf's parents, so `b` recomputes on its next getAccumulatedValues. `b` must still hang
   * from its root: a deleted branch is out of setUpdated's reach.
   */
  lemma FedLeafDirties<V, A>(nodes: Nodes<V, A>, next: NodeId, b: NodeId, p: NodeId, l: NodeId)
    requires Wf(nodes, next) && IsBranch(nodes, b) && InSubtree(nodes, TopOf(nodes, b), b)
    requires Feeds(nodes, b, p) && IsLeaf(nodes, l) && l in Kids(nodes, p)
    ensures b in LeafDirty(nodes, l)
    ensures MarkUpdated(nodes, LeafDirty(nodes, l))[b].updated
  {
    FeedsSameTop(nodes, next, b, p);
    KidFacts(nodes, next, p, l);
    DirtySetIsSubtree(nodes, next, p, b);
  }
}
