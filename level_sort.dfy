/**
 * The level-by-level sort: starting from a node, its children are sorted by the first
 * comparator, then each of them (in the new order) has its children sorted by the second,
 * and so on, one comparator per level, until the comparators run out or a leaf is met.
 * `LevelSort` is that computation on the arena; the lemmas below say which lists it
 * reorders, by which comparator, and that it changes nothing else.
 */
module LevelSorting {
  import opened Sequences
  import opened StableSort
  import opened TreeNodes
  import opened Paths
  import opened Structure
  import opened Arena

  type Comparator<!V> = (Item<V>, Item<V>) -> int

  /**
   * sort(x, comparators, i): when comparator `i` exists and `x` is not a leaf, the children
   * of `x` are sorted by it and each child, in the new order, is sorted from level `i + 1`.
   */
  function LevelSort<V, A>(nodes: Nodes<V, A>, bound: NodeId, x: NodeId, cmps: seq<Comparator<V>>, i: nat)
    : (r: Nodes<V, A>)
    ensures r.Keys == nodes.Keys
    decreases bound - x, 1
  {
    if i < |cmps| && x in nodes && !nodes[x].Leaf? then
      SortEach(SortTop(nodes, x, cmps[i]), bound, x, SortedKids(nodes, x, cmps[i]), cmps, i + 1)
    else nodes
  }

  lemma LevelSortUnfold<V, A>(nodes: Nodes<V, A>, bound: NodeId, x: NodeId, cmps: seq<Comparator<V>>, i: nat)
    requires i < |cmps| && x in nodes && !nodes[x].Leaf?
    ensures LevelSort(nodes, bound, x, cmps, i)
         == SortEach(SortTop(nodes, x, cmps[i]), bound, x, SortedKids(nodes, x, cmps[i]), cmps, i + 1)
  {
  }

  /** The children of `x` ordered by what `cmp` sees of them. */
  function SortedKids<V, A>(nodes: Nodes<V, A>, x: NodeId, cmp: Comparator<V>): seq<NodeId> {
    Sort(Kids(nodes, x), ByItem(nodes, cmp))
  }

  /** treeNode.sort(cmp): the children list of `x` replaced by its sorted version. */
  function SortTop<V, A>(nodes: Nodes<V, A>, x: NodeId, cmp: Comparator<V>): Nodes<V, A>
    requires x in nodes
  {
    nodes[x := WithChildren(nodes[x], SortedKids(nodes, x, cmp))]
  }

  /** The children `cs` of `x`, each sorted from level `i` in turn. */
  function SortEach<V, A>(nodes: Nodes<V, A>, bound: NodeId, x: NodeId, cs: seq<NodeId>,
                          cmps: seq<Comparator<V>>, i: nat): (r: Nodes<V, A>)
    ensures r.Keys == nodes.Keys
    decreases bound - x, 0, |cs|
  {
    if cs == [] then nodes
    else
      SortEach(if x < cs[0] < bound then LevelSort(nodes, bound, cs[0], cmps, i) else nodes,
               bound, x, cs[1..], cmps, i)
  }

  /** `m` is `n` with, at most, some children lists put in another order. */
  ghost predicate Reordered<V, A>(n: Nodes<V, A>, m: Nodes<V, A>) {
    && m.Keys == n.Keys
    && forall y :: y in n ==>
         m[y] == WithChildren(n[y], Kids(m, y)) && multiset(Kids(m, y)) == multiset(Kids(n, y))
  }

  /** Nothing beneath `c` in `n0` has changed in `m`. */
  ghost predicate Untouched<V, A>(n0: Nodes<V, A>, m: Nodes<V, A>, c: NodeId) {
    forall z, e: nat :: z in n0 && Depth(n0, c, z, e) ==> z in m && m[z] == n0[z]
  }

  /** `cs` lists children of `x` without repeats, and `c` among them. */
  ghost predicate SiblingList<V, A>(n0: Nodes<V, A>, x: NodeId, cs: seq<NodeId>, c: NodeId) {
    NoDup(cs) && c in cs && forall c' :: c' in cs ==> c' in Kids(n0, x)
  }

  /** `y` lies `d` levels beneath `x`: `x` itself at depth 0, its children at depth 1, and so on. */
  ghost predicate Depth<V, A>(nodes: Nodes<V, A>, x: NodeId, y: NodeId, d: nat) {
    if d == 0 then y == x
    else exists p :: IsPath(nodes, Always(), p) && |p| == d && p[0] in Kids(nodes, x) && p[|p| - 1] == y
  }

  lemma ReorderedRefl<V, A>(n: Nodes<V, A>)
    ensures Reordered(n, n)
  {
    forall y | y in n ensures n[y] == WithChildren(n[y], Kids(n, y)) {
      match n[y]
      case Root(_, _, _, _) =>
      case Branch(_, _, _, _, _, _) =>
      case Leaf(_, _, _, _) =>
    }
  }

  lemma WithChildrenTwice<V, A>(n: Node<V, A>, a: seq<NodeId>, b: seq<NodeId>)
    ensures WithChildren(WithChildren(n, a), b) == WithChildren(n, b)
  {
  }

  lemma ReorderedTrans<V, A>(a: Nodes<V, A>, b: Nodes<V, A>, c: Nodes<V, A>)
    requires Reordered(a, b) && Reordered(b, c)
    ensures Reordered(a, c)
  {
    forall y | y in a ensures c[y] == WithChildren(a[y], Kids(c, y)) {
      WithChildrenTwice(a[y], Kids(b, y), Kids(c, y));
    }
  }

  /** Replacing one children list by a permutation of it. */
  lemma ReorderedStep<V, A>(n: Nodes<V, A>, x: NodeId, s: seq<NodeId>)
    requires x in n && !n[x].Leaf? && multiset(s) == multiset(Kids(n, x))
    ensures Reordered(n, n[x := WithChildren(n[x], s)])
  {
    var m := n[x := WithChildren(n[x], s)];
    assert Kids(m, x) == s;
    forall y | y in n && y != x ensures m[y] == WithChildren(n[y], Kids(m, y)) {
      ReorderedRefl(n);
    }
    WithChildrenTwice(n[x], s, s);
  }

  /** Reordering keeps what comparators see of every node. */
  lemma ReorderedItems<V, A>(n: Nodes<V, A>, m: Nodes<V, A>, cmp: Comparator<V>)
    requires Reordered(n, m)
    ensures forall a, b :: ByItem(m, cmp)(a, b) == ByItem(n, cmp)(a, b)
  {
    forall z ensures ItemAt(m, z) == ItemAt(n, z) {
      if z in n {
        match n[z]
        case Root(_, _, _, _) =>
        case Branch(_, _, _, _, _, _) =>
        case Leaf(_, _, _, _) =>
      }
    }
  }

  /** Reordering keeps who is whose child, and so every path. */
  lemma ReorderedPath<V, A>(n: Nodes<V, A>, m: Nodes<V, A>, p: seq<NodeId>)
    requires Reordered(n, m)
    ensures IsPath(n, Always(), p) <==> IsPath(m, Always(), p)
  {
    forall y, c ensures c in Kids(n, y) <==> c in Kids(m, y) {
      if y in n {
        assert multiset(Kids(n, y))[c] == multiset(Kids(m, y))[c];
      }
    }
  }

  lemma ReorderedDepth<V, A>(n: Nodes<V, A>, m: Nodes<V, A>, x: NodeId, y: NodeId)
    requires Reordered(n, m)
    ensures forall d: nat :: Depth(n, x, y, d) <==> Depth(m, x, y, d)
  {
    forall y', c ensures c in Kids(n, y') <==> c in Kids(m, y') {
      if y' in n {
        assert multiset(Kids(n, y'))[c] == multiset(Kids(m, y'))[c];
      }
    }
    forall d: nat | d > 0 ensures Depth(n, x, y, d) <==> Depth(m, x, y, d) {
      if Depth(n, x, y, d) {
        var p :| IsPath(n, Always(), p) && |p| == d && p[0] in Kids(n, x) && p[|p| - 1] == y;
        ReorderedPath(n, m, p);
      }
      if Depth(m, x, y, d) {
        var p :| IsPath(m, Always(), p) && |p| == d && p[0] in Kids(m, x) && p[|p| - 1] == y;
        ReorderedPath(n, m, p);
      }
    }
  }

  /** A path from `c` down to `y`, `d` levels long, read as one from the parent of `c`. */
  lemma DepthPath<V, A>(nodes: Nodes<V, A>, c: NodeId, y: NodeId, d: nat) returns (q: seq<NodeId>)
    requires Depth(nodes, c, y, d)
    ensures IsPath(nodes, Always(), q) && |q| == d + 1 && q[0] == c && q[|q| - 1] == y
  {
    if d == 0 {
      q := [c];
    } else {
      var p :| IsPath(nodes, Always(), p) && |p| == d && p[0] in Kids(nodes, c) && p[|p| - 1] == y;
      q := [c] + p;
      forall k | 0 <= k < |q| - 1 ensures q[k + 1] in Kids(nodes, q[k]) {
        if k > 0 {
          assert q[k] == p[k - 1] && q[k + 1] == p[k];
        }
      }
    }
  }

  lemma DepthKid<V, A>(nodes: Nodes<V, A>, x: NodeId, c: NodeId, y: NodeId, d: nat)
    requires c in Kids(nodes, x) && Depth(nodes, c, y, d)
    ensures Depth(nodes, x, y, d + 1)
  {
    var q := DepthPath(nodes, c, y, d);
  }

  /** The first step down from `x` towards a node `d > 0` levels beneath it. */
  lemma DepthFirst<V, A>(nodes: Nodes<V, A>, x: NodeId, y: NodeId, d: nat) returns (c: NodeId)
    requires d > 0 && Depth(nodes, x, y, d)
    ensures c in Kids(nodes, x) && Depth(nodes, c, y, d - 1)
  {
    var p :| IsPath(nodes, Always(), p) && |p| == d && p[0] in Kids(nodes, x) && p[|p| - 1] == y;
    c := p[0];
    if d > 1 {
      var t := p[1..];
      forall k | 0 <= k < |t| - 1 ensures t[k + 1] in Kids(nodes, t[k]) {
        assert t[k] == p[k + 1] && t[k + 1] == p[k + 2];
      }
      assert IsPath(nodes, Always(), t) && t[0] in Kids(nodes, c);
    }
  }

  /** Beneath a node lie only nodes of larger ids. */
  lemma DepthAbove<V, A>(nodes: Nodes<V, A>, bound: NodeId, x: NodeId, y: NodeId, d: nat)
    requires Wf(nodes, bound) && x in nodes && d > 0 && Depth(nodes, x, y, d)
    ensures x < y
  {
    var p :| IsPath(nodes, Always(), p) && |p| == d && p[0] in Kids(nodes, x) && p[|p| - 1] == y;
    PathAboveAt(nodes, bound, Always(), x, p, |p| - 1);
  }

  /** Each axis is a tree: no node lies beneath two different children of one node. */
  lemma DepthApart<V, A>(nodes: Nodes<V, A>, bound: NodeId, x: NodeId, c1: NodeId, c2: NodeId,
                         y: NodeId, d1: nat, d2: nat)
    requires Wf(nodes, bound) && x in nodes && c1 in Kids(nodes, x) && c2 in Kids(nodes, x)
    requires Depth(nodes, c1, y, d1) && Depth(nodes, c2, y, d2)
    ensures c1 == c2
  {
    var q1 := DepthPath(nodes, c1, y, d1);
    var q2 := DepthPath(nodes, c2, y, d2);
    PathUnique(nodes, bound, Always(), Always(), x, q1, q2);
  }

  lemma {:induction false} LevelSortReorders<V, A>(m: Nodes<V, A>, bound: NodeId, x: NodeId,
                                                   cmps: seq<Comparator<V>>, i: nat)
    ensures Reordered(m, LevelSort(m, bound, x, cmps, i))
    decreases bound - x, 1
  {
    if i < |cmps| && x in m && !m[x].Leaf? {
      var s := SortedKids(m, x, cmps[i]);
      var mA := SortTop(m, x, cmps[i]);
      ReorderedStep(m, x, s);
      SortEachReorders(mA, bound, x, s, cmps, i + 1);
      ReorderedTrans(m, mA, SortEach(mA, bound, x, s, cmps, i + 1));
    } else {
      ReorderedRefl(m);
    }
  }

  lemma {:induction false} SortEachReorders<V, A>(m: Nodes<V, A>, bound: NodeId, x: NodeId, cs: seq<NodeId>,
                                                  cmps: seq<Comparator<V>>, i: nat)
    ensures Reordered(m, SortEach(m, bound, x, cs, cmps, i))
    decreases bound - x, 0, |cs|
  {
    if cs == [] {
      ReorderedRefl(m);
    } else {
      var m1 := if x < cs[0] < bound then LevelSort(m, bound, cs[0], cmps, i) else m;
      if x < cs[0] < bound {
        LevelSortReorders(m, bound, cs[0], cmps, i);
      } else {
        ReorderedRefl(m);
      }
      SortEachReorders(m1, bound, x, cs[1..], cmps, i);
      ReorderedTrans(m, m1, SortEach(m1, bound, x, cs[1..], cmps, i));
    }
  }

  /** Sorting from `x` leaves every node of a smaller id as it was. */
  lemma {:induction false} LevelSortAbove<V, A>(m: Nodes<V, A>, bound: NodeId, x: NodeId,
                                                cmps: seq<Comparator<V>>, i: nat, y: NodeId)
    requires y in m && y < x
    ensures LevelSort(m, bound, x, cmps, i)[y] == m[y]
    decreases bound - x, 1
  {
    if i < |cmps| && x in m && !m[x].Leaf? {
      SortEachAbove(SortTop(m, x, cmps[i]), bound, x, SortedKids(m, x, cmps[i]), cmps, i + 1, y);
    }
  }

  lemma {:induction false} SortEachAbove<V, A>(m: Nodes<V, A>, bound: NodeId, x: NodeId, cs: seq<NodeId>,
                                               cmps: seq<Comparator<V>>, i: nat, y: NodeId)
    requires y in m && y <= x
    ensures SortEach(m, bound, x, cs, cmps, i)[y] == m[y]
    decreases bound - x, 0, |cs|
  {
    if cs != [] {
      var m1 := if x < cs[0] < bound then LevelSort(m, bound, cs[0], cmps, i) else m;
      if x < cs[0] < bound {
        LevelSortAbove(m, bound, cs[0], cmps, i, y);
      }
      SortEachAbove(m1, bound, x, cs[1..], cmps, i, y);
    }
  }

  /**
   * Nothing else changes: a node that lies at no depth beneath `x` for which a comparator
   * is left keeps its children list (and everything else) as it was.
   */
  lemma {:induction false} LevelSortKeeps<V, A>(m: Nodes<V, A>, bound: NodeId, x: NodeId,
                                                cmps: seq<Comparator<V>>, i: nat, z: NodeId)
    requires z in m
    requires forall d: nat :: Depth(m, x, z, d) ==> i + d >= |cmps|
    ensures LevelSort(m, bound, x, cmps, i)[z] == m[z]
    decreases bound - x, 1
  {
    if i < |cmps| && x in m && !m[x].Leaf? {
      assert Depth(m, x, z, 0) == (z == x);
      KeepsReady(m, x, cmps[i], z, i, |cmps|);
      SortEachKeeps(SortTop(m, x, cmps[i]), bound, x, SortedKids(m, x, cmps[i]), cmps, i + 1, z);
    }
  }

  lemma KeepsReady<V, A>(m: Nodes<V, A>, x: NodeId, cmp: Comparator<V>, z: NodeId, i: nat, n: nat)
    requires x in m && !m[x].Leaf? && z in m && z != x
    requires forall d: nat :: Depth(m, x, z, d) ==> i + d >= n
    ensures SortTop(m, x, cmp)[z] == m[z]
    ensures forall c, d: nat :: c in SortedKids(m, x, cmp) && Depth(SortTop(m, x, cmp), c, z, d) ==> i + 1 + d >= n
  {
    var s := SortedKids(m, x, cmp);
    var mA := SortTop(m, x, cmp);
    ReorderedStep(m, x, s);
    forall c, d: nat | c in s && Depth(mA, c, z, d) ensures i + 1 + d >= n {
      ReorderedDepth(m, mA, c, z);
      assert multiset(s)[c] > 0;
      DepthKid(m, x, c, z, d);
    }
  }

  lemma {:induction false} SortEachKeeps<V, A>(m: Nodes<V, A>, bound: NodeId, x: NodeId, cs: seq<NodeId>,
                                               cmps: seq<Comparator<V>>, i: nat, z: NodeId)
    requires z in m
    requires forall c, d: nat :: c in cs && Depth(m, c, z, d) ==> i + d >= |cmps|
    ensures SortEach(m, bound, x, cs, cmps, i)[z] == m[z]
    decreases bound - x, 0, |cs|
  {
    if cs != [] {
      var m1 := if x < cs[0] < bound then LevelSort(m, bound, cs[0], cmps, i) else m;
      if x < cs[0] < bound {
        LevelSortKeeps(m, bound, cs[0], cmps, i, z);
        LevelSortReorders(m, bound, cs[0], cmps, i);
        forall c | c in cs[1..] {
          ReorderedDepth(m, m1, c, z);
        }
      }
      SortEachKeeps(m1, bound, x, cs[1..], cmps, i, z);
    }
  }

  /**
   * Each level is sorted by its own comparator: a non-leaf `y` that lies `d` levels beneath
   * `x` ends up with its children sorted by comparator `i + d`, when there is one. This is
   * stated for any state `m` that only reorders lists of `n0` and has not yet touched the
   * part of `n0` beneath `x`.
   */
  lemma {:induction false} LevelSortDeep<V, A>(n0: Nodes<V, A>, m: Nodes<V, A>, bound: NodeId, x: NodeId,
                                               cmps: seq<Comparator<V>>, i: nat, y: NodeId, d: nat, k: nat)
    requires Wf(n0, bound) && x in n0 && Reordered(n0, m)
    requires Untouched(n0, m, x)
    requires Depth(n0, x, y, d) && y in n0 && !n0[y].Leaf? && k == i + d && k < |cmps|
    ensures Kids(LevelSort(m, bound, x, cmps, i), y) == SortedKids(n0, y, cmps[k])
    decreases d, 3
  {
    assert d == 0 ==> cmps[k] == cmps[i];
    assert Depth(n0, x, x, 0);
    if d == 0 {
      LevelSortTop(n0, m, bound, x, cmps, i);
    } else {
      LevelSortBelow(n0, m, bound, x, cmps, i, y, d, k);
    }
  }

  lemma {:induction false} LevelSortBelow<V, A>(n0: Nodes<V, A>, m: Nodes<V, A>, bound: NodeId, x: NodeId,
                                                cmps: seq<Comparator<V>>, i: nat, y: NodeId, d: nat, k: nat)
    requires Wf(n0, bound) && x in n0 && Reordered(n0, m) && m[x] == n0[x]
    requires Untouched(n0, m, x)
    requires d > 0 && Depth(n0, x, y, d) && y in n0 && !n0[y].Leaf? && k == i + d && k < |cmps|
    ensures Kids(LevelSort(m, bound, x, cmps, i), y) == SortedKids(n0, y, cmps[k])
    decreases d, 2
  {
    var d1 := d - 1;
    assert k == i + 1 + d1 && d1 + 1 == d;
    var c := DepthFirst(n0, x, y, d);
    LevelSortUnfold(m, bound, x, cmps, i);
    LevelSortFrom(n0, m, SortTop(m, x, cmps[i]), SortedKids(m, x, cmps[i]), bound, x, cmps, i, c, y, d1, k);
  }

  /** The step beneath the top: sorting `x`'s list leaves the part beneath its child `c` untouched. */
  lemma {:induction false} LevelSortFrom<V, A>(n0: Nodes<V, A>, m: Nodes<V, A>, mA: Nodes<V, A>, s: seq<NodeId>,
                                               bound: NodeId, x: NodeId, cmps: seq<Comparator<V>>, i: nat,
                                               c: NodeId, y: NodeId, d: nat, k: nat)
    requires Wf(n0, bound) && x in n0 && !n0[x].Leaf? && Reordered(n0, m) && m[x] == n0[x]
    requires Untouched(n0, m, x) && i < |cmps| && mA == SortTop(m, x, cmps[i]) && s == SortedKids(m, x, cmps[i])
    requires c in Kids(n0, x) && Depth(n0, c, y, d) && y in n0 && !n0[y].Leaf?
    requires k == i + 1 + d && k < |cmps|
    ensures Kids(SortEach(mA, bound, x, s, cmps, i + 1), y) == SortedKids(n0, y, cmps[k])
    decreases d + 1, 1
  {
    DescendReady(n0, m, bound, x, cmps[i], c);
    SortEachDeep(n0, mA, bound, x, s, cmps, i + 1, c, y, d, k);
  }

  /** Sorting the top list of a state that has not touched `x` sorts it as in `n0`. */
  /** The list at the start is sorted by the first comparator and left so by the rest of the walk. */
  lemma LevelSortTop<V, A>(n0: Nodes<V, A>, m: Nodes<V, A>, bound: NodeId, x: NodeId, cmps: seq<Comparator<V>>, i: nat)
    requires x in n0 && !n0[x].Leaf? && Reordered(n0, m) && m[x] == n0[x] && i < |cmps|
    ensures Kids(LevelSort(m, bound, x, cmps, i), x) == SortedKids(n0, x, cmps[i])
  {
    LevelSortUnfold(m, bound, x, cmps, i);
    TopReady(n0, m, x, cmps[i]);
    SortEachAbove(SortTop(m, x, cmps[i]), bound, x, SortedKids(m, x, cmps[i]), cmps, i + 1, x);
  }

  lemma TopReady<V, A>(n0: Nodes<V, A>, m: Nodes<V, A>, x: NodeId, cmp: Comparator<V>)
    requires x in n0 && !n0[x].Leaf? && Reordered(n0, m) && m[x] == n0[x]
    ensures SortedKids(m, x, cmp) == SortedKids(n0, x, cmp)
    ensures Kids(SortTop(m, x, cmp), x) == SortedKids(n0, x, cmp)
  {
    ReorderedItems(n0, m, cmp);
    SortCongruent(Kids(n0, x), ByItem(m, cmp), ByItem(n0, cmp));
  }

  /** After the top list is sorted, the part beneath a child `c` is still untouched. */
  lemma DescendReady<V, A>(n0: Nodes<V, A>, m: Nodes<V, A>, bound: NodeId, x: NodeId, cmp: Comparator<V>, c: NodeId)
    requires Wf(n0, bound) && x in n0 && !n0[x].Leaf? && Reordered(n0, m) && m[x] == n0[x]
    requires c in Kids(n0, x)
    requires Untouched(n0, m, x)
    ensures Reordered(n0, SortTop(m, x, cmp))
    ensures SiblingList(n0, x, SortedKids(m, x, cmp), c)
    ensures Untouched(n0, SortTop(m, x, cmp), c)
  {
    var s := SortedKids(m, x, cmp);
    var mA := SortTop(m, x, cmp);
    ReorderedStep(m, x, s);
    ReorderedTrans(n0, m, mA);
    assert NodeOk(n0, x);
    NoDupPermutation(Kids(n0, x), s);
    forall z, e: nat | z in n0 && Depth(n0, c, z, e) ensures mA[z] == n0[z] {
      DepthKid(n0, x, c, z, e);
      DepthAbove(n0, bound, x, z, e + 1);
    }
    forall c' | c' in s ensures c' in Kids(n0, x) {
      assert c' in multiset(s);
    }
    assert c in multiset(Kids(m, x));
  }

  lemma {:induction false} SortEachDeep<V, A>(n0: Nodes<V, A>, m: Nodes<V, A>, bound: NodeId, x: NodeId,
                                              cs: seq<NodeId>, cmps: seq<Comparator<V>>, i: nat,
                                              c: NodeId, y: NodeId, d: nat, k: nat)
    requires k == i + d
    requires Wf(n0, bound) && x in n0 && Reordered(n0, m)
    requires SiblingList(n0, x, cs, c)
    requires Untouched(n0, m, c)
    requires Depth(n0, c, y, d) && y in n0 && !n0[y].Leaf? && i + d < |cmps|
    ensures Kids(SortEach(m, bound, x, cs, cmps, i), y) == SortedKids(n0, y, cmps[k])
    decreases d + 1, 0, |cs|, 1
  {
    if cs[0] == c {
      SortEachHere(n0, m, bound, x, cs, cmps, i, c, y, d, k);
    } else {
      SortEachLater(n0, m, bound, x, cs, cmps, i, c, y, d, k);
    }
  }

  /** `c` comes first: it is sorted now, and its later siblings leave it alone. */
  lemma {:induction false} SortEachHere<V, A>(n0: Nodes<V, A>, m: Nodes<V, A>, bound: NodeId, x: NodeId,
                                              cs: seq<NodeId>, cmps: seq<Comparator<V>>, i: nat,
                                              c: NodeId, y: NodeId, d: nat, k: nat)
    requires k == i + d
    requires Wf(n0, bound) && x in n0 && Reordered(n0, m)
    requires NoDup(cs) && cs != [] && cs[0] == c && forall c' :: c' in cs ==> c' in Kids(n0, x)
    requires Untouched(n0, m, c)
    requires Depth(n0, c, y, d) && y in n0 && !n0[y].Leaf? && i + d < |cmps|
    ensures Kids(SortEach(m, bound, x, cs, cmps, i), y) == SortedKids(n0, y, cmps[k])
    decreases d + 1, 0, |cs|, 0
  {
    KidFacts(n0, bound, x, c);
    var m1 := LevelSort(m, bound, c, cmps, i);
    SortEachUnfold(m, bound, x, cs, cmps, i);
    LevelSortReorders(m, bound, c, cmps, i);
    ReorderedTrans(n0, m, m1);
    NoDupTail(cs);
    LevelSortDeep(n0, m, bound, c, cmps, i, y, d, k);
    SiblingsSpare(n0, m1, bound, x, cs, cmps, i, y, d);
  }

  /** `c` comes later: the sibling sorted now leaves it alone. */
  lemma {:induction false} SortEachLater<V, A>(n0: Nodes<V, A>, m: Nodes<V, A>, bound: NodeId, x: NodeId,
                                               cs: seq<NodeId>, cmps: seq<Comparator<V>>, i: nat,
                                               c: NodeId, y: NodeId, d: nat, k: nat)
    requires k == i + d
    requires Wf(n0, bound) && x in n0 && Reordered(n0, m)
    requires NoDup(cs) && c in cs && cs[0] != c && forall c' :: c' in cs ==> c' in Kids(n0, x)
    requires Untouched(n0, m, c)
    requires Depth(n0, c, y, d) && y in n0 && !n0[y].Leaf? && i + d < |cmps|
    ensures Kids(SortEach(m, bound, x, cs, cmps, i), y) == SortedKids(n0, y, cmps[k])
    decreases d + 1, 0, |cs|, 0
  {
    var c0 := cs[0];
    KidFacts(n0, bound, x, c0);
    var m1 := LevelSort(m, bound, c0, cmps, i);
    SortEachUnfold(m, bound, x, cs, cmps, i);
    LevelSortReorders(m, bound, c0, cmps, i);
    ReorderedTrans(n0, m, m1);
    NoDupTail(cs);
    assert c in cs[1..];
    SiblingSpares(n0, m, bound, x, c0, c, cmps, i);
    SortEachDeep(n0, m1, bound, x, cs[1..], cmps, i, c, y, d, k);
  }

  lemma SortEachUnfold<V, A>(nodes: Nodes<V, A>, bound: NodeId, x: NodeId, cs: seq<NodeId>,
                             cmps: seq<Comparator<V>>, i: nat)
    requires cs != [] && x < cs[0] < bound
    ensures SortEach(nodes, bound, x, cs, cmps, i)
         == SortEach(LevelSort(nodes, bound, cs[0], cmps, i), bound, x, cs[1..], cmps, i)
  {
  }

  /** One step of the walk over the children, from position `j`. */
  lemma SortEachStep<V, A>(nodes: Nodes<V, A>, bound: NodeId, x: NodeId, cs: seq<NodeId>, j: nat, k: nat,
                           cmps: seq<Comparator<V>>, i: nat)
    requires j < |cs| && k == j + 1 && x < cs[j] < bound
    ensures SortEach(nodes, bound, x, cs[j..], cmps, i)
         == SortEach(LevelSort(nodes, bound, cs[j], cmps, i), bound, x, cs[k..], cmps, i)
  {
    assert cs[j..][0] == cs[j] && cs[j..][1..] == cs[k..];
  }

  lemma NoDupTail<T>(s: seq<T>)
    requires NoDup(s) && s != []
    ensures NoDup(s[1..]) && s[0] !in s[1..]
  {
    forall a, b | 0 <= a < b < |s[1..]| ensures s[1..][a] != s[1..][b] {
      assert s[1..][a] == s[a + 1] && s[1..][b] == s[b + 1];
    }
    forall a | 0 <= a < |s[1..]| ensures s[1..][a] != s[0] {
      assert s[1..][a] == s[a + 1];
    }
  }

  /** The siblings sorted after `cs[0]` leave alone what lies beneath `cs[0]`. */
  lemma SiblingsSpare<V, A>(n0: Nodes<V, A>, m1: Nodes<V, A>, bound: NodeId, x: NodeId, cs: seq<NodeId>,
                            cmps: seq<Comparator<V>>, i: nat, y: NodeId, d: nat)
    requires Wf(n0, bound) && x in n0 && Reordered(n0, m1)
    requires cs != [] && cs[0] !in cs[1..] && forall c' :: c' in cs ==> c' in Kids(n0, x)
    requires Depth(n0, cs[0], y, d) && y in n0
    ensures Kids(SortEach(m1, bound, x, cs[1..], cmps, i), y) == Kids(m1, y)
  {
    forall c', e: nat | c' in cs[1..] ensures !Depth(m1, c', y, e) {
      ReorderedDepth(n0, m1, c', y);
      if Depth(n0, c', y, e) {
        DepthApart(n0, bound, x, cs[0], c', y, d, e);
        assert false;
      }
    }
    SortEachKeeps(m1, bound, x, cs[1..], cmps, i, y);
    SortEachReorders(m1, bound, x, cs[1..], cmps, i);
  }

  /** Sorting from a sibling `c0` leaves alone what lies beneath `c`. */
  lemma SiblingSpares<V, A>(n0: Nodes<V, A>, m: Nodes<V, A>, bound: NodeId, x: NodeId, c0: NodeId, c: NodeId,
                            cmps: seq<Comparator<V>>, i: nat)
    requires Wf(n0, bound) && x in n0 && Reordered(n0, m)
    requires c0 in Kids(n0, x) && c in Kids(n0, x) && c0 != c
    requires Untouched(n0, m, c)
    ensures Untouched(n0, LevelSort(m, bound, c0, cmps, i), c)
  {
    forall z, e: nat | z in n0 && Depth(n0, c, z, e) ensures LevelSort(m, bound, c0, cmps, i)[z] == n0[z] {
      ReorderedDepth(n0, m, c0, z);
      forall e': nat ensures !Depth(m, c0, z, e') {
        if Depth(n0, c0, z, e') {
          DepthApart(n0, bound, x, c, c0, z, e, e');
          assert false;
        }
      }
      LevelSortKeeps(m, bound, c0, cmps, i, z);
    }
  }

  /**
   * What the level sort promises: a branch `y` that lies `d` levels beneath the start `x`
   * has its children sorted by comparator `i + d`, exactly as the one-list sort would sort
   * them in the tree as it was before.
   */
  lemma LevelSortSortsLevels<V, A>(nodes: Nodes<V, A>, bound: NodeId, x: NodeId,
                                   cmps: seq<Comparator<V>>, i: nat, y: NodeId, d: nat)
    requires Wf(nodes, bound) && x in nodes && y in nodes && !nodes[y].Leaf?
    requires Depth(nodes, x, y, d) && i + d < |cmps|
    ensures Kids(LevelSort(nodes, bound, x, cmps, i), y) == SortedKids(nodes, y, cmps[i + d])
  {
    ReorderedRefl(nodes);
    LevelSortDeep(nodes, nodes, bound, x, cmps, i, y, d, i + d);
  }

  /**
   * With a comparator that obeys its contract, that level ends up in order, holds the same
   * children as before, and children the comparator cannot tell apart keep their order.
   * (The comparator sees only values and flags, which the sort leaves as they were.)
   */
  lemma LevelSortOrdersLevel<V(!new), A>(nodes: Nodes<V, A>, bound: NodeId, x: NodeId,
                                         cmps: seq<Comparator<V>>, i: nat, y: NodeId, d: nat, z: NodeId)
    requires Wf(nodes, bound) && x in nodes && y in nodes && !nodes[y].Leaf?
    requires Depth(nodes, x, y, d) && i + d < |cmps| && TotalPreorder(ItemLe(cmps[i + d]))
    ensures var r := LevelSort(nodes, bound, x, cmps, i);
      && Sorted(ByItem(nodes, cmps[i + d]), Kids(r, y))
      && multiset(Kids(r, y)) == multiset(Kids(nodes, y))
      && Filter(Kids(r, y), EquivTo(ByItem(nodes, cmps[i + d]), z))
         == Filter(Kids(nodes, y), EquivTo(ByItem(nodes, cmps[i + d]), z))
  {
    LevelSortSortsLevels(nodes, bound, x, cmps, i, y, d);
    SortedChildren(nodes, y, cmps[i + d], z);
  }

  /**
   * Nothing but children lists changes, each list only changes order, and a node the
   * comparators do not reach from `x` keeps its list as it was.
   */
  lemma LevelSortFrame<V, A>(nodes: Nodes<V, A>, bound: NodeId, x: NodeId,
                             cmps: seq<Comparator<V>>, i: nat, z: NodeId)
    requires z in nodes && forall d: nat :: Depth(nodes, x, z, d) ==> i + d >= |cmps|
    ensures Reordered(nodes, LevelSort(nodes, bound, x, cmps, i))
    ensures LevelSort(nodes, bound, x, cmps, i)[z] == nodes[z]
  {
    LevelSortReorders(nodes, bound, x, cmps, i);
    LevelSortKeeps(nodes, bound, x, cmps, i, z);
  }
}
