/**
 * Structural facts about a well-formed arena: what a children list may hold, that flags,
 * visibility and caches do not affect the structure, and that each axis is a tree, so a
 * path from a node's children down to any node is unique.
 */
module Structure {
  import opened Sequences
  import opened TreeNodes
  import opened Paths

  lemma KidFacts<V, A>(nodes: Nodes<V, A>, next: NodeId, x: NodeId, c: NodeId)
    requires Wf(nodes, next) && x in nodes && c in Kids(nodes, x)
    ensures c in nodes && x < c < next && !nodes[c].Root? && ParentLink(nodes, x, c)
    ensures nodes[c].Branch? ==> nodes[c].parent == x
    ensures nodes[c].Leaf? ==> x == nodes[c].parent1 || x == nodes[c].parent2
  {
    assert NodeOk(nodes, x);
  }

  /** A child of a node with leaf children is a leaf, and likewise for branches. */
  lemma KidKind<V, A>(nodes: Nodes<V, A>, next: NodeId, x: NodeId, c: NodeId)
    requires Wf(nodes, next) && x in nodes && c in Kids(nodes, x)
    ensures IsLeaf(nodes, c) <==> IsLeaf(nodes, Kids(nodes, x)[0])
    ensures IsBranch(nodes, c) <==> FirstChildIsBranch(nodes, x)
  {
    assert NodeOk(nodes, x);
    var i :| 0 <= i < |Kids(nodes, x)| && Kids(nodes, x)[i] == c;
    KidFacts(nodes, next, x, c);
    KidFacts(nodes, next, x, Kids(nodes, x)[0]);
  }

  lemma SameStructureKids<V, A>(a: Nodes<V, A>, b: Nodes<V, A>)
    requires SameStructure(a, b)
    ensures forall x :: Kids(a, x) == Kids(b, x)
    ensures forall x :: IsLeaf(a, x) == IsLeaf(b, x) && IsBranch(a, x) == IsBranch(b, x)
    ensures forall x :: IsRoot(a, x) == IsRoot(b, x) && ItemAt(a, x) == ItemAt(b, x)
  {
    forall x ensures Kids(a, x) == Kids(b, x) {
      if x in a {
        assert Strip(a[x]) == Strip(b[x]);
      }
    }
    forall x ensures IsLeaf(a, x) == IsLeaf(b, x) && IsBranch(a, x) == IsBranch(b, x)
      && IsRoot(a, x) == IsRoot(b, x) && ItemAt(a, x) == ItemAt(b, x)
    {
      if x in a {
        assert Strip(a[x]) == Strip(b[x]);
      }
    }
  }

  lemma {:induction false} SameStructureAxis<V, A>(a: Nodes<V, A>, b: Nodes<V, A>, x: NodeId)
    requires SameStructure(a, b)
    ensures Axis(a, x) == Axis(b, x) && Ancestry(a, x) == Ancestry(b, x)
    decreases x
  {
    if x in a {
      assert Strip(a[x]) == Strip(b[x]);
      if a[x].Branch? && a[x].parent < x {
        SameStructureAxis(a, b, a[x].parent);
      }
    }
  }

  lemma SameStructureChildrenOk<V, A>(a: Nodes<V, A>, b: Nodes<V, A>, x: NodeId, cs: seq<NodeId>)
    requires SameStructure(a, b) && ChildrenOk(a, x, cs)
    ensures ChildrenOk(b, x, cs)
  {
    SameStructureKids(a, b);
    forall c | c in cs ensures c in b && ParentLink(b, x, c) {
      assert Strip(a[c]) == Strip(b[c]);
    }
  }

  lemma SameStructureNodeOk<V, A>(a: Nodes<V, A>, b: Nodes<V, A>, x: NodeId)
    requires SameStructure(a, b) && x in a && NodeOk(a, x)
    ensures NodeOk(b, x)
  {
    assert Strip(a[x]) == Strip(b[x]);
    match b[x]
    case Root(_, cs, _, _) =>
      SameStructureChildrenOk(a, b, x, cs);
    case Branch(_, _, p, cs, _, _) =>
      assert Strip(a[p]) == Strip(b[p]);
      SameStructureChildrenOk(a, b, x, cs);
    case Leaf(_, _, p1, p2) =>
      SameStructureAxis(a, b, p1);
      SameStructureAxis(a, b, p2);
      assert Strip(a[p1]) == Strip(b[p1]) && Strip(a[p2]) == Strip(b[p2]);
  }

  /** Well-formedness does not look at flags, visibility or caches. */
  lemma SameStructureWf<V, A>(a: Nodes<V, A>, b: Nodes<V, A>, next: NodeId)
    requires Wf(a, next) && SameStructure(a, b)
    ensures Wf(b, next)
  {
    forall x | x in b ensures x < next && (b[x].Root? <==> x < 2) && NodeOk(b, x) {
      assert Strip(a[x]) == Strip(b[x]);
      SameStructureNodeOk(a, b, x);
    }
    assert Strip(a[RootNode1]) == Strip(b[RootNode1]);
    assert Strip(a[RootNode2]) == Strip(b[RootNode2]);
  }

  /** Changing the visibility of one node keeps the structure, hence well-formedness. */
  lemma WithVisibleWf<V, A>(nodes: Nodes<V, A>, next: NodeId, x: NodeId, v: bool)
    requires Wf(nodes, next) && x in nodes
    ensures SameStructure(nodes, nodes[x := WithVisible(nodes[x], v)])
    ensures Wf(nodes[x := WithVisible(nodes[x], v)], next)
  {
    var b := nodes[x := WithVisible(nodes[x], v)];
    assert Strip(nodes[x]) == Strip(b[x]);
    SameStructureWf(nodes, b, next);
  }

  lemma SameStructureTrans<V, A>(a: Nodes<V, A>, b: Nodes<V, A>, c: Nodes<V, A>)
    requires SameStructure(a, b) && SameStructure(b, c)
    ensures SameStructure(a, c)
  {
  }

  /** The parent of `x` inside the tree of axis `a`; a root is its own parent. */
  ghost function UpIn<V, A>(nodes: Nodes<V, A>, a: NodeId, x: NodeId): NodeId {
    if x in nodes then
      match nodes[x]
      case Root(_, _, _, _) => x
      case Branch(_, _, p, _, _, _) => p
      case Leaf(_, _, p1, p2) => if Axis(nodes, p1) == a then p1 else p2
    else x
  }

  /** `UpIn` applied `k` times. */
  ghost function UpIter<V, A>(nodes: Nodes<V, A>, a: NodeId, x: NodeId, k: nat): NodeId {
    if k == 0 then x else UpIn(nodes, a, UpIter(nodes, a, x, k - 1))
  }

  /** The parent of a child of `q`, in the axis of `q`, is `q`. */
  lemma UpOfKid<V, A>(nodes: Nodes<V, A>, next: NodeId, q: NodeId, c: NodeId)
    requires Wf(nodes, next) && q in nodes && c in Kids(nodes, q)
    ensures UpIn(nodes, Axis(nodes, q), c) == q
    ensures !nodes[c].Leaf? ==> Axis(nodes, c) == Axis(nodes, q)
  {
    KidFacts(nodes, next, q, c);
    if nodes[c].Leaf? {
      assert NodeOk(nodes, c);
      var p1, p2 := nodes[c].parent1, nodes[c].parent2;
      if q == p2 {
        assert Axis(nodes, p1) != Axis(nodes, q);
      }
    }
  }

  /** Every element of a path from the children of `s` lies above `s`'s id. */
  lemma PathAbove<V, A>(nodes: Nodes<V, A>, next: NodeId, e: NodeId -> bool, s: NodeId, p: seq<NodeId>)
    requires Wf(nodes, next) && s in nodes && IsPath(nodes, e, p) && p[0] in Kids(nodes, s)
    ensures forall i :: 0 <= i < |p| ==> s < p[i] && p[i] in nodes
  {
    KidFacts(nodes, next, s, p[0]);
    var i := 0;
    while i < |p| - 1
      invariant 0 <= i < |p|
      invariant forall j :: 0 <= j <= i ==> s < p[j] && p[j] in nodes
    {
      KidFacts(nodes, next, p[i], p[i + 1]);
      i := i + 1;
    }
  }

  /** Walking up from the end of a path retraces the path and then reaches `s`. */
  lemma PathUpIter<V, A>(nodes: Nodes<V, A>, next: NodeId, e: NodeId -> bool, s: NodeId, p: seq<NodeId>)
    requires Wf(nodes, next) && s in nodes && IsPath(nodes, e, p) && p[0] in Kids(nodes, s)
    ensures forall i :: 0 <= i < |p| ==> UpIter(nodes, Axis(nodes, s), p[|p| - 1], |p| - 1 - i) == p[i]
    ensures UpIter(nodes, Axis(nodes, s), p[|p| - 1], |p|) == s
  {
    var a := Axis(nodes, s);
    var n := |p|;
    // every element but the last is a branch of axis `a`, and the parent of the next one
    forall i | 0 <= i < n ensures UpIn(nodes, a, p[i]) == (if i == 0 then s else p[i - 1]) {
      AxisAlongPath(nodes, next, e, s, p, i);
    }
    var k := 0;
    while k < n
      invariant 0 <= k <= n
      invariant forall i :: n - 1 - k <= i < n && 0 <= i ==> UpIter(nodes, a, p[n - 1], n - 1 - i) == p[i]
    {
      if k + 1 < n {
        assert UpIter(nodes, a, p[n - 1], k + 1) == UpIn(nodes, a, p[n - 1 - k]);
      }
      k := k + 1;
    }
    assert UpIter(nodes, a, p[n - 1], n - 1) == p[0];
    AxisAlongPath(nodes, next, e, s, p, 0);
    assert UpIter(nodes, a, p[n - 1], n) == UpIn(nodes, a, p[0]);
  }

  lemma {:induction false} AxisAlongPath<V, A>(nodes: Nodes<V, A>, next: NodeId, e: NodeId -> bool, s: NodeId, p: seq<NodeId>, i: nat)
    requires Wf(nodes, next) && s in nodes && IsPath(nodes, e, p) && p[0] in Kids(nodes, s)
    requires i < |p|
    ensures p[i] in nodes
    ensures UpIn(nodes, Axis(nodes, s), p[i]) == (if i == 0 then s else p[i - 1])
    ensures !nodes[p[i]].Leaf? ==> Axis(nodes, p[i]) == Axis(nodes, s)
  {
    if i == 0 {
      UpOfKid(nodes, next, s, p[0]);
    } else {
      AxisAlongPath(nodes, next, e, s, p, i - 1);
      var q := p[i - 1];
      assert p[i] in Kids(nodes, q);
      assert !nodes[q].Leaf?;
      UpOfKid(nodes, next, q, p[i]);
    }
  }

  /**
   * Each axis is a tree: two paths from the children of `s` that end at the same node are
   * the same path.
   */
  lemma PathUnique<V, A>(nodes: Nodes<V, A>, next: NodeId, e1: NodeId -> bool, e2: NodeId -> bool,
                         s: NodeId, p1: seq<NodeId>, p2: seq<NodeId>)
    requires Wf(nodes, next) && s in nodes
    requires IsPath(nodes, e1, p1) && p1[0] in Kids(nodes, s)
    requires IsPath(nodes, e2, p2) && p2[0] in Kids(nodes, s)
    requires p1[|p1| - 1] == p2[|p2| - 1]
    ensures p1 == p2
  {
    if |p1| < |p2| {
      PathNotShorter(nodes, next, e1, e2, s, p1, p2);
    } else if |p2| < |p1| {
      PathNotShorter(nodes, next, e2, e1, s, p2, p1);
    }
    PathUpIter(nodes, next, e1, s, p1);
    PathUpIter(nodes, next, e2, s, p2);
    var a := Axis(nodes, s);
    var y := p1[|p1| - 1];
    forall i | 0 <= i < |p1| ensures p1[i] == p2[i] {
      assert UpIter(nodes, a, y, |p1| - 1 - i) == p1[i];
    }
  }

  lemma PathNotShorter<V, A>(nodes: Nodes<V, A>, next: NodeId, e1: NodeId -> bool, e2: NodeId -> bool,
                             s: NodeId, p1: seq<NodeId>, p2: seq<NodeId>)
    requires Wf(nodes, next) && s in nodes
    requires IsPath(nodes, e1, p1) && p1[0] in Kids(nodes, s)
    requires IsPath(nodes, e2, p2) && p2[0] in Kids(nodes, s)
    requires p1[|p1| - 1] == p2[|p2| - 1]
    ensures |p2| <= |p1|
  {
    if |p1| < |p2| {
      var i := |p2| - 1 - |p1|;
      PathUpIter(nodes, next, e1, s, p1);
      UpIterAt(nodes, next, e2, s, p2, i);
      PathAboveAt(nodes, next, e2, s, p2, i);
      assert false;
    }
  }

  lemma UpIterAt<V, A>(nodes: Nodes<V, A>, next: NodeId, e: NodeId -> bool, s: NodeId, p: seq<NodeId>, i: nat)
    requires Wf(nodes, next) && s in nodes && IsPath(nodes, e, p) && p[0] in Kids(nodes, s)
    requires i < |p|
    ensures UpIter(nodes, Axis(nodes, s), p[|p| - 1], |p| - 1 - i) == p[i]
  {
    PathUpIter(nodes, next, e, s, p);
  }

  lemma PathAboveAt<V, A>(nodes: Nodes<V, A>, next: NodeId, e: NodeId -> bool, s: NodeId, p: seq<NodeId>, i: nat)
    requires Wf(nodes, next) && s in nodes && IsPath(nodes, e, p) && p[0] in Kids(nodes, s)
    requires i < |p|
    ensures s < p[i]
  {
    PathAbove(nodes, next, e, s, p);
  }

  /**
   * If `y` lies beneath `x`, and a path from the children of `s` reaches both `x` and `y`
   * (`y` by `py`), then `py` passes through `x` before its end.
   */
  lemma ThroughAncestor<V, A>(nodes: Nodes<V, A>, next: NodeId, e: NodeId -> bool, f: NodeId -> bool,
                              s: NodeId, x: NodeId, y: NodeId, py: seq<NodeId>)
    requires Wf(nodes, next) && s in nodes
    requires Reach(nodes, f, Kids(nodes, s), x)
    requires Below(nodes, x, y)
    requires IsPath(nodes, e, py) && py[0] in Kids(nodes, s) && py[|py| - 1] == y
    ensures exists i :: 0 <= i < |py| - 1 && py[i] == x
  {
    var px :| IsPath(nodes, f, px) && px[0] in Kids(nodes, s) && px[|px| - 1] == x;
    var q :| IsPath(nodes, Always(), q) && q[0] in Kids(nodes, x) && q[|q| - 1] == y;
    var r := px + q;
    assert IsPath(nodes, Always(), r) by {
      forall i | 0 <= i < |r| - 1 ensures r[i + 1] in Kids(nodes, r[i]) {
        if i < |px| - 1 {
          assert r[i] == px[i] && r[i + 1] == px[i + 1];
        } else if i == |px| - 1 {
          assert r[i] == x && r[i + 1] == q[0];
        } else {
          assert r[i] == q[i - |px|] && r[i + 1] == q[i - |px| + 1];
        }
      }
    }
    assert r[0] == px[0];
    PathUnique(nodes, next, Always(), e, s, r, py);
    assert py[|px| - 1] == x;
  }

  /** Neither node is the other or lies beneath it. */
  ghost predicate Apart<V, A>(nodes: Nodes<V, A>, x: NodeId, y: NodeId) {
    x != y && !Below(nodes, x, y)
  }

  /** The part of a path after index `i` leads from the children of `p[i]` to its end. */
  lemma PathRestBelow<V, A>(nodes: Nodes<V, A>, e: NodeId -> bool, p: seq<NodeId>, i: nat)
    requires IsPath(nodes, e, p) && i < |p| - 1
    ensures Below(nodes, p[i], p[|p| - 1])
  {
    var r := p[i + 1..];
    forall k | 0 <= k < |r| - 1 ensures r[k + 1] in Kids(nodes, r[k]) {
      assert r[k] == p[i + 1 + k] && r[k + 1] == p[i + 2 + k];
    }
    assert IsPath(nodes, Always(), r) && r[0] in Kids(nodes, p[i]) && r[|r| - 1] == p[|p| - 1];
  }

  /** A path to an expanding node continues to each of its children. */
  lemma PathSnoc<V, A>(nodes: Nodes<V, A>, e: NodeId -> bool, p: seq<NodeId>, x: NodeId)
    requires IsPath(nodes, e, p) && e(p[|p| - 1]) && x in Kids(nodes, p[|p| - 1])
    ensures IsPath(nodes, e, p + [x])
  {
    var r := p + [x];
    forall i | 0 <= i < |r| - 1 ensures e(r[i]) && r[i + 1] in Kids(nodes, r[i]) {
      if i < |p| - 1 {
        assert r[i] == p[i] && r[i + 1] == p[i + 1];
      }
    }
  }

  /** Ids grow downwards: what lies beneath `a` has a larger id. */
  lemma BelowLarger<V, A>(nodes: Nodes<V, A>, bound: NodeId, a: NodeId, x: NodeId)
    requires Wf(nodes, bound) && Below(nodes, a, x)
    ensures a < x
  {
    var p :| IsPath(nodes, Always(), p) && p[0] in Kids(nodes, a) && p[|p| - 1] == x;
    PathAbove(nodes, bound, Always(), a, p);
  }

  /** A child of `c` is apart from every node not beneath `c`. */
  lemma KidApart<V, A>(nodes: Nodes<V, A>, c: NodeId, x: NodeId, y: NodeId)
    requires x in Kids(nodes, c) && !Below(nodes, c, y)
    ensures Apart(nodes, x, y)
  {
    ReachStart(nodes, Always(), Kids(nodes, c), x);
    if Below(nodes, x, y) {
      ReachThrough(nodes, Always(), Kids(nodes, c), x, y);
    }
  }

  /**
   * A node `y` a walk from the children of `b` reaches, apart from an expanded node `c`, is
   * not above a child of `c`: each axis is a tree, so the one path from `b` to that child
   * runs through `c`.
   */
  lemma KidNotBelow<V, A>(nodes: Nodes<V, A>, bound: NodeId, e: NodeId -> bool, b: NodeId, c: NodeId, y: NodeId, x: NodeId)
    requires Wf(nodes, bound) && b in nodes
    requires Reach(nodes, e, Kids(nodes, b), c) && e(c) && x in Kids(nodes, c)
    requires Reach(nodes, e, Kids(nodes, b), y) && Apart(nodes, y, c)
    ensures !Below(nodes, y, x)
  {
    if Below(nodes, y, x) {
      var pc :| IsPath(nodes, e, pc) && pc[0] in Kids(nodes, b) && pc[|pc| - 1] == c;
      AboveKidOnPath(nodes, bound, e, b, pc, x, y);
      assert false;
    }
  }

  /** A reached node above a child of the last node of a path is that node or above it. */
  lemma AboveKidOnPath<V, A>(nodes: Nodes<V, A>, bound: NodeId, e: NodeId -> bool, b: NodeId, pc: seq<NodeId>, x: NodeId, y: NodeId)
    requires Wf(nodes, bound) && b in nodes
    requires IsPath(nodes, e, pc) && pc[0] in Kids(nodes, b) && e(pc[|pc| - 1]) && x in Kids(nodes, pc[|pc| - 1])
    requires Reach(nodes, e, Kids(nodes, b), y) && Below(nodes, y, x)
    ensures y == pc[|pc| - 1] || Below(nodes, y, pc[|pc| - 1])
  {
    var px := pc + [x];
    PathSnoc(nodes, e, pc, x);
    ThroughAncestor(nodes, bound, e, e, b, y, x, px);
    var i :| 0 <= i < |px| - 1 && px[i] == y;
    assert pc[i] == y;
    if i < |pc| - 1 {
      PathRestBelow(nodes, e, pc, i);
    }
  }
}
