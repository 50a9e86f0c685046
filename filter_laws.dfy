/**
 * What the façade's filter promises, read off the arena it leaves behind: a rejected node
 * hides everything beneath it, and a branch stays visible exactly when it and every
 * ancestor on its axis pass the predicate.
 */
module FilterLaws {
  import opened TreeNodes
  import opened Paths
  import opened Structure
  import opened Searching
  import opened Filtering

  /** A rejected node that the filter judged is hidden, and so is everything beneath it. */
  lemma FilterHidesBeneath<V, A>(n0: Nodes<V, A>, keep: Item<V> -> bool, loc: Location, n1: Nodes<V, A>,
                                 x: NodeId, y: NodeId)
    requires Styled(n0, keep, FilterJudged(n0, keep, loc), FilterBuried(n0, keep, loc), n1)
    requires x in FilterJudged(n0, keep, loc) && !keep(ItemAt(n0, x))
    requires y in n0 && Below(n0, x, y)
    ensures x in n1 && !n1[x].visible
    ensures y in n1 && !n1[y].visible
  {
    var j, b := FilterJudged(n0, keep, loc), FilterBuried(n0, keep, loc);
    if x in FirstJudged(n0, keep, loc) {
      assert y in BuriedBy(n0, keep, FirstJudged(n0, keep, loc));
    } else {
      assert y in BuriedBy(n0, keep, SecondJudged(n0, keep, loc));
    }
    assert x in n0;
    StyledAt(n0, keep, j, b, n1, x);
    StyledAt(n0, keep, j, b, n1, y);
  }

  /** The filter changes no children list, no value and no kind. */
  lemma FilterKeepsShape<V, A>(n0: Nodes<V, A>, keep: Item<V> -> bool, loc: Location, n1: Nodes<V, A>, x: NodeId)
    requires Styled(n0, keep, FilterJudged(n0, keep, loc), FilterBuried(n0, keep, loc), n1)
    ensures n1.Keys == n0.Keys && Kids(n1, x) == Kids(n0, x) && ItemAt(n1, x) == ItemAt(n0, x)
  {
    StyledAt(n0, keep, FilterJudged(n0, keep, loc), FilterBuried(n0, keep, loc), n1, x);
  }

  /**
   * Along a path from a root's children to a node other than a leaf, every node before the
   * last has a branch as first child; so when the predicate keeps all nodes before index `k`,
   * the run from that root pops `p[k]`.
   */
  lemma KeptPrefixSwept<V, A>(n0: Nodes<V, A>, bound: NodeId, keep: Item<V> -> bool, loc: Location, r: NodeId,
                              p: seq<NodeId>, k: nat)
    requires Wf(n0, bound) && IsRoot(n0, r) && IsPath(n0, Always(), p) && p[0] in Kids(n0, r)
    requires p[|p| - 1] in n0 && !n0[p[|p| - 1]].Leaf?
    requires k < |p| && forall j :: 0 <= j < k ==> keep(ItemAt(n0, p[j]))
    ensures p[k] in Swept(n0, keep, loc, r)
  {
    var e := KeepRule(n0, keep, loc);
    var q := p[..k + 1];
    forall j | 0 <= j < |q| - 1 ensures e(q[j]) && q[j + 1] in Kids(n0, q[j]) {
      assert q[j] == p[j] && q[j + 1] == p[j + 1];
      KeptStep(n0, bound, keep, loc, r, p, j);
    }
    assert IsPath(n0, e, q) && q[0] == p[0] && q[k] == p[k];
    AxisAlongPath(n0, bound, Always(), r, p, k);
  }

  /** A kept node on such a path, followed by another node of the path, passes the filter's rule. */
  lemma KeptStep<V, A>(n0: Nodes<V, A>, bound: NodeId, keep: Item<V> -> bool, loc: Location, r: NodeId,
                       p: seq<NodeId>, j: nat)
    requires Wf(n0, bound) && IsRoot(n0, r) && IsPath(n0, Always(), p) && p[0] in Kids(n0, r)
    requires p[|p| - 1] in n0 && !n0[p[|p| - 1]].Leaf?
    requires j + 1 < |p| && keep(ItemAt(n0, p[j]))
    ensures KeepRule(n0, keep, loc)(p[j]) && p[j + 1] in Kids(n0, p[j])
  {
    AxisAlongPath(n0, bound, Always(), r, p, j);
    KidFacts(n0, bound, p[j], p[j + 1]);
    if j + 1 < |p| - 1 {
      assert p[j + 2] in Kids(n0, p[j + 1]);
    }
    KidKind(n0, bound, p[j], p[j + 1]);
  }

  /** A run from one root buries nothing but leaves on the other root's axis. */
  lemma OtherAxisNotBuried<V, A>(n0: Nodes<V, A>, bound: NodeId, keep: Item<V> -> bool, loc: Location,
                                 r: NodeId, r': NodeId, d: set<NodeId>, e: NodeId -> bool, y: NodeId)
    requires Wf(n0, bound) && IsRoot(n0, r) && IsRoot(n0, r') && r != r'
    requires d <= Swept(n0, keep, loc, r') && y in n0 && !n0[y].Leaf? && Reach(n0, e, Kids(n0, r), y)
    ensures y !in BuriedBy(n0, keep, d)
  {
    if y in BuriedBy(n0, keep, d) {
      BuriedBeneath(n0, keep, loc, r', d, y);
      ReachedAxis(n0, bound, Always(), r', y);
      ReachedAxis(n0, bound, e, r, y);
    }
  }

  /**
   * A node other than a leaf that the run from its own root pops is judged by the façade's
   * filter, and not buried by either run.
   */
  lemma AxisRunJudged<V, A>(n0: Nodes<V, A>, bound: NodeId, keep: Item<V> -> bool, loc: Location, r: NodeId, y: NodeId)
    requires Wf(n0, bound) && IsRoot(n0, r) && (loc != LeafNodes || r == RootNode1)
    requires y in Swept(n0, keep, loc, r) && !n0[y].Leaf?
    ensures y in (if r == RootNode1 then FirstJudged(n0, keep, loc) else SecondJudged(n0, keep, loc))
    ensures y in FilterJudged(n0, keep, loc) && y !in FilterBuried(n0, keep, loc)
  {
    var e := KeepRule(n0, keep, loc);
    var j1, j2 := FirstJudged(n0, keep, loc), SecondJudged(n0, keep, loc);
    var r' := if r == RootNode1 then RootNode2 else RootNode1;
    if r == RootNode2 && loc == AllNodes {
      var sv := SecondVisited(n0, keep, loc);
      if y in sv.value {
        if y in Swept(n0, keep, loc, RootNode1) {
          ReachedAxis(n0, bound, e, RootNode1, y);
          ReachedAxis(n0, bound, e, RootNode2, y);
        } else {
          OtherAxisNotBuried(n0, bound, keep, loc, r, r', j1, e, y);
        }
      }
    }
    var jr, jo := if r == RootNode1 then j1 else j2, if r == RootNode1 then j2 else j1;
    if y in BuriedBy(n0, keep, jr) {
      var h :| h in jr && !keep(ItemAt(n0, h)) && Below(n0, h, y);
      SweptNotBuried(n0, bound, keep, loc, r, h, y);
    }
    if jo != {} {
      OtherAxisNotBuried(n0, bound, keep, loc, r, r', jo, e, y);
    }
  }

  /**
   * The filter's effect on a branch: along the path `p` from its root's children down to it,
   * the branch ends up visible exactly when the predicate accepts every node of the path.
   * This holds on both axes, except that a leaf filter leaves the second axis alone.
   */
  lemma FilterBranchVisibility<V, A>(n0: Nodes<V, A>, bound: NodeId, keep: Item<V> -> bool, loc: Location,
                                     n1: Nodes<V, A>, r: NodeId, p: seq<NodeId>)
    requires Wf(n0, bound) && IsRoot(n0, r) && (loc != LeafNodes || r == RootNode1)
    requires IsPath(n0, Always(), p) && p[0] in Kids(n0, r) && p[|p| - 1] in n0 && !n0[p[|p| - 1]].Leaf?
    requires Styled(n0, keep, FilterJudged(n0, keep, loc), FilterBuried(n0, keep, loc), n1)
    ensures p[|p| - 1] in n1
    ensures n1[p[|p| - 1]].visible <==> forall i :: 0 <= i < |p| ==> keep(ItemAt(n0, p[i]))
  {
    var x, j, b := p[|p| - 1], FilterJudged(n0, keep, loc), FilterBuried(n0, keep, loc);
    StyledAt(n0, keep, j, b, n1, x);
    PathVisAfter(n0, bound, keep, loc, r, p);
  }

  /** The visibility the filter gives a branch, read off the path to it. */
  lemma PathVisAfter<V, A>(n0: Nodes<V, A>, bound: NodeId, keep: Item<V> -> bool, loc: Location,
                           r: NodeId, p: seq<NodeId>)
    requires Wf(n0, bound) && IsRoot(n0, r) && (loc != LeafNodes || r == RootNode1)
    requires IsPath(n0, Always(), p) && p[0] in Kids(n0, r) && p[|p| - 1] in n0 && !n0[p[|p| - 1]].Leaf?
    ensures VisAfter(n0, keep, FilterJudged(n0, keep, loc), FilterBuried(n0, keep, loc), p[|p| - 1])
            <==> forall i :: 0 <= i < |p| ==> keep(ItemAt(n0, p[i]))
  {
    var i := 0;
    while i < |p| && keep(ItemAt(n0, p[i]))
      invariant i <= |p| && forall k :: 0 <= k < i ==> keep(ItemAt(n0, p[k]))
    {
      i := i + 1;
    }
    if i == |p| {
      AllKeptShows(n0, bound, keep, loc, r, p);
    } else {
      FirstRejectedHides(n0, bound, keep, loc, r, p, i);
      assert !keep(ItemAt(n0, p[i]));
    }
  }

  /** When the predicate accepts every node of the path, the path's end is shown. */
  lemma AllKeptShows<V, A>(n0: Nodes<V, A>, bound: NodeId, keep: Item<V> -> bool, loc: Location,
                           r: NodeId, p: seq<NodeId>)
    requires Wf(n0, bound) && IsRoot(n0, r) && (loc != LeafNodes || r == RootNode1)
    requires IsPath(n0, Always(), p) && p[0] in Kids(n0, r) && p[|p| - 1] in n0 && !n0[p[|p| - 1]].Leaf?
    requires forall k :: 0 <= k < |p| ==> keep(ItemAt(n0, p[k]))
    ensures VisAfter(n0, keep, FilterJudged(n0, keep, loc), FilterBuried(n0, keep, loc), p[|p| - 1])
  {
    KeptPrefixSwept(n0, bound, keep, loc, r, p, |p| - 1);
    AxisRunJudged(n0, bound, keep, loc, r, p[|p| - 1]);
    assert keep(ItemAt(n0, p[|p| - 1]));
  }

  /** When `p[i]` is the first node of the path the predicate rejects, the path's end is hidden. */
  lemma FirstRejectedHides<V, A>(n0: Nodes<V, A>, bound: NodeId, keep: Item<V> -> bool, loc: Location,
                                 r: NodeId, p: seq<NodeId>, i: nat)
    requires Wf(n0, bound) && IsRoot(n0, r) && (loc != LeafNodes || r == RootNode1)
    requires IsPath(n0, Always(), p) && p[0] in Kids(n0, r) && p[|p| - 1] in n0 && !n0[p[|p| - 1]].Leaf?
    requires i < |p| && !keep(ItemAt(n0, p[i])) && forall k :: 0 <= k < i ==> keep(ItemAt(n0, p[k]))
    ensures !VisAfter(n0, keep, FilterJudged(n0, keep, loc), FilterBuried(n0, keep, loc), p[|p| - 1])
  {
    var x := p[|p| - 1];
    KeptPrefixSwept(n0, bound, keep, loc, r, p, i);
    AxisAlongPath(n0, bound, Always(), r, p, i);
    if i < |p| - 1 {
      assert p[i + 1] in Kids(n0, p[i]);
    }
    AxisRunJudged(n0, bound, keep, loc, r, p[i]);
    if i < |p| - 1 {
      RestBelow(n0, p, i);
      var jr := if r == RootNode1 then FirstJudged(n0, keep, loc) else SecondJudged(n0, keep, loc);
      assert x in BuriedBy(n0, keep, jr);
    }
  }

  /** The part of a path after index `i` leads from the children of `p[i]` to its end. */
  lemma RestBelow<V, A>(n0: Nodes<V, A>, p: seq<NodeId>, i: nat)
    requires IsPath(n0, Always(), p) && i < |p| - 1
    ensures Below(n0, p[i], p[|p| - 1])
  {
    var q := p[i + 1..];
    forall k | 0 <= k < |q| - 1 ensures q[k + 1] in Kids(n0, q[k]) {
      assert q[k] == p[i + 1 + k] && q[k + 1] == p[i + 2 + k];
    }
    assert IsPath(n0, Always(), q) && q[0] in Kids(n0, p[i]) && q[|q| - 1] == p[|p| - 1];
  }

  /** A leaf filter runs only from the first root: a branch of the second axis keeps its visibility. */
  lemma LeafFilterSparesSecondAxis<V, A>(n0: Nodes<V, A>, bound: NodeId, keep: Item<V> -> bool, n1: Nodes<V, A>,
                                         e: NodeId -> bool, y: NodeId)
    requires Wf(n0, bound) && y in n0 && !n0[y].Leaf? && Reach(n0, e, Kids(n0, RootNode2), y)
    requires Styled(n0, keep, FilterJudged(n0, keep, LeafNodes), FilterBuried(n0, keep, LeafNodes), n1)
    ensures y in n1 && n1[y].visible == n0[y].visible
  {
    var j1 := FirstJudged(n0, keep, LeafNodes);
    StyledAt(n0, keep, j1 + {}, FilterBuried(n0, keep, LeafNodes), n1, y);
    if y in j1 {
      ReachedAxis(n0, bound, KeepRule(n0, keep, LeafNodes), RootNode1, y);
      ReachedAxis(n0, bound, e, RootNode2, y);
    }
    OtherAxisNotBuried(n0, bound, keep, LeafNodes, RootNode2, RootNode1, j1, e, y);
  }
}
