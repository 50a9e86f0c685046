/**
 * The `updated` flags delete sets. Removing a visible leaf calls setUpdated for both of
 * its parents before the leaf leaves their lists. Outside the subtree of the deleted node
 * (the node itself, its ancestors, the other axis and the rest of the tree) the arena delete
 * leaves behind is the arena pruned of what delete removes, with exactly those marks added,
 * whatever order the leaves went in.
 */
module DeleteMarks {
  import opened Sequences
  import opened TreeNodes
  import opened Paths
  import opened Structure
  import opened Frames
  import opened Lineage
  import opened Dirtying
  import opened Pruning

  /** `x` is a node that does not lie beneath `d`. */
  ghost predicate Outside<V, A>(nodes: Nodes<V, A>, d: NodeId, x: NodeId) {
    x in nodes && !Below(nodes, d, x)
  }

  /** What removing the leaves among `gone` marks: setUpdated of both parents of each. */
  ghost function DeleteDirty<V, A>(nodes: Nodes<V, A>, gone: set<NodeId>): set<NodeId> {
    set x | x in nodes && exists l :: l in gone && IsLeaf(nodes, l) && x in LeafDirty(nodes, l)
  }

  /** The arena pruned of `gone`, with the marks the removal of its leaves sets. */
  ghost function AfterDelete<V, A>(nodes: Nodes<V, A>, gone: set<NodeId>): Nodes<V, A> {
    MarkUpdated(Prune(nodes, gone), DeleteDirty(nodes, gone))
  }

  /** `cur` has the nodes of `n0` and agrees with `AfterDelete(n0, gone)` outside the subtree of `d`. */
  ghost predicate ExactOutside<V, A>(n0: Nodes<V, A>, d: NodeId, gone: set<NodeId>, cur: Nodes<V, A>) {
    cur.Keys == n0.Keys && forall x :: Outside(n0, d, x) ==> cur[x] == AfterDelete(n0, gone)[x]
  }

  /** Before anything is removed, the arena is its own AfterDelete. */
  lemma ExactStart<V, A>(n0: Nodes<V, A>, d: NodeId)
    ensures ExactOutside(n0, d, {}, n0)
  {
    PruneNone(n0);
    assert DeleteDirty(n0, {}) == {};
    assert MarkUpdated(n0, {}) == n0;
  }

  /** The marks of two removals are the marks of their union. */
  lemma DeleteDirtyUnion<V, A>(nodes: Nodes<V, A>, g1: set<NodeId>, g2: set<NodeId>, x: NodeId)
    ensures x in DeleteDirty(nodes, g1 + g2) <==> x in DeleteDirty(nodes, g1) || x in DeleteDirty(nodes, g2)
  {
    if x in DeleteDirty(nodes, g1 + g2) {
      var l :| l in g1 + g2 && IsLeaf(nodes, l) && x in LeafDirty(nodes, l);
      assert l in g1 || l in g2;
    }
  }

  /**
   * One more removal on top of an arena that is exact at `x`: pruning `dc` and marking what
   * the removal of its leaves marks at `x` gives the arena exact for `gone + dc` at `x`.
   */
  lemma ExactCompose<V, A>(n0: Nodes<V, A>, gone: set<NodeId>, dc: set<NodeId>, cur: Nodes<V, A>,
                           s: set<NodeId>, x: NodeId)
    requires x in n0 && cur.Keys == n0.Keys
    requires cur[x] == AfterDelete(n0, gone)[x]
    requires x in s <==> x in DeleteDirty(n0, dc)
    ensures MarkUpdated(Prune(cur, dc), s)[x] == AfterDelete(n0, gone + dc)[x]
  {
    var a := Filter(Kids(n0, x), NotIn(gone));
    FilterNotInTwice(Kids(n0, x), gone, dc);
    DeleteDirtyUnion(n0, gone, dc, x);
    FlaggedChildren(WithChildren(n0[x], a), Filter(a, NotIn(dc)));
    FlaggedKeepsChildren(WithChildren(n0[x], a));
    match n0[x]
    case Root(_, _, _, _) =>
    case Branch(_, _, _, _, _, _) =>
    case Leaf(_, _, _, _) =>
  }

  /** Whatever a chain of children leads to from beneath `d` is beneath `d`. */
  lemma {:induction false} BelowChain<V, A>(nodes: Nodes<V, A>, d: NodeId, c: seq<NodeId>, j: nat)
    requires Linked(nodes, c) && j < |c| && Below(nodes, d, c[j])
    ensures Below(nodes, d, c[|c| - 1])
    decreases |c| - j
  {
    if j < |c| - 1 {
      assert c[j + 1] in Kids(nodes, c[j + 1 - 1]);
      ReachStep(nodes, Always(), Kids(nodes, d), c[j], c[j + 1]);
      BelowChain(nodes, d, c, j + 1);
    }
  }

  /**
   * Removing nodes beneath `d` does not change whether setUpdated marks a node outside the
   * subtree of `d`: the chain of branches above that node loses none of its links.
   */
  lemma DirtyOutside<V, A>(n0: Nodes<V, A>, next: NodeId, d: NodeId, gone: set<NodeId>, q: NodeId, x: NodeId)
    requires Wf(n0, next) && IsBranch(n0, q) && Outside(n0, d, x)
    requires forall y :: y in gone ==> Below(n0, d, y)
    ensures IsBranch(Prune(n0, gone), q)
    ensures x in DirtySet(Prune(n0, gone), q) <==> x in DirtySet(n0, q)
  {
    var pr := Prune(n0, gone);
    PruneWf(n0, next, gone);
    SameTop(n0, next, gone, q);
    DirtySetIsSubtree(n0, next, q, x);
    DirtySetIsSubtree(pr, next, q, x);
    SubtreeOutside(n0, next, d, gone, TopOf(n0, q), x);
  }

  /** Pruning keeps the top-level branch above each branch. */
  lemma SameTop<V, A>(n0: Nodes<V, A>, next: NodeId, gone: set<NodeId>, q: NodeId)
    requires Wf(n0, next) && IsBranch(n0, q)
    ensures IsBranch(Prune(n0, gone), q) && TopOf(Prune(n0, gone), q) == TopOf(n0, q)
  {
    var pr := Prune(n0, gone);
    PruneLists(n0, next, gone);
    assert SameLinks(n0[q], pr[q]);
    assert NodeOk(n0, q);
    ExtendsAxis(n0, next, pr, n0[q].parent);
  }

  /** A node outside the subtree of `d` is in a subtree after pruning beneath `d` exactly when it was before. */
  lemma SubtreeOutside<V, A>(n0: Nodes<V, A>, next: NodeId, d: NodeId, gone: set<NodeId>, top: NodeId, x: NodeId)
    requires Wf(n0, next) && Outside(n0, d, x)
    requires forall y :: y in gone ==> Below(n0, d, y)
    ensures InSubtree(Prune(n0, gone), top, x) <==> InSubtree(n0, top, x)
  {
    var pr := Prune(n0, gone);
    PruneLists(n0, next, gone);
    assert SameLinks(n0[x], pr[x]);
    ExtendsAxis(n0, next, pr, x);
    var c := Ancestry(n0, x);
    if InSubtree(pr, top, x) {
      forall j | 0 < j < |c| ensures c[j] in Kids(n0, c[j - 1]) {
        assert c[j] in Kids(pr, c[j - 1]);
        KidsOfPrune(n0, gone, c[j - 1]);
      }
    }
    if InSubtree(n0, top, x) {
      AncestryIsChain(n0, next, x);
      forall j | 0 < j < |c| ensures c[j] in Kids(pr, c[j - 1]) {
        KidsOfPrune(n0, gone, c[j - 1]);
        if c[j] in gone {
          BelowChain(n0, d, c, j);
          assert false;
        }
      }
    }
  }

  /** ... nor, for any removed set `dc`, whether removing the leaves of `dc` marks it. */
  lemma MarksOutside<V, A>(n0: Nodes<V, A>, next: NodeId, d: NodeId, gone: set<NodeId>, cur: Nodes<V, A>,
                           dc: set<NodeId>, x: NodeId)
    requires Wf(n0, next) && MoreUpdated(Prune(n0, gone), cur) && Outside(n0, d, x)
    requires forall y :: y in gone ==> Below(n0, d, y)
    ensures x in DeleteDirty(cur, dc) <==> x in DeleteDirty(n0, dc)
  {
    var pr := Prune(n0, gone);
    MoreUpdatedStructure(pr, cur);
    SameStructureKids(pr, cur);
    PruneLists(n0, next, gone);
    forall l ensures IsLeaf(cur, l) == IsLeaf(n0, l) {
      if l in n0 {
        assert SameLinks(n0[l], pr[l]);
      }
    }
    forall l | l in dc && IsLeaf(n0, l) ensures x in LeafDirty(cur, l) <==> x in LeafDirty(n0, l) {
      assert SameLinks(n0[l], pr[l]) && Strip(pr[l]) == Strip(cur[l]);
      assert NodeOk(n0, l);
      var p1, p2 := n0[l].parent1, n0[l].parent2;
      DirtyOutside(n0, next, d, gone, p1, x);
      DirtyOutside(n0, next, d, gone, p2, x);
      DirtySetSameStructure(pr, cur, p1);
      DirtySetSameStructure(pr, cur, p2);
    }
  }

  /** What deleting the first `k` children of `d` removes lies beneath `d`. */
  lemma GoneBelow<V, A>(n0: Nodes<V, A>, d: NodeId, k: nat, y: NodeId)
    requires k <= |Kids(n0, d)| && y in DoomedUpTo(n0, Kids(n0, d), k)
    ensures Below(n0, d, y)
  {
    InUpTo(n0, Kids(n0, d), k, y);
    var j :| 0 <= j < k && y in Doomed(n0, Kids(n0, d)[j]);
    ReachWeaker(n0, VisRule(n0), Always(), [Kids(n0, d)[j]], y);
    var p :| IsPath(n0, Always(), p) && p[0] in [Kids(n0, d)[j]] && p[|p| - 1] == y;
    assert p[0] in Kids(n0, d);
  }

  /** A node outside the subtree of `d` stays outside the subtree of each child of `d` as nodes are removed. */
  lemma OutsideStep<V, A>(n0: Nodes<V, A>, gone: set<NodeId>, cur: Nodes<V, A>, d: NodeId, c: NodeId, x: NodeId)
    requires MoreUpdated(Prune(n0, gone), cur) && c in Kids(n0, d) && Outside(n0, d, x)
    ensures Outside(cur, c, x)
  {
    var pr := Prune(n0, gone);
    MoreUpdatedStructure(pr, cur);
    SameStructureKids(pr, cur);
    if Below(cur, c, x) {
      var p :| IsPath(cur, Always(), p) && p[0] in Kids(cur, c) && p[|p| - 1] == x;
      KidsOfPrune(n0, gone, c);
      forall i | 0 <= i < |p| - 1 ensures p[i + 1] in Kids(n0, p[i]) {
        assert p[i + 1] in Kids(cur, p[i]);
        KidsOfPrune(n0, gone, p[i]);
      }
      assert IsPath(n0, Always(), p);
      assert Reach(n0, Always(), Kids(n0, c), x);
      ReachThrough(n0, Always(), Kids(n0, d), c, x);
      assert false;
    }
  }

  /**
   * One round of delete's loop over the children of `d`: when deleting the `k`-th child is
   * exact outside that child's subtree, the rounds so far stay exact outside the subtree of `d`.
   */
  lemma ExactStep<V, A>(n0: Nodes<V, A>, next: NodeId, d: NodeId, k: nat, gone: set<NodeId>,
                        cur: Nodes<V, A>, after: Nodes<V, A>)
    requires Progress(n0, next, d, k, gone, cur) && k < |Kids(n0, d)|
    requires ExactOutside(n0, d, gone, cur)
    requires IsVisible(cur, Kids(n0, d)[k]) ==>
      ExactOutside(cur, Kids(n0, d)[k], Doomed(cur, Kids(n0, d)[k]), after)
    requires !IsVisible(cur, Kids(n0, d)[k]) ==> after == cur
    ensures ExactOutside(n0, d, gone + Doomed(n0, Kids(n0, d)[k]), after)
  {
    var c := Kids(n0, d)[k];
    var dc := Doomed(n0, c);
    assert c in Kids(n0, d);
    DoomedLocal(n0, next, d, k, cur);
    DoomedSplit(n0, c);
    if IsVisible(n0, c) {
      forall y | y in gone ensures Below(n0, d, y) {
        GoneBelow(n0, d, k, y);
      }
      forall x | Outside(n0, d, x) ensures after[x] == AfterDelete(n0, gone + dc)[x] {
        ExactStepAt(n0, next, d, gone, cur, c, after, x);
      }
    } else {
      assert gone + dc == gone;
    }
  }

  /** ... at one node `x` outside the subtree of `d`. */
  lemma ExactStepAt<V, A>(n0: Nodes<V, A>, next: NodeId, d: NodeId, gone: set<NodeId>, cur: Nodes<V, A>,
                          c: NodeId, after: Nodes<V, A>, x: NodeId)
    requires Wf(n0, next) && MoreUpdated(Prune(n0, gone), cur) && c in Kids(n0, d)
    requires forall y :: y in gone ==> Below(n0, d, y)
    requires ExactOutside(n0, d, gone, cur) && Doomed(cur, c) == Doomed(n0, c)
    requires ExactOutside(cur, c, Doomed(cur, c), after)
    requires Outside(n0, d, x)
    ensures after[x] == AfterDelete(n0, gone + Doomed(n0, c))[x]
  {
    var dc := Doomed(n0, c);
    OutsideStep(n0, gone, cur, d, c, x);
    MarksOutside(n0, next, d, gone, cur, dc, x);
    ExactCompose(n0, gone, dc, cur, DeleteDirty(cur, dc), x);
  }

  /**
   * The end of deleting a visible branch `d` listed under `p`: taking `d` out of `p`'s list
   * marks nothing, and completes what delete removes.
   */
  lemma BranchExact<V, A>(n0: Nodes<V, A>, next: NodeId, p: NodeId, d: NodeId, cur: Nodes<V, A>)
    requires Wf(n0, next) && IsBranch(n0, d) && IsVisible(n0, d) && p in n0 && d in Kids(n0, p)
    requires MoreUpdated(Prune(n0, DoomedUpTo(n0, Kids(n0, d), |Kids(n0, d)|)), cur)
    requires ExactOutside(n0, d, DoomedUpTo(n0, Kids(n0, d), |Kids(n0, d)|), cur)
    ensures p in cur && !cur[p].Leaf?
    ensures ExactOutside(n0, d, Doomed(n0, d), Unlisted(cur, p, d))
  {
    UnlistedIsPrune(n0, next, p, d, cur);
    PrunedExact(n0, d, cur);
  }

  /** ... and, flags aside, taking `d` out of every list is what completes its removal. */
  lemma PrunedExact<V, A>(n0: Nodes<V, A>, d: NodeId, cur: Nodes<V, A>)
    requires d in n0 && !IsLeaf(n0, d) && IsVisible(n0, d)
    requires ExactOutside(n0, d, DoomedUpTo(n0, Kids(n0, d), |Kids(n0, d)|), cur)
    ensures ExactOutside(n0, d, Doomed(n0, d), Prune(cur, {d}))
  {
    var u := DoomedUpTo(n0, Kids(n0, d), |Kids(n0, d)|);
    UnlistExact(n0, u, d, cur);
    DoomedSplit(n0, d);
    assert u + {d} == Doomed(n0, d);
  }

  /** Taking a node that is not a leaf out of every list keeps an arena exact. */
  lemma UnlistExact<V, A>(n0: Nodes<V, A>, u: set<NodeId>, d: NodeId, cur: Nodes<V, A>)
    requires ExactOutside(n0, d, u, cur) && !IsLeaf(n0, d)
    ensures ExactOutside(n0, d, u + {d}, Prune(cur, {d}))
  {
    forall x | Outside(n0, d, x) ensures Prune(cur, {d})[x] == AfterDelete(n0, u + {d})[x] {
      UnlistAt(n0, u, d, cur, x);
    }
  }

  /** The branch `d`, its children dealt with, is listed by `p` alone. */
  lemma UnlistedIsPrune<V, A>(n0: Nodes<V, A>, next: NodeId, p: NodeId, d: NodeId, cur: Nodes<V, A>)
    requires Wf(n0, next) && IsBranch(n0, d) && p in n0 && d in Kids(n0, p)
    requires MoreUpdated(Prune(n0, DoomedUpTo(n0, Kids(n0, d), |Kids(n0, d)|)), cur)
    ensures p in cur && !cur[p].Leaf?
    ensures Unlisted(cur, p, d) == Prune(cur, {d})
  {
    var u := DoomedUpTo(n0, Kids(n0, d), |Kids(n0, d)|);
    var pr := Prune(n0, u);
    PruneWf(n0, next, u);
    MoreUpdatedStructure(pr, cur);
    SameStructureWf(pr, cur, next);
    StillUnder(n0, next, p, d, cur);
    PruneOnlyUnder(cur, next, p, d);
  }

  /** Taking a node that is not a leaf out of every list keeps an arena exact at `x`. */
  lemma UnlistAt<V, A>(n0: Nodes<V, A>, u: set<NodeId>, d: NodeId, cur: Nodes<V, A>, x: NodeId)
    requires x in n0 && cur.Keys == n0.Keys && !IsLeaf(n0, d)
    requires cur[x] == AfterDelete(n0, u)[x]
    ensures Prune(cur, {d})[x] == AfterDelete(n0, u + {d})[x]
  {
    NoLeafNoMarks(n0, d);
    ExactCompose(n0, u, {d}, cur, {}, x);
    assert MarkUpdated(Prune(cur, {d}), {})[x] == Prune(cur, {d})[x];
  }

  /** Removing a node that is not a leaf marks nothing. */
  lemma NoLeafNoMarks<V, A>(n0: Nodes<V, A>, d: NodeId)
    requires !IsLeaf(n0, d)
    ensures DeleteDirty(n0, {d}) == {}
  {
  }

  /** Removing a leaf marks what changing it marks. */
  lemma LeafMarks<V, A>(n0: Nodes<V, A>, d: NodeId)
    requires IsLeaf(n0, d)
    ensures DeleteDirty(n0, {d}) == LeafDirty(n0, d)
  {
    forall x | x in LeafDirty(n0, d) ensures x in DeleteDirty(n0, {d}) {
      assert d in {d};
    }
  }

  /** Marking and pruning commute. */
  lemma MarkPruneAt<V, A>(nodes: Nodes<V, A>, s: set<NodeId>, g: set<NodeId>, x: NodeId)
    requires x in nodes
    ensures Prune(MarkUpdated(nodes, s), g)[x] == MarkUpdated(Prune(nodes, g), s)[x]
  {
    var m := MarkUpdated(nodes, s);
    FlaggedChildren(nodes[x], Filter(Kids(nodes, x), NotIn(g)));
    assert Kids(m, x) == Kids(nodes, x) by {
      FlaggedKeepsChildren(nodes[x]);
    }
  }

  lemma FlaggedChildren<V, A>(n: Node<V, A>, cs: seq<NodeId>)
    ensures WithChildren(Flagged(n), cs) == Flagged(WithChildren(n, cs))
  {
  }

  lemma FlaggedKeepsChildren<V, A>(n: Node<V, A>)
    ensures Flagged(n).Leaf? == n.Leaf?
    ensures !n.Leaf? ==> Flagged(n).children == n.children
  {
  }

  /** Deleting a visible leaf is exact everywhere: its parents' marks, then both lists lose it. */
  lemma LeafExact<V, A>(n0: Nodes<V, A>, d: NodeId)
    requires IsLeaf(n0, d) && IsVisible(n0, d)
    ensures Prune(MarkUpdated(n0, LeafDirty(n0, d)), {d}) == AfterDelete(n0, Doomed(n0, d))
    ensures ExactOutside(n0, d, Doomed(n0, d), Prune(MarkUpdated(n0, LeafDirty(n0, d)), {d}))
  {
    LeafDoomed(n0, d);
    LeafMarks(n0, d);
    var m := MarkUpdated(n0, LeafDirty(n0, d));
    forall x | x in n0 ensures Prune(m, {d})[x] == AfterDelete(n0, {d})[x] {
      MarkPruneAt(n0, LeafDirty(n0, d), {d}, x);
    }
  }
}
