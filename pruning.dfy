/**
 * What delete takes away. Deleting a visible node removes it and, for a branch, every
 * visible node beneath it that can be reached through visible branches; invisible nodes
 * are neither removed nor looked into. Removal takes a node out of every children list
 * that holds it; the node itself stays in the arena, as the Java object outlives delete.
 */
module Pruning {
  import opened Sequences
  import opened TreeNodes
  import opened Paths
  import opened Structure
  import opened Frames
  import opened Dirtying

  /** delete only looks into visible nodes. */
  ghost function VisRule<V, A>(nodes: Nodes<V, A>): NodeId -> bool {
    (x: NodeId) => IsVisible(nodes, x)
  }

  /** The nodes deleting `d` removes: `d` and the visible nodes beneath it, reached through visible ones. */
  ghost function Doomed<V, A>(nodes: Nodes<V, A>, d: NodeId): set<NodeId> {
    set x | x in nodes && IsVisible(nodes, x) && Reach(nodes, VisRule(nodes), [d], x)
  }

  /** What deleting the first `k` members of `cs` removes. */
  ghost function DoomedUpTo<V, A>(nodes: Nodes<V, A>, cs: seq<NodeId>, k: nat): set<NodeId>
    requires k <= |cs|
  {
    if k == 0 then {} else DoomedUpTo(nodes, cs, k - 1) + Doomed(nodes, cs[k - 1])
  }

  /**
   * Where delete's loop over the children of `d` stands after `k` rounds: `gone` is what the
   * rounds removed, and `cur` is the arena on entry pruned of it, flags aside.
   */
  ghost predicate Progress<V, A>(n0: Nodes<V, A>, next: NodeId, d: NodeId, k: nat, gone: set<NodeId>, cur: Nodes<V, A>) {
    && Wf(n0, next) && d in n0 && k <= |Kids(n0, d)|
    && gone == DoomedUpTo(n0, Kids(n0, d), k)
    && MoreUpdated(Prune(n0, gone), cur)
  }

  lemma ProgressStart<V, A>(n0: Nodes<V, A>, next: NodeId, d: NodeId)
    requires Wf(n0, next) && d in n0
    ensures Progress(n0, next, d, 0, {}, n0)
  {
    PruneNone(n0);
    MoreUpdatedRefl(n0);
  }

  lemma ProgressEnd<V, A>(n0: Nodes<V, A>, next: NodeId, d: NodeId, k: nat, gone: set<NodeId>, cur: Nodes<V, A>)
    requires Progress(n0, next, d, k, gone, cur) && k == |Kids(n0, d)|
    ensures MoreUpdated(Prune(n0, DoomedUpTo(n0, Kids(n0, d), |Kids(n0, d)|)), cur)
  {
  }

  /** Every children list with the members of `d` taken out. */
  ghost function Prune<V, A>(nodes: Nodes<V, A>, d: set<NodeId>): (r: Nodes<V, A>)
    ensures r.Keys == nodes.Keys
  {
    map x | x in nodes :: WithChildren(nodes[x], Filter(Kids(nodes, x), NotIn(d)))
  }

  /** `b` is `a` with the `updated` flag set on some nodes. */
  ghost predicate MoreUpdated<V, A>(a: Nodes<V, A>, b: Nodes<V, A>) {
    a.Keys == b.Keys && forall x :: x in a ==> b[x] == a[x] || b[x] == Flagged(a[x])
  }

  lemma MoreUpdatedRefl<V, A>(a: Nodes<V, A>)
    ensures MoreUpdated(a, a)
  {
  }

  lemma MoreUpdatedTrans<V, A>(a: Nodes<V, A>, b: Nodes<V, A>, c: Nodes<V, A>)
    requires MoreUpdated(a, b) && MoreUpdated(b, c)
    ensures MoreUpdated(a, c)
  {
    forall x | x in a ensures c[x] == a[x] || c[x] == Flagged(a[x]) {
      match a[x]
      case Root(_, _, _, _) =>
      case Branch(_, _, _, _, _, _) =>
      case Leaf(_, _, _, _) =>
    }
  }

  /** Setting flags leaves the structure alone. */
  lemma MoreUpdatedStructure<V, A>(a: Nodes<V, A>, b: Nodes<V, A>)
    requires MoreUpdated(a, b)
    ensures SameStructure(a, b)
  {
    forall x | x in a ensures Strip(a[x]) == Strip(b[x]) {
      match a[x]
      case Root(_, _, _, _) =>
      case Branch(_, _, _, _, _, _) =>
      case Leaf(_, _, _, _) =>
    }
  }

  /** Marking sets flags and nothing else. */
  lemma MarkUpdatedMore<V, A>(a: Nodes<V, A>, s: set<NodeId>)
    ensures MoreUpdated(a, MarkUpdated(a, s))
  {
  }

  lemma KidsOfPrune<V, A>(nodes: Nodes<V, A>, d: set<NodeId>, x: NodeId)
    ensures Kids(Prune(nodes, d), x) == Filter(Kids(nodes, x), NotIn(d))
  {
    if x in nodes {
      match nodes[x]
      case Root(_, _, _, _) =>
      case Branch(_, _, _, _, _, _) =>
      case Leaf(_, _, _, _) =>
    }
  }

  /** Pruning nothing changes nothing. */
  lemma PruneNone<V, A>(nodes: Nodes<V, A>)
    ensures Prune(nodes, {}) == nodes
  {
    forall x | x in nodes ensures Prune(nodes, {})[x] == nodes[x] {
      FilterKeepsAll(Kids(nodes, x), NotIn({}));
      match nodes[x]
      case Root(_, _, _, _) =>
      case Branch(_, _, _, _, _, _) =>
      case Leaf(_, _, _, _) =>
    }
  }

  /** Pruning twice is pruning once by the union. */
  lemma PruneTwice<V, A>(nodes: Nodes<V, A>, d1: set<NodeId>, d2: set<NodeId>)
    ensures Prune(Prune(nodes, d1), d2) == Prune(nodes, d1 + d2)
  {
    var p1 := Prune(nodes, d1);
    forall x | x in nodes ensures Prune(p1, d2)[x] == Prune(nodes, d1 + d2)[x] {
      KidsOfPrune(nodes, d1, x);
      FilterNotInTwice(Kids(nodes, x), d1, d2);
      match nodes[x]
      case Root(_, _, _, _) =>
      case Branch(_, _, _, _, _, _) =>
      case Leaf(_, _, _, _) =>
    }
  }

  /** Flags and pruning commute. */
  lemma MoreUpdatedPrune<V, A>(a: Nodes<V, A>, b: Nodes<V, A>, d: set<NodeId>)
    requires MoreUpdated(a, b)
    ensures MoreUpdated(Prune(a, d), Prune(b, d))
  {
    forall x | x in a ensures Prune(b, d)[x] == Prune(a, d)[x] || Prune(b, d)[x] == Flagged(Prune(a, d)[x]) {
      assert Kids(a, x) == Kids(b, x) by {
        match a[x]
        case Root(_, _, _, _) =>
        case Branch(_, _, _, _, _, _) =>
        case Leaf(_, _, _, _) =>
      }
      match a[x]
      case Root(_, _, _, _) =>
      case Branch(_, _, _, _, _, _) =>
      case Leaf(_, _, _, _) =>
    }
  }

  /** Pruning keeps every node's kind and parents and shortens every children list. */
  lemma PruneLists<V, A>(nodes: Nodes<V, A>, next: NodeId, d: set<NodeId>)
    requires Wf(nodes, next)
    ensures Extends(nodes, Prune(nodes, d))
    ensures forall x :: x in nodes && !nodes[x].Leaf? ==> ChildrenOk(Prune(nodes, d), x, Kids(Prune(nodes, d), x))
    ensures forall x :: x in nodes && nodes[x].Leaf? ==>
      (x in Kids(Prune(nodes, d), nodes[x].parent1) <==> x in Kids(Prune(nodes, d), nodes[x].parent2))
  {
    var pr := Prune(nodes, d);
    forall x | x in nodes ensures SameLinks(nodes[x], pr[x]) {
      match nodes[x]
      case Root(_, _, _, _) =>
      case Branch(_, _, _, _, _, _) =>
      case Leaf(_, _, _, _) =>
    }
    forall x | x in nodes && !nodes[x].Leaf? ensures ChildrenOk(pr, x, Kids(pr, x)) {
      assert NodeOk(nodes, x);
      KidsOfPrune(nodes, d, x);
      FilterNoDup(Kids(nodes, x), NotIn(d));
      ChildrenOkSub(nodes, pr, x, Kids(nodes, x), Kids(pr, x));
    }
    forall x | x in nodes && nodes[x].Leaf?
      ensures x in Kids(pr, nodes[x].parent1) <==> x in Kids(pr, nodes[x].parent2)
    {
      assert NodeOk(nodes, x);
      KidsOfPrune(nodes, d, nodes[x].parent1);
      KidsOfPrune(nodes, d, nodes[x].parent2);
    }
  }

  /** Pruning keeps the arena well-formed, whatever is pruned. */
  lemma PruneWf<V, A>(nodes: Nodes<V, A>, next: NodeId, d: set<NodeId>)
    requires Wf(nodes, next)
    ensures Wf(Prune(nodes, d), next)
  {
    PruneLists(nodes, next, d);
    WfFrame(nodes, next, Prune(nodes, d), next);
  }

  /**
   * Pruning a single node only touches the lists that hold it: at each node, it is
   * List.remove of that node.
   */
  lemma PruneOneAt<V, A>(nodes: Nodes<V, A>, next: NodeId, d: NodeId, x: NodeId)
    requires Wf(nodes, next) && x in nodes
    ensures Prune(nodes, {d})[x] == WithChildren(nodes[x], Remove(Kids(nodes, x), d))
    ensures d !in Kids(nodes, x) ==> Prune(nodes, {d})[x] == nodes[x]
  {
    assert NodeOk(nodes, x);
    RemoveIsFilter(Kids(nodes, x), d);
    FilterCongruent(Kids(nodes, x), Except(d), NotIn({d}));
    if d !in Kids(nodes, x) {
      match nodes[x]
      case Root(_, _, _, _) =>
      case Branch(_, _, _, _, _, _) =>
      case Leaf(_, _, _, _) =>
    }
  }

  /** Pruning and setting flags keep every node's visibility. */
  lemma PruneVisible<V, A>(nodes: Nodes<V, A>, d: set<NodeId>, cur: Nodes<V, A>)
    requires MoreUpdated(Prune(nodes, d), cur)
    ensures cur.Keys == nodes.Keys
    ensures forall y :: IsVisible(cur, y) == IsVisible(nodes, y)
  {
    forall y | y in nodes ensures cur[y].visible == nodes[y].visible {
      match nodes[y]
      case Root(_, _, _, _) =>
      case Branch(_, _, _, _, _, _) =>
      case Leaf(_, _, _, _) =>
    }
  }

  lemma InUpTo<V, A>(nodes: Nodes<V, A>, cs: seq<NodeId>, k: nat, x: NodeId)
    requires k <= |cs|
    ensures x in DoomedUpTo(nodes, cs, k) <==> exists j :: 0 <= j < k && x in Doomed(nodes, cs[j])
  {
    if k > 0 {
      InUpTo(nodes, cs, k - 1, x);
    }
  }

  /** The subtrees below two different children of a node share nothing. */
  lemma DoomedDisjoint<V, A>(nodes: Nodes<V, A>, next: NodeId, d: NodeId, j: nat, k: nat, x: NodeId)
    requires Wf(nodes, next) && d in nodes && j < |Kids(nodes, d)| && k < |Kids(nodes, d)| && j != k
    ensures !(Reach(nodes, VisRule(nodes), [Kids(nodes, d)[j]], x) && Reach(nodes, VisRule(nodes), [Kids(nodes, d)[k]], x))
  {
    var cs, e := Kids(nodes, d), VisRule(nodes);
    assert NodeOk(nodes, d);
    if Reach(nodes, e, [cs[j]], x) && Reach(nodes, e, [cs[k]], x) {
      var p1 :| IsPath(nodes, e, p1) && p1[0] in [cs[j]] && p1[|p1| - 1] == x;
      var p2 :| IsPath(nodes, e, p2) && p2[0] in [cs[k]] && p2[|p2| - 1] == x;
      assert cs[j] in cs && cs[k] in cs;
      PathUnique(nodes, next, e, e, d, p1, p2);
      assert false;
    }
  }

  /**
   * Deleting a visible node removes it and what deleting each of its children removes; an
   * invisible node removes nothing.
   */
  lemma DoomedSplit<V, A>(nodes: Nodes<V, A>, d: NodeId)
    requires d in nodes
    ensures IsVisible(nodes, d) ==>
      Doomed(nodes, d) == {d} + DoomedUpTo(nodes, Kids(nodes, d), |Kids(nodes, d)|)
    ensures !IsVisible(nodes, d) ==> Doomed(nodes, d) == {}
  {
    var cs, e := Kids(nodes, d), VisRule(nodes);
    forall x | x in Doomed(nodes, d) ensures IsVisible(nodes, d) && (x == d || x in DoomedUpTo(nodes, cs, |cs|)) {
      ReachFirstStep(nodes, e, [d], x);
      if x != d {
        ReachSplit(nodes, e, cs, x);
        var j :| 0 <= j < |cs| && Reach(nodes, e, [cs[j]], x);
        InUpTo(nodes, cs, |cs|, x);
      }
    }
    if IsVisible(nodes, d) {
      ReachStart(nodes, e, [d], d);
      forall x | x in DoomedUpTo(nodes, cs, |cs|) ensures x in Doomed(nodes, d) {
        InUpTo(nodes, cs, |cs|, x);
        var j :| 0 <= j < |cs| && x in Doomed(nodes, cs[j]);
        ReachSplit(nodes, e, cs, x);
        ReachThrough(nodes, e, [d], d, x);
      }
    }
  }

  /** Nothing below the `k`-th child of `d` is removed by deleting the children before it. */
  lemma UntouchedBelow<V, A>(n0: Nodes<V, A>, next: NodeId, d: NodeId, k: nat, z: NodeId)
    requires Wf(n0, next) && d in n0 && k < |Kids(n0, d)|
    requires Reach(n0, VisRule(n0), [Kids(n0, d)[k]], z)
    ensures z !in DoomedUpTo(n0, Kids(n0, d), k)
  {
    var cs := Kids(n0, d);
    InUpTo(n0, cs, k, z);
    if z in DoomedUpTo(n0, cs, k) {
      var j :| 0 <= j < k && z in Doomed(n0, cs[j]);
      DoomedDisjoint(n0, next, d, j, k, z);
    }
  }

  /** ... so the pruned arena lists the same children for every visible node below it. */
  lemma PrunedBelow<V, A>(n0: Nodes<V, A>, next: NodeId, d: NodeId, k: nat, y: NodeId)
    requires Wf(n0, next) && d in n0 && k < |Kids(n0, d)|
    requires Reach(n0, VisRule(n0), [Kids(n0, d)[k]], y) && VisRule(n0)(y)
    ensures Kids(Prune(n0, DoomedUpTo(n0, Kids(n0, d), k)), y) == Kids(n0, y)
  {
    var u := DoomedUpTo(n0, Kids(n0, d), k);
    forall z | z in Kids(n0, y) ensures NotIn(u)(z) {
      ReachStep(n0, VisRule(n0), [Kids(n0, d)[k]], y, z);
      UntouchedBelow(n0, next, d, k, z);
    }
    KidsOfPrune(n0, u, y);
    FilterKeepsAll(Kids(n0, y), NotIn(u));
  }

  /**
   * While a branch's children are deleted one by one, the arena seen by the next deletion
   * is the original pruned of what the earlier ones removed, flags aside; the next child is
   * still listed, and deleting it removes what it would have removed at the start.
   */
  lemma DoomedLocal<V, A>(n0: Nodes<V, A>, next: NodeId, d: NodeId, k: nat, cur: Nodes<V, A>)
    requires Wf(n0, next) && d in n0 && k < |Kids(n0, d)|
    requires MoreUpdated(Prune(n0, DoomedUpTo(n0, Kids(n0, d), k)), cur)
    ensures Kids(n0, d)[k] in Kids(cur, d) && Kids(n0, d)[k] in cur
    ensures IsVisible(cur, Kids(n0, d)[k]) == IsVisible(n0, Kids(n0, d)[k])
    ensures Doomed(cur, Kids(n0, d)[k]) == Doomed(n0, Kids(n0, d)[k])
  {
    var cs := Kids(n0, d);
    var c, u := cs[k], DoomedUpTo(n0, cs, k);
    var pr := Prune(n0, u);
    assert c in cs;
    KidFacts(n0, next, d, c);
    PruneVisible(n0, u, cur);
    MoreUpdatedStructure(pr, cur);
    SameStructureKids(pr, cur);
    ReachStart(n0, VisRule(n0), [c], c);
    UntouchedBelow(n0, next, d, k, c);
    KidsOfPrune(n0, u, d);
    DoomedBelow(n0, next, d, k, cur);
  }

  lemma DoomedBelow<V, A>(n0: Nodes<V, A>, next: NodeId, d: NodeId, k: nat, cur: Nodes<V, A>)
    requires Wf(n0, next) && d in n0 && k < |Kids(n0, d)|
    requires MoreUpdated(Prune(n0, DoomedUpTo(n0, Kids(n0, d), k)), cur)
    ensures Doomed(cur, Kids(n0, d)[k]) == Doomed(n0, Kids(n0, d)[k])
  {
    PruneVisible(n0, DoomedUpTo(n0, Kids(n0, d), k), cur);
    ReachBelow(n0, next, d, k, cur);
  }

  lemma ReachBelow<V, A>(n0: Nodes<V, A>, next: NodeId, d: NodeId, k: nat, cur: Nodes<V, A>)
    requires Wf(n0, next) && d in n0 && k < |Kids(n0, d)|
    requires MoreUpdated(Prune(n0, DoomedUpTo(n0, Kids(n0, d), k)), cur)
    ensures forall x :: Reach(cur, VisRule(cur), [Kids(n0, d)[k]], x) <==> Reach(n0, VisRule(n0), [Kids(n0, d)[k]], x)
  {
    var cs, e := Kids(n0, d), VisRule(n0);
    var c, u := cs[k], DoomedUpTo(n0, cs, k);
    var pr := Prune(n0, u);
    PruneVisible(n0, u, cur);
    MoreUpdatedStructure(pr, cur);
    SameStructureKids(pr, cur);
    forall y | Reach(n0, e, [c], y) && e(y) ensures Kids(pr, y) == Kids(n0, y) {
      PrunedBelow(n0, next, d, k, y);
    }
    forall x ensures Reach(cur, VisRule(cur), [c], x) <==> Reach(n0, e, [c], x) {
      ReachSameKids(cur, pr, VisRule(cur), e, [c], x);
      ReachLocal(n0, pr, e, [c], x);
    }
  }

  /** Ids grow downwards, so nothing beneath a node is the node itself. */
  lemma ReachDown<V, A>(nodes: Nodes<V, A>, next: NodeId, s: NodeId, x: NodeId)
    requires Wf(nodes, next) && s in nodes && Reach(nodes, VisRule(nodes), [s], x)
    ensures s <= x
  {
    var e := VisRule(nodes);
    var above := set y | y in nodes && s <= y;
    forall v, c | v in above && e(v) && c in Kids(nodes, v) ensures c in above {
      KidFacts(nodes, next, v, c);
    }
    ReachWithin(nodes, e, [s], above, x);
  }

  /**
   * One round of delete's loop over the children of `d`: deleting the `k`-th child (which
   * removes nothing when it is invisible) extends what the earlier rounds removed.
   */
  lemma DeleteStep<V, A>(n0: Nodes<V, A>, next: NodeId, d: NodeId, k: nat, gone: set<NodeId>,
                         cur: Nodes<V, A>, after: Nodes<V, A>)
    requires Progress(n0, next, d, k, gone, cur) && k < |Kids(n0, d)|
    requires Kids(n0, d)[k] in cur
    requires IsVisible(cur, Kids(n0, d)[k]) ==> MoreUpdated(Prune(cur, Doomed(cur, Kids(n0, d)[k])), after)
    requires !IsVisible(cur, Kids(n0, d)[k]) ==> after == cur
    ensures Progress(n0, next, d, k + 1, gone + Doomed(n0, Kids(n0, d)[k]), after)
  {
    var c := Kids(n0, d)[k];
    DoomedLocal(n0, next, d, k, cur);
    DoomedSplit(n0, c);
    DoomedUpToNext(n0, Kids(n0, d), k);
    if IsVisible(n0, c) {
      PruneMore(n0, gone, Doomed(n0, c), cur, after);
    } else {
      assert gone + Doomed(n0, c) == gone;
    }
  }

  lemma DoomedUpToNext<V, A>(nodes: Nodes<V, A>, cs: seq<NodeId>, k: nat)
    requires k < |cs|
    ensures DoomedUpTo(nodes, cs, k + 1) == DoomedUpTo(nodes, cs, k) + Doomed(nodes, cs[k])
  {
  }

  /** Pruning more of an arena whose flags only went up keeps the flags going up. */
  lemma PruneMore<V, A>(n0: Nodes<V, A>, gone: set<NodeId>, dc: set<NodeId>, cur: Nodes<V, A>, after: Nodes<V, A>)
    requires MoreUpdated(Prune(n0, gone), cur) && MoreUpdated(Prune(cur, dc), after)
    ensures MoreUpdated(Prune(n0, gone + dc), after)
  {
    MoreUpdatedPrune(Prune(n0, gone), cur, dc);
    PruneTwice(n0, gone, dc);
    MoreUpdatedTrans(Prune(n0, gone + dc), Prune(cur, dc), after);
  }

  /** Two arenas with the keys of `nodes` and the same node at each key are equal. */
  lemma SameEntries<V, A>(nodes: Nodes<V, A>, a: Nodes<V, A>, b: Nodes<V, A>)
    requires a.Keys == nodes.Keys && b.Keys == nodes.Keys
    requires forall x :: x in nodes ==> a[x] == b[x]
    ensures a == b
  {
  }

  /** The arena with `d` taken out of `p`'s list: the List.remove a parent does on its children. */
  function Unlisted<V, A>(nodes: Nodes<V, A>, p: NodeId, d: NodeId): (r: Nodes<V, A>)
    requires p in nodes && !nodes[p].Leaf?
    ensures r.Keys == nodes.Keys
  {
    nodes[p := WithChildren(nodes[p], Remove(nodes[p].children, d))]
  }

  /** Taking out of every list a node that only `p` lists is taking it out of `p`'s list. */
  lemma PruneOnlyUnder<V, A>(nodes: Nodes<V, A>, next: NodeId, p: NodeId, d: NodeId)
    requires Wf(nodes, next) && p in nodes && !nodes[p].Leaf?
    requires forall x :: x in nodes && x != p ==> d !in Kids(nodes, x)
    ensures Prune(nodes, {d}) == Unlisted(nodes, p, d)
  {
    var pr, fin := Prune(nodes, {d}), Unlisted(nodes, p, d);
    forall x | x in nodes ensures pr[x] == fin[x] {
      PruneOnlyAt(nodes, next, p, d, x);
    }
    SameEntries(nodes, pr, fin);
  }

  lemma PruneOnlyAt<V, A>(nodes: Nodes<V, A>, next: NodeId, p: NodeId, d: NodeId, x: NodeId)
    requires Wf(nodes, next) && p in nodes && !nodes[p].Leaf? && x in nodes
    requires x != p ==> d !in Kids(nodes, x)
    ensures Prune(nodes, {d})[x] == Unlisted(nodes, p, d)[x]
  {
    PruneOneAt(nodes, next, d, x);
    UnlistedAt(nodes, p, d, x);
  }

  lemma UnlistedAt<V, A>(nodes: Nodes<V, A>, p: NodeId, d: NodeId, x: NodeId)
    requires p in nodes && !nodes[p].Leaf? && x in nodes
    ensures Unlisted(nodes, p, d)[x] == if x == p then WithChildren(nodes[x], Remove(Kids(nodes, x), d)) else nodes[x]
  {
  }

  /** Deleting the children of `d` never deletes `d`: it lies above all of them. */
  lemma NotBelowItself<V, A>(n0: Nodes<V, A>, next: NodeId, d: NodeId)
    requires Wf(n0, next) && d in n0
    ensures d !in DoomedUpTo(n0, Kids(n0, d), |Kids(n0, d)|)
  {
    InUpTo(n0, Kids(n0, d), |Kids(n0, d)|, d);
    if d in DoomedUpTo(n0, Kids(n0, d), |Kids(n0, d)|) {
      var j :| 0 <= j < |Kids(n0, d)| && d in Doomed(n0, Kids(n0, d)[j]);
      KidFacts(n0, next, d, Kids(n0, d)[j]);
      ReachDown(n0, next, Kids(n0, d)[j], d);
    }
  }

  /** Deleting the children of a branch leaves the branch listed under its parent alone. */
  lemma StillUnder<V, A>(n0: Nodes<V, A>, next: NodeId, p: NodeId, d: NodeId, cur: Nodes<V, A>)
    requires Wf(n0, next) && IsBranch(n0, d) && p in n0 && d in Kids(n0, p)
    requires MoreUpdated(Prune(n0, DoomedUpTo(n0, Kids(n0, d), |Kids(n0, d)|)), cur)
    ensures p in cur && !cur[p].Leaf? && d in cur[p].children
    ensures forall x :: x in cur && x != p ==> d !in Kids(cur, x)
  {
    var u := DoomedUpTo(n0, Kids(n0, d), |Kids(n0, d)|);
    var pr := Prune(n0, u);
    MoreUpdatedStructure(pr, cur);
    SameStructureKids(pr, cur);
    KidFacts(n0, next, p, d);
    NotBelowItself(n0, next, d);
    KidsOfPrune(n0, u, p);
    forall x | x in cur && x != p ensures d !in Kids(cur, x) {
      KidsOfPrune(n0, u, x);
      if d in Kids(n0, x) {
        KidFacts(n0, next, x, d);
      }
    }
  }

  /**
   * The end of deleting a visible branch `d` listed under `p`: once its children are dealt
   * with, taking `d` out of `p`'s list completes the removal of everything beneath it.
   */
  lemma BranchDeleted<V, A>(n0: Nodes<V, A>, next: NodeId, p: NodeId, d: NodeId, cur: Nodes<V, A>)
    requires Wf(n0, next) && IsBranch(n0, d) && IsVisible(n0, d) && p in n0 && d in Kids(n0, p)
    requires MoreUpdated(Prune(n0, DoomedUpTo(n0, Kids(n0, d), |Kids(n0, d)|)), cur)
    ensures p in cur && !cur[p].Leaf? && d in cur[p].children
    ensures Wf(Unlisted(cur, p, d), next)
    ensures MoreUpdated(Prune(n0, Doomed(n0, d)), Unlisted(cur, p, d))
  {
    var u := DoomedUpTo(n0, Kids(n0, d), |Kids(n0, d)|);
    var pr := Prune(n0, u);
    PruneWf(n0, next, u);
    MoreUpdatedStructure(pr, cur);
    SameStructureWf(pr, cur, next);
    StillUnder(n0, next, p, d, cur);
    PruneOnlyUnder(cur, next, p, d);
    PruneWf(cur, next, {d});
    BranchDeletedMore(n0, p, d, cur);
  }

  lemma BranchDeletedMore<V, A>(n0: Nodes<V, A>, p: NodeId, d: NodeId, cur: Nodes<V, A>)
    requires d in n0 && IsVisible(n0, d) && p in cur && !cur[p].Leaf?
    requires MoreUpdated(Prune(n0, DoomedUpTo(n0, Kids(n0, d), |Kids(n0, d)|)), cur)
    requires Prune(cur, {d}) == Unlisted(cur, p, d)
    ensures MoreUpdated(Prune(n0, Doomed(n0, d)), Unlisted(cur, p, d))
  {
    var u := DoomedUpTo(n0, Kids(n0, d), |Kids(n0, d)|);
    PruneSplit(n0, d);
    MoreUpdatedPrune(Prune(n0, u), cur, {d});
  }

  /** Deleting a visible node prunes what deleting its children prunes, and then the node. */
  lemma PruneSplit<V, A>(n0: Nodes<V, A>, d: NodeId)
    requires d in n0 && IsVisible(n0, d)
    ensures Prune(n0, Doomed(n0, d)) == Prune(Prune(n0, DoomedUpTo(n0, Kids(n0, d), |Kids(n0, d)|)), {d})
  {
    var u := DoomedUpTo(n0, Kids(n0, d), |Kids(n0, d)|);
    DoomedSplit(n0, d);
    assert u + {d} == Doomed(n0, d);
    PruneTwice(n0, u, {d});
  }

  /** The arena with `d` taken out of the two lists of `p` and `o`. */
  function RemoveFromBoth<V, A>(nodes: Nodes<V, A>, p: NodeId, o: NodeId, d: NodeId): (r: Nodes<V, A>)
    requires p in nodes && o in nodes && p != o && !nodes[p].Leaf? && !nodes[o].Leaf?
    ensures r.Keys == nodes.Keys
  {
    Unlisted(Unlisted(nodes, p, d), o, d)
  }

  lemma PruneTwoAt<V, A>(nodes: Nodes<V, A>, next: NodeId, p: NodeId, o: NodeId, d: NodeId, x: NodeId)
    requires Wf(nodes, next) && p in nodes && o in nodes && p != o && !nodes[p].Leaf? && !nodes[o].Leaf? && x in nodes
    requires x != p && x != o ==> d !in Kids(nodes, x)
    ensures Prune(nodes, {d})[x] == RemoveFromBoth(nodes, p, o, d)[x]
  {
    PruneOneAt(nodes, next, d, x);
    RemoveFromBothAt(nodes, p, o, d, x);
  }

  lemma RemoveFromBothAt<V, A>(nodes: Nodes<V, A>, p: NodeId, o: NodeId, d: NodeId, x: NodeId)
    requires p in nodes && o in nodes && p != o && !nodes[p].Leaf? && !nodes[o].Leaf? && x in nodes
    ensures RemoveFromBoth(nodes, p, o, d)[x] ==
      if x == p || x == o then WithChildren(nodes[x], Remove(Kids(nodes, x), d)) else nodes[x]
  {
  }

  /** Taking out of every list a node that only `p` and `o` list is taking it out of those two. */
  lemma PruneOnlyTwo<V, A>(nodes: Nodes<V, A>, next: NodeId, p: NodeId, o: NodeId, d: NodeId)
    requires Wf(nodes, next) && p in nodes && o in nodes && p != o && !nodes[p].Leaf? && !nodes[o].Leaf?
    requires forall x :: x in nodes && x != p && x != o ==> d !in Kids(nodes, x)
    ensures Prune(nodes, {d}) == RemoveFromBoth(nodes, p, o, d)
  {
    var pr, fin := Prune(nodes, {d}), RemoveFromBoth(nodes, p, o, d);
    forall x | x in nodes ensures pr[x] == fin[x] {
      PruneTwoAt(nodes, next, p, o, d, x);
    }
    SameEntries(nodes, pr, fin);
  }

  /** The parent of leaf `d` other than `p`. */
  function OtherOf<V, A>(nodes: Nodes<V, A>, p: NodeId, d: NodeId): NodeId
    requires IsLeaf(nodes, d)
  {
    if nodes[d].parent1 == p then nodes[d].parent2 else nodes[d].parent1
  }

  /** A leaf listed under `p` has `p` and one other branch as its parents, and no other list holds it. */
  lemma LeafSides<V, A>(nodes: Nodes<V, A>, next: NodeId, p: NodeId, d: NodeId)
    requires Wf(nodes, next) && IsLeaf(nodes, d) && p in nodes && d in Kids(nodes, p)
    ensures IsBranch(nodes, p) && IsBranch(nodes, OtherOf(nodes, p, d)) && p != OtherOf(nodes, p, d)
    ensures {p, OtherOf(nodes, p, d)} == {nodes[d].parent1, nodes[d].parent2}
    ensures forall x :: x in nodes && x != p && x != OtherOf(nodes, p, d) ==> d !in Kids(nodes, x)
  {
    KidFacts(nodes, next, p, d);
    assert NodeOk(nodes, d);
    forall x | x in nodes && d in Kids(nodes, x) ensures x == p || x == OtherOf(nodes, p, d) {
      KidFacts(nodes, next, x, d);
    }
  }

  /**
   * Deleting a visible leaf listed under `p`: both of its parents are marked, then it leaves
   * the lists of both. That is the arena marked for a change of the leaf, pruned of the leaf.
   */
  lemma LeafDeleted<V, A>(n0: Nodes<V, A>, next: NodeId, p: NodeId, d: NodeId)
    requires Wf(n0, next) && IsLeaf(n0, d) && p in n0 && d in Kids(n0, p)
    ensures IsBranch(n0, p) && IsBranch(n0, OtherOf(n0, p, d)) && p != OtherOf(n0, p, d)
    ensures LeafDirty(n0, d) == DirtySet(n0, p) + DirtySet(n0, OtherOf(n0, p, d))
    ensures IsBranch(MarkUpdated(n0, LeafDirty(n0, d)), p)
    ensures IsBranch(MarkUpdated(n0, LeafDirty(n0, d)), OtherOf(n0, p, d))
    ensures Prune(MarkUpdated(n0, LeafDirty(n0, d)), {d}) == RemoveFromBoth(MarkUpdated(n0, LeafDirty(n0, d)), p, OtherOf(n0, p, d), d)
    ensures Wf(Prune(MarkUpdated(n0, LeafDirty(n0, d)), {d}), next)
  {
    var m := MarkUpdated(n0, LeafDirty(n0, d));
    LeafSides(n0, next, p, d);
    MarkUpdatedStructure(n0, LeafDirty(n0, d));
    SameStructureWf(n0, m, next);
    SameStructureKids(n0, m);
    PruneOnlyTwo(m, next, p, OtherOf(n0, p, d), d);
    PruneWf(m, next, {d});
  }

  /** ... and, flags aside, it is what deleting a visible node removes. */
  lemma LeafDoomed<V, A>(n0: Nodes<V, A>, d: NodeId)
    requires IsLeaf(n0, d) && IsVisible(n0, d)
    ensures Doomed(n0, d) == {d}
    ensures MoreUpdated(Prune(n0, Doomed(n0, d)), Prune(MarkUpdated(n0, LeafDirty(n0, d)), {d}))
  {
    DoomedSplit(n0, d);
    MarkUpdatedMore(n0, LeafDirty(n0, d));
    MoreUpdatedPrune(n0, MarkUpdated(n0, LeafDirty(n0, d)), {d});
  }

  /** The end of deleting a leaf: after both parents are marked, both lists lose the leaf. */
  lemma LeafFinish<V, A>(n0: Nodes<V, A>, next: NodeId, p: NodeId, d: NodeId, m: Nodes<V, A>, fin: Nodes<V, A>)
    requires Wf(n0, next) && IsLeaf(n0, d) && IsVisible(n0, d) && p in n0 && d in Kids(n0, p)
    requires IsBranch(n0, p) && IsBranch(n0, OtherOf(n0, p, d))
    requires m == MarkUpdated(n0, DirtySet(n0, p) + DirtySet(n0, OtherOf(n0, p, d)))
    requires p in m && OtherOf(n0, p, d) in m && p != OtherOf(n0, p, d) && !m[p].Leaf? && !m[OtherOf(n0, p, d)].Leaf?
    requires fin == RemoveFromBoth(m, p, OtherOf(n0, p, d), d)
    ensures Wf(fin, next)
    ensures fin == Prune(MarkUpdated(n0, LeafDirty(n0, d)), {d})
    ensures MoreUpdated(Prune(n0, Doomed(n0, d)), fin)
  {
    LeafDeleted(n0, next, p, d);
    LeafDoomed(n0, d);
  }
}
