/**
 * The theory of filter. A filter run from a start node pops nodes breadth-first from a queue
 * seeded with the start's children. Each popped node not visited before is set visible or
 * invisible by the predicate. A node the predicate keeps has its children queued, except
 * that a branch-only filter stops above leaves. A node the predicate rejects has everything
 * beneath it hidden.
 *
 * A run therefore judges a set of nodes and buries a set of nodes. `Styled` relates the
 * arena before and after: judged nodes carry the predicate's verdict, buried nodes are
 * invisible, every branch that setVisible on a judged or buried leaf dirties is flagged,
 * and nothing else changes.
 */
module Filtering {
  import opened Sequences
  import opened TreeNodes
  import opened Paths
  import opened Structure
  import opened Dirtying
  import opened Searching
  import opened Measure

  /** A kept node has its children queued, except that a branch-only filter stops above leaves. */
  ghost function KeepRule<V, A>(nodes: Nodes<V, A>, keep: Item<V> -> bool, loc: Location): NodeId -> bool {
    (x: NodeId) => keep(ItemAt(nodes, x)) && (loc != BranchNodes || FirstChildIsBranch(nodes, x))
  }

  /** The nodes a filter run from `s` pops. */
  ghost function Swept<V, A>(nodes: Nodes<V, A>, keep: Item<V> -> bool, loc: Location, s: NodeId): set<NodeId> {
    set x | x in nodes && Reach(nodes, KeepRule(nodes, keep, loc), Kids(nodes, s), x)
  }

  /** The popped nodes the run had not visited before: those it sets to the predicate's verdict. */
  ghost function Judged<V, A>(nodes: Nodes<V, A>, keep: Item<V> -> bool, loc: Location, s: NodeId,
                              vis: Option<set<NodeId>>): set<NodeId> {
    set x | x in Swept(nodes, keep, loc, s) && !Excluded(vis, x)
  }

  /** Everything strictly beneath `x`. */
  ghost function Under<V, A>(nodes: Nodes<V, A>, x: NodeId): set<NodeId> {
    set y | y in nodes && Below(nodes, x, y)
  }

  /** Everything strictly beneath a node of `d` that the predicate rejects. */
  ghost function BuriedBy<V, A>(nodes: Nodes<V, A>, keep: Item<V> -> bool, d: set<NodeId>): set<NodeId> {
    set y | y in nodes && exists h :: h in d && !keep(ItemAt(nodes, h)) && Below(nodes, h, y)
  }

  /** What a run from `s` would pop and finds already visited has no children. */
  ghost predicate FilterSkippable<V, A>(nodes: Nodes<V, A>, keep: Item<V> -> bool, loc: Location, s: NodeId,
                                        vis: Option<set<NodeId>>) {
    forall y :: y in Swept(nodes, keep, loc, s) && Excluded(vis, y) ==> Kids(nodes, y) == []
  }

  /** The node with visibility `v`, and flagged updated when `f` holds. */
  function Restyle<V, A>(n: Node<V, A>, v: bool, f: bool): Node<V, A> {
    if f then Flagged(WithVisible(n, v)) else WithVisible(n, v)
  }

  /** setVisible on a leaf of `s` runs setUpdated for its parents, and `x` is among the nodes marked. */
  ghost predicate Dirtied<V, A>(nodes: Nodes<V, A>, s: set<NodeId>, x: NodeId) {
    exists l :: l in s && IsLeaf(nodes, l) && x in LeafDirty(nodes, l)
  }

  /** The visibility of `x` once the nodes of `d` are judged and those of `b` hidden. */
  ghost function VisAfter<V, A>(nodes: Nodes<V, A>, keep: Item<V> -> bool, d: set<NodeId>, b: set<NodeId>,
                                x: NodeId): bool
    requires x in nodes
  {
    if x in b then false else if x in d then keep(ItemAt(nodes, x)) else nodes[x].visible
  }

  /**
   * `cur` is `nodes` once the nodes of `d` are set to the predicate's verdict and those of
   * `b` hidden (a hidden node stays hidden), with the flags that setVisible sets on the way.
   */
  ghost predicate Styled<V, A>(nodes: Nodes<V, A>, keep: Item<V> -> bool, d: set<NodeId>, b: set<NodeId>,
                               cur: Nodes<V, A>) {
    && cur.Keys == nodes.Keys
    && forall x :: x in nodes ==> cur[x] == Restyle(nodes[x], VisAfter(nodes, keep, d, b, x), Dirtied(nodes, d + b, x))
  }

  /** The arena after setVisible(x, v), as the arena's SetVisible leaves it. */
  ghost function Shown<V, A>(nodes: Nodes<V, A>, x: NodeId, v: bool): Nodes<V, A>
    requires x in nodes
  {
    if nodes[x].Leaf? then MarkUpdated(nodes, LeafDirty(nodes, x))[x := WithVisible(nodes[x], v)]
    else nodes[x := WithVisible(nodes[x], v)]
  }

  lemma RestyleFacts<V, A>(n: Node<V, A>, v: bool, f: bool, w: bool)
    ensures WithVisible(Restyle(n, v, f), w) == Restyle(n, w, f)
    ensures Flagged(Restyle(n, v, f)) == Restyle(n, v, true)
    ensures n.Leaf? ==> Restyle(n, v, f) == Restyle(n, v, false)
    ensures Restyle(n, v, f).visible == v
    ensures Strip(Restyle(n, v, f)) == Strip(n)
    ensures ItemOf(Restyle(n, v, f)) == ItemOf(n)
  {
    match n
    case Root(_, _, _, _) =>
    case Branch(_, _, _, _, _, _) =>
    case Leaf(_, _, _, _) =>
  }

  lemma RestyleSame<V, A>(n: Node<V, A>)
    ensures Restyle(n, n.visible, false) == n
  {
    match n
    case Root(_, _, _, _) =>
    case Branch(_, _, _, _, _, _) =>
    case Leaf(_, _, _, _) =>
  }

  /** Before anything is judged, the arena is as it was. */
  lemma StyledStart<V, A>(nodes: Nodes<V, A>, keep: Item<V> -> bool)
    ensures Styled(nodes, keep, {}, {}, nodes)
  {
    forall x | x in nodes
      ensures nodes[x] == Restyle(nodes[x], VisAfter(nodes, keep, {}, {}, x), Dirtied(nodes, {}, x))
    {
      RestyleSame(nodes[x]);
    }
  }

  /** Filtering changes flags and visibility only: no children list, parent or value. */
  lemma StyledStructure<V, A>(nodes: Nodes<V, A>, keep: Item<V> -> bool, d: set<NodeId>, b: set<NodeId>,
                              cur: Nodes<V, A>)
    requires Styled(nodes, keep, d, b, cur)
    ensures SameStructure(nodes, cur)
  {
    forall x | x in nodes ensures Strip(nodes[x]) == Strip(cur[x]) {
      RestyleFacts(nodes[x], VisAfter(nodes, keep, d, b, x), Dirtied(nodes, d + b, x), false);
    }
  }

  /** One more leaf set visible or invisible adds the branches its setVisible dirties. */
  lemma DirtiedAdd<V, A>(nodes: Nodes<V, A>, s: set<NodeId>, x: NodeId, y: NodeId)
    ensures Dirtied(nodes, s + {x}, y) <==> Dirtied(nodes, s, y) || (IsLeaf(nodes, x) && y in LeafDirty(nodes, x))
  {
    if Dirtied(nodes, s + {x}, y) {
      var l :| l in s + {x} && IsLeaf(nodes, l) && y in LeafDirty(nodes, l);
    }
  }

  /** What setVisible on `x` dirties is what it would dirty in the arena before filtering. */
  lemma ShownAt<V, A>(n0: Nodes<V, A>, bound: NodeId, keep: Item<V> -> bool, d: set<NodeId>, b: set<NodeId>,
                      cur: Nodes<V, A>, x: NodeId, v: bool, y: NodeId)
    requires Wf(n0, bound) && Styled(n0, keep, d, b, cur) && x in n0 && y in n0 && y != x
    ensures Shown(cur, x, v)[y] == if IsLeaf(n0, x) && y in LeafDirty(n0, x) then Flagged(cur[y]) else cur[y]
  {
    if n0[x].Leaf? {
      StyledStructure(n0, keep, d, b, cur);
      assert NodeOk(n0, x);
      DirtySetSameStructure(n0, cur, n0[x].parent1);
      DirtySetSameStructure(n0, cur, n0[x].parent2);
      assert Strip(n0[x]) == Strip(cur[x]);
      assert LeafDirty(cur, x) == LeafDirty(n0, x);
    }
  }

  /** setVisible on `x` with the predicate's verdict judges `x`. */
  lemma StyledJudge<V, A>(n0: Nodes<V, A>, bound: NodeId, keep: Item<V> -> bool, d: set<NodeId>, b: set<NodeId>,
                          cur: Nodes<V, A>, x: NodeId)
    requires Wf(n0, bound) && Styled(n0, keep, d, b, cur) && x in n0 && x !in b
    ensures Styled(n0, keep, d + {x}, b, Shown(cur, x, keep(ItemAt(n0, x))))
  {
    var v := keep(ItemAt(n0, x));
    var c' := Shown(cur, x, v);
    assert (d + {x}) + b == (d + b) + {x};
    forall y | y in n0
      ensures c'[y] == Restyle(n0[y], VisAfter(n0, keep, d + {x}, b, y), Dirtied(n0, (d + {x}) + b, y))
    {
      DirtiedAdd(n0, d + b, x, y);
      var f := Dirtied(n0, d + b, y);
      RestyleFacts(n0[y], VisAfter(n0, keep, d, b, y), f, v);
      if y == x {
        RestyleFacts(n0[y], v, f, v);
      } else {
        ShownAt(n0, bound, keep, d, b, cur, x, v, y);
      }
    }
  }

  /** setVisible(false) on `x` hides `x`. */
  lemma StyledHide<V, A>(n0: Nodes<V, A>, bound: NodeId, keep: Item<V> -> bool, d: set<NodeId>, b: set<NodeId>,
                         cur: Nodes<V, A>, x: NodeId)
    requires Wf(n0, bound) && Styled(n0, keep, d, b, cur) && x in n0
    ensures Styled(n0, keep, d, b + {x}, Shown(cur, x, false))
  {
    var c' := Shown(cur, x, false);
    assert d + (b + {x}) == (d + b) + {x};
    forall y | y in n0
      ensures c'[y] == Restyle(n0[y], VisAfter(n0, keep, d, b + {x}, y), Dirtied(n0, d + (b + {x}), y))
    {
      DirtiedAdd(n0, d + b, x, y);
      var f := Dirtied(n0, d + b, y);
      RestyleFacts(n0[y], VisAfter(n0, keep, d, b, y), f, false);
      if y == x {
        RestyleFacts(n0[y], false, f, false);
      } else {
        ShownAt(n0, bound, keep, d, b, cur, x, false, y);
      }
    }
  }

  /** What the first `j` children of `x` and everything beneath them hold. */
  ghost function UnderUpTo<V, A>(nodes: Nodes<V, A>, x: NodeId, j: nat): set<NodeId>
    requires j <= |Kids(nodes, x)|
  {
    set y | y in nodes && Reach(nodes, Always(), Kids(nodes, x)[..j], y)
  }

  lemma UnderUpToNone<V, A>(nodes: Nodes<V, A>, x: NodeId)
    ensures UnderUpTo(nodes, x, 0) == {}
  {
    assert Kids(nodes, x)[..0] == [];
  }

  lemma UnderUpToAll<V, A>(nodes: Nodes<V, A>, x: NodeId)
    ensures UnderUpTo(nodes, x, |Kids(nodes, x)|) == Under(nodes, x)
  {
    assert Kids(nodes, x)[..|Kids(nodes, x)|] == Kids(nodes, x);
  }

  /** The next child brings itself and what lies beneath it. */
  lemma UnderUpToStep<V, A>(nodes: Nodes<V, A>, bound: NodeId, x: NodeId, j: nat)
    requires Wf(nodes, bound) && x in nodes && j < |Kids(nodes, x)|
    ensures Kids(nodes, x)[j] in nodes && x < Kids(nodes, x)[j] < bound
    ensures UnderUpTo(nodes, x, j + 1) == UnderUpTo(nodes, x, j) + {Kids(nodes, x)[j]} + Under(nodes, Kids(nodes, x)[j])
  {
    var cs := Kids(nodes, x);
    var c := cs[j];
    KidFacts(nodes, bound, x, c);
    var e := Always();
    assert cs[..j + 1] == cs[..j] + [c];
    forall y | y in nodes
      ensures Reach(nodes, e, cs[..j + 1], y) <==> Reach(nodes, e, cs[..j], y) || y == c || Below(nodes, c, y)
    {
      ReachSnoc(nodes, e, cs[..j], c, y);
    }
  }

  /** A walk from `a + [c]` reaches what one from `a` reaches, `c`, and what lies under an expanding `c`. */
  lemma ReachSnoc<V, A>(nodes: Nodes<V, A>, e: NodeId -> bool, a: seq<NodeId>, c: NodeId, y: NodeId)
    ensures Reach(nodes, e, a + [c], y) <==> Reach(nodes, e, a, y) || y == c || (e(c) && Reach(nodes, e, Kids(nodes, c), y))
  {
    if Reach(nodes, e, a + [c], y) {
      var p :| IsPath(nodes, e, p) && p[0] in a + [c] && p[|p| - 1] == y;
      if p[0] !in a {
        if y != c {
          ReachFirstStep(nodes, e, [c], y);
        }
      }
    }
    if Reach(nodes, e, a, y) {
      var p :| IsPath(nodes, e, p) && p[0] in a && p[|p| - 1] == y;
      assert p[0] in a + [c];
    }
    if y == c {
      ReachStart(nodes, e, a + [c], c);
    }
    if e(c) && Reach(nodes, e, Kids(nodes, c), y) {
      ReachThrough(nodes, e, a + [c], c, y);
    }
  }

  /** Judging one more node buries what lies beneath it when the predicate rejects it. */
  lemma BuriedByAdd<V, A>(nodes: Nodes<V, A>, keep: Item<V> -> bool, d: set<NodeId>, x: NodeId)
    ensures keep(ItemAt(nodes, x)) ==> BuriedBy(nodes, keep, d + {x}) == BuriedBy(nodes, keep, d)
    ensures !keep(ItemAt(nodes, x)) ==> BuriedBy(nodes, keep, d + {x}) == BuriedBy(nodes, keep, d) + Under(nodes, x)
  {
  }

  /**
   * The subtree of a rejected node is never queued: a node a run reaches does not lie beneath
   * another node the run reaches and the predicate rejects.
   */
  lemma SweptNotBuried<V, A>(nodes: Nodes<V, A>, bound: NodeId, keep: Item<V> -> bool, loc: Location, s: NodeId,
                             h: NodeId, y: NodeId)
    requires Wf(nodes, bound) && s in nodes
    requires Reach(nodes, KeepRule(nodes, keep, loc), Kids(nodes, s), h)
    requires Reach(nodes, KeepRule(nodes, keep, loc), Kids(nodes, s), y)
    requires Below(nodes, h, y)
    ensures keep(ItemAt(nodes, h))
  {
    var e := KeepRule(nodes, keep, loc);
    var py :| IsPath(nodes, e, py) && py[0] in Kids(nodes, s) && py[|py| - 1] == y;
    ThroughAncestor(nodes, bound, e, e, s, h, y, py);
    var i :| 0 <= i < |py| - 1 && py[i] == h;
    assert e(py[i]);
  }

  /** Hence a node a run reaches is never buried by the nodes it judges. */
  lemma SweptOutsideBuried<V, A>(nodes: Nodes<V, A>, bound: NodeId, keep: Item<V> -> bool, loc: Location,
                                 s: NodeId, d: set<NodeId>, y: NodeId)
    requires Wf(nodes, bound) && s in nodes && d <= Swept(nodes, keep, loc, s)
    requires Reach(nodes, KeepRule(nodes, keep, loc), Kids(nodes, s), y)
    ensures y !in BuriedBy(nodes, keep, d)
  {
    if y in BuriedBy(nodes, keep, d) {
      var h :| h in d && !keep(ItemAt(nodes, h)) && Below(nodes, h, y);
      SweptNotBuried(nodes, bound, keep, loc, s, h, y);
    }
  }

  /** After the loop: the run popped exactly what it reaches and judged what it had not visited. */
  lemma FilterEnd<V, A>(nodes: Nodes<V, A>, keep: Item<V> -> bool, loc: Location, s: NodeId,
                        vis: Option<set<NodeId>>, popped: set<NodeId>, done: set<NodeId>)
    requires FilterSkippable(nodes, keep, loc, s, vis)
    requires WalkInv(nodes, KeepRule(nodes, keep, loc), Kids(nodes, s), [], popped, done)
    requires vis.Some? ==> popped <= done + vis.value && done !! vis.value
    requires vis.None? ==> popped == done
    ensures popped == Swept(nodes, keep, loc, s)
    ensures done == Judged(nodes, keep, loc, s, vis)
  {
    forall v | v in popped && v !in done ensures Kids(nodes, v) == [] {
      assert v in Swept(nodes, keep, loc, s) && Excluded(vis, v);
    }
    WalkFinish(nodes, KeepRule(nodes, keep, loc), Kids(nodes, s), popped, done);
  }

  /** Nothing lies beneath a node without children. */
  lemma UnderNone<V, A>(nodes: Nodes<V, A>, x: NodeId)
    requires Kids(nodes, x) == []
    ensures Under(nodes, x) == {}
  {
  }

  lemma RestyleTwice<V, A>(n: Node<V, A>, v1: bool, f1: bool, v2: bool, f2: bool)
    ensures Restyle(Restyle(n, v1, f1), v2, f2) == Restyle(n, v2, f1 || f2)
  {
    match n
    case Root(_, _, _, _) =>
    case Branch(_, _, _, _, _, _) =>
    case Leaf(_, _, _, _) =>
  }

  lemma DirtiedUnion<V, A>(nodes: Nodes<V, A>, s: set<NodeId>, t: set<NodeId>, x: NodeId)
    ensures Dirtied(nodes, s + t, x) <==> Dirtied(nodes, s, x) || Dirtied(nodes, t, x)
  {
    if Dirtied(nodes, s + t, x) {
      var l :| l in s + t && IsLeaf(nodes, l) && x in LeafDirty(nodes, l);
    }
  }

  /** setVisible dirties the same branches in arenas of the same structure. */
  lemma DirtiedSameStructure<V, A>(a: Nodes<V, A>, b: Nodes<V, A>, s: set<NodeId>, x: NodeId)
    requires SameStructure(a, b)
    ensures Dirtied(a, s, x) <==> Dirtied(b, s, x)
  {
    SameStructureKids(a, b);
    forall l | IsLeaf(a, l) ensures LeafDirty(a, l) == LeafDirty(b, l) {
      assert Strip(a[l]) == Strip(b[l]);
      var p1, p2 := a[l].parent1, a[l].parent2;
      if IsBranch(a, p1) {
        DirtySetSameStructure(a, b, p1);
      }
      if IsBranch(a, p2) {
        DirtySetSameStructure(a, b, p2);
      }
    }
    if Dirtied(a, s, x) {
      var l :| l in s && IsLeaf(a, l) && x in LeafDirty(a, l);
    }
    if Dirtied(b, s, x) {
      var l :| l in s && IsLeaf(b, l) && x in LeafDirty(b, l);
    }
  }

  /**
   * A second run on the result of a first: when the second does not judge what the first
   * buried, the two together judge and bury the unions.
   */
  lemma StyledTwice<V, A>(n0: Nodes<V, A>, n1: Nodes<V, A>, n2: Nodes<V, A>, keep: Item<V> -> bool,
                          d1: set<NodeId>, b1: set<NodeId>, d2: set<NodeId>, b2: set<NodeId>)
    requires Styled(n0, keep, d1, b1, n1) && Styled(n1, keep, d2, b2, n2) && d2 !! b1
    ensures Styled(n0, keep, d1 + d2, b1 + b2, n2)
  {
    StyledStructure(n0, keep, d1, b1, n1);
    SameStructureKids(n0, n1);
    forall x | x in n0
      ensures n2[x] == Restyle(n0[x], VisAfter(n0, keep, d1 + d2, b1 + b2, x), Dirtied(n0, (d1 + d2) + (b1 + b2), x))
    {
      var f1 := Dirtied(n0, d1 + b1, x);
      RestyleTwice(n0[x], VisAfter(n0, keep, d1, b1, x), f1, VisAfter(n1, keep, d2, b2, x), Dirtied(n1, d2 + b2, x));
      RestyleFacts(n0[x], VisAfter(n0, keep, d1, b1, x), f1, false);
      DirtiedSameStructure(n0, n1, d2 + b2, x);
      DirtiedUnion(n0, d1 + b1, d2 + b2, x);
      assert (d1 + b1) + (d2 + b2) == (d1 + d2) + (b1 + b2);
    }
  }

  /** A walk from the children of `s` and then down from `h` is a walk from the children of `s`. */
  lemma ReachConcat<V, A>(nodes: Nodes<V, A>, e: NodeId -> bool, starts: seq<NodeId>, h: NodeId, y: NodeId)
    requires Reach(nodes, e, starts, h) && e(h) && Reach(nodes, e, Kids(nodes, h), y)
    ensures Reach(nodes, e, starts, y)
  {
    var p :| IsPath(nodes, e, p) && p[0] in starts && p[|p| - 1] == h;
    var q :| IsPath(nodes, e, q) && q[0] in Kids(nodes, h) && q[|q| - 1] == y;
    var r := p + q;
    assert IsPath(nodes, e, r) by {
      forall i | 0 <= i < |r| - 1 ensures e(r[i]) && r[i + 1] in Kids(nodes, r[i]) {
        if i < |p| - 1 {
          assert r[i] == p[i] && r[i + 1] == p[i + 1];
        } else if i == |p| - 1 {
          assert r[i] == h && r[i + 1] == q[0];
        } else {
          assert r[i] == q[i - |p|] && r[i + 1] == q[i - |p| + 1];
        }
      }
    }
    assert r[0] == p[0] && r[|r| - 1] == y;
  }

  /** A node other than a leaf that some walk from a root reaches belongs to that root's axis. */
  lemma ReachedAxis<V, A>(nodes: Nodes<V, A>, bound: NodeId, e: NodeId -> bool, r: NodeId, y: NodeId)
    requires Wf(nodes, bound) && IsRoot(nodes, r) && Reach(nodes, e, Kids(nodes, r), y) && y in nodes && !nodes[y].Leaf?
    ensures Axis(nodes, y) == r
  {
    var p :| IsPath(nodes, e, p) && p[0] in Kids(nodes, r) && p[|p| - 1] == y;
    AxisAlongPath(nodes, bound, e, r, p, |p| - 1);
  }

  /** What a run from a root buries lies beneath that root. */
  lemma BuriedBeneath<V, A>(nodes: Nodes<V, A>, keep: Item<V> -> bool, loc: Location, r: NodeId,
                            d: set<NodeId>, y: NodeId)
    requires d <= Swept(nodes, keep, loc, r) && y in BuriedBy(nodes, keep, d)
    ensures Reach(nodes, Always(), Kids(nodes, r), y)
  {
    var h :| h in d && !keep(ItemAt(nodes, h)) && Below(nodes, h, y);
    ReachWeaker(nodes, KeepRule(nodes, keep, loc), Always(), Kids(nodes, r), h);
    ReachConcat(nodes, Always(), Kids(nodes, r), h, y);
  }

  /** A node beneath both roots is a leaf. */
  lemma BeneathBoth<V, A>(nodes: Nodes<V, A>, bound: NodeId, e1: NodeId -> bool, e2: NodeId -> bool, y: NodeId)
    requires Wf(nodes, bound) && y in nodes
    requires Reach(nodes, e1, Kids(nodes, RootNode1), y) && Reach(nodes, e2, Kids(nodes, RootNode2), y)
    ensures IsLeaf(nodes, y) && Kids(nodes, y) == []
  {
    if !nodes[y].Leaf? {
      ReachedAxis(nodes, bound, e1, RootNode1, y);
      ReachedAxis(nodes, bound, e2, RootNode2, y);
    }
  }

  /** A run reaches the same nodes in arenas of the same structure. */
  lemma SweptSameStructure<V, A>(a: Nodes<V, A>, b: Nodes<V, A>, keep: Item<V> -> bool, loc: Location, s: NodeId)
    requires SameStructure(a, b)
    ensures Swept(a, keep, loc, s) == Swept(b, keep, loc, s)
    ensures forall d :: BuriedBy(a, keep, d) == BuriedBy(b, keep, d)
  {
    SameStructureKids(a, b);
    forall y ensures KeepRule(a, keep, loc)(y) == KeepRule(b, keep, loc)(y) {
      assert FirstChildIsBranch(a, y) == FirstChildIsBranch(b, y);
    }
    forall y ensures Reach(a, KeepRule(a, keep, loc), Kids(a, s), y) <==> Reach(b, KeepRule(b, keep, loc), Kids(b, s), y) {
      ReachSameKids(a, b, KeepRule(a, keep, loc), KeepRule(b, keep, loc), Kids(a, s), y);
    }
    forall h, y ensures Below(a, h, y) <==> Below(b, h, y) {
      ReachSameKids(a, b, Always(), Always(), Kids(a, h), y);
    }
  }

  /** What filtering leaves of one node's structure: its children, their kind, what it shows. */
  lemma StyledAt<V, A>(nodes: Nodes<V, A>, keep: Item<V> -> bool, d: set<NodeId>, b: set<NodeId>,
                       cur: Nodes<V, A>, x: NodeId)
    requires Styled(nodes, keep, d, b, cur)
    ensures Kids(cur, x) == Kids(nodes, x) && FirstChildIsBranch(cur, x) == FirstChildIsBranch(nodes, x)
    ensures ItemAt(cur, x) == ItemAt(nodes, x)
    ensures x in nodes ==> cur[x].visible == VisAfter(nodes, keep, d, b, x)
  {
    StyledStructure(nodes, keep, d, b, cur);
    SameStructureKids(nodes, cur);
    if x in nodes {
      RestyleFacts(nodes[x], VisAfter(nodes, keep, d, b, x), Dirtied(nodes, d + b, x), false);
    }
  }

  /**
   * The state of a filter run between two rounds: the queue, the nodes popped and judged so
   * far, what the judged ones buried, the visited set and the arena `cur`.
   */
  ghost predicate FilterInv<V, A>(n0: Nodes<V, A>, bound: NodeId, keep: Item<V> -> bool, loc: Location, s: NodeId,
                                  vis0: Option<set<NodeId>>, queue: seq<NodeId>, popped: set<NodeId>,
                                  done: set<NodeId>, b: set<NodeId>, visited: Option<set<NodeId>>, cur: Nodes<V, A>) {
    && Wf(n0, bound) && s in n0
    && WalkInv(n0, KeepRule(n0, keep, loc), Kids(n0, s), queue, popped, done)
    && b == BuriedBy(n0, keep, done) && Styled(n0, keep, done, b, cur)
    && visited.Some? == vis0.Some?
    && (visited.Some? ==> visited.value == vis0.value + done + b && done !! vis0.value && popped <= done + vis0.value)
    && (visited.None? ==> popped == done)
  }

  /** The node a round pops is in the arena and not yet buried. */
  lemma FilterPop<V, A>(n0: Nodes<V, A>, bound: NodeId, keep: Item<V> -> bool, loc: Location, s: NodeId,
                        vis0: Option<set<NodeId>>, queue: seq<NodeId>, popped: set<NodeId>,
                        done: set<NodeId>, b: set<NodeId>, visited: Option<set<NodeId>>, cur: Nodes<V, A>)
    requires FilterInv(n0, bound, keep, loc, s, vis0, queue, popped, done, b, visited, cur) && queue != []
    ensures queue[0] in n0 && queue[0] !in b
  {
    assert queue[0] in queue;
    assert done <= Swept(n0, keep, loc, s);
    SweptOutsideBuried(n0, bound, keep, loc, s, done, queue[0]);
  }

  /**
   * One round: the head is popped; when not visited before it is judged, and `grow` says
   * whether its children are queued. The state after the round (primed) satisfies the
   * invariant again, and the queue measure shrinks.
   */
  lemma FilterAdvance<V, A>(n0: Nodes<V, A>, bound: NodeId, keep: Item<V> -> bool, loc: Location, s: NodeId,
                            vis0: Option<set<NodeId>>, queue: seq<NodeId>, popped: set<NodeId>,
                            done: set<NodeId>, b: set<NodeId>, visited: Option<set<NodeId>>, cur: Nodes<V, A>,
                            unseen: bool, grow: bool, queue': seq<NodeId>, popped': set<NodeId>, done': set<NodeId>,
                            b': set<NodeId>, visited': Option<set<NodeId>>, cur': Nodes<V, A>)
    requires FilterInv(n0, bound, keep, loc, s, vis0, queue, popped, done, b, visited, cur) && queue != []
    requires unseen == (visited.None? || queue[0] !in visited.value)
    requires grow == (unseen && keep(ItemAt(n0, queue[0])) && Kids(n0, queue[0]) != [] &&
                      (loc == AllNodes || (loc == BranchNodes && FirstChildIsBranch(n0, queue[0])) || loc == LeafNodes))
    requires queue' == if grow then queue[1..] + Kids(n0, queue[0]) else queue[1..]
    requires popped' == popped + {queue[0]} && done' == if unseen then done + {queue[0]} else done
    requires unseen ==> b' == BuriedBy(n0, keep, done') && Styled(n0, keep, done', b', cur')
    requires unseen ==> visited'.Some? == visited.Some? &&
                        (visited.Some? ==> visited'.value == vis0.value + done' + b')
    requires !unseen ==> visited' == visited && b' == b && cur' == cur
    ensures FilterInv(n0, bound, keep, loc, s, vis0, queue', popped', done', b', visited', cur')
    ensures QSum(n0, bound, queue') < QSum(n0, bound, queue)
  {
    var x, e := queue[0], KeepRule(n0, keep, loc);
    FilterPop(n0, bound, keep, loc, s, vis0, queue, popped, done, b, visited, cur);
    GrowIsWalkNext(n0, keep, loc, queue, unseen, grow);
    WalkAdvance(n0, bound, e, Kids(n0, s), queue, popped, done, unseen, queue', popped', done');
    FilterAdvanceVisited(vis0, popped, done, b, visited, x, unseen, popped', done', b', visited');
  }

  /** The queue a round leaves is the one the walk theory describes. */
  lemma GrowIsWalkNext<V, A>(n0: Nodes<V, A>, keep: Item<V> -> bool, loc: Location, queue: seq<NodeId>, unseen: bool, grow: bool)
    requires queue != []
    requires grow == (unseen && keep(ItemAt(n0, queue[0])) && Kids(n0, queue[0]) != [] &&
                      (loc == AllNodes || (loc == BranchNodes && FirstChildIsBranch(n0, queue[0])) || loc == LeafNodes))
    ensures (if grow then queue[1..] + Kids(n0, queue[0]) else queue[1..]) == WalkNext(n0, KeepRule(n0, keep, loc), queue, unseen)
  {
  }

  lemma WalkAdvance<V, A>(nodes: Nodes<V, A>, bound: NodeId, e: NodeId -> bool, starts: seq<NodeId>,
                          queue: seq<NodeId>, popped: set<NodeId>, done: set<NodeId>, unseen: bool,
                          queue': seq<NodeId>, popped': set<NodeId>, done': set<NodeId>)
    requires Wf(nodes, bound) && WalkInv(nodes, e, starts, queue, popped, done) && queue != [] && queue[0] in nodes
    requires queue' == WalkNext(nodes, e, queue, unseen)
    requires popped' == popped + {queue[0]} && done' == if unseen then done + {queue[0]} else done
    ensures WalkInv(nodes, e, starts, queue', popped', done')
    ensures QSum(nodes, bound, queue') < QSum(nodes, bound, queue)
  {
    WalkShrinks(nodes, bound, e, queue, unseen);
    WalkStep(nodes, e, starts, queue, popped, done, unseen);
  }

  /** When the queue is empty: what the run leaves behind, in terms of the arena it started from. */
  lemma FilterFinish<V, A>(n0: Nodes<V, A>, bound: NodeId, keep: Item<V> -> bool, loc: Location, s: NodeId,
                           vis0: Option<set<NodeId>>, popped: set<NodeId>, done: set<NodeId>, b: set<NodeId>,
                           visited: Option<set<NodeId>>, cur: Nodes<V, A>)
    requires FilterSkippable(n0, keep, loc, s, vis0)
    requires FilterInv(n0, bound, keep, loc, s, vis0, [], popped, done, b, visited, cur)
    ensures Styled(n0, keep, Judged(n0, keep, loc, s, vis0), BuriedBy(n0, keep, Judged(n0, keep, loc, s, vis0)), cur)
    ensures visited.Some? == vis0.Some?
    ensures visited.Some? ==> visited.value == vis0.value + Swept(n0, keep, loc, s) + BuriedBy(n0, keep, Judged(n0, keep, loc, s, vis0))
  {
    FilterEnd(n0, keep, loc, s, vis0, popped, done);
    if visited.Some? {
      assert vis0.value + done == vis0.value + popped;
    }
  }

  /** The visited set of a round: it grows by what the round judges and buries. */
  lemma FilterAdvanceVisited(vis0: Option<set<NodeId>>, popped: set<NodeId>, done: set<NodeId>, b: set<NodeId>,
                             visited: Option<set<NodeId>>, x: NodeId, unseen: bool,
                             popped': set<NodeId>, done': set<NodeId>, b': set<NodeId>, visited': Option<set<NodeId>>)
    requires visited.Some? == vis0.Some?
    requires visited.Some? ==> visited.value == vis0.value + done + b && done !! vis0.value && popped <= done + vis0.value
    requires visited.None? ==> popped == done
    requires x !in b && unseen == (visited.None? || x !in visited.value)
    requires popped' == popped + {x} && done' == if unseen then done + {x} else done
    requires unseen ==> visited'.Some? == visited.Some? && (visited.Some? ==> visited'.value == vis0.value + done' + b')
    requires !unseen ==> visited' == visited && b' == b
    ensures visited'.Some? == vis0.Some?
    ensures visited'.Some? ==> visited'.value == vis0.value + done' + b' && done' !! vis0.value && popped' <= done' + vis0.value
    ensures visited'.None? ==> popped' == done'
  {
  }

  /** The visited set the façade's filter starts with: shared by both runs only for a filter over all nodes. */
  function StartVisited(loc: Location): Option<set<NodeId>> {
    if loc == AllNodes then Some({}) else None
  }

  /** The nodes the run from the first root judges. */
  ghost function FirstJudged<V, A>(n0: Nodes<V, A>, keep: Item<V> -> bool, loc: Location): set<NodeId> {
    Judged(n0, keep, loc, RootNode1, StartVisited(loc))
  }

  /** The visited set the run from the second root starts with. */
  ghost function SecondVisited<V, A>(n0: Nodes<V, A>, keep: Item<V> -> bool, loc: Location): Option<set<NodeId>> {
    if loc == AllNodes then Some({} + Swept(n0, keep, loc, RootNode1) + BuriedBy(n0, keep, FirstJudged(n0, keep, loc)))
    else None
  }

  /** The nodes the run from the second root judges; a leaf filter makes no second run. */
  ghost function SecondJudged<V, A>(n0: Nodes<V, A>, keep: Item<V> -> bool, loc: Location): set<NodeId> {
    if loc == LeafNodes then {} else Judged(n0, keep, loc, RootNode2, SecondVisited(n0, keep, loc))
  }

  /** Everything the façade's filter judges, and everything it buries. */
  ghost function FilterJudged<V, A>(n0: Nodes<V, A>, keep: Item<V> -> bool, loc: Location): set<NodeId> {
    FirstJudged(n0, keep, loc) + SecondJudged(n0, keep, loc)
  }

  ghost function FilterBuried<V, A>(n0: Nodes<V, A>, keep: Item<V> -> bool, loc: Location): set<NodeId> {
    BuriedBy(n0, keep, FirstJudged(n0, keep, loc)) + BuriedBy(n0, keep, SecondJudged(n0, keep, loc))
  }

  /** The first run may start: nothing is visited yet. */
  lemma FirstRunReady<V, A>(n0: Nodes<V, A>, keep: Item<V> -> bool, loc: Location)
    ensures FilterSkippable(n0, keep, loc, RootNode1, StartVisited(loc))
  {
  }

  /**
   * After the first run, the second may start from the second root: what it would pop and
   * finds visited is a leaf shared by both axes, it sees the arena as the first run found it,
   * and it never judges a node the first run buried. For a filter over all nodes the visited
   * set keeps it off those; for a branch-only filter the two runs stay on different axes.
   */
  lemma SecondRunReady<V, A>(n0: Nodes<V, A>, bound: NodeId, keep: Item<V> -> bool, loc: Location, n1: Nodes<V, A>)
    requires Wf(n0, bound) && loc != LeafNodes && SameStructure(n0, n1)
    ensures FilterSkippable(n1, keep, loc, RootNode2, SecondVisited(n0, keep, loc))
    ensures Judged(n1, keep, loc, RootNode2, SecondVisited(n0, keep, loc)) == SecondJudged(n0, keep, loc)
    ensures BuriedBy(n1, keep, SecondJudged(n0, keep, loc)) == BuriedBy(n0, keep, SecondJudged(n0, keep, loc))
    ensures SecondJudged(n0, keep, loc) !! BuriedBy(n0, keep, FirstJudged(n0, keep, loc))
  {
    var j1, sv := FirstJudged(n0, keep, loc), SecondVisited(n0, keep, loc);
    SweptSameStructure(n0, n1, keep, loc, RootNode2);
    SameStructureKids(n0, n1);
    forall y | y in Swept(n1, keep, loc, RootNode2) && Excluded(sv, y) ensures Kids(n1, y) == [] {
      if y in Swept(n0, keep, loc, RootNode1) {
        BeneathBoth(n0, bound, KeepRule(n0, keep, loc), KeepRule(n0, keep, loc), y);
      } else {
        BuriedBeneath(n0, keep, loc, RootNode1, j1, y);
        BeneathBoth(n0, bound, Always(), KeepRule(n0, keep, loc), y);
      }
    }
    forall y | y in SecondJudged(n0, keep, loc) && y in BuriedBy(n0, keep, j1) ensures false {
      if loc == BranchNodes {
        var e := KeepRule(n0, keep, loc);
        ReachBranches(n0, bound, e, RootNode2, y);
        ReachedAxis(n0, bound, e, RootNode2, y);
        BuriedBeneath(n0, keep, loc, RootNode1, j1, y);
        ReachedAxis(n0, bound, Always(), RootNode1, y);
      }
    }
  }
}
