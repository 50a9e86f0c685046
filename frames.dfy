/**
 * Framing for the operations that add nodes or rewrite children lists: when every node
 * keeps its kind and parents, the axes and ancestries stay the same, and well-formedness
 * only has to be re-established for the children lists that changed.
 */
module Frames {
  import opened Sequences
  import opened TreeNodes

  /** Same kind and same parents; children, flags, visibility and cache may differ. */
  predicate SameLinks<V, A>(m: Node<V, A>, n: Node<V, A>) {
    match m
    case Root(_, _, _, _) => n.Root?
    case Branch(_, _, p, _, _, _) => n.Branch? && n.parent == p
    case Leaf(_, _, p1, p2) => n.Leaf? && n.parent1 == p1 && n.parent2 == p2
  }

  /** `b` holds every node of `a`, each with its kind and parents unchanged. */
  ghost predicate Extends<V, A>(a: Nodes<V, A>, b: Nodes<V, A>) {
    a.Keys <= b.Keys && forall x :: x in a ==> SameLinks(a[x], b[x])
  }

  lemma ExtendsTrans<V, A>(a: Nodes<V, A>, b: Nodes<V, A>, c: Nodes<V, A>)
    requires Extends(a, b) && Extends(b, c)
    ensures Extends(a, c)
  {
  }

  /** Adding a node extends an arena. */
  lemma ExtendsAdd<V, A>(a: Nodes<V, A>, y: NodeId, n: Node<V, A>)
    requires y !in a
    ensures Extends(a, a[y := n])
  {
    forall x | x in a ensures SameLinks(a[x], a[y := n][x]) {
      assert a[y := n][x] == a[x];
      match a[x]
      case Root(_, _, _, _) =>
      case Branch(_, _, _, _, _, _) =>
      case Leaf(_, _, _, _) =>
    }
  }

  /** Replacing one children list extends an arena. */
  lemma ExtendsWithChildren<V, A>(a: Nodes<V, A>, y: NodeId, cs: seq<NodeId>)
    requires y in a
    ensures Extends(a, a[y := WithChildren(a[y], cs)])
  {
    var b := a[y := WithChildren(a[y], cs)];
    forall x | x in a ensures SameLinks(a[x], b[x]) {
      match a[x]
      case Root(_, _, _, _) =>
      case Branch(_, _, _, _, _, _) =>
      case Leaf(_, _, _, _) =>
    }
  }

  lemma {:induction false} ExtendsAxis<V, A>(a: Nodes<V, A>, na: NodeId, b: Nodes<V, A>, x: NodeId)
    requires Wf(a, na) && Extends(a, b) && x in a
    ensures Axis(b, x) == Axis(a, x) && Ancestry(b, x) == Ancestry(a, x)
    decreases x
  {
    assert NodeOk(a, x);
    if a[x].Branch? {
      ExtendsAxis(a, na, b, a[x].parent);
    }
  }

  lemma UniformMember<V, A>(nodes: Nodes<V, A>, cs: seq<NodeId>, c: NodeId)
    requires UniformKids(nodes, cs) && c in cs
    ensures IsLeaf(nodes, c) == IsLeaf(nodes, cs[0])
  {
    var i :| 0 <= i < |cs| && cs[i] == c;
  }

  /** A children list stays valid when the arena grows and the list drops or reorders members. */
  lemma ChildrenOkSub<V, A>(a: Nodes<V, A>, b: Nodes<V, A>, x: NodeId, cs: seq<NodeId>, ds: seq<NodeId>)
    requires Extends(a, b) && ChildrenOk(a, x, cs)
    requires NoDup(ds) && forall c :: c in ds ==> c in cs
    ensures ChildrenOk(b, x, ds)
  {
    forall c | c in ds ensures c in b && x < c && ParentLink(b, x, c) && IsLeaf(b, c) == IsLeaf(a, c) {
      assert SameLinks(a[c], b[c]);
    }
    forall i | 0 <= i < |ds| ensures IsLeaf(b, ds[i]) <==> IsLeaf(b, ds[0]) {
      UniformMember(a, cs, ds[i]);
      UniformMember(a, cs, ds[0]);
    }
  }

  /** A children list stays valid when a new child of the same kind is inserted into it. */
  lemma ChildrenOkInsert<V, A>(a: Nodes<V, A>, b: Nodes<V, A>, x: NodeId, cs: seq<NodeId>, i: nat, y: NodeId)
    requires Extends(a, b) && ChildrenOk(a, x, cs) && i <= |cs|
    requires y in b && y !in cs && x < y && ParentLink(b, x, y)
    requires cs == [] || (IsLeaf(a, cs[0]) <==> IsLeaf(b, y))
    ensures ChildrenOk(b, x, InsertAt(cs, i, y))
  {
    var ds := InsertAt(cs, i, y);
    NoDupInsert(cs, i, y);
    forall c | c in cs ensures c in b && x < c && ParentLink(b, x, c) && IsLeaf(b, c) == IsLeaf(a, c) {
      assert SameLinks(a[c], b[c]);
    }
    forall k | 0 <= k < |ds| ensures IsLeaf(b, ds[k]) <==> IsLeaf(b, ds[0]) {
      if ds[k] != y {
        UniformMember(a, cs, ds[k]);
      }
      if ds[0] != y {
        UniformMember(a, cs, ds[0]);
      }
    }
  }

  /**
   * Well-formedness carries over to `b` when the new nodes are well-formed non-roots with
   * fresh ids, every old root or branch has a valid children list, and every old leaf is
   * still listed by both parents or by neither.
   */
  lemma WfFrame<V, A>(a: Nodes<V, A>, na: NodeId, b: Nodes<V, A>, nb: NodeId)
    requires Wf(a, na) && Extends(a, b) && na <= nb
    requires forall x :: x in b && x !in a ==> na <= x < nb && !b[x].Root? && NodeOk(b, x)
    requires forall x :: x in a && !a[x].Leaf? ==> ChildrenOk(b, x, Kids(b, x))
    requires forall x :: x in a && a[x].Leaf? ==>
               (x in Kids(b, a[x].parent1) <==> x in Kids(b, a[x].parent2))
    ensures Wf(b, nb)
  {
    forall x | x in b ensures x < nb && (b[x].Root? <==> x < 2) && NodeOk(b, x) {
      if x in a {
        assert SameLinks(a[x], b[x]) && NodeOk(a, x);
        match a[x]
        case Root(_, _, _, _) =>
        case Branch(_, _, p, _, _, _) =>
          assert SameLinks(a[p], b[p]);
        case Leaf(_, _, p1, p2) =>
          assert SameLinks(a[p1], b[p1]) && SameLinks(a[p2], b[p2]);
          ExtendsAxis(a, na, b, p1);
          ExtendsAxis(a, na, b, p2);
      }
    }
    assert SameLinks(a[RootNode1], b[RootNode1]) && SameLinks(a[RootNode2], b[RootNode2]);
  }
}
