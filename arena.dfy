/**
 * The node objects of one conjoined twin tree and the operations AbstractNode, BranchNode
 * and LeafNode perform on them. The arena maps node ids to node records; a method called on
 * node `x` in Java is a method of the arena taking `x`.
 */
module Arena {
  import opened Sequences
  import opened StableSort
  import opened TreeNodes
  import opened Paths
  import opened Structure
  import opened Frames
  import opened Measure
  import opened Lineage
  import opened Dirtying
  import opened Pruning
  import opened DeleteMarks
  import opened Accumulation

  /** The arena after new branch `b` is placed at position `i` of `p`'s children. */
  ghost function Sprout<V, A>(nodes: Nodes<V, A>, b: NodeId, value: V, p: NodeId, i: nat): Nodes<V, A>
    requires p in nodes && !nodes[p].Leaf? && i <= |nodes[p].children|
  {
    nodes[b := NewBranch(value, p)][p := WithChildren(nodes[p], InsertAt(nodes[p].children, i, b))]
  }

  /** Sprouting extends the arena and leaves every old children list valid. */
  lemma SproutLists<V, A>(nodes: Nodes<V, A>, next: NodeId, value: V, p: NodeId, i: nat)
    requires Wf(nodes, next) && p in nodes && !nodes[p].Leaf? && i <= |nodes[p].children|
    requires nodes[p].children == [] || FirstChildIsBranch(nodes, p)
    ensures Extends(nodes, Sprout(nodes, next, value, p, i))
    ensures forall x :: x in nodes && !nodes[x].Leaf? ==>
      ChildrenOk(Sprout(nodes, next, value, p, i), x, Kids(Sprout(nodes, next, value, p, i), x))
  {
    var b: NodeId := next;
    var cs := nodes[p].children;
    var n0: Nodes<V, A> := nodes[b := NewBranch(value, p)];
    var n1: Nodes<V, A> := n0[p := WithChildren(n0[p], InsertAt(cs, i, b))];
    assert n1 == Sprout(nodes, b, value, p, i);
    assert NodeOk(nodes, p);
    ExtendsAdd(nodes, b, NewBranch(value, p));
    ExtendsWithChildren(n0, p, InsertAt(cs, i, b));
    ExtendsTrans(nodes, n0, n1);
    SproutKids(nodes, b, value, p, i);
    forall x | x in nodes && !nodes[x].Leaf? ensures ChildrenOk(n1, x, Kids(n1, x)) {
      SproutListAt(nodes, next, value, p, i, x);
    }
  }

  lemma SproutListAt<V, A>(nodes: Nodes<V, A>, next: NodeId, value: V, p: NodeId, i: nat, x: NodeId)
    requires Wf(nodes, next) && p in nodes && !nodes[p].Leaf? && i <= |nodes[p].children|
    requires nodes[p].children == [] || FirstChildIsBranch(nodes, p)
    requires Extends(nodes, Sprout(nodes, next, value, p, i))
    requires x in nodes && !nodes[x].Leaf?
    ensures ChildrenOk(Sprout(nodes, next, value, p, i), x, Kids(Sprout(nodes, next, value, p, i), x))
  {
    var n1 := Sprout(nodes, next, value, p, i);
    var cs := nodes[p].children;
    assert NodeOk(nodes, x);
    SproutKids(nodes, next, value, p, i);
    if x == p {
      if cs != [] {
        KidKind(nodes, next, p, cs[0]);
      }
      ChildrenOkInsert(nodes, n1, p, cs, i, next);
    } else {
      ChildrenOkSub(nodes, n1, x, Kids(nodes, x), Kids(nodes, x));
    }
  }

  /** Only `p`'s children list changes: it gains `b` at position `i`. */
  lemma SproutKids<V, A>(nodes: Nodes<V, A>, b: NodeId, value: V, p: NodeId, i: nat)
    requires p in nodes && !nodes[p].Leaf? && i <= |nodes[p].children|
    ensures Kids(Sprout(nodes, b, value, p, i), p) == InsertAt(Kids(nodes, p), i, b)
    ensures forall x :: x != p && x != b ==> Kids(Sprout(nodes, b, value, p, i), x) == Kids(nodes, x)
  {
  }

  /** The new branch is a well-formed non-root, and the old leaves keep their listing. */
  lemma SproutRest<V, A>(nodes: Nodes<V, A>, next: NodeId, value: V, p: NodeId, i: nat)
    requires Wf(nodes, next) && p in nodes && !nodes[p].Leaf? && i <= |nodes[p].children|
    ensures forall x :: x in Sprout(nodes, next, value, p, i) && x !in nodes ==>
      next <= x < next + 1 && !Sprout(nodes, next, value, p, i)[x].Root? && NodeOk(Sprout(nodes, next, value, p, i), x)
    ensures forall x :: x in nodes && nodes[x].Leaf? ==>
      (x in Kids(Sprout(nodes, next, value, p, i), nodes[x].parent1) <==>
       x in Kids(Sprout(nodes, next, value, p, i), nodes[x].parent2))
  {
    var n1 := Sprout(nodes, next, value, p, i);
    forall x | x in nodes && nodes[x].Leaf?
      ensures x in Kids(n1, nodes[x].parent1) <==> x in Kids(n1, nodes[x].parent2)
    {
      assert NodeOk(nodes, x);
    }
    assert n1[next] == NewBranch(value, p) && p in n1 && !n1[p].Leaf?;
    assert NodeOk(n1, next);
  }

  /** Sprouting a branch where branches may go keeps the arena well-formed. */
  lemma SproutWf<V, A>(nodes: Nodes<V, A>, next: NodeId, value: V, p: NodeId, i: nat)
    requires Wf(nodes, next) && p in nodes && !nodes[p].Leaf? && i <= |nodes[p].children|
    requires nodes[p].children == [] || FirstChildIsBranch(nodes, p)
    ensures Wf(Sprout(nodes, next, value, p, i), next + 1)
    ensures Ancestry(Sprout(nodes, next, value, p, i), next) == Ancestry(nodes, p) + [next]
  {
    var n1 := Sprout(nodes, next, value, p, i);
    SproutLists(nodes, next, value, p, i);
    SproutRest(nodes, next, value, p, i);
    WfFrame(nodes, next, n1, next + 1);
    ExtendsAxis(nodes, next, n1, p);
  }

  /**
   * The arena after new leaf `l` is placed at position `i` of `p`'s children and appended to
   * the children of `other`: parent1 is `p`, parent2 is `other`.
   */
  ghost function Attach<V, A>(nodes: Nodes<V, A>, l: NodeId, value: V, p: NodeId, i: nat, other: NodeId): Nodes<V, A>
    requires p in nodes && !nodes[p].Leaf? && i <= |nodes[p].children|
    requires other in nodes && !nodes[other].Leaf? && l !in nodes
  {
    var n1 := nodes[l := NewLeaf(value, p, other)][p := WithChildren(nodes[p], InsertAt(nodes[p].children, i, l))];
    n1[other := WithChildren(n1[other], n1[other].children + [l])]
  }

  /** Where addLeaf may hang a leaf: under two branches of different axes with no branch children. */
  ghost predicate LeafSite<V, A>(nodes: Nodes<V, A>, p: NodeId, other: NodeId) {
    && IsBranch(nodes, p) && IsBranch(nodes, other) && Axis(nodes, p) != Axis(nodes, other)
    && !FirstChildIsBranch(nodes, p) && !FirstChildIsBranch(nodes, other)
  }

  /**
   * What addBranch promises about the arena: the new branch is the only new node, it is
   * visible, childless and has `p` as its parent, and no node other than `p` changes.
   */
  lemma SproutShape<V, A>(nodes: Nodes<V, A>, b: NodeId, value: V, p: NodeId, i: nat)
    requires Wf(nodes, b) && p in nodes && !nodes[p].Leaf? && i <= |nodes[p].children|
    ensures Sprout(nodes, b, value, p, i).Keys == nodes.Keys + {b}
    ensures Sprout(nodes, b, value, p, i)[b] == NewBranch(value, p)
    ensures forall x :: x in nodes && x != p ==> Sprout(nodes, b, value, p, i)[x] == nodes[x]
  {
  }

  /** ... and the new branch sits at position `i` of `p`'s children, the others keeping their order. */
  lemma SproutOrder<V, A>(nodes: Nodes<V, A>, b: NodeId, value: V, p: NodeId, i: nat)
    requires Wf(nodes, b) && p in nodes && !nodes[p].Leaf? && i <= |nodes[p].children|
    ensures Kids(Sprout(nodes, b, value, p, i), p)[i] == b
    ensures Filter(Kids(Sprout(nodes, b, value, p, i), p), Except(b)) == Kids(nodes, p)
  {
    assert NodeOk(nodes, p);
    assert b !in Kids(nodes, p);
    SproutKids(nodes, b, value, p, i);
    FilterInsertFresh(Kids(nodes, p), i, b);
  }

  /**
   * What addLeaf promises about the arena before any marking: the new leaf is the only new
   * node, it is visible with parents `p` and `other`, it is appended to `other`'s children,
   * and no node other than those two parents changes.
   */
  lemma AttachShape<V, A>(nodes: Nodes<V, A>, l: NodeId, value: V, p: NodeId, i: nat, other: NodeId)
    requires Wf(nodes, l) && LeafSite(nodes, p, other) && i <= |nodes[p].children|
    ensures Attach(nodes, l, value, p, i, other).Keys == nodes.Keys + {l}
    ensures Attach(nodes, l, value, p, i, other)[l] == NewLeaf(value, p, other)
    ensures forall x :: x in nodes && x != p && x != other ==> Attach(nodes, l, value, p, i, other)[x] == nodes[x]
    ensures Kids(Attach(nodes, l, value, p, i, other), other) == Kids(nodes, other) + [l]
  {
    assert p != other by {
      assert Axis(nodes, p) != Axis(nodes, other);
    }
  }

  /** ... and the leaf sits at position `i` of `p`'s children, the others keeping their order. */
  lemma AttachOrder<V, A>(nodes: Nodes<V, A>, l: NodeId, value: V, p: NodeId, i: nat, other: NodeId)
    requires Wf(nodes, l) && LeafSite(nodes, p, other) && i <= |nodes[p].children|
    ensures Kids(Attach(nodes, l, value, p, i, other), p)[i] == l
    ensures Filter(Kids(Attach(nodes, l, value, p, i, other), p), Except(l)) == Kids(nodes, p)
  {
    assert NodeOk(nodes, p);
    assert l !in Kids(nodes, p);
    assert p != other by {
      assert Axis(nodes, p) != Axis(nodes, other);
    }
    AttachKids(nodes, l, value, p, i, other);
    FilterInsertFresh(Kids(nodes, p), i, l);
  }

  /** Attaching extends the arena and leaves every old children list valid. */
  lemma AttachLists<V, A>(nodes: Nodes<V, A>, next: NodeId, value: V, p: NodeId, i: nat, other: NodeId)
    requires Wf(nodes, next) && LeafSite(nodes, p, other) && i <= |nodes[p].children|
    ensures Extends(nodes, Attach(nodes, next, value, p, i, other))
    ensures forall x :: x in nodes && !nodes[x].Leaf? ==>
      ChildrenOk(Attach(nodes, next, value, p, i, other), x, Kids(Attach(nodes, next, value, p, i, other), x))
  {
    var l: NodeId := next;
    var cs, co := nodes[p].children, nodes[other].children;
    assert p != other by {
      assert Axis(nodes, p) != Axis(nodes, other);
    }
    var n0: Nodes<V, A> := nodes[l := NewLeaf(value, p, other)];
    var n1: Nodes<V, A> := n0[p := WithChildren(n0[p], InsertAt(cs, i, l))];
    var n2: Nodes<V, A> := n1[other := WithChildren(n1[other], co + [l])];
    assert n2 == Attach(nodes, l, value, p, i, other);
    ExtendsAdd(nodes, l, NewLeaf(value, p, other));
    ExtendsWithChildren(n0, p, InsertAt(cs, i, l));
    ExtendsWithChildren(n1, other, co + [l]);
    ExtendsTrans(nodes, n0, n1);
    ExtendsTrans(nodes, n1, n2);
    forall x | x in nodes && !nodes[x].Leaf? ensures ChildrenOk(n2, x, Kids(n2, x)) {
      AttachListAt(nodes, next, value, p, i, other, x);
    }
  }

  lemma AttachListAt<V, A>(nodes: Nodes<V, A>, next: NodeId, value: V, p: NodeId, i: nat, other: NodeId, x: NodeId)
    requires Wf(nodes, next) && LeafSite(nodes, p, other) && i <= |nodes[p].children|
    requires Extends(nodes, Attach(nodes, next, value, p, i, other))
    requires x in nodes && !nodes[x].Leaf?
    ensures ChildrenOk(Attach(nodes, next, value, p, i, other), x, Kids(Attach(nodes, next, value, p, i, other), x))
  {
    var n2 := Attach(nodes, next, value, p, i, other);
    assert NodeOk(nodes, x);
    assert p != other by {
      assert Axis(nodes, p) != Axis(nodes, other);
    }
    var ks := Kids(nodes, x);
    if x == p || x == other {
      AttachKids(nodes, next, value, p, i, other);
      if ks != [] {
        KidFacts(nodes, next, x, ks[0]);
      }
      if x == p {
        ChildrenOkInsert(nodes, n2, x, ks, i, next);
      } else {
        ChildrenOkInsert(nodes, n2, x, ks, |ks|, next);
        assert InsertAt(ks, |ks|, next) == ks + [next];
      }
    } else {
      AttachKidsElse(nodes, next, value, p, i, other, x);
      ChildrenOkSub(nodes, n2, x, ks, ks);
    }
  }

  /** Only the lists of the two parents change: `p`'s gains `l` at `i`, `other`'s at its end. */
  lemma AttachKids<V, A>(nodes: Nodes<V, A>, l: NodeId, value: V, p: NodeId, i: nat, other: NodeId)
    requires p in nodes && !nodes[p].Leaf? && i <= |nodes[p].children|
    requires other in nodes && !nodes[other].Leaf? && l !in nodes && p != other
    ensures Kids(Attach(nodes, l, value, p, i, other), p) == InsertAt(Kids(nodes, p), i, l)
    ensures Kids(Attach(nodes, l, value, p, i, other), other) == Kids(nodes, other) + [l]
  {
  }

  lemma AttachKidsElse<V, A>(nodes: Nodes<V, A>, l: NodeId, value: V, p: NodeId, i: nat, other: NodeId, x: NodeId)
    requires p in nodes && !nodes[p].Leaf? && i <= |nodes[p].children|
    requires other in nodes && !nodes[other].Leaf? && l !in nodes
    requires x != p && x != other && x != l
    ensures Kids(Attach(nodes, l, value, p, i, other), x) == Kids(nodes, x)
  {
  }

  /** The new leaf is a well-formed non-root, and the old leaves keep their listing. */
  lemma AttachRest<V, A>(nodes: Nodes<V, A>, next: NodeId, value: V, p: NodeId, i: nat, other: NodeId)
    requires Wf(nodes, next) && LeafSite(nodes, p, other) && i <= |nodes[p].children|
    requires Extends(nodes, Attach(nodes, next, value, p, i, other))
    ensures forall x :: x in Attach(nodes, next, value, p, i, other) && x !in nodes ==>
      next <= x < next + 1 && !Attach(nodes, next, value, p, i, other)[x].Root? &&
      NodeOk(Attach(nodes, next, value, p, i, other), x)
    ensures forall x :: x in nodes && nodes[x].Leaf? ==>
      (x in Kids(Attach(nodes, next, value, p, i, other), nodes[x].parent1) <==>
       x in Kids(Attach(nodes, next, value, p, i, other), nodes[x].parent2))
  {
    var n2 := Attach(nodes, next, value, p, i, other);
    assert p != other by {
      assert Axis(nodes, p) != Axis(nodes, other);
    }
    forall x | x in nodes && nodes[x].Leaf?
      ensures x in Kids(n2, nodes[x].parent1) <==> x in Kids(n2, nodes[x].parent2)
    {
      assert NodeOk(nodes, x);
      AttachKeepsListing(nodes, next, value, p, i, other, x, nodes[x].parent1);
      AttachKeepsListing(nodes, next, value, p, i, other, x, nodes[x].parent2);
    }
    ExtendsAxis(nodes, next, n2, p);
    ExtendsAxis(nodes, next, n2, other);
    assert n2[next] == NewLeaf(value, p, other);
    assert NodeOk(n2, next);
  }

  /** An old node is listed by `y` after attaching exactly when it was before. */
  lemma AttachKeepsListing<V, A>(nodes: Nodes<V, A>, l: NodeId, value: V, p: NodeId, i: nat, other: NodeId,
                                 x: NodeId, y: NodeId)
    requires p in nodes && !nodes[p].Leaf? && i <= |nodes[p].children|
    requires other in nodes && !nodes[other].Leaf? && l !in nodes && p != other
    requires x in nodes && y in nodes
    ensures x in Kids(Attach(nodes, l, value, p, i, other), y) <==> x in Kids(nodes, y)
  {
    if y == p || y == other {
      AttachKids(nodes, l, value, p, i, other);
      if y == p {
        assert multiset(InsertAt(Kids(nodes, p), i, l)) == multiset(Kids(nodes, p)) + multiset{l};
        assert x in InsertAt(Kids(nodes, p), i, l) <==> x in multiset(InsertAt(Kids(nodes, p), i, l));
      }
    } else {
      AttachKidsElse(nodes, l, value, p, i, other, y);
    }
  }

  /** Attaching a leaf where leaves may go keeps the arena well-formed. */
  lemma AttachWf<V, A>(nodes: Nodes<V, A>, next: NodeId, value: V, p: NodeId, i: nat, other: NodeId)
    requires Wf(nodes, next) && LeafSite(nodes, p, other) && i <= |nodes[p].children|
    ensures Wf(Attach(nodes, next, value, p, i, other), next + 1)
    ensures IsLeaf(Attach(nodes, next, value, p, i, other), next)
  {
    AttachLists(nodes, next, value, p, i, other);
    AttachRest(nodes, next, value, p, i, other);
    WfFrame(nodes, next, Attach(nodes, next, value, p, i, other), next + 1);
  }

  /** The arena after addLeaf: the leaf attached, then both parents' subtrees marked if asked. */
  ghost function AfterAddLeaf<V, A>(nodes: Nodes<V, A>, l: NodeId, value: V, p: NodeId, i: nat,
                                   other: NodeId, updated: bool): Nodes<V, A>
    requires p in nodes && !nodes[p].Leaf? && i <= |nodes[p].children|
    requires other in nodes && !nodes[other].Leaf? && l !in nodes
  {
    var n1 := Attach(nodes, l, value, p, i, other);
    if updated then MarkUpdated(n1, LeafDirty(n1, l)) else n1
  }

  /** A comparator on what it sees of two nodes, as an ordering of node ids. */
  function ByItem<V, A>(nodes: Nodes<V, A>, cmp: (Item<V>, Item<V>) -> int): (NodeId, NodeId) -> bool {
    (a: NodeId, b: NodeId) => cmp(ItemAt(nodes, a), ItemAt(nodes, b)) <= 0
  }

  /** The ordering a comparator stands for. */
  ghost function ItemLe<V>(cmp: (Item<V>, Item<V>) -> int): (Item<V>, Item<V>) -> bool {
    (a: Item<V>, b: Item<V>) => cmp(a, b) <= 0
  }

  /** A comparator that obeys its contract orders node ids by a total preorder too. */
  lemma ByItemPreorder<V(!new), A>(nodes: Nodes<V, A>, cmp: (Item<V>, Item<V>) -> int)
    requires TotalPreorder(ItemLe(cmp))
    ensures TotalPreorder(ByItem(nodes, cmp))
  {
    var le := ItemLe(cmp);
    forall a: NodeId, b: NodeId ensures ByItem(nodes, cmp)(a, b) || ByItem(nodes, cmp)(b, a) {
      assert le(ItemAt(nodes, a), ItemAt(nodes, b)) || le(ItemAt(nodes, b), ItemAt(nodes, a));
    }
    forall a: NodeId, b: NodeId, c: NodeId | ByItem(nodes, cmp)(a, b) && ByItem(nodes, cmp)(b, c)
      ensures ByItem(nodes, cmp)(a, c)
    {
      assert le(ItemAt(nodes, a), ItemAt(nodes, b)) && le(ItemAt(nodes, b), ItemAt(nodes, c));
    }
  }

  /** Replacing a children list by a permutation of it keeps the arena well-formed. */
  lemma SortChildrenWf<V, A>(nodes: Nodes<V, A>, next: NodeId, p: NodeId, ds: seq<NodeId>)
    requires Wf(nodes, next) && p in nodes && !nodes[p].Leaf?
    requires multiset(ds) == multiset(nodes[p].children)
    ensures Wf(nodes[p := WithChildren(nodes[p], ds)], next)
  {
    var cs := nodes[p].children;
    var n1 := nodes[p := WithChildren(nodes[p], ds)];
    assert NodeOk(nodes, p);
    ExtendsWithChildren(nodes, p, ds);
    NoDupPermutation(cs, ds);
    forall c | c in ds ensures c in cs {
      assert multiset(ds)[c] > 0;
    }
    forall x | x in nodes && !nodes[x].Leaf? ensures ChildrenOk(n1, x, Kids(n1, x)) {
      assert NodeOk(nodes, x);
      if x == p {
        ChildrenOkSub(nodes, n1, p, cs, ds);
      } else {
        ChildrenOkSub(nodes, n1, x, Kids(nodes, x), Kids(nodes, x));
      }
    }
    forall x | x in nodes && nodes[x].Leaf?
      ensures x in Kids(n1, nodes[x].parent1) <==> x in Kids(n1, nodes[x].parent2)
    {
      assert NodeOk(nodes, x);
      assert x in ds <==> x in cs by {
        assert multiset(ds)[x] == multiset(cs)[x];
      }
    }
    WfFrame(nodes, next, n1, next);
  }

  /**
   * What sort promises: with a comparator that obeys its contract, the children end up
   * ordered by it, as a permutation of the old ones, and children the comparator cannot tell
   * apart keep their relative order.
   */
  lemma SortedChildren<V(!new), A>(nodes: Nodes<V, A>, p: NodeId, cmp: (Item<V>, Item<V>) -> int, x: NodeId)
    requires TotalPreorder(ItemLe(cmp))
    ensures Sorted(ByItem(nodes, cmp), Sort(Kids(nodes, p), ByItem(nodes, cmp)))
    ensures multiset(Sort(Kids(nodes, p), ByItem(nodes, cmp))) == multiset(Kids(nodes, p))
    ensures Filter(Sort(Kids(nodes, p), ByItem(nodes, cmp)), EquivTo(ByItem(nodes, cmp), x))
         == Filter(Kids(nodes, p), EquivTo(ByItem(nodes, cmp), x))
  {
    ByItemPreorder(nodes, cmp);
    SortSorted(Kids(nodes, p), ByItem(nodes, cmp));
    SortStable(Kids(nodes, p), ByItem(nodes, cmp), x);
  }

  /**
   * The breadth-first loop of setUpdated started at `top`: it flags each node it pops and
   * queues the children of those whose first child is a branch.
   */
  method MarkFrom<V, A>(n0: Nodes<V, A>, bound: NodeId, top: NodeId) returns (ns: Nodes<V, A>)
    requires Wf(n0, bound) && IsBranch(n0, top)
    ensures ns == MarkUpdated(n0, set x | x in n0 && Reach(n0, UpdateRule(n0), [top], x))
  {
    ns := n0;
    var queue: seq<NodeId> := [top];
    ghost var done: set<NodeId> := {};
    MarkInit(n0, top);
    while queue != []
      invariant ns == MarkUpdated(n0, done)
      invariant MarkInv(n0, top, queue, done)
      decreases QSum(n0, bound, queue)
    {
      var x := queue[0];
      MarkStep(n0, bound, top, queue, done);
      MarkOneMore(n0, done, x);
      ns := ns[x := Flagged(ns[x])];
      done := done + {x};
      if FirstChildIsBranch(n0, x) {
        queue := queue[1..] + n0[x].children;
      } else {
        queue := queue[1..];
      }
    }
    MarkFinish(n0, top, done);
  }

  class NodeArena<V, A> {
    var nodes: Nodes<V, A>
    /** The id the next new node receives. */
    var next: NodeId

    ghost predicate Valid()
      reads this
    {
      Wf(nodes, next)
    }

    /** The two roots of a new tree: no value, no parent, invisible, no children. */
    constructor ()
      ensures Valid()
      ensures nodes == map[RootNode1 := NewRoot(), RootNode2 := NewRoot()] && next == 2
    {
      nodes := map[RootNode1 := NewRoot(), RootNode2 := NewRoot()];
      next := 2;
    }

    /** Backtracks from `p` up to its root, collecting the branches met, top-level first. */
    method ParentsFrom(p: NodeId) returns (ps: seq<NodeId>)
      requires Valid() && p in nodes && !nodes[p].Leaf?
      ensures ps == Ancestry(nodes, p)
    {
      var q := p;
      ps := [];
      while nodes[q].Branch?
        invariant q in nodes && !nodes[q].Leaf?
        invariant Ancestry(nodes, p) == Ancestry(nodes, q) + ps
        decreases q
      {
        assert NodeOk(nodes, q);
        ps := [q] + ps;
        q := nodes[q].parent;
      }
    }

    /** getParents: the branches from the top-level branch down to `b`'s parent. */
    method GetParents(b: NodeId) returns (ps: seq<NodeId>)
      requires Valid() && IsBranch(nodes, b)
      ensures ps == Ancestry(nodes, nodes[b].parent)
      ensures ps == [] <==> IsRoot(nodes, nodes[b].parent)
      ensures ps != [] ==> ParentChain(nodes, ps, nodes[b].parent)
    {
      assert NodeOk(nodes, b);
      ps := ParentsFrom(nodes[b].parent);
      if IsBranch(nodes, nodes[b].parent) {
        AncestryIsChain(nodes, next, nodes[b].parent);
      }
    }

    /** getParents1: the branches from the top-level branch down to parent1 of `l`, inclusive. */
    method GetParents1(l: NodeId) returns (ps: seq<NodeId>)
      requires Valid() && IsLeaf(nodes, l)
      ensures ps == Ancestry(nodes, nodes[l].parent1)
      ensures ParentChain(nodes, ps, nodes[l].parent1)
    {
      assert NodeOk(nodes, l);
      ps := ParentsFrom(nodes[l].parent1);
      AncestryIsChain(nodes, next, nodes[l].parent1);
    }

    /** getParents2: the branches from the top-level branch down to parent2 of `l`, inclusive. */
    method GetParents2(l: NodeId) returns (ps: seq<NodeId>)
      requires Valid() && IsLeaf(nodes, l)
      ensures ps == Ancestry(nodes, nodes[l].parent2)
      ensures ParentChain(nodes, ps, nodes[l].parent2)
    {
      assert NodeOk(nodes, l);
      ps := ParentsFrom(nodes[l].parent2);
      AncestryIsChain(nodes, next, nodes[l].parent2);
    }

    /**
     * getAccumulatedValues(acc, o) on `b`: when `b` was updated its cache is cleared; an
     * empty cache is then filled by grouping the visible leaves beneath `b` by their other
     * parent and folding each group with `acc`, and the flag is cleared. The answer is the
     * cached value for `o`, if any.
     */
    method AccumulatedValues(b: NodeId, acc: (seq<Item<V>>, Item<V>) -> A, o: NodeId) returns (r: Option<A>)
      requires Valid() && b in nodes && !nodes[b].Leaf?
      modifies this
      ensures Valid() && next == old(next)
      ensures Stale(old(nodes)[b]) ==>
        nodes == old(nodes)[b := Refreshed(old(nodes)[b], Accumulate(old(nodes), next, b, acc))]
      ensures !Stale(old(nodes)[b]) ==> nodes == old(nodes)
      ensures r == if o in nodes[b].cache then Some(nodes[b].cache[o]) else None
    {
      var cache := if nodes[b].updated then map[] else nodes[b].cache;
      if cache == map[] {
        var groups := Collect(nodes, next, b);
        cache := Fold(nodes, groups, acc);
        RefreshedView(nodes, next, b, cache);
        nodes := nodes[b := Refreshed(nodes[b], cache)];
      }
      r := if o in cache then Some(cache[o]) else None;
    }

    /**
     * setUpdated: marks the top-level branch above `b` (or `b` itself when it sits under a
     * root), then breadth-first every branch below it, expanding a node only when its first
     * child is a branch.
     */
    method SetUpdated(b: NodeId)
      requires Valid() && IsBranch(nodes, b)
      modifies this
      ensures Valid() && next == old(next)
      ensures nodes == MarkUpdated(old(nodes), DirtySet(old(nodes), b))
    {
      assert NodeOk(nodes, b);
      var ps := ParentsFrom(nodes[b].parent);
      var top := if ps == [] then b else ps[0];
      // The loop reads the arena as it was on entry: flags do not alter children lists.
      var n0, bound := nodes, next;
      TopOfIsFirst(n0, bound, b);
      var ns := MarkFrom(n0, bound, top);
      MarkUpdatedStructure(n0, DirtySet(n0, b));
      SameStructureWf(n0, ns, bound);
      nodes := ns;
    }

    /**
     * setUpdated(a) followed by setUpdated(b), as setVisible, addLeaf and delete call it for
     * the two parents of a leaf.
     */
    method SetUpdatedBoth(a: NodeId, b: NodeId)
      requires Valid() && IsBranch(nodes, a) && IsBranch(nodes, b)
      modifies this
      ensures Valid() && next == old(next)
      ensures nodes == MarkUpdated(old(nodes), DirtySet(old(nodes), a) + DirtySet(old(nodes), b))
    {
      ghost var nodes0 := nodes;
      SetUpdated(a);
      MarkUpdatedStructure(nodes0, DirtySet(nodes0, a));
      DirtySetSameStructure(nodes0, nodes, b);
      SetUpdated(b);
      MarkUpdatedTwice(nodes0, DirtySet(nodes0, a), DirtySet(nodes0, b));
    }

    /** setVisible: a leaf first marks what setUpdated marks for both of its parents. */
    method SetVisible(x: NodeId, v: bool)
      requires Valid() && x in nodes
      modifies this
      ensures Valid() && next == old(next)
      ensures !old(nodes)[x].Leaf? ==> nodes == old(nodes)[x := WithVisible(old(nodes)[x], v)]
      ensures old(nodes)[x].Leaf? ==>
        nodes == MarkUpdated(old(nodes), LeafDirty(old(nodes), x))[x := WithVisible(old(nodes)[x], v)]
    {
      if nodes[x].Leaf? {
        assert NodeOk(nodes, x);
        SetUpdatedBoth(nodes[x].parent1, nodes[x].parent2);
      }
      WithVisibleWf(nodes, next, x, v);
      nodes := nodes[x := WithVisible(nodes[x], v)];
    }

    /** Places a new branch with `value` at position `i` of `p`'s children. */
    method Grow(p: NodeId, value: V, i: nat) returns (b: NodeId)
      requires Valid() && p in nodes && !nodes[p].Leaf? && i <= |nodes[p].children|
      requires nodes[p].children == [] || FirstChildIsBranch(nodes, p)
      modifies this
      ensures Valid()
      ensures b == old(next) && next == old(next) + 1
      ensures nodes == Sprout(old(nodes), b, value, p, i)
      ensures Ancestry(nodes, b) == Ancestry(old(nodes), p) + [b]
    {
      b := next;
      SproutWf(nodes, next, value, p, i);
      nodes := nodes[b := NewBranch(value, p)][p := WithChildren(nodes[p], InsertAt(nodes[p].children, i, b))];
      next := next + 1;
    }

    /** addBranch(value): a new branch appended to the children of `p`; a leaf refuses. */
    method AddBranch(p: NodeId, value: V) returns (r: Result<NodeId>)
      requires Valid() && p in nodes
      requires !nodes[p].Leaf? ==> nodes[p].children == [] || FirstChildIsBranch(nodes, p)
      modifies this
      ensures Valid()
      ensures old(nodes)[p].Leaf? ==> r == Err(Unsupported) && nodes == old(nodes) && next == old(next)
      ensures !old(nodes)[p].Leaf? ==>
        && r == Ok(old(next)) && next == old(next) + 1
        && nodes == Sprout(old(nodes), r.value, value, p, |old(nodes)[p].children|)
        && Kids(nodes, p) == Kids(old(nodes), p) + [r.value]
        && Ancestry(nodes, r.value) == Ancestry(old(nodes), p) + [r.value]
    {
      if nodes[p].Leaf? {
        return Err(Unsupported);
      }
      ghost var n0 := nodes;
      var cs := nodes[p].children;
      var b := Grow(p, value, |cs|);
      SproutKids(n0, b, value, p, |cs|);
      assert InsertAt(cs, |cs|, b) == cs + [b];
      return Ok(b);
    }

    /**
     * addBranch(value, index): a new branch placed at position `index` of the children of
     * `p`; a leaf refuses, and an index outside 0..size is out of bounds.
     */
    method AddBranchAt(p: NodeId, value: V, index: int) returns (r: Result<NodeId>)
      requires Valid() && p in nodes
      requires !nodes[p].Leaf? ==> nodes[p].children == [] || FirstChildIsBranch(nodes, p)
      modifies this
      ensures Valid()
      ensures old(nodes)[p].Leaf? ==> r == Err(Unsupported) && nodes == old(nodes) && next == old(next)
      ensures !old(nodes)[p].Leaf? && !(0 <= index <= |old(nodes)[p].children|) ==>
        r == Err(IndexOutOfBounds) && nodes == old(nodes) && next == old(next)
      ensures !old(nodes)[p].Leaf? && 0 <= index <= |old(nodes)[p].children| ==>
        && r == Ok(old(next)) && next == old(next) + 1
        && nodes == Sprout(old(nodes), r.value, value, p, index)
        && Ancestry(nodes, r.value) == Ancestry(old(nodes), p) + [r.value]
    {
      if nodes[p].Leaf? {
        return Err(Unsupported);
      }
      if !(0 <= index <= |nodes[p].children|) {
        return Err(IndexOutOfBounds);
      }
      var b := Grow(p, value, index);
      return Ok(b);
    }

    /** Creates a leaf with parents `p` and `other`, at position `i` of `p`'s children and last in `other`'s. */
    method Hang(p: NodeId, value: V, i: nat, other: NodeId) returns (l: NodeId)
      requires Valid() && LeafSite(nodes, p, other) && i <= |nodes[p].children|
      modifies this
      ensures Valid() && IsLeaf(nodes, l)
      ensures l == old(next) && next == old(next) + 1
      ensures nodes == Attach(old(nodes), l, value, p, i, other)
    {
      l := next;
      AttachWf(nodes, next, value, p, i, other);
      var n1 := nodes[l := NewLeaf(value, p, other)][p := WithChildren(nodes[p], InsertAt(nodes[p].children, i, l))];
      nodes := n1[other := WithChildren(n1[other], n1[other].children + [l])];
      next := next + 1;
    }

    /** The two setUpdated calls of addLeaf, when asked for. */
    method MarkIfUpdated(l: NodeId, updated: bool)
      requires Valid() && IsLeaf(nodes, l)
      modifies this
      ensures Valid() && next == old(next)
      ensures nodes == if updated then MarkUpdated(old(nodes), LeafDirty(old(nodes), l)) else old(nodes)
    {
      if updated {
        assert NodeOk(nodes, l);
        SetUpdatedBoth(nodes[l].parent1, nodes[l].parent2);
      }
    }

    /**
     * addLeaf(value, other, updated): a new leaf appended to the children of `p` and of
     * `other`; with `updated`, both parents' subtrees are marked. A leaf refuses.
     */
    method AddLeaf(p: NodeId, value: V, other: NodeId, updated: bool) returns (r: Result<NodeId>)
      requires Valid() && p in nodes
      requires !nodes[p].Leaf? ==> LeafSite(nodes, p, other)
      modifies this
      ensures Valid()
      ensures old(nodes)[p].Leaf? ==> r == Err(Unsupported) && nodes == old(nodes) && next == old(next)
      ensures !old(nodes)[p].Leaf? ==>
        && r == Ok(old(next)) && next == old(next) + 1
        && nodes == AfterAddLeaf(old(nodes), r.value, value, p, |old(nodes)[p].children|, other, updated)
    {
      if nodes[p].Leaf? {
        return Err(Unsupported);
      }
      var l := Hang(p, value, |nodes[p].children|, other);
      MarkIfUpdated(l, updated);
      return Ok(l);
    }

    /**
     * addLeaf(value, other, index, updated): a new leaf placed at position `index` of the
     * children of `p` and appended to those of `other`; with `updated`, both parents'
     * subtrees are marked. A leaf refuses, and an index outside 0..size is out of bounds.
     */
    method AddLeafAt(p: NodeId, value: V, other: NodeId, index: int, updated: bool) returns (r: Result<NodeId>)
      requires Valid() && p in nodes
      requires !nodes[p].Leaf? ==> LeafSite(nodes, p, other)
      modifies this
      ensures Valid()
      ensures old(nodes)[p].Leaf? ==> r == Err(Unsupported) && nodes == old(nodes) && next == old(next)
      ensures !old(nodes)[p].Leaf? && !(0 <= index <= |old(nodes)[p].children|) ==>
        r == Err(IndexOutOfBounds) && nodes == old(nodes) && next == old(next)
      ensures !old(nodes)[p].Leaf? && 0 <= index <= |old(nodes)[p].children| ==>
        && r == Ok(old(next)) && next == old(next) + 1
        && nodes == AfterAddLeaf(old(nodes), r.value, value, p, index, other, updated)
    {
      if nodes[p].Leaf? {
        return Err(Unsupported);
      }
      if !(0 <= index <= |nodes[p].children|) {
        return Err(IndexOutOfBounds);
      }
      var l := Hang(p, value, index, other);
      MarkIfUpdated(l, updated);
      return Ok(l);
    }

    /**
     * sort(comparator): reorders the children of `p` by what the comparator sees of them,
     * as List.sort does (stable); a leaf refuses.
     */
    method SortChildren(p: NodeId, cmp: (Item<V>, Item<V>) -> int) returns (r: Result<()>)
      requires Valid() && p in nodes
      modifies this
      ensures Valid() && next == old(next)
      ensures old(nodes)[p].Leaf? ==> r == Err(Unsupported) && nodes == old(nodes)
      ensures !old(nodes)[p].Leaf? ==>
        && r == Ok(())
        && nodes == old(nodes)[p := WithChildren(old(nodes)[p], Sort(Kids(old(nodes), p), ByItem(old(nodes), cmp)))]
    {
      if nodes[p].Leaf? {
        return Err(Unsupported);
      }
      var cs := nodes[p].children;
      var sorted := Sort(cs, ByItem(nodes, cmp));
      SortChildrenWf(nodes, next, p, sorted);
      nodes := nodes[p := WithChildren(nodes[p], sorted)];
      return Ok(());
    }

    /**
     * delete(p, d): when `d` is visible and listed under `p`, a branch first deletes each of
     * its children and then leaves `p`'s list; a leaf marks what setUpdated marks for its two
     * parents and then leaves both their lists. Otherwise nothing happens.
     */
    method DeleteFrom(p: NodeId, d: NodeId)
      requires Valid() && p in nodes && !nodes[p].Leaf? && d in nodes
      modifies this
      ensures Valid() && next == old(next)
      ensures !(IsVisible(old(nodes), d) && d in Kids(old(nodes), p)) ==> nodes == old(nodes)
      ensures IsVisible(old(nodes), d) && d in Kids(old(nodes), p) ==>
        && MoreUpdated(Prune(old(nodes), Doomed(old(nodes), d)), nodes)
        && ExactOutside(old(nodes), d, Doomed(old(nodes), d), nodes)
      ensures IsLeaf(old(nodes), d) && IsVisible(old(nodes), d) && d in Kids(old(nodes), p) ==>
        nodes == Prune(MarkUpdated(old(nodes), LeafDirty(old(nodes), d)), {d})
      decreases next - d, 3
    {
      if nodes[d].visible && d in nodes[p].children {
        // A root is never listed as a child, so Java's third case cannot arise.
        KidFacts(nodes, next, p, d);
        if nodes[d].Branch? {
          DeleteBranch(p, d);
        } else if nodes[d].Leaf? {
          DeleteLeaf(p, d);
        }
      }
    }

    /** The branch case of delete: each child is deleted first, then `d` leaves `p`'s list. */
    method DeleteBranch(p: NodeId, d: NodeId)
      requires Valid() && p in nodes && IsBranch(nodes, d) && IsVisible(nodes, d) && d in Kids(nodes, p)
      modifies this
      ensures Valid() && next == old(next)
      ensures MoreUpdated(Prune(old(nodes), Doomed(old(nodes), d)), nodes)
      ensures ExactOutside(old(nodes), d, Doomed(old(nodes), d), nodes)
      decreases next - d, 2
    {
      ghost var n0 := nodes;
      DeleteChildren(d);
      // `d`, its children dealt with, leaves `p`'s list.
      BranchDeleted(n0, next, p, d, nodes);
      BranchExact(n0, next, p, d, nodes);
      Store(Unlisted(nodes, p, d));
    }

    /** Installs a new well-formed node map. */
    method Store(ns: Nodes<V, A>)
      requires Wf(ns, next)
      modifies this
      ensures Valid() && nodes == ns && next == old(next)
    {
      nodes := ns;
    }

    /** Deletes, one by one, the children branch `d` has on entry, from a copy of its list. */
    method DeleteChildren(d: NodeId)
      requires Valid() && IsBranch(nodes, d)
      modifies this
      ensures Valid() && next == old(next)
      ensures MoreUpdated(Prune(old(nodes), DoomedUpTo(old(nodes), Kids(old(nodes), d), |Kids(old(nodes), d)|)), nodes)
      ensures ExactOutside(old(nodes), d, DoomedUpTo(old(nodes), Kids(old(nodes), d), |Kids(old(nodes), d)|), nodes)
      decreases next - d, 1
    {
      ghost var n0 := nodes;
      var cs := nodes[d].children;
      var k := 0;
      // What the rounds so far have removed.
      ghost var gone: set<NodeId> := {};
      ProgressStart(n0, next, d);
      ExactStart(n0, d);
      while k < |cs|
        invariant Valid() && next == old(next)
        invariant n0 == old(nodes) && cs == Kids(n0, d) && k <= |cs|
        invariant Progress(n0, next, d, k, gone, nodes)
        invariant ExactOutside(n0, d, gone, nodes)
        decreases |cs| - k
      {
        DeleteNth(n0, d, k, cs[k], gone);
        gone := gone + Doomed(n0, cs[k]);
        k := k + 1;
      }
      ProgressEnd(n0, next, d, k, gone, nodes);
    }

    /** One round of the loop of DeleteChildren: deletes the `k`-th child `d` had when the loop began. */
    method DeleteNth(ghost n0: Nodes<V, A>, d: NodeId, ghost k: nat, c: NodeId, ghost gone: set<NodeId>)
      requires Valid() && Progress(n0, next, d, k, gone, nodes) && ExactOutside(n0, d, gone, nodes)
      requires k < |Kids(n0, d)| && c == Kids(n0, d)[k]
      modifies this
      ensures Valid() && next == old(next)
      ensures Progress(n0, next, d, k + 1, gone + Doomed(n0, c), nodes)
      ensures ExactOutside(n0, d, gone + Doomed(n0, c), nodes)
      decreases next - d, 0
    {
      DoomedLocal(n0, next, d, k, nodes);
      KidFacts(n0, next, d, c);
      ghost var cur := nodes;
      DeleteFrom(d, c);
      DeleteStep(n0, next, d, k, gone, cur, nodes);
      ExactStep(n0, next, d, k, gone, cur, nodes);
    }

    /** The leaf case of delete: both parents are marked, then both lists lose the leaf. */
    method DeleteLeaf(p: NodeId, d: NodeId)
      requires Valid() && p in nodes && IsLeaf(nodes, d) && IsVisible(nodes, d) && d in Kids(nodes, p)
      modifies this
      ensures Valid() && next == old(next)
      ensures nodes == Prune(MarkUpdated(old(nodes), LeafDirty(old(nodes), d)), {d})
      ensures nodes == AfterDelete(old(nodes), Doomed(old(nodes), d))
      ensures MoreUpdated(Prune(old(nodes), Doomed(old(nodes), d)), nodes)
      ensures ExactOutside(old(nodes), d, Doomed(old(nodes), d), nodes)
    {
      ghost var n0 := nodes;
      LeafSides(n0, next, p, d);
      var other := if nodes[d].parent1 == p then nodes[d].parent2 else nodes[d].parent1;
      SetUpdatedBoth(p, other);
      ghost var m := nodes;
      MarkUpdatedStructure(n0, DirtySet(n0, p) + DirtySet(n0, other));
      SameStructureKids(n0, m);
      nodes := RemoveFromBoth(nodes, p, other, d);
      LeafFinish(n0, next, p, d, m, nodes);
      LeafExact(n0, d);
    }

    /** delete(d) on `p`: a leaf refuses; otherwise `d` is returned, deleted or not. */
    method Delete(p: NodeId, d: NodeId) returns (r: Result<NodeId>)
      requires Valid() && p in nodes && d in nodes
      modifies this
      ensures Valid() && next == old(next)
      ensures old(nodes)[p].Leaf? ==> r == Err(Unsupported) && nodes == old(nodes)
      ensures !old(nodes)[p].Leaf? ==> r == Ok(d)
      ensures !(IsVisible(old(nodes), d) && d in Kids(old(nodes), p)) ==> nodes == old(nodes)
      ensures IsVisible(old(nodes), d) && d in Kids(old(nodes), p) ==>
        && MoreUpdated(Prune(old(nodes), Doomed(old(nodes), d)), nodes)
        && ExactOutside(old(nodes), d, Doomed(old(nodes), d), nodes)
      ensures IsLeaf(old(nodes), d) && IsVisible(old(nodes), d) && d in Kids(old(nodes), p) ==>
        nodes == Prune(MarkUpdated(old(nodes), LeafDirty(old(nodes), d)), {d})
    {
      if nodes[p].Leaf? {
        return Err(Unsupported);
      }
      DeleteFrom(p, d);
      return Ok(d);
    }
  }
}
