/**
 * Dirty marking. setUpdated(b) sets the `updated` flag of the top-level branch above `b`
 * and of every branch beneath it, so that their cached accumulated values are recomputed.
 */
module Dirtying {
  import opened TreeNodes
  import opened Paths
  import opened Structure
  import opened Lineage
  import opened Measure

  /** setUpdated queues the children of a node whose first child is a branch. */
  ghost function UpdateRule<V, A>(nodes: Nodes<V, A>): NodeId -> bool {
    (x: NodeId) => FirstChildIsBranch(nodes, x)
  }

  /** The nodes setUpdated(b) visits, starting from the top-level branch above `b`. */
  ghost function DirtySet<V, A>(nodes: Nodes<V, A>, b: NodeId): set<NodeId>
    requires IsBranch(nodes, b)
  {
    set x | x in nodes && Reach(nodes, UpdateRule(nodes), [TopOf(nodes, b)], x)
  }

  /**
   * What changing leaf `l` marks: setUpdated is called for both of its parents (a leaf's
   * parents are branches in a well-formed arena).
   */
  ghost function LeafDirty<V, A>(nodes: Nodes<V, A>, l: NodeId): set<NodeId>
    requires IsLeaf(nodes, l)
  {
    var p1, p2 := nodes[l].parent1, nodes[l].parent2;
    (if IsBranch(nodes, p1) then DirtySet(nodes, p1) else {}) + (if IsBranch(nodes, p2) then DirtySet(nodes, p2) else {})
  }

  /** Sets the `updated` flag of the roots and branches in `s`. */
  ghost function MarkUpdated<V, A>(nodes: Nodes<V, A>, s: set<NodeId>): Nodes<V, A> {
    map x | x in nodes :: if x in s then Flagged(nodes[x]) else nodes[x]
  }

  /** Each element of `c` is listed as a child of the previous one. */
  ghost predicate Linked<V, A>(nodes: Nodes<V, A>, c: seq<NodeId>) {
    forall j :: 0 < j < |c| ==> c[j] in Kids(nodes, c[j - 1])
  }

  /**
   * `x` is a branch beneath the top-level branch `top`, or `top` itself: its ancestry starts
   * at `top`, and every branch of it is still in its parent's children list.
   */
  ghost predicate InSubtree<V, A>(nodes: Nodes<V, A>, top: NodeId, x: NodeId) {
    && IsBranch(nodes, x)
    && |Ancestry(nodes, x)| > 0 && Ancestry(nodes, x)[0] == top
    && Linked(nodes, Ancestry(nodes, x))
  }

  /** setUpdated(b) marks exactly the top-level branch above `b` and the branches under it. */
  lemma DirtySetIsSubtree<V, A>(nodes: Nodes<V, A>, next: NodeId, b: NodeId, x: NodeId)
    requires Wf(nodes, next) && IsBranch(nodes, b)
    ensures x in DirtySet(nodes, b) <==> InSubtree(nodes, TopOf(nodes, b), x)
  {
    TopOfIsFirst(nodes, next, b);
    if x in DirtySet(nodes, b) {
      DirtyIsSubtree(nodes, next, TopOf(nodes, b), x);
    }
    if InSubtree(nodes, TopOf(nodes, b), x) {
      SubtreeIsDirty(nodes, next, TopOf(nodes, b), x);
    }
  }

  lemma DirtyIsSubtree<V, A>(nodes: Nodes<V, A>, next: NodeId, top: NodeId, x: NodeId)
    requires Wf(nodes, next) && IsBranch(nodes, top) && Ancestry(nodes, top) == [top]
    requires Reach(nodes, UpdateRule(nodes), [top], x)
    ensures InSubtree(nodes, top, x)
  {
    var e := UpdateRule(nodes);
    var p :| IsPath(nodes, e, p) && p[0] in [top] && p[|p| - 1] == x;
    var i := 0;
    while i < |p| - 1
      invariant 0 <= i < |p|
      invariant IsBranch(nodes, p[i]) && Ancestry(nodes, p[i]) == p[..i + 1]
    {
      assert e(p[i]) && p[i + 1] in Kids(nodes, p[i]);
      KidKind(nodes, next, p[i], p[i + 1]);
      KidFacts(nodes, next, p[i], p[i + 1]);
      assert Ancestry(nodes, p[i + 1]) == Ancestry(nodes, p[i]) + [p[i + 1]];
      assert p[..i + 2] == p[..i + 1] + [p[i + 1]];
      i := i + 1;
    }
    assert p[..|p|] == p;
    forall j | 0 < j < |p| ensures p[j] in Kids(nodes, p[j - 1]) {
      assert e(p[j - 1]) && p[j - 1 + 1] in Kids(nodes, p[j - 1]);
    }
  }

  lemma SubtreeIsDirty<V, A>(nodes: Nodes<V, A>, next: NodeId, top: NodeId, x: NodeId)
    requires Wf(nodes, next) && InSubtree(nodes, top, x)
    ensures Reach(nodes, UpdateRule(nodes), [top], x)
  {
    var e := UpdateRule(nodes);
    var c := Ancestry(nodes, x);
    AncestryIsChain(nodes, next, x);
    forall i | 0 <= i < |c| - 1 ensures e(c[i]) && c[i + 1] in Kids(nodes, c[i]) {
      assert c[i + 1] in Kids(nodes, c[i + 1 - 1]);
      KidKind(nodes, next, c[i], c[i + 1]);
    }
    assert IsPath(nodes, e, c);
    assert c[0] in [top];
  }

  lemma MarkUpdatedStructure<V, A>(nodes: Nodes<V, A>, s: set<NodeId>)
    ensures SameStructure(nodes, MarkUpdated(nodes, s))
  {
  }

  /** Marking one more node is one map update. */
  lemma MarkOneMore<V, A>(nodes: Nodes<V, A>, s: set<NodeId>, x: NodeId)
    requires x in nodes
    ensures x in MarkUpdated(nodes, s)
    ensures MarkUpdated(nodes, s)[x := Flagged(MarkUpdated(nodes, s)[x])] == MarkUpdated(nodes, s + {x})
  {
  }

  lemma MarkUpdatedTwice<V, A>(nodes: Nodes<V, A>, s1: set<NodeId>, s2: set<NodeId>)
    ensures MarkUpdated(MarkUpdated(nodes, s1), s2) == MarkUpdated(nodes, s1 + s2)
  {
  }

  /** The marked set depends only on the structure, not on flags or visibility. */
  lemma DirtySetSameStructure<V, A>(a: Nodes<V, A>, b: Nodes<V, A>, x: NodeId)
    requires SameStructure(a, b) && IsBranch(a, x)
    ensures IsBranch(b, x) && DirtySet(a, x) == DirtySet(b, x)
  {
    SameStructureKids(a, b);
    assert Strip(a[x]) == Strip(b[x]);
    SameStructureAxis(a, b, a[x].parent);
    assert TopOf(a, x) == TopOf(b, x);
    forall y ensures y in DirtySet(a, x) <==> y in DirtySet(b, x) {
      ReachSameKids(a, b, UpdateRule(a), UpdateRule(b), [TopOf(a, x)], y);
    }
  }

  /**
   * The loop invariant of setUpdated started at `top`: everything queued or done is a branch
   * the loop may reach, and each done node that expands has its children queued or done.
   */
  ghost predicate MarkInv<V, A>(nodes: Nodes<V, A>, top: NodeId, queue: seq<NodeId>, done: set<NodeId>) {
    && (forall y :: y in queue ==> IsBranch(nodes, y) && Reach(nodes, UpdateRule(nodes), [top], y))
    && (forall y :: y in done ==> IsBranch(nodes, y) && Reach(nodes, UpdateRule(nodes), [top], y))
    && (top in done || top in queue)
    && (forall v, c :: v in done && FirstChildIsBranch(nodes, v) && c in Kids(nodes, v) ==> c in done || c in queue)
  }

  /** The queue after the loop pops its head. */
  function MarkNext<V, A>(nodes: Nodes<V, A>, queue: seq<NodeId>): seq<NodeId>
    requires queue != []
  {
    if FirstChildIsBranch(nodes, queue[0]) then queue[1..] + Kids(nodes, queue[0]) else queue[1..]
  }

  lemma MarkInit<V, A>(nodes: Nodes<V, A>, top: NodeId)
    requires IsBranch(nodes, top)
    ensures MarkInv(nodes, top, [top], {})
  {
    ReachStart(nodes, UpdateRule(nodes), [top], top);
  }

  /** One round of the loop keeps the invariant and shrinks the measure. */
  lemma MarkStep<V, A>(nodes: Nodes<V, A>, next: NodeId, top: NodeId, queue: seq<NodeId>, done: set<NodeId>)
    requires Wf(nodes, next) && MarkInv(nodes, top, queue, done) && queue != []
    ensures MarkInv(nodes, top, MarkNext(nodes, queue), done + {queue[0]})
    ensures QSum(nodes, next, MarkNext(nodes, queue)) < QSum(nodes, next, queue)
    ensures IsBranch(nodes, queue[0])
  {
    var x := queue[0];
    assert x in queue;
    forall c | c in Kids(nodes, x) ensures x < c < next {
      KidFacts(nodes, next, x, c);
    }
    QSumPop(nodes, next, queue);
    MarkStepQueued(nodes, next, top, queue, done);
    MarkStepClosed(nodes, top, queue, done);
  }

  /** What the round queues is a branch the loop may reach. */
  lemma MarkStepQueued<V, A>(nodes: Nodes<V, A>, next: NodeId, top: NodeId, queue: seq<NodeId>, done: set<NodeId>)
    requires Wf(nodes, next) && MarkInv(nodes, top, queue, done) && queue != []
    ensures forall y :: y in MarkNext(nodes, queue) ==> IsBranch(nodes, y) && Reach(nodes, UpdateRule(nodes), [top], y)
  {
    var e := UpdateRule(nodes);
    var x := queue[0];
    assert x in queue;
    if FirstChildIsBranch(nodes, x) {
      assert e(x);
      forall c | c in Kids(nodes, x) ensures IsBranch(nodes, c) && Reach(nodes, e, [top], c) {
        KidKind(nodes, next, x, c);
        ReachStep(nodes, e, [top], x, c);
      }
    }
    forall y | y in MarkNext(nodes, queue) ensures IsBranch(nodes, y) && Reach(nodes, e, [top], y) {
      if y in queue[1..] {
        assert y in queue;
      }
    }
  }

  /** The popped node's children are queued when it expands, so the done set stays closed. */
  lemma MarkStepClosed<V, A>(nodes: Nodes<V, A>, top: NodeId, queue: seq<NodeId>, done: set<NodeId>)
    requires MarkInv(nodes, top, queue, done) && queue != []
    ensures forall v, c :: v in done + {queue[0]} && FirstChildIsBranch(nodes, v) && c in Kids(nodes, v) ==>
      c in done + {queue[0]} || c in MarkNext(nodes, queue)
  {
    var x := queue[0];
    assert queue == [x] + queue[1..];
    var q', d' := MarkNext(nodes, queue), done + {x};
    forall v, c | v in d' && FirstChildIsBranch(nodes, v) && c in Kids(nodes, v) ensures c in d' || c in q' {
      if v != x {
        assert v in done;
        if c !in done && c != x {
          assert c in queue[1..];
        }
      }
    }
  }

  /** When the queue is empty, the done set is everything the loop may reach. */
  lemma MarkFinish<V, A>(nodes: Nodes<V, A>, top: NodeId, done: set<NodeId>)
    requires MarkInv(nodes, top, [], done)
    ensures done == set x | x in nodes && Reach(nodes, UpdateRule(nodes), [top], x)
  {
    var e := UpdateRule(nodes);
    assert ClosedUnder(nodes, e, done) by {
      forall v, c | v in done && e(v) && c in Kids(nodes, v) ensures c in done {
        assert FirstChildIsBranch(nodes, v);
      }
    }
    forall y | y in nodes && Reach(nodes, e, [top], y) ensures y in done {
      ReachWithin(nodes, e, [top], done, y);
    }
  }
}
