/**
 * The breadth-first search of the twin tree. A search from a start node pops nodes from a
 * queue seeded with the start's children; an optional visited set makes it skip nodes met
 * before; a visible node is matched and, depending on the location searched, its children
 * are queued.
 */
module Searching {
  import opened Sequences
  import opened TreeNodes
  import opened Paths
  import opened Structure
  import opened Measure

  /** Where a search or filter looks: everything, branches only, or down to the leaves. */
  datatype Location = AllNodes | BranchNodes | LeafNodes

  /**
   * A visible node has its children queued, except that a branch-only walk stops at a node
   * whose first child is a leaf.
   */
  ghost function WalkRule<V, A>(nodes: Nodes<V, A>, loc: Location): NodeId -> bool {
    (x: NodeId) => IsVisible(nodes, x) && (loc != BranchNodes || FirstChildIsBranch(nodes, x))
  }

  /** The nodes the walk from `s` pops. */
  ghost function Walked<V, A>(nodes: Nodes<V, A>, loc: Location, s: NodeId): set<NodeId> {
    set x | x in nodes && Reach(nodes, WalkRule(nodes, loc), Kids(nodes, s), x)
  }

  /** A node the matcher accepts: visible, and the predicate holds of what it sees. */
  predicate Hit<V, A>(nodes: Nodes<V, A>, m: Item<V> -> bool, x: NodeId) {
    IsVisible(nodes, x) && m(ItemAt(nodes, x))
  }

  /** `x` was visited before the walk began. */
  predicate Excluded(vis: Option<set<NodeId>>, x: NodeId) {
    vis.Some? && x in vis.value
  }

  /** What a walk from `s` would reach and finds already visited has no children. */
  ghost predicate Skippable<V, A>(nodes: Nodes<V, A>, loc: Location, s: NodeId, vis: Option<set<NodeId>>) {
    forall y :: y in Walked(nodes, loc, s) && Excluded(vis, y) ==> Kids(nodes, y) == []
  }

  lemma NoDupSnoc<T>(s: seq<T>, x: T)
    requires NoDup(s) && x !in s
    ensures NoDup(s + [x])
  {
  }

  /**
   * The invariant of a breadth-first walk from `starts` under the expansion rule `e`: what is
   * queued or popped is reachable, every start is popped or queued, and each processed node
   * that expands has its children popped or queued.
   */
  ghost predicate WalkInv<V, A>(nodes: Nodes<V, A>, e: NodeId -> bool, starts: seq<NodeId>,
                                queue: seq<NodeId>, popped: set<NodeId>, done: set<NodeId>) {
    && (forall y :: y in queue ==> y in nodes && Reach(nodes, e, starts, y))
    && (forall y :: y in popped ==> y in nodes && Reach(nodes, e, starts, y))
    && done <= popped
    && (forall y :: y in starts ==> y in popped || y in queue)
    && (forall v, c :: v in done && e(v) && c in Kids(nodes, v) ==> c in popped || c in queue)
  }

  /** The queue after popping its head, which is processed when `unseen` and skipped otherwise. */
  ghost function WalkNext<V, A>(nodes: Nodes<V, A>, e: NodeId -> bool, queue: seq<NodeId>, unseen: bool): seq<NodeId>
    requires queue != []
  {
    if unseen && e(queue[0]) && Kids(nodes, queue[0]) != [] then queue[1..] + Kids(nodes, queue[0]) else queue[1..]
  }

  lemma WalkInit<V, A>(nodes: Nodes<V, A>, bound: NodeId, e: NodeId -> bool, s: NodeId)
    requires Wf(nodes, bound) && s in nodes
    ensures WalkInv(nodes, e, Kids(nodes, s), Kids(nodes, s), {}, {})
  {
    forall c | c in Kids(nodes, s) ensures c in nodes && Reach(nodes, e, Kids(nodes, s), c) {
      KidFacts(nodes, bound, s, c);
      ReachStart(nodes, e, Kids(nodes, s), c);
    }
  }

  /** One round of a walk keeps its invariant. */
  lemma WalkStep<V, A>(nodes: Nodes<V, A>, e: NodeId -> bool, starts: seq<NodeId>,
                       queue: seq<NodeId>, popped: set<NodeId>, done: set<NodeId>, unseen: bool)
    requires WalkInv(nodes, e, starts, queue, popped, done) && queue != []
    requires forall c :: c in Kids(nodes, queue[0]) ==> c in nodes
    ensures WalkInv(nodes, e, starts, WalkNext(nodes, e, queue, unseen), popped + {queue[0]},
                    if unseen then done + {queue[0]} else done)
  {
    assert queue[0] in queue;
    WalkStepQueued(nodes, e, starts, queue, popped, done, unseen);
    WalkStepClosed(nodes, e, starts, queue, popped, done, unseen);
  }

  /** A round shrinks the measure, and the popped node's children are in the arena. */
  lemma WalkShrinks<V, A>(nodes: Nodes<V, A>, bound: NodeId, e: NodeId -> bool, queue: seq<NodeId>, unseen: bool)
    requires Wf(nodes, bound) && queue != [] && queue[0] in nodes
    ensures QSum(nodes, bound, WalkNext(nodes, e, queue, unseen)) < QSum(nodes, bound, queue)
    ensures forall c :: c in Kids(nodes, queue[0]) ==> c in nodes
  {
    var x := queue[0];
    forall c | c in Kids(nodes, x) ensures c in nodes && x < c < bound {
      KidFacts(nodes, bound, x, c);
    }
    QSumPop(nodes, bound, queue);
  }

  /** What a round queues is reachable. */
  lemma WalkStepQueued<V, A>(nodes: Nodes<V, A>, e: NodeId -> bool, starts: seq<NodeId>,
                             queue: seq<NodeId>, popped: set<NodeId>, done: set<NodeId>, unseen: bool)
    requires WalkInv(nodes, e, starts, queue, popped, done) && queue != []
    requires forall c :: c in Kids(nodes, queue[0]) ==> c in nodes
    ensures forall y :: y in WalkNext(nodes, e, queue, unseen) ==> y in nodes && Reach(nodes, e, starts, y)
  {
    var x := queue[0];
    assert x in queue;
    forall y | y in WalkNext(nodes, e, queue, unseen) ensures y in nodes && Reach(nodes, e, starts, y) {
      if y in queue[1..] {
        assert y in queue;
      } else {
        ReachStep(nodes, e, starts, x, y);
      }
    }
  }

  /** A round leaves every start and every child of an expanded node popped or queued. */
  lemma WalkStepClosed<V, A>(nodes: Nodes<V, A>, e: NodeId -> bool, starts: seq<NodeId>,
                             queue: seq<NodeId>, popped: set<NodeId>, done: set<NodeId>, unseen: bool)
    requires WalkInv(nodes, e, starts, queue, popped, done) && queue != []
    ensures forall y :: y in starts ==> y in popped + {queue[0]} || y in WalkNext(nodes, e, queue, unseen)
    ensures forall v, c :: v in (if unseen then done + {queue[0]} else done) && e(v) && c in Kids(nodes, v) ==>
      c in popped + {queue[0]} || c in WalkNext(nodes, e, queue, unseen)
  {
    var x := queue[0];
    var q' := WalkNext(nodes, e, queue, unseen);
    assert forall y :: y in queue[1..] ==> y in q';
    assert unseen && e(x) ==> forall c :: c in Kids(nodes, x) ==> c in q';
    WalkKeeps(queue, popped, q', set y | y in starts);
    ClosedKeeps(nodes, e, queue, popped, done, q', unseen);
  }

  /** What was popped or queued stays popped or queued when the head moves to the popped set. */
  lemma WalkKeeps(queue: seq<NodeId>, popped: set<NodeId>, q': seq<NodeId>, s: set<NodeId>)
    requires queue != [] && forall y :: y in queue[1..] ==> y in q'
    requires forall y :: y in s ==> y in popped || y in queue
    ensures forall y :: y in s ==> y in popped + {queue[0]} || y in q'
  {
    forall y | y in s ensures y in popped + {queue[0]} || y in q' {
      if y !in popped && y != queue[0] {
        assert queue == [queue[0]] + queue[1..];
        assert y in queue[1..];
      }
    }
  }

  lemma ClosedKeeps<V, A>(nodes: Nodes<V, A>, e: NodeId -> bool, queue: seq<NodeId>, popped: set<NodeId>,
                          done: set<NodeId>, q': seq<NodeId>, unseen: bool)
    requires queue != [] && forall y :: y in queue[1..] ==> y in q'
    requires forall v, c :: v in done && e(v) && c in Kids(nodes, v) ==> c in popped || c in queue
    requires unseen && e(queue[0]) ==> forall c :: c in Kids(nodes, queue[0]) ==> c in q'
    ensures forall v, c :: v in (if unseen then done + {queue[0]} else done) && e(v) && c in Kids(nodes, v) ==>
      c in popped + {queue[0]} || c in q'
  {
    var x := queue[0];
    forall v, c | v in (if unseen then done + {x} else done) && e(v) && c in Kids(nodes, v)
      ensures c in popped + {x} || c in q'
    {
      if v != x && c !in popped && c != x {
        assert queue == [x] + queue[1..];
        assert c in queue[1..];
      }
    }
  }

  /**
   * A walk whose queue is empty and which skipped only childless nodes has popped exactly
   * what is reachable.
   */
  lemma WalkFinish<V, A>(nodes: Nodes<V, A>, e: NodeId -> bool, starts: seq<NodeId>,
                         popped: set<NodeId>, done: set<NodeId>)
    requires WalkInv(nodes, e, starts, [], popped, done)
    requires forall v :: v in popped && v !in done ==> Kids(nodes, v) == []
    ensures popped == set x | x in nodes && Reach(nodes, e, starts, x)
  {
    forall x | x in nodes && Reach(nodes, e, starts, x) ensures x in popped {
      var p :| IsPath(nodes, e, p) && p[0] in starts && p[|p| - 1] == x;
      var i := 0;
      while i < |p| - 1
        invariant 0 <= i < |p| && p[i] in popped
      {
        WalkPathStep(nodes, e, starts, popped, done, p[i], p[i + 1]);
        i := i + 1;
      }
    }
  }

  /** Along a path, the walk pops the next node once it has popped the one before. */
  lemma WalkPathStep<V, A>(nodes: Nodes<V, A>, e: NodeId -> bool, starts: seq<NodeId>,
                           popped: set<NodeId>, done: set<NodeId>, v: NodeId, c: NodeId)
    requires WalkInv(nodes, e, starts, [], popped, done)
    requires forall v :: v in popped && v !in done ==> Kids(nodes, v) == []
    requires v in popped && e(v) && c in Kids(nodes, v)
    ensures c in popped
  {
    assert v in done;
  }

  lemma RuleAt<V, A>(nodes: Nodes<V, A>, loc: Location, x: NodeId)
    ensures WalkRule(nodes, loc)(x) <==> x in nodes && nodes[x].visible && (loc != BranchNodes || FirstChildIsBranch(nodes, x))
  {
  }

  lemma HitAt<V, A>(nodes: Nodes<V, A>, m: Item<V> -> bool, x: NodeId)
    requires x in nodes
    ensures Hit(nodes, m, x) <==> nodes[x].visible && m(ItemOf(nodes[x]))
  {
  }

  /** Marking a node not visited before keeps the visited set equal to the old one plus the processed nodes. */
  lemma SeenStep(vis0: set<NodeId>, seen: set<NodeId>, popped: set<NodeId>, done: set<NodeId>, x: NodeId)
    requires seen == vis0 + done && done !! vis0 && popped <= done + vis0 && x !in seen
    ensures seen + {x} == vis0 + (done + {x}) && done + {x} !! vis0 && popped + {x} <= done + {x} + vis0
  {
  }

  /**
   * What keeps a walk from popping a node twice: no queued node is another queued node or
   * lies above one, and none is or lies above a node already popped.
   */
  ghost predicate Spaced<V, A>(nodes: Nodes<V, A>, queue: seq<NodeId>, popped: set<NodeId>) {
    && Scattered(nodes, queue)
    && (forall k, y :: 0 <= k < |queue| && y in popped ==> Apart(nodes, queue[k], y))
  }

  /** No two entries of `s` are the same node or lie one above the other. */
  ghost predicate Scattered<V, A>(nodes: Nodes<V, A>, s: seq<NodeId>) {
    forall k1, k2 :: 0 <= k1 < |s| && 0 <= k2 < |s| && k1 != k2 ==> Apart(nodes, s[k1], s[k2])
  }

  /** Two scattered sequences whose entries are apart from each other scatter when joined. */
  lemma ScatteredConcat<V, A>(nodes: Nodes<V, A>, a: seq<NodeId>, b: seq<NodeId>)
    requires Scattered(nodes, a) && Scattered(nodes, b)
    requires forall y, z :: y in a && z in b ==> Apart(nodes, y, z) && Apart(nodes, z, y)
    ensures Scattered(nodes, a + b)
  {
    var r := a + b;
    forall k1, k2 | 0 <= k1 < |r| && 0 <= k2 < |r| && k1 != k2 ensures Apart(nodes, r[k1], r[k2]) {
      if k1 < |a| && k2 < |a| {
        assert r[k1] == a[k1] && r[k2] == a[k2];
      } else if k1 < |a| {
        assert r[k1] == a[k1] && r[k2] == b[k2 - |a|] && r[k1] in a && r[k2] in b;
      } else if k2 < |a| {
        assert r[k1] == b[k1 - |a|] && r[k2] == a[k2] && r[k1] in b && r[k2] in a;
      } else {
        assert r[k1] == b[k1 - |a|] && r[k2] == b[k2 - |a|];
      }
    }
  }

  /** The children of the start, with nothing popped yet, are spaced. */
  lemma SpacedStart<V, A>(nodes: Nodes<V, A>, bound: NodeId, e: NodeId -> bool, s: NodeId)
    requires Wf(nodes, bound) && s in nodes
    ensures Spaced(nodes, Kids(nodes, s), {})
  {
    var cs := Kids(nodes, s);
    assert NodeOk(nodes, s);
    forall k1, k2 | 0 <= k1 < |cs| && 0 <= k2 < |cs| && k1 != k2 ensures Apart(nodes, cs[k1], cs[k2]) {
      if Below(nodes, cs[k1], cs[k2]) {
        ReachStart(nodes, e, cs, cs[k1]);
        ThroughAncestor(nodes, bound, e, e, s, cs[k1], cs[k2], [cs[k2]]);
        assert false;
      }
    }
  }

  /** Popping the head of a spaced queue: it was not popped before, and the rest stays spaced. */
  lemma SpacedDrop<V, A>(nodes: Nodes<V, A>, queue: seq<NodeId>, popped: set<NodeId>)
    requires Spaced(nodes, queue, popped) && queue != []
    ensures queue[0] !in popped
    ensures Spaced(nodes, queue[1..], popped + {queue[0]})
    ensures forall k :: 0 < k < |queue| ==> Apart(nodes, queue[k], queue[0]) && Apart(nodes, queue[0], queue[k])
  {
    var x, r := queue[0], queue[1..];
    forall y | y in popped ensures y != x {
      assert Apart(nodes, queue[0], y);
    }
    forall k | 0 <= k < |r| ensures r[k] == queue[k + 1] {
    }
  }

  /** A node `y` apart from an expanded node `x` is apart from each child of `x`, both ways. */
  lemma ApartFromKid<V, A>(nodes: Nodes<V, A>, bound: NodeId, e: NodeId -> bool, s: NodeId, x: NodeId, y: NodeId, c: NodeId)
    requires Wf(nodes, bound) && s in nodes && Reach(nodes, e, Kids(nodes, s), x) && e(x) && c in Kids(nodes, x)
    requires Reach(nodes, e, Kids(nodes, s), y) && Apart(nodes, y, x) && Apart(nodes, x, y)
    ensures Apart(nodes, y, c) && Apart(nodes, c, y)
  {
    KidNotBelow(nodes, bound, e, s, x, y, c);
    KidApart(nodes, x, c, y);
  }

  /** A child is apart from its parent: it has the larger id. */
  lemma KidApartFromParent<V, A>(nodes: Nodes<V, A>, bound: NodeId, x: NodeId, c: NodeId)
    requires Wf(nodes, bound) && x in nodes && c in Kids(nodes, x)
    ensures Apart(nodes, c, x)
  {
    KidFacts(nodes, bound, x, c);
    if Below(nodes, c, x) {
      BelowLarger(nodes, bound, c, x);
    }
  }

  /** Two children of an expanded node are apart. */
  lemma KidsApart<V, A>(nodes: Nodes<V, A>, bound: NodeId, e: NodeId -> bool, s: NodeId, x: NodeId, i: nat, j: nat)
    requires Wf(nodes, bound) && s in nodes && x in nodes && Reach(nodes, e, Kids(nodes, s), x) && e(x)
    requires i < |Kids(nodes, x)| && j < |Kids(nodes, x)| && i != j
    ensures Apart(nodes, Kids(nodes, x)[i], Kids(nodes, x)[j])
  {
    var cs := Kids(nodes, x);
    assert NodeOk(nodes, x);
    ReachStep(nodes, e, Kids(nodes, s), x, cs[i]);
    KidApartFromParent(nodes, bound, x, cs[i]);
    KidNotBelow(nodes, bound, e, s, x, cs[i], cs[j]);
  }

  /**
   * Expanding the head of a spaced queue keeps it spaced: the children of the popped node
   * lie beneath it alone, since each axis is a tree.
   */
  lemma SpacedExpand<V, A>(nodes: Nodes<V, A>, bound: NodeId, e: NodeId -> bool, s: NodeId,
                           queue: seq<NodeId>, popped: set<NodeId>)
    requires Wf(nodes, bound) && s in nodes && queue != [] && e(queue[0])
    requires forall y :: y in queue ==> y in nodes && Reach(nodes, e, Kids(nodes, s), y)
    requires Spaced(nodes, queue, popped)
    ensures Spaced(nodes, queue[1..] + Kids(nodes, queue[0]), popped + {queue[0]})
  {
    SpacedDrop(nodes, queue, popped);
    var x, r := queue[0], queue[1..];
    var cs := Kids(nodes, x);
    var q' := r + cs;
    assert x in queue;
    forall k | 0 <= k < |r| ensures r[k] == queue[k + 1] && r[k] in queue {
    }
    assert Scattered(nodes, r) by {
      forall k1, k2 | 0 <= k1 < |r| && 0 <= k2 < |r| && k1 != k2 ensures Apart(nodes, r[k1], r[k2]) {
        assert Apart(nodes, queue[k1 + 1], queue[k2 + 1]);
      }
    }
    assert Scattered(nodes, cs) by {
      forall k1, k2 | 0 <= k1 < |cs| && 0 <= k2 < |cs| && k1 != k2 ensures Apart(nodes, cs[k1], cs[k2]) {
        KidsApart(nodes, bound, e, s, x, k1, k2);
      }
    }
    forall y, c | y in r && c in cs ensures Apart(nodes, y, c) && Apart(nodes, c, y) {
      var k :| 0 <= k < |r| && r[k] == y;
      assert y == queue[k + 1] && y in queue && Apart(nodes, y, x) && Apart(nodes, x, y);
      ApartFromKid(nodes, bound, e, s, x, y, c);
    }
    ScatteredConcat(nodes, r, cs);
    forall k, y | 0 <= k < |q'| && y in popped + {x} ensures Apart(nodes, q'[k], y) {
      if k < |r| {
        assert q'[k] == r[k];
      } else {
        assert q'[k] == cs[k - |r|];
        if y != x {
          assert Apart(nodes, queue[0], y);
          KidApart(nodes, x, q'[k], y);
        } else {
          KidApartFromParent(nodes, bound, x, q'[k]);
        }
      }
    }
  }

  /** One round keeps the queue spaced, and the node it pops was not popped before. */
  lemma SpacedStep<V, A>(nodes: Nodes<V, A>, bound: NodeId, e: NodeId -> bool, s: NodeId,
                         queue: seq<NodeId>, popped: set<NodeId>, done: set<NodeId>, unseen: bool)
    requires Wf(nodes, bound) && s in nodes && WalkInv(nodes, e, Kids(nodes, s), queue, popped, done)
    requires Spaced(nodes, queue, popped) && queue != []
    ensures queue[0] !in popped
    ensures Spaced(nodes, WalkNext(nodes, e, queue, unseen), popped + {queue[0]})
  {
    SpacedDrop(nodes, queue, popped);
    if unseen && e(queue[0]) && Kids(nodes, queue[0]) != [] {
      SpacedExpand(nodes, bound, e, s, queue, popped);
    }
  }

  /** After the walk: it popped exactly what it reaches, and skipped only what was visited before. */
  lemma SearchEnd<V, A>(nodes: Nodes<V, A>, loc: Location, s: NodeId, vis0: Option<set<NodeId>>,
                        popped: set<NodeId>, done: set<NodeId>)
    requires Skippable(nodes, loc, s, vis0)
    requires WalkInv(nodes, WalkRule(nodes, loc), Kids(nodes, s), [], popped, done)
    requires vis0.Some? ==> popped <= done + vis0.value
    requires vis0.None? ==> popped == done
    ensures popped == Walked(nodes, loc, s)
  {
    forall v | v in popped && v !in done ensures Kids(nodes, v) == [] {
      assert v in Walked(nodes, loc, s) && Excluded(vis0, v);
    }
    WalkFinish(nodes, WalkRule(nodes, loc), Kids(nodes, s), popped, done);
  }

  /**
   * search(matcher, start, visited, location): the nodes the walk from `s` pops that it has
   * not visited before and that are visible and accepted, in the order popped; `vis` gains
   * everything popped.
   */
  method SearchFrom<V, A>(nodes: Nodes<V, A>, bound: NodeId, m: Item<V> -> bool, s: NodeId, loc: Location,
                          vis0: Option<set<NodeId>>) returns (res: seq<NodeId>, vis: Option<set<NodeId>>)
    requires Wf(nodes, bound) && s in nodes && Skippable(nodes, loc, s, vis0)
    ensures vis.Some? == vis0.Some?
    ensures vis.Some? ==> vis.value == vis0.value + Walked(nodes, loc, s)
    ensures forall x :: x in res <==> x in Walked(nodes, loc, s) && Hit(nodes, m, x) && !Excluded(vis0, x)
    ensures NoDup(res)
  {
    ghost var e := WalkRule(nodes, loc);
    var tracking := vis0.Some?;
    var seen := if tracking then vis0.value else {};
    var queue := Kids(nodes, s);
    res := [];
    // The nodes popped so far, and those of them processed rather than skipped.
    ghost var popped: set<NodeId> := {};
    ghost var done: set<NodeId> := {};
    WalkInit(nodes, bound, e, s);
    SpacedStart(nodes, bound, e, s);
    while queue != []
      invariant WalkInv(nodes, e, Kids(nodes, s), queue, popped, done)
      invariant tracking ==> seen == vis0.value + done && done !! vis0.value && popped <= done + vis0.value
      invariant !tracking ==> popped == done
      invariant forall y :: y in res <==> y in done && Hit(nodes, m, y)
      invariant Spaced(nodes, queue, popped)
      invariant NoDup(res)
      decreases QSum(nodes, bound, queue)
    {
      var x := queue[0];
      var unseen := !tracking || x !in seen;
      assert x in queue;
      WalkShrinks(nodes, bound, e, queue, unseen);
      WalkStep(nodes, e, Kids(nodes, s), queue, popped, done, unseen);
      SpacedStep(nodes, bound, e, s, queue, popped, done, unseen);
      ghost var q' := WalkNext(nodes, e, queue, unseen);
      RuleAt(nodes, loc, x);
      HitAt(nodes, m, x);
      if unseen && tracking {
        SeenStep(vis0.value, seen, popped, done, x);
      }
      popped := popped + {x};
      if unseen {
        seen, done := seen + {x}, done + {x};
        if nodes[x].visible {
          if m(ItemOf(nodes[x])) {
            NoDupSnoc(res, x);
            res := res + [x];
          }
          var cs := Kids(nodes, x);
          if cs != [] && (loc == AllNodes || (loc == BranchNodes && FirstChildIsBranch(nodes, x)) || loc == LeafNodes) {
            queue := queue[1..] + cs;
            assert queue == q';
          } else {
            queue := queue[1..];
          }
        } else {
          queue := queue[1..];
        }
      } else {
        queue := queue[1..];
      }
    }
    vis := if tracking then Some(seen) else None;
    SearchEnd(nodes, loc, s, vis0, popped, done);
  }

  /** A node other than a leaf that a walk from a root meets belongs to that root's axis. */
  lemma WalkedAxis<V, A>(nodes: Nodes<V, A>, bound: NodeId, loc: Location, r: NodeId, y: NodeId)
    requires Wf(nodes, bound) && IsRoot(nodes, r) && y in Walked(nodes, loc, r) && !nodes[y].Leaf?
    ensures Axis(nodes, y) == r
  {
    var e := WalkRule(nodes, loc);
    var p :| IsPath(nodes, e, p) && p[0] in Kids(nodes, r) && p[|p| - 1] == y;
    AxisAlongPath(nodes, bound, e, r, p, |p| - 1);
  }

  /** The two roots' walks share only leaves. */
  lemma WalkedTwice<V, A>(nodes: Nodes<V, A>, bound: NodeId, loc1: Location, loc2: Location, y: NodeId)
    requires Wf(nodes, bound) && y in Walked(nodes, loc1, RootNode1) && y in Walked(nodes, loc2, RootNode2)
    ensures IsLeaf(nodes, y) && Kids(nodes, y) == []
  {
    if !nodes[y].Leaf? {
      WalkedAxis(nodes, bound, loc1, RootNode1, y);
      WalkedAxis(nodes, bound, loc2, RootNode2, y);
    }
  }

  /**
   * A branch-only walk from a root meets only branches: a root's children are branches, and
   * it follows a node's children only when the first of them is a branch.
   */
  lemma BranchWalkOnlyBranches<V, A>(nodes: Nodes<V, A>, bound: NodeId, r: NodeId, y: NodeId)
    requires Wf(nodes, bound) && IsRoot(nodes, r) && y in Walked(nodes, BranchNodes, r)
    ensures IsBranch(nodes, y)
  {
    ReachBranches(nodes, bound, WalkRule(nodes, BranchNodes), r, y);
  }

  /** Following only children whose first one is a branch, a path from a root meets only branches. */
  lemma {:induction false} ReachBranches<V, A>(nodes: Nodes<V, A>, bound: NodeId, e: NodeId -> bool, r: NodeId, y: NodeId)
    requires Wf(nodes, bound) && IsRoot(nodes, r) && Reach(nodes, e, Kids(nodes, r), y)
    requires forall x :: e(x) ==> FirstChildIsBranch(nodes, x)
    ensures IsBranch(nodes, y)
  {
    var p :| IsPath(nodes, e, p) && p[0] in Kids(nodes, r) && p[|p| - 1] == y;
    KidFacts(nodes, bound, r, p[0]);
    assert NodeOk(nodes, p[0]);
    var i := 0;
    while i < |p| - 1
      invariant 0 <= i < |p| && IsBranch(nodes, p[i])
    {
      assert e(p[i]) && p[i + 1] in Kids(nodes, p[i]);
      KidKind(nodes, bound, p[i], p[i + 1]);
      i := i + 1;
    }
  }

  /**
   * An invisible node is neither matched nor expanded: every node of the same axis above a
   * node the walk meets is itself met, and visible.
   */
  lemma WalkedThroughVisible<V, A>(nodes: Nodes<V, A>, bound: NodeId, loc: Location, s: NodeId, h: NodeId, x: NodeId)
    requires Wf(nodes, bound) && s in nodes
    requires Reach(nodes, Always(), Kids(nodes, s), h) && Below(nodes, h, x) && x in Walked(nodes, loc, s)
    ensures IsVisible(nodes, h) && h in Walked(nodes, loc, s)
  {
    var e := WalkRule(nodes, loc);
    var p :| IsPath(nodes, e, p) && p[0] in Kids(nodes, s) && p[|p| - 1] == x;
    ThroughAncestor(nodes, bound, e, Always(), s, h, x, p);
    var i :| 0 <= i < |p| - 1 && p[i] == h;
    assert e(p[i]);
    ReachAlong(nodes, e, Kids(nodes, s), p, i);
  }

  /** Every node on a path from the starts is reachable. */
  lemma ReachAlong<V, A>(nodes: Nodes<V, A>, e: NodeId -> bool, starts: seq<NodeId>, p: seq<NodeId>, i: nat)
    requires IsPath(nodes, e, p) && p[0] in starts && i < |p|
    ensures Reach(nodes, e, starts, p[i])
  {
    PathPrefix(nodes, e, p, i);
    assert p[..i + 1][0] == p[0] && p[..i + 1][i] == p[i];
  }

  /** What the façade's search returns: visible accepted nodes met by the walk from either root (a leaf search walks the first root only). */
  ghost predicate Found<V, A>(nodes: Nodes<V, A>, m: Item<V> -> bool, loc: Location, x: NodeId) {
    Hit(nodes, m, x) && (x in Walked(nodes, loc, RootNode1) || (loc != LeafNodes && x in Walked(nodes, loc, RootNode2)))
  }

  /** The second walk of an all-nodes search may skip what the first one met: those are childless leaves. */
  lemma SecondSearchReady<V, A>(nodes: Nodes<V, A>, bound: NodeId, loc: Location)
    requires Wf(nodes, bound)
    ensures Skippable(nodes, loc, RootNode2, if loc == AllNodes then Some({} + Walked(nodes, loc, RootNode1)) else None)
  {
    forall y | y in Walked(nodes, loc, RootNode2) && loc == AllNodes && y in {} + Walked(nodes, loc, RootNode1)
      ensures Kids(nodes, y) == []
    {
      WalkedTwice(nodes, bound, loc, loc, y);
    }
  }

  lemma NoDupConcat<T>(a: seq<T>, b: seq<T>)
    requires NoDup(a) && NoDup(b) && forall x :: x in a ==> x !in b
    ensures NoDup(a + b)
  {
    forall i, j | 0 <= i < j < |a + b| ensures (a + b)[i] != (a + b)[j] {
      if j < |a| {
        assert (a + b)[i] == a[i] && (a + b)[j] == a[j];
      } else if i < |a| {
        assert (a + b)[i] == a[i] && (a + b)[j] == b[j - |a|] && a[i] in a;
      } else {
        assert (a + b)[i] == b[i - |a|] && (a + b)[j] == b[j - |a|];
      }
    }
  }

  /** The branch walks from the two roots share no node: the walks share only leaves, and a branch walk meets none. */
  lemma BranchWalksApart<V, A>(nodes: Nodes<V, A>, bound: NodeId, x: NodeId)
    requires Wf(nodes, bound) && x in Walked(nodes, BranchNodes, RootNode1)
    ensures x !in Walked(nodes, BranchNodes, RootNode2)
  {
    BranchWalkOnlyBranches(nodes, bound, RootNode1, x);
    if x in Walked(nodes, BranchNodes, RootNode2) {
      WalkedTwice(nodes, bound, BranchNodes, BranchNodes, x);
      assert false;
    }
  }

  /** A branch search finds only branches. */
  lemma {:induction false} FoundBranch<V, A>(nodes: Nodes<V, A>, bound: NodeId, m: Item<V> -> bool, x: NodeId)
    requires Wf(nodes, bound) && Found(nodes, m, BranchNodes, x)
    ensures IsBranch(nodes, x)
  {
    if x in Walked(nodes, BranchNodes, RootNode1) {
      BranchWalkOnlyBranches(nodes, bound, RootNode1, x);
    } else {
      BranchWalkOnlyBranches(nodes, bound, RootNode2, x);
    }
  }

  /**
   * An invisible node hides its subtree from a search: every node of the root's axis above
   * a found node is visible. `r` is the root whose walk met `x`.
   */
  lemma FoundBeneathVisible<V, A>(nodes: Nodes<V, A>, bound: NodeId, m: Item<V> -> bool, loc: Location,
                                  r: NodeId, h: NodeId, x: NodeId)
    requires Wf(nodes, bound) && IsRoot(nodes, r) && Found(nodes, m, loc, x) && x in Walked(nodes, loc, r)
    requires Reach(nodes, Always(), Kids(nodes, r), h) && Below(nodes, h, x)
    ensures IsVisible(nodes, h) && IsVisible(nodes, x)
  {
    WalkedThroughVisible(nodes, bound, loc, r, h, x);
  }
}
