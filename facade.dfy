/**
 * The ConjoinedTwinTree façade: two roots over one arena of nodes, with the search,
 * filter, sort and traversal algorithms that work across the two axes.
 */
module Facade {
  import opened Sequences
  import opened TreeNodes
  import opened Paths
  import opened Structure
  import opened Measure
  import opened Dirtying
  import opened Searching
  import opened Filtering
  import opened Arena
  import opened LevelSorting
  import opened Traversal

  class ConjoinedTwinTree<V, A> {
    /** The node objects; rootNode1 and rootNode2 are the ids RootNode1 and RootNode2. */
    const arena: NodeArena<V, A>

    ghost predicate Valid()
      reads this, arena
    {
      arena.Valid()
    }

    /** A new tree: two roots, each without value, parent or children, and invisible. */
    constructor ()
      ensures Valid() && fresh(arena)
      ensures arena.nodes == map[RootNode1 := NewRoot(), RootNode2 := NewRoot()] && arena.next == 2
    {
      arena := new NodeArena();
    }

    /** setVisible(false) on `c` during a filter: `c` joins the hidden nodes. */
    method HideOne(ghost n0: Nodes<V, A>, keep: Item<V> -> bool, ghost d: set<NodeId>, ghost b: set<NodeId>, c: NodeId)
      requires Valid() && Wf(n0, arena.next) && c in n0 && Styled(n0, keep, d, b, arena.nodes)
      modifies arena
      ensures Valid() && arena.next == old(arena.next)
      ensures Styled(n0, keep, d, b + {c}, arena.nodes)
    {
      StyledHide(n0, arena.next, keep, d, b, arena.nodes, c);
      arena.SetVisible(c, false);
    }

    /** setVisible(visibility.test(x)) during a filter: `x` joins the judged nodes. */
    method JudgeOne(ghost n0: Nodes<V, A>, keep: Item<V> -> bool, ghost d: set<NodeId>, ghost b: set<NodeId>, x: NodeId)
      requires Valid() && Wf(n0, arena.next) && x in n0 && x !in b && Styled(n0, keep, d, b, arena.nodes)
      modifies arena
      ensures Valid() && arena.next == old(arena.next)
      ensures Styled(n0, keep, d + {x}, b, arena.nodes)
    {
      StyledAt(n0, keep, d, b, arena.nodes, x);
      StyledJudge(n0, arena.next, keep, d, b, arena.nodes, x);
      arena.SetVisible(x, keep(ItemOf(arena.nodes[x])));
    }

    /**
     * One step of setInvisibleTreeNodes: child `c` is marked visited and set invisible,
     * then everything beneath it is hidden the same way.
     */
    method HideChild(ghost n0: Nodes<V, A>, keep: Item<V> -> bool, ghost d: set<NodeId>, ghost b: set<NodeId>,
                     c: NodeId, visited: Option<set<NodeId>>) returns (visited': Option<set<NodeId>>)
      requires Valid() && Wf(n0, arena.next) && c in n0 && Styled(n0, keep, d, b, arena.nodes)
      modifies arena
      ensures Valid() && arena.next == old(arena.next)
      ensures Styled(n0, keep, d, b + ({c} + Under(n0, c)), arena.nodes)
      ensures visited'.Some? == visited.Some?
      ensures visited.Some? ==> visited'.value == visited.value + ({c} + Under(n0, c))
      decreases arena.next - c, 2
    {
      visited' := visited;
      if visited'.Some? {
        visited' := Some(visited'.value + {c});
      }
      HideOne(n0, keep, d, b, c);
      StyledAt(n0, keep, d, b + {c}, arena.nodes, c);
      if Kids(arena.nodes, c) != [] {
        visited' := HideUnder(n0, keep, d, b + {c}, c, visited');
      } else {
        UnderNone(n0, c);
      }
      UnionAssoc(b, {c}, Under(n0, c));
      if visited.Some? {
        UnionAssoc(visited.value, {c}, Under(n0, c));
      }
    }

    /**
     * setInvisibleTreeNodes(children of `x`, visited): each child, in order, is marked
     * visited and set invisible, then the same is done beneath it.
     */
    method HideUnder(ghost n0: Nodes<V, A>, keep: Item<V> -> bool, ghost d: set<NodeId>, ghost b: set<NodeId>,
                     x: NodeId, visited: Option<set<NodeId>>) returns (visited': Option<set<NodeId>>)
      requires Valid() && Wf(n0, arena.next) && x in n0 && Styled(n0, keep, d, b, arena.nodes)
      modifies arena
      ensures Valid() && arena.next == old(arena.next)
      ensures Styled(n0, keep, d, b + Under(n0, x), arena.nodes)
      ensures visited'.Some? == visited.Some?
      ensures visited.Some? ==> visited'.value == visited.value + Under(n0, x)
      decreases arena.next - x, 1
    {
      ghost var bound := arena.next;
      StyledAt(n0, keep, d, b, arena.nodes, x);
      var cs := Kids(arena.nodes, x);
      visited' := visited;
      UnderUpToNone(n0, x);
      // The first `j` children with everything beneath them: what this call has hidden so far.
      ghost var below: set<NodeId> := {};
      assert b + below == b;
      var j := 0;
      while j < |cs|
        invariant Valid() && arena.next == bound
        invariant cs == Kids(n0, x) && j <= |cs|
        invariant below == UnderUpTo(n0, x, j)
        invariant Styled(n0, keep, d, b + below, arena.nodes)
        invariant visited'.Some? == visited.Some?
        invariant visited.Some? ==> visited'.value == visited.value + below
      {
        var c := cs[j];
        UnderUpToStep(n0, bound, x, j);
        ghost var step := {c} + Under(n0, c);
        visited' := HideChild(n0, keep, d, b + below, c, visited');
        UnionAssoc(below, {c}, Under(n0, c));
        UnionAssoc(b, below, step);
        if visited.Some? {
          UnionAssoc(visited.value, below, step);
        }
        below := below + step;
        j := j + 1;
      }
      UnderUpToAll(n0, x);
      assert below == Under(n0, x);
    }

    /**
     * One node popped by a filter and not visited before: it is marked visited and set visible
     * exactly when the predicate accepts it; when it rejects it, everything beneath is hidden.
     */
    method Visit(ghost n0: Nodes<V, A>, keep: Item<V> -> bool, ghost vis0: Option<set<NodeId>>,
                 ghost done: set<NodeId>, ghost b: set<NodeId>, x: NodeId, visited: Option<set<NodeId>>)
      returns (visited': Option<set<NodeId>>, kept: bool, ghost b': set<NodeId>)
      requires Valid() && Wf(n0, arena.next) && x in n0 && x !in b && b == BuriedBy(n0, keep, done)
      requires Styled(n0, keep, done, b, arena.nodes)
      requires visited.Some? == vis0.Some?
      requires visited.Some? ==> visited.value == vis0.value + done + b
      modifies arena
      ensures Valid() && arena.next == old(arena.next)
      ensures kept == keep(ItemAt(n0, x))
      ensures b' == BuriedBy(n0, keep, done + {x}) && Styled(n0, keep, done + {x}, b', arena.nodes)
      ensures Kids(arena.nodes, x) == Kids(n0, x) && FirstChildIsBranch(arena.nodes, x) == FirstChildIsBranch(n0, x)
      ensures visited'.Some? == visited.Some?
      ensures visited.Some? ==> visited'.value == vis0.value + (done + {x}) + b'
    {
      visited' := visited;
      if visited'.Some? {
        visited' := Some(visited'.value + {x});
      }
      BuriedByAdd(n0, keep, done, x);
      JudgeOne(n0, keep, done, b, x);
      StyledAt(n0, keep, done + {x}, b, arena.nodes, x);
      kept := arena.nodes[x].visible;
      if kept {
        b' := b;
        if vis0.Some? {
          UnionSwap(vis0.value, done, b, x);
        }
      } else {
        visited' := HideUnder(n0, keep, done + {x}, b, x, visited');
        b' := b + Under(n0, x);
        if vis0.Some? {
          UnionShuffle(vis0.value, done, b, x, Under(n0, x));
        }
      }
      StyledAt(n0, keep, done + {x}, b', arena.nodes, x);
    }

    /**
     * filter(visibility, start, visited, location): pops nodes breadth-first from the
     * children of `s`; each one not visited before is marked visited and set visible exactly
     * when the predicate accepts it. A kept node has its children queued (for a branch-only
     * filter, only when the first child is a branch); a rejected node has everything beneath
     * it hidden.
     */
    method FilterFrom(keep: Item<V> -> bool, s: NodeId, loc: Location, vis0: Option<set<NodeId>>)
      returns (visited: Option<set<NodeId>>)
      requires Valid() && s in arena.nodes && FilterSkippable(arena.nodes, keep, loc, s, vis0)
      modifies arena
      ensures Valid() && arena.next == old(arena.next)
      ensures Styled(old(arena.nodes), keep, Judged(old(arena.nodes), keep, loc, s, vis0),
                     BuriedBy(old(arena.nodes), keep, Judged(old(arena.nodes), keep, loc, s, vis0)), arena.nodes)
      ensures visited.Some? == vis0.Some?
      ensures visited.Some? ==> visited.value == vis0.value + Swept(old(arena.nodes), keep, loc, s)
                                                 + BuriedBy(old(arena.nodes), keep, Judged(old(arena.nodes), keep, loc, s, vis0))
    {
      ghost var n0, bound := arena.nodes, arena.next;
      visited := vis0;
      var queue := Kids(arena.nodes, s);
      // The nodes popped so far, those of them judged, and what the judged ones buried.
      ghost var popped: set<NodeId> := {};
      ghost var done: set<NodeId> := {};
      ghost var b: set<NodeId> := {};
      WalkInit(n0, bound, KeepRule(n0, keep, loc), s);
      StyledStart(n0, keep);
      while queue != []
        invariant Valid() && arena.next == bound
        invariant FilterInv(n0, bound, keep, loc, s, vis0, queue, popped, done, b, visited, arena.nodes)
        decreases QSum(n0, bound, queue)
      {
        var x := queue[0];
        FilterPop(n0, bound, keep, loc, s, vis0, queue, popped, done, b, visited, arena.nodes);
        ghost var cur, vis, b0, q0, p0, d0 := arena.nodes, visited, b, queue, popped, done;
        var unseen := visited.None? || x !in visited.value;
        var grow := false;
        if unseen {
          var kept;
          visited, kept, b := Visit(n0, keep, vis0, done, b, x, visited);
          done := done + {x};
          grow := kept && Kids(arena.nodes, x) != [] &&
                  (loc == AllNodes || (loc == BranchNodes && FirstChildIsBranch(arena.nodes, x)) || loc == LeafNodes);
        }
        if grow {
          queue := queue[1..] + Kids(arena.nodes, x);
        } else {
          queue := queue[1..];
        }
        popped := popped + {x};
        FilterAdvance(n0, bound, keep, loc, s, vis0, q0, p0, d0, b0, vis, cur, unseen, grow, queue, popped, done, b, visited, arena.nodes);
      }
      FilterFinish(n0, bound, keep, loc, s, vis0, popped, done, b, visited, arena.nodes);
    }

    /**
     * filter(visibility, location): a run from the first root, then (except for a leaf
     * filter) one from the second root; a filter over all nodes shares one visited set
     * between the runs. Every judged node shows the predicate's verdict, every buried node
     * is hidden, the branches above judged or buried leaves are flagged, and nothing else
     * changes.
     */
    method Filter(keep: Item<V> -> bool, loc: Location)
      requires Valid()
      modifies arena
      ensures Valid() && arena.next == old(arena.next)
      ensures Styled(old(arena.nodes), keep, FilterJudged(old(arena.nodes), keep, loc),
                     FilterBuried(old(arena.nodes), keep, loc), arena.nodes)
    {
      ghost var n0 := arena.nodes;
      var visited := StartVisited(loc);
      FirstRunReady(n0, keep, loc);
      visited := FilterFrom(keep, RootNode1, loc, visited);
      ghost var n1 := arena.nodes;
      ghost var j1, b1 := FirstJudged(n0, keep, loc), BuriedBy(n0, keep, FirstJudged(n0, keep, loc));
      if loc != LeafNodes {
        StyledStructure(n0, keep, j1, b1, n1);
        SecondRunReady(n0, arena.next, keep, loc, n1);
        assert visited == SecondVisited(n0, keep, loc);
        visited := FilterFrom(keep, RootNode2, loc, visited);
        StyledTwice(n0, n1, arena.nodes, keep, j1, b1, SecondJudged(n0, keep, loc), BuriedBy(n0, keep, SecondJudged(n0, keep, loc)));
      } else {
        assert FilterJudged(n0, keep, loc) == j1 && BuriedBy(n0, keep, SecondJudged(n0, keep, loc)) == {};
        assert FilterBuried(n0, keep, loc) == b1;
      }
    }

    /**
     * search(matcher, location): the walk from the first root, then (except for a leaf
     * search) the one from the second root, their results concatenated in that order; a
     * search over all nodes shares one visited set, and the two branch walks meet no common
     * node, so no search returns a node twice.
     */
    method Search(m: Item<V> -> bool, loc: Location) returns (res: seq<NodeId>)
      requires Valid()
      ensures forall x :: x in res <==> Found(arena.nodes, m, loc, x)
      ensures NoDup(res)
      ensures loc == BranchNodes ==> forall x :: x in res ==> IsBranch(arena.nodes, x)
    {
      var vis := StartVisited(loc);
      res, vis := SearchFrom(arena.nodes, arena.next, m, RootNode1, loc, vis);
      if loc != LeafNodes {
        SecondSearchReady(arena.nodes, arena.next, loc);
        var more;
        more, vis := SearchFrom(arena.nodes, arena.next, m, RootNode2, loc, vis);
        if loc == BranchNodes {
          forall x | x in res ensures x !in more {
            BranchWalksApart(arena.nodes, arena.next, x);
          }
        }
        NoDupConcat(res, more);
        res := res + more;
      }
      forall x | loc == BranchNodes && x in res ensures IsBranch(arena.nodes, x) {
        FoundBranch(arena.nodes, arena.next, m, x);
      }
    }
  
    /**
     * The private sort(treeNode, comparators, i): when comparator `i` exists and `x` is not
     * a leaf, the children of `x` are sorted by it, then each child, in the new order, is
     * sorted from level `i + 1`.
     */
    method SortLevels(x: NodeId, cmps: seq<Comparator<V>>, i: nat)
      requires Valid() && x in arena.nodes
      modifies arena
      ensures Valid() && arena.next == old(arena.next)
      ensures arena.nodes == LevelSort(old(arena.nodes), arena.next, x, cmps, i)
      decreases arena.next - x, 1
    {
      if i < |cmps| && !arena.nodes[x].Leaf? {
        ghost var n0 := arena.nodes;
        ghost var bound := arena.next;
        var sorted := arena.SortChildren(x, cmps[i]);
        assert arena.nodes == SortTop(n0, x, cmps[i]);
        var cs := arena.nodes[x].children;
        assert cs == SortedKids(n0, x, cmps[i]);
        LevelSortUnfold(n0, bound, x, cmps, i);
        SortEachChild(x, cs, cmps, i + 1);
        assert arena.nodes == SortEach(SortTop(n0, x, cmps[i]), bound, x, SortedKids(n0, x, cmps[i]), cmps, i + 1);
      } else {
        assert LevelSort(arena.nodes, arena.next, x, cmps, i) == arena.nodes;
      }
    }

    /** The forEach over the sorted children `cs` of `x`: each one sorted from level `i`. */
    method SortEachChild(x: NodeId, cs: seq<NodeId>, cmps: seq<Comparator<V>>, i: nat)
      requires Valid() && x in arena.nodes && cs == Kids(arena.nodes, x)
      modifies arena
      ensures Valid() && arena.next == old(arena.next)
      ensures arena.nodes == SortEach(old(arena.nodes), arena.next, x, cs, cmps, i)
      decreases arena.next - x, 0
    {
      ghost var n0 := arena.nodes;
      ghost var bound := arena.next;
      assert forall j :: 0 <= j < |cs| ==> cs[j] in n0 && x < cs[j] < bound by {
        forall j | 0 <= j < |cs| ensures cs[j] in n0 && x < cs[j] < bound {
          KidFacts(n0, bound, x, cs[j]);
        }
      }
      var j := 0;
      while j < |cs|
        invariant 0 <= j <= |cs|
        invariant Valid() && arena.next == bound && arena.nodes.Keys == n0.Keys
        invariant SortEach(arena.nodes, bound, x, cs[j..], cmps, i) == SortEach(n0, bound, x, cs, cmps, i)
      {
        var k := j + 1;
        SortEachStep(arena.nodes, bound, x, cs, j, k, cmps, i);
        SortLevels(cs[j], cmps, i);
        j := k;
      }
    }

    /**
     * sort(treeNode, comparators...): one comparator per level from `x` down; null
     * comparators (None) leave the tree as it is.
     */
    method Sort(x: NodeId, cmps: Option<seq<Comparator<V>>>)
      requires Valid() && x in arena.nodes
      modifies arena
      ensures Valid() && arena.next == old(arena.next)
      ensures cmps.None? ==> arena.nodes == old(arena.nodes)
      ensures cmps.Some? ==> arena.nodes == LevelSort(old(arena.nodes), arena.next, x, cmps.value, 0)
    {
      if cmps.Some? {
        SortLevels(x, cmps.value, 0);
      }
    }

    /**
     * sortLeafsAndTraverse(unsortedBranches, branch, comparator): the leaf children of
     * `p` are sorted, then read back through getSortedBranches. The second result is the
     * caller's list as removeAll leaves it. A leaf `p` cannot be sorted.
     */
    method SortLeafsAndTraverse(unsorted: seq<Row>, p: NodeId, cmp: Comparator<V>)
      returns (r: Result<(seq<Row>, seq<Row>)>)
      requires Valid() && p in arena.nodes && LeavesOnly(arena.nodes, p)
      modifies arena
      ensures Valid() && arena.next == old(arena.next)
      ensures old(arena.nodes)[p].Leaf? ==> r == Err(Unsupported) && arena.nodes == old(arena.nodes)
      ensures !old(arena.nodes)[p].Leaf? ==>
        && arena.nodes == SortTop(old(arena.nodes), p, cmp)
        && LeavesOnly(arena.nodes, p)
        && r == Ok(SortedBranches(arena.nodes, unsorted, p))
    {
      ghost var n0 := arena.nodes;
      var sorted := arena.SortChildren(p, cmp);
      if sorted.Err? {
        return Err(Unsupported);
      }
      forall c | c in Kids(arena.nodes, p) ensures IsLeaf(arena.nodes, c) {
        assert c in multiset(Kids(arena.nodes, p));
        assert c in Kids(n0, p);
        KidFacts(n0, arena.next, p, c);
      }
      r := Ok(SortedBranches(arena.nodes, unsorted, p));
    }
  }
}
