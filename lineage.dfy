/**
 * The ancestry of a branch: the chain of branches from a top-level branch (a child of a
 * root) down to it, each the parent of the next. getParents, getParents1 and getParents2
 * return such chains.
 */
module Lineage {
  import opened TreeNodes

  /** `c` runs from a top-level branch down to `x`, each element the parent of the next. */
  ghost predicate ParentChain<V, A>(nodes: Nodes<V, A>, c: seq<NodeId>, x: NodeId) {
    && |c| > 0 && c[|c| - 1] == x
    && (forall i :: 0 <= i < |c| ==> IsBranch(nodes, c[i]))
    && IsRoot(nodes, nodes[c[0]].parent)
    && (forall j :: 0 < j < |c| ==> IsBranch(nodes, c[j]) && nodes[c[j]].parent == c[j - 1])
  }

  /** The ancestry of a branch is such a chain. */
  lemma {:induction false} AncestryIsChain<V, A>(nodes: Nodes<V, A>, next: NodeId, x: NodeId)
    requires Wf(nodes, next) && IsBranch(nodes, x)
    ensures ParentChain(nodes, Ancestry(nodes, x), x)
    decreases x
  {
    assert NodeOk(nodes, x);
    var p := nodes[x].parent;
    if nodes[p].Branch? {
      AncestryIsChain(nodes, next, p);
      var c := Ancestry(nodes, p);
      assert Ancestry(nodes, x) == c + [x];
    } else {
      assert Ancestry(nodes, p) == [];
      assert Ancestry(nodes, x) == [x];
    }
  }

  /** ... and the only one: any chain from a top-level branch down to `x` is its ancestry. */
  lemma {:induction false} ChainIsAncestry<V, A>(nodes: Nodes<V, A>, next: NodeId, c: seq<NodeId>, x: NodeId)
    requires Wf(nodes, next) && ParentChain(nodes, c, x)
    ensures c == Ancestry(nodes, x)
    decreases |c|
  {
    assert NodeOk(nodes, x);
    var p := nodes[x].parent;
    if |c| == 1 {
      assert Ancestry(nodes, p) == [];
    } else {
      var c' := c[..|c| - 1];
      assert ParentChain(nodes, c', p) by {
        forall j | 0 < j < |c'| ensures IsBranch(nodes, c'[j]) && nodes[c'[j]].parent == c'[j - 1] {
          assert c'[j] == c[j] && c'[j - 1] == c[j - 1];
        }
      }
      ChainIsAncestry(nodes, next, c', p);
      assert c == c' + [x];
    }
  }

  /** The top-level branch above `b`: the first of getParents, or `b` itself if there is none. */
  function TopOf<V, A>(nodes: Nodes<V, A>, b: NodeId): NodeId
    requires IsBranch(nodes, b)
  {
    var ps := Ancestry(nodes, nodes[b].parent);
    if ps == [] then b else ps[0]
  }

  /** `TopOf(b)` is where the ancestry of `b` starts, and it sits directly under a root. */
  lemma TopOfIsFirst<V, A>(nodes: Nodes<V, A>, next: NodeId, b: NodeId)
    requires Wf(nodes, next) && IsBranch(nodes, b)
    ensures Ancestry(nodes, b) != [] && TopOf(nodes, b) == Ancestry(nodes, b)[0]
    ensures IsBranch(nodes, TopOf(nodes, b)) && IsRoot(nodes, nodes[TopOf(nodes, b)].parent)
    ensures Ancestry(nodes, TopOf(nodes, b)) == [TopOf(nodes, b)]
  {
    assert NodeOk(nodes, b);
    AncestryIsChain(nodes, next, b);
    var c := Ancestry(nodes, b);
    assert c == Ancestry(nodes, nodes[b].parent) + [b];
    assert ParentChain(nodes, [c[0]], c[0]);
    ChainIsAncestry(nodes, next, [c[0]], c[0]);
  }
}
