/**
 * Reachability through children lists. Every breadth-first loop of the tree pops a node,
 * decides by some rule whether to queue its children, and goes on; `Reach(nodes, e, s, x)`
 * says that `x` is met by such a loop started with the queue `s` when the rule is `e`.
 */
module Paths {
  import opened TreeNodes

  /** Consecutive elements are parent and child, and every element but the last expands. */
  ghost predicate IsPath<V, A>(nodes: Nodes<V, A>, e: NodeId -> bool, p: seq<NodeId>) {
    |p| > 0 && forall i :: 0 <= i < |p| - 1 ==> e(p[i]) && p[i + 1] in Kids(nodes, p[i])
  }

  ghost predicate Reach<V, A>(nodes: Nodes<V, A>, e: NodeId -> bool, starts: seq<NodeId>, x: NodeId) {
    exists p :: IsPath(nodes, e, p) && p[0] in starts && p[|p| - 1] == x
  }

  /** Every child, whatever it is, is followed. */
  ghost function Always(): NodeId -> bool {
    _ => true
  }

  /** `x` lies strictly beneath `a`. */
  ghost predicate Below<V, A>(nodes: Nodes<V, A>, a: NodeId, x: NodeId) {
    Reach(nodes, Always(), Kids(nodes, a), x)
  }

  lemma ReachStart<V, A>(nodes: Nodes<V, A>, e: NodeId -> bool, starts: seq<NodeId>, x: NodeId)
    requires x in starts
    ensures Reach(nodes, e, starts, x)
  {
    assert IsPath(nodes, e, [x]);
  }

  lemma ReachStep<V, A>(nodes: Nodes<V, A>, e: NodeId -> bool, starts: seq<NodeId>, x: NodeId, c: NodeId)
    requires Reach(nodes, e, starts, x) && e(x) && c in Kids(nodes, x)
    ensures Reach(nodes, e, starts, c)
  {
    var p :| IsPath(nodes, e, p) && p[0] in starts && p[|p| - 1] == x;
    var q := p + [c];
    assert IsPath(nodes, e, q) by {
      forall i | 0 <= i < |q| - 1 ensures e(q[i]) && q[i + 1] in Kids(nodes, q[i]) {
        if i < |p| - 1 {
          assert q[i] == p[i] && q[i + 1] == p[i + 1];
        }
      }
    }
    assert q[0] == p[0] && q[|q| - 1] == c;
  }

  /** A set that holds the starts and the children of each of its expanding members. */
  ghost predicate ClosedUnder<V, A>(nodes: Nodes<V, A>, e: NodeId -> bool, s: set<NodeId>) {
    forall v, c :: v in s && e(v) && c in Kids(nodes, v) ==> c in s
  }

  /** Such a set holds everything reachable: the loop that builds it misses nothing. */
  lemma ReachWithin<V, A>(nodes: Nodes<V, A>, e: NodeId -> bool, starts: seq<NodeId>, s: set<NodeId>, x: NodeId)
    requires forall y :: y in starts ==> y in s
    requires ClosedUnder(nodes, e, s)
    requires Reach(nodes, e, starts, x)
    ensures x in s
  {
    var p :| IsPath(nodes, e, p) && p[0] in starts && p[|p| - 1] == x;
    var i := 0;
    while i < |p| - 1
      invariant 0 <= i < |p| && p[i] in s
    {
      assert e(p[i]) && p[i + 1] in Kids(nodes, p[i]);
      i := i + 1;
    }
  }

  /** A path from one of `starts` decomposes at its first step. */
  lemma ReachFirstStep<V, A>(nodes: Nodes<V, A>, e: NodeId -> bool, starts: seq<NodeId>, x: NodeId)
    requires Reach(nodes, e, starts, x)
    ensures x in starts || exists y :: y in starts && e(y) && Reach(nodes, e, Kids(nodes, y), x)
  {
    var p :| IsPath(nodes, e, p) && p[0] in starts && p[|p| - 1] == x;
    if |p| > 1 {
      var q := p[1..];
      assert IsPath(nodes, e, q) by {
        forall i | 0 <= i < |q| - 1 ensures e(q[i]) && q[i + 1] in Kids(nodes, q[i]) {
          assert q[i] == p[i + 1] && q[i + 1] == p[i + 2];
        }
      }
      assert e(p[0]) && q[0] in Kids(nodes, p[0]);
    }
  }

  /** Conversely, what lies beneath an expanding start is reachable from the starts. */
  lemma ReachThrough<V, A>(nodes: Nodes<V, A>, e: NodeId -> bool, starts: seq<NodeId>, y: NodeId, x: NodeId)
    requires y in starts && e(y) && Reach(nodes, e, Kids(nodes, y), x)
    ensures Reach(nodes, e, starts, x)
  {
    var p :| IsPath(nodes, e, p) && p[0] in Kids(nodes, y) && p[|p| - 1] == x;
    var q := [y] + p;
    assert IsPath(nodes, e, q) by {
      forall i | 0 <= i < |q| - 1 ensures e(q[i]) && q[i + 1] in Kids(nodes, q[i]) {
        if i > 0 {
          assert q[i] == p[i - 1] && q[i + 1] == p[i];
        }
      }
    }
  }

  /** Paths only depend on the children lists and on the rule's verdicts. */
  lemma ReachSameKids<V, A>(a: Nodes<V, A>, b: Nodes<V, A>, e1: NodeId -> bool, e2: NodeId -> bool,
                            starts: seq<NodeId>, x: NodeId)
    requires forall y :: Kids(a, y) == Kids(b, y)
    requires forall y :: e1(y) == e2(y)
    ensures Reach(a, e1, starts, x) <==> Reach(b, e2, starts, x)
  {
    if Reach(a, e1, starts, x) {
      var p :| IsPath(a, e1, p) && p[0] in starts && p[|p| - 1] == x;
      assert IsPath(b, e2, p);
    }
    if Reach(b, e2, starts, x) {
      var p :| IsPath(b, e2, p) && p[0] in starts && p[|p| - 1] == x;
      assert IsPath(a, e1, p);
    }
  }

  /** A weaker rule reaches no more. */
  lemma ReachWeaker<V, A>(nodes: Nodes<V, A>, e: NodeId -> bool, f: NodeId -> bool, starts: seq<NodeId>, x: NodeId)
    requires forall y :: e(y) ==> f(y)
    requires Reach(nodes, e, starts, x)
    ensures Reach(nodes, f, starts, x)
  {
    var p :| IsPath(nodes, e, p) && p[0] in starts && p[|p| - 1] == x;
    assert IsPath(nodes, f, p);
  }

  /** A path from a sequence of starts is a path from one of them, and conversely. */
  lemma ReachSplit<V, A>(nodes: Nodes<V, A>, e: NodeId -> bool, starts: seq<NodeId>, x: NodeId)
    ensures Reach(nodes, e, starts, x) <==> exists j :: 0 <= j < |starts| && Reach(nodes, e, [starts[j]], x)
  {
    if Reach(nodes, e, starts, x) {
      var p :| IsPath(nodes, e, p) && p[0] in starts && p[|p| - 1] == x;
      var j :| 0 <= j < |starts| && starts[j] == p[0];
      assert Reach(nodes, e, [starts[j]], x);
    }
    if exists j :: 0 <= j < |starts| && Reach(nodes, e, [starts[j]], x) {
      var j :| 0 <= j < |starts| && Reach(nodes, e, [starts[j]], x);
      var p :| IsPath(nodes, e, p) && p[0] in [starts[j]] && p[|p| - 1] == x;
      assert p[0] in starts;
    }
  }

  /** The prefixes of a path are paths. */
  lemma PathPrefix<V, A>(nodes: Nodes<V, A>, e: NodeId -> bool, p: seq<NodeId>, i: nat)
    requires IsPath(nodes, e, p) && i < |p|
    ensures IsPath(nodes, e, p[..i + 1])
  {
    var q := p[..i + 1];
    forall k | 0 <= k < |q| - 1 ensures e(q[k]) && q[k + 1] in Kids(nodes, q[k]) {
      assert q[k] == p[k] && q[k + 1] == p[k + 1];
    }
  }

  /**
   * Reachability only depends on the children lists of the expanding nodes that are reached:
   * where those agree, so does what is reached.
   */
  lemma ReachLocal<V, A>(a: Nodes<V, A>, b: Nodes<V, A>, e: NodeId -> bool, starts: seq<NodeId>, x: NodeId)
    requires forall y :: Reach(a, e, starts, y) && e(y) ==> Kids(b, y) == Kids(a, y)
    ensures Reach(a, e, starts, x) <==> Reach(b, e, starts, x)
  {
    if Reach(a, e, starts, x) {
      ReachLocalThere(a, b, e, starts, x);
    }
    if Reach(b, e, starts, x) {
      ReachLocalBack(a, b, e, starts, x);
    }
  }

  lemma ReachLocalThere<V, A>(a: Nodes<V, A>, b: Nodes<V, A>, e: NodeId -> bool, starts: seq<NodeId>, x: NodeId)
    requires forall y :: Reach(a, e, starts, y) && e(y) ==> Kids(b, y) == Kids(a, y)
    requires Reach(a, e, starts, x)
    ensures Reach(b, e, starts, x)
  {
    var p :| IsPath(a, e, p) && p[0] in starts && p[|p| - 1] == x;
    forall i | 0 <= i < |p| - 1 ensures e(p[i]) && p[i + 1] in Kids(b, p[i]) {
      PathPrefix(a, e, p, i);
      assert p[..i + 1][0] == p[0] && p[..i + 1][i] == p[i];
      assert Reach(a, e, starts, p[i]);
    }
    assert IsPath(b, e, p);
  }

  lemma ReachLocalBack<V, A>(a: Nodes<V, A>, b: Nodes<V, A>, e: NodeId -> bool, starts: seq<NodeId>, x: NodeId)
    requires forall y :: Reach(a, e, starts, y) && e(y) ==> Kids(b, y) == Kids(a, y)
    requires Reach(b, e, starts, x)
    ensures Reach(a, e, starts, x)
  {
    var p :| IsPath(b, e, p) && p[0] in starts && p[|p| - 1] == x;
    ReachStart(a, e, starts, p[0]);
    var i := 0;
    while i < |p| - 1
      invariant 0 <= i < |p| && Reach(a, e, starts, p[i])
    {
      assert e(p[i]) && p[i + 1] in Kids(b, p[i]);
      ReachStep(a, e, starts, p[i], p[i + 1]);
      i := i + 1;
    }
  }
}
