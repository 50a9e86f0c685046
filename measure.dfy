/**
 * A termination measure for the breadth-first loops. `Size(x)` counts the nodes of the
 * subtree of `x` unfolded as a tree (a shared leaf is counted once per parent); popping a
 * node and queueing its children lowers the total size of the queue by one.
 */
module Measure {
  import opened TreeNodes

  ghost function Size<V, A>(nodes: Nodes<V, A>, bound: nat, x: NodeId): nat
    decreases if x < bound then bound - x else 0, 1
  {
    1 + SumSize(nodes, bound, x, Kids(nodes, x))
  }

  /** The sizes of the members of `cs` that lie strictly between `x` and `bound`. */
  ghost function SumSize<V, A>(nodes: Nodes<V, A>, bound: nat, x: NodeId, cs: seq<NodeId>): nat
    decreases if x < bound then bound - x else 0, 0, |cs|
  {
    if cs == [] then 0
    else (if x < cs[0] < bound then Size(nodes, bound, cs[0]) else 0) + SumSize(nodes, bound, x, cs[1..])
  }

  ghost function QSum<V, A>(nodes: Nodes<V, A>, bound: nat, q: seq<NodeId>): nat {
    if q == [] then 0 else Size(nodes, bound, q[0]) + QSum(nodes, bound, q[1..])
  }

  lemma {:induction false} QSumAppend<V, A>(nodes: Nodes<V, A>, bound: nat, a: seq<NodeId>, b: seq<NodeId>)
    ensures QSum(nodes, bound, a + b) == QSum(nodes, bound, a) + QSum(nodes, bound, b)
  {
    if a == [] {
      assert a + b == b;
    } else {
      assert (a + b)[0] == a[0] && (a + b)[1..] == a[1..] + b;
      QSumAppend(nodes, bound, a[1..], b);
    }
  }

  lemma {:induction false} SumSizeIsQSum<V, A>(nodes: Nodes<V, A>, bound: nat, x: NodeId, cs: seq<NodeId>)
    requires forall c :: c in cs ==> x < c < bound
    ensures SumSize(nodes, bound, x, cs) == QSum(nodes, bound, cs)
  {
    if cs != [] {
      assert cs[0] in cs;
      assert forall c :: c in cs[1..] ==> c in cs;
      SumSizeIsQSum(nodes, bound, x, cs[1..]);
    }
  }

  /** Popping the head of the queue, with or without queueing its children, lowers the measure. */
  lemma QSumPop<V, A>(nodes: Nodes<V, A>, bound: nat, q: seq<NodeId>)
    requires q != []
    requires forall c :: c in Kids(nodes, q[0]) ==> q[0] < c < bound
    ensures QSum(nodes, bound, q[1..] + Kids(nodes, q[0])) < QSum(nodes, bound, q)
    ensures QSum(nodes, bound, q[1..]) < QSum(nodes, bound, q)
  {
    QSumAppend(nodes, bound, q[1..], Kids(nodes, q[0]));
    SumSizeIsQSum(nodes, bound, q[0], Kids(nodes, q[0]));
  }
}
