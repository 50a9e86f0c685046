/**
 * The table views of the tree: traverseBranches flattens the visible branch hierarchy under
 * a node into rows (one per path from a child down to a bottom branch, depth first, in
 * children order); traverseLeafs maps each row to the leaves hanging under its last branch,
 * keyed by the other-axis ancestry of each leaf; getSortedBranches reads that other-axis
 * ancestry back off sorted leaves.
 */
module Traversal {
  import opened Sequences
  import opened TreeNodes
  import opened Structure
  import opened Lineage
  import opened LinkedMaps

  /** A branch node hierarchy: a list of nodes from the top down. */
  type Row = seq<NodeId>

  /** Every row with `p` put in front. */
  function Prepend(p: Row, rows: seq<Row>): seq<Row> {
    if rows == [] then [] else [p + rows[0]] + Prepend(p, rows[1..])
  }

  lemma {:induction false} PrependAt(p: Row, rows: seq<Row>)
    ensures |Prepend(p, rows)| == |rows| && forall k :: 0 <= k < |rows| ==> Prepend(p, rows)[k] == p + rows[k]
  {
    if rows != [] {
      PrependAt(p, rows[1..]);
    }
  }

  lemma {:induction false} PrependAppend(p: Row, a: seq<Row>, b: seq<Row>)
    ensures Prepend(p, a + b) == Prepend(p, a) + Prepend(p, b)
  {
    if a == [] {
      assert a + b == b;
    } else {
      assert (a + b)[0] == a[0] && (a + b)[1..] == a[1..] + b;
      PrependAppend(p, a[1..], b);
    }
  }

  lemma PrependTwice(p: Row, x: NodeId, rows: seq<Row>)
    ensures Prepend(p, Prepend([x], rows)) == Prepend(p + [x], rows)
  {
    PrependAt([x], rows);
    PrependAt(p, Prepend([x], rows));
    PrependAt(p + [x], rows);
    forall k | 0 <= k < |rows| ensures p + ([x] + rows[k]) == (p + [x]) + rows[k] {
    }
  }

  /**
   * The rows that start at `x`: `[x]` when the first child of `x` is not a branch, else
   * `x` in front of each row of its visible children, in children order.
   */
  function RowsFrom<V, A>(nodes: Nodes<V, A>, bound: NodeId, x: NodeId): seq<Row>
    requires Wf(nodes, bound) && x in nodes
    decreases bound - x, 1, 0
  {
    if FirstChildIsBranch(nodes, x) then Prepend([x], RowsUpTo(nodes, bound, x, |Kids(nodes, x)|))
    else [[x]]
  }

  /** The rows of the visible children among the first `j` children of `x`, in order. */
  function RowsUpTo<V, A>(nodes: Nodes<V, A>, bound: NodeId, x: NodeId, j: nat): seq<Row>
    requires Wf(nodes, bound) && x in nodes && j <= |Kids(nodes, x)|
    decreases bound - x, 0, j
  {
    if j == 0 then []
    else
      var c := Kids(nodes, x)[j - 1];
      KidFacts(nodes, bound, x, c);
      RowsUpTo(nodes, bound, x, j - 1) + (if nodes[c].visible then RowsFrom(nodes, bound, c) else [])
  }

  /** Link `i` of `r`: node `i` has branches as children and node `i + 1` is a visible one of them. */
  ghost predicate StepAt<V, A>(nodes: Nodes<V, A>, r: Row, i: int) {
    && 0 <= i < |r| - 1
    && FirstChildIsBranch(nodes, r[i]) && r[i + 1] in Kids(nodes, r[i]) && IsVisible(nodes, r[i + 1])
  }

  /**
   * `r` runs from `x` down through visible nodes, each the child of the one before and each
   * but the last having branches as children, and ends at a node that does not.
   */
  ghost predicate IsRowFrom<V, A>(nodes: Nodes<V, A>, x: NodeId, r: Row) {
    && |r| > 0 && r[0] == x
    && (forall i :: 0 <= i < |r| - 1 ==> StepAt(nodes, r, i))
    && !FirstChildIsBranch(nodes, r[|r| - 1])
  }

  /** `r` is a row of the table of `s`: a path as above from a visible branch child of `s`. */
  ghost predicate IsRowUnder<V, A>(nodes: Nodes<V, A>, s: NodeId, r: Row) {
    && FirstChildIsBranch(nodes, s)
    && |r| > 0 && r[0] in Kids(nodes, s) && IsVisible(nodes, r[0])
    && IsRowFrom(nodes, r[0], r)
  }

  lemma StepShift<V, A>(nodes: Nodes<V, A>, x: NodeId, t: Row, i: int)
    requires 0 <= i
    ensures StepAt(nodes, [x] + t, i + 1) <==> StepAt(nodes, t, i)
  {
    if 0 <= i < |t| - 1 {
      assert ([x] + t)[i + 1] == t[i] && ([x] + t)[i + 2] == t[i + 1];
    }
  }

  /** A row of two or more nodes is its first node in front of a row from its second. */
  lemma RowCons<V, A>(nodes: Nodes<V, A>, x: NodeId, t: Row)
    requires |t| > 0
    ensures IsRowFrom(nodes, x, [x] + t) <==>
      FirstChildIsBranch(nodes, x) && t[0] in Kids(nodes, x) && IsVisible(nodes, t[0]) && IsRowFrom(nodes, t[0], t)
  {
    var r := [x] + t;
    forall i | 0 <= i ensures StepAt(nodes, r, i + 1) <==> StepAt(nodes, t, i) {
      StepShift(nodes, x, t, i);
    }
    assert StepAt(nodes, r, 0) <==> FirstChildIsBranch(nodes, x) && t[0] in Kids(nodes, x) && IsVisible(nodes, t[0]);
    if FirstChildIsBranch(nodes, x) && t[0] in Kids(nodes, x) && IsVisible(nodes, t[0]) && IsRowFrom(nodes, t[0], t) {
      forall i | 0 <= i < |r| - 1 ensures StepAt(nodes, r, i) {
        if i > 0 {
          assert StepAt(nodes, t, i - 1);
        }
      }
    }
    assert r[|r| - 1] == t[|t| - 1];
  }

  /** The rows from `x` are exactly the paths that IsRowFrom describes. */
  lemma {:induction false} RowsFromMeaning<V, A>(nodes: Nodes<V, A>, bound: NodeId, x: NodeId, r: Row)
    requires Wf(nodes, bound) && x in nodes
    ensures r in RowsFrom(nodes, bound, x) <==> IsRowFrom(nodes, x, r)
    decreases bound - x, 1, 0
  {
    if FirstChildIsBranch(nodes, x) {
      var n := |Kids(nodes, x)|;
      var rows := RowsUpTo(nodes, bound, x, n);
      assert Kids(nodes, x)[..n] == Kids(nodes, x);
      if |r| > 1 && r[0] == x {
        var t := r[1..];
        assert r == [x] + t;
        RowsUpToMeaning(nodes, bound, x, n, t);
        RowCons(nodes, x, t);
        PrependMember([x], rows, t);
      } else {
        if r in Prepend([x], rows) {
          PrependAt([x], rows);
          var k :| 0 <= k < |rows| && Prepend([x], rows)[k] == r;
          RowsUpToMeaning(nodes, bound, x, n, rows[k]);
        }
        if |r| == 1 {
          assert r[|r| - 1] == r[0];
        }
      }
    } else if IsRowFrom(nodes, x, r) {
      assert 0 < |r| - 1 ==> StepAt(nodes, r, 0);
      assert r == [x];
    }
  }

  lemma PrependMember(p: Row, rows: seq<Row>, t: Row)
    ensures p + t in Prepend(p, rows) <==> t in rows
  {
    PrependAt(p, rows);
    if p + t in Prepend(p, rows) {
      var k :| 0 <= k < |rows| && Prepend(p, rows)[k] == p + t;
      assert (p + t)[|p|..] == t && (p + rows[k])[|p|..] == rows[k];
    }
    if t in rows {
      var k :| 0 <= k < |rows| && rows[k] == t;
      assert Prepend(p, rows)[k] == p + t;
    }
  }

  /** The rows under the first `j` children start at one of them that is visible. */
  lemma {:induction false} RowsUpToMeaning<V, A>(nodes: Nodes<V, A>, bound: NodeId, x: NodeId, j: nat, r: Row)
    requires Wf(nodes, bound) && x in nodes && j <= |Kids(nodes, x)|
    ensures r in RowsUpTo(nodes, bound, x, j) <==>
      |r| > 0 && r[0] in Kids(nodes, x)[..j] && IsVisible(nodes, r[0]) && IsRowFrom(nodes, r[0], r)
    decreases bound - x, 0, j
  {
    if j > 0 {
      var c := Kids(nodes, x)[j - 1];
      KidFacts(nodes, bound, x, c);
      RowsUpToMeaning(nodes, bound, x, j - 1, r);
      RowsFromMeaning(nodes, bound, c, r);
      assert RowsUpTo(nodes, bound, x, j) ==
        RowsUpTo(nodes, bound, x, j - 1) + (if nodes[c].visible then RowsFrom(nodes, bound, c) else []);
      assert Kids(nodes, x)[..j] == Kids(nodes, x)[..j - 1] + [c];
    }
  }

  /** Distinct children start distinct rows, so no row is listed twice. */
  lemma {:induction false} RowsFromNoDup<V, A>(nodes: Nodes<V, A>, bound: NodeId, x: NodeId)
    requires Wf(nodes, bound) && x in nodes
    ensures NoDup(RowsFrom(nodes, bound, x))
    decreases bound - x, 1, 0
  {
    if FirstChildIsBranch(nodes, x) {
      var rows := RowsUpTo(nodes, bound, x, |Kids(nodes, x)|);
      RowsUpToNoDup(nodes, bound, x, |Kids(nodes, x)|);
      PrependAt([x], rows);
      forall i, j | 0 <= i < j < |rows| ensures Prepend([x], rows)[i] != Prepend([x], rows)[j] {
        PrependMember([x], [rows[j]], rows[i]);
      }
    }
  }

  lemma {:induction false} RowsUpToNoDup<V, A>(nodes: Nodes<V, A>, bound: NodeId, x: NodeId, j: nat)
    requires Wf(nodes, bound) && x in nodes && j <= |Kids(nodes, x)|
    ensures NoDup(RowsUpTo(nodes, bound, x, j))
    decreases bound - x, 0, j
  {
    if j > 0 {
      var c := Kids(nodes, x)[j - 1];
      KidFacts(nodes, bound, x, c);
      RowsUpToNoDup(nodes, bound, x, j - 1);
      if nodes[c].visible {
        RowsFromNoDup(nodes, bound, c);
        var a, b := RowsUpTo(nodes, bound, x, j - 1), RowsFrom(nodes, bound, c);
        assert NodeOk(nodes, x);
        forall r | r in a ensures r !in b {
          RowsUpToMeaning(nodes, bound, x, j - 1, r);
          RowsFromMeaning(nodes, bound, c, r);
          var i :| 0 <= i < j - 1 && Kids(nodes, x)[i] == r[0];
        }
        NoDupAppend(a, b);
      }
    }
  }

  lemma PrependNothing(rows: seq<Row>)
    ensures Prepend([], rows) == rows
  {
    PrependAt([], rows);
    forall k | 0 <= k < |rows| ensures [] + rows[k] == rows[k] {
    }
  }

  lemma NoDupAppend<T>(a: seq<T>, b: seq<T>)
    requires NoDup(a) && NoDup(b) && forall x :: x in a ==> x !in b
    ensures NoDup(a + b)
  {
    forall i, j | 0 <= i < j < |a + b| ensures (a + b)[i] != (a + b)[j] {
      if i < |a| && j >= |a| {
        assert (a + b)[i] in a && (a + b)[j] == b[j - |a|];
      }
    }
  }

  /**
   * The recursive helper of traverseBranches: `branches` is the hierarchy above `x`; the
   * rows from `x`, each behind `branches`, are added at the end of `all`.
   */
  method TraverseFrom<V, A>(nodes: Nodes<V, A>, bound: NodeId, all: seq<Row>, branches: Row, x: NodeId)
      returns (all': seq<Row>)
    requires Wf(nodes, bound) && x in nodes
    ensures all' == all + Prepend(branches, RowsFrom(nodes, bound, x))
    decreases bound - x, 1
  {
    var row := branches + [x];
    var cs := Kids(nodes, x);
    if cs != [] && IsBranch(nodes, cs[0]) {
      all' := TraverseKids(nodes, bound, all, row, x);
      PrependTwice(branches, x, RowsUpTo(nodes, bound, x, |cs|));
    } else {
      all' := all + [row];
    }
  }

  /** The loop of the helper over the children of `x`, each visible one recursed into behind `row`. */
  method TraverseKids<V, A>(nodes: Nodes<V, A>, bound: NodeId, all: seq<Row>, row: Row, x: NodeId)
      returns (all': seq<Row>)
    requires Wf(nodes, bound) && x in nodes
    ensures all' == all + Prepend(row, RowsUpTo(nodes, bound, x, |Kids(nodes, x)|))
    decreases bound - x, 0
  {
    var cs := Kids(nodes, x);
    all' := all;
    var j := 0;
    while j < |cs|
      invariant 0 <= j <= |cs|
      invariant all' == all + Prepend(row, RowsUpTo(nodes, bound, x, j))
    {
      var c := cs[j];
      KidBounds(nodes, bound, x, j);
      ghost var prev := all';
      RowsUpToStep(nodes, bound, x, j, row);
      if nodes[c].visible {
        all' := TraverseFrom(nodes, bound, all', row, c);
        ghost var done, here := Prepend(row, RowsUpTo(nodes, bound, x, j)), Prepend(row, RowsFrom(nodes, bound, c));
        assert (all + done) + here == all + (done + here);
      }
      j := j + 1;
    }
  }

  lemma KidBounds<V, A>(nodes: Nodes<V, A>, bound: NodeId, x: NodeId, j: nat)
    requires Wf(nodes, bound) && x in nodes && j < |Kids(nodes, x)|
    ensures Kids(nodes, x)[j] in nodes && x < Kids(nodes, x)[j] < bound
  {
    KidFacts(nodes, bound, x, Kids(nodes, x)[j]);
  }

  lemma RowsUpToStep<V, A>(nodes: Nodes<V, A>, bound: NodeId, x: NodeId, j: nat, row: Row)
    requires Wf(nodes, bound) && x in nodes && j < |Kids(nodes, x)|
    ensures Kids(nodes, x)[j] in nodes
    ensures Prepend(row, RowsUpTo(nodes, bound, x, j + 1)) == Prepend(row, RowsUpTo(nodes, bound, x, j)) +
      if nodes[Kids(nodes, x)[j]].visible then Prepend(row, RowsFrom(nodes, bound, Kids(nodes, x)[j])) else []
  {
    var c := Kids(nodes, x)[j];
    KidFacts(nodes, bound, x, c);
    PrependAppend(row, RowsUpTo(nodes, bound, x, j), if nodes[c].visible then RowsFrom(nodes, bound, c) else []);
  }

  /**
   * traverseBranches: the rows of the visible branch hierarchy under `s`, depth first in
   * children order; none unless the first child of `s` is a branch.
   */
  method TraverseBranches<V, A>(nodes: Nodes<V, A>, bound: NodeId, s: NodeId) returns (all: seq<Row>)
    requires Wf(nodes, bound) && s in nodes
    ensures FirstChildIsBranch(nodes, s) ==> all == RowsUpTo(nodes, bound, s, |Kids(nodes, s)|)
    ensures forall r :: r in all <==> IsRowUnder(nodes, s, r)
    ensures NoDup(all)
  {
    all := [];
    var cs := Kids(nodes, s);
    if cs != [] && IsBranch(nodes, cs[0]) {
      var j := 0;
      while j < |cs|
        invariant 0 <= j <= |cs|
        invariant all == RowsUpTo(nodes, bound, s, j)
      {
        var c := cs[j];
        KidFacts(nodes, bound, s, c);
        if nodes[c].visible {
          all := TraverseFrom(nodes, bound, all, [], c);
          PrependNothing(RowsFrom(nodes, bound, c));
        }
        j := j + 1;
      }
      forall r ensures r in all <==> IsRowUnder(nodes, s, r) {
        RowsUpToMeaning(nodes, bound, s, |cs|, r);
        assert cs[..|cs|] == cs;
      }
      RowsUpToNoDup(nodes, bound, s, |cs|);
    }
  }

  /** Every node of a row is a visible branch, and the last one has only leaves as children. */
  lemma RowShape<V, A>(nodes: Nodes<V, A>, bound: NodeId, s: NodeId, r: Row)
    requires Wf(nodes, bound) && s in nodes && IsRowUnder(nodes, s, r)
    ensures forall j :: 0 <= j < |r| ==> IsBranch(nodes, r[j]) && IsVisible(nodes, r[j])
    ensures LeavesOnly(nodes, r[|r| - 1])
  {
    KidKind(nodes, bound, s, r[0]);
    forall j | 0 < j < |r| ensures IsBranch(nodes, r[j]) && IsVisible(nodes, r[j]) {
      assert StepAt(nodes, r, j - 1);
      KidKind(nodes, bound, r[j - 1], r[j]);
    }
    var last := r[|r| - 1];
    forall c | c in Kids(nodes, last) ensures IsLeaf(nodes, c) {
      KidFacts(nodes, bound, last, c);
      KidKind(nodes, bound, last, c);
    }
  }

  /** Every child of `p` is a leaf (the cast the leaf traversals make succeeds). */
  ghost predicate LeavesOnly<V, A>(nodes: Nodes<V, A>, p: NodeId) {
    forall c :: c in Kids(nodes, p) ==> IsLeaf(nodes, c)
  }

  /** A row traverseLeafs accepts: its last node is a branch over leaves. */
  ghost predicate LeafRow<V, A>(nodes: Nodes<V, A>, r: Row) {
    |r| > 0 && IsBranch(nodes, r[|r| - 1]) && LeavesOnly(nodes, r[|r| - 1])
  }

  ghost predicate LeafRows<V, A>(nodes: Nodes<V, A>, rows: seq<Row>) {
    forall r :: r in rows ==> LeafRow(nodes, r)
  }

  /** What traverseBranches returns is accepted by traverseLeafs. */
  lemma TraversedRowsAreLeafRows<V, A>(nodes: Nodes<V, A>, bound: NodeId, s: NodeId, rows: seq<Row>)
    requires Wf(nodes, bound) && s in nodes && forall r :: r in rows <==> IsRowUnder(nodes, s, r)
    ensures LeafRows(nodes, rows)
  {
    forall r | r in rows ensures LeafRow(nodes, r) {
      RowShape(nodes, bound, s, r);
    }
  }

  /** The key of leaf `l` in the map of its parent `p`: the ancestry of its other parent. */
  function LeafKey<V, A>(nodes: Nodes<V, A>, p: NodeId, l: NodeId): Row
    requires IsLeaf(nodes, l)
  {
    Ancestry(nodes, OtherParent(nodes, p, l))
  }

  /** The leaf map of `p` built from its first `j` children: visible leaves, put by key in order. */
  function LeafMapUpTo<V, A>(nodes: Nodes<V, A>, p: NodeId, j: nat): Linked<Row, NodeId>
    requires j <= |Kids(nodes, p)| && LeavesOnly(nodes, p)
  {
    if j == 0 then []
    else
      var l := Kids(nodes, p)[j - 1];
      assert l in Kids(nodes, p);
      var m := LeafMapUpTo(nodes, p, j - 1);
      if nodes[l].visible then Put(m, LeafKey(nodes, p, l), l) else m
  }

  function LeafMap<V, A>(nodes: Nodes<V, A>, p: NodeId): Linked<Row, NodeId>
    requires LeavesOnly(nodes, p)
  {
    LeafMapUpTo(nodes, p, |Kids(nodes, p)|)
  }

  /** Some visible child of `p` among its first `j` has key `k`. */
  ghost predicate HasKey<V, A>(nodes: Nodes<V, A>, p: NodeId, j: nat, k: Row)
    requires j <= |Kids(nodes, p)| && LeavesOnly(nodes, p)
  {
    exists i :: 0 <= i < j && IsVisible(nodes, Kids(nodes, p)[i]) && LeafKey(nodes, p, Kids(nodes, p)[i]) == k
  }

  /**
   * `l` is a visible child of `p` among its first `j` with key `k`, and no later visible one
   * among them has that key.
   */
  ghost predicate LastWithKey<V, A>(nodes: Nodes<V, A>, p: NodeId, j: nat, k: Row, l: NodeId)
    requires j <= |Kids(nodes, p)| && LeavesOnly(nodes, p)
  {
    exists i :: 0 <= i < j && Kids(nodes, p)[i] == l && IsVisible(nodes, l) && LeafKey(nodes, p, l) == k
      && KeyUnusedAfter(nodes, p, i, j, k)
  }

  /** No visible child of `p` at a position strictly between `i` and `j` has key `k`. */
  ghost predicate KeyUnusedAfter<V, A>(nodes: Nodes<V, A>, p: NodeId, i: nat, j: nat, k: Row)
    requires j <= |Kids(nodes, p)| && LeavesOnly(nodes, p)
  {
    forall i' :: i < i' < j && IsVisible(nodes, Kids(nodes, p)[i']) ==> LeafKey(nodes, p, Kids(nodes, p)[i']) != k
  }

  /**
   * The leaf map of `p` holds a key exactly when some visible leaf child has that other-axis
   * ancestry, and it maps the key to the last such leaf in children order.
   */
  lemma {:induction false} LeafMapUpToKeys<V, A>(nodes: Nodes<V, A>, p: NodeId, j: nat, k: Row)
    requires j <= |Kids(nodes, p)| && LeavesOnly(nodes, p)
    ensures k in KeysOf(LeafMapUpTo(nodes, p, j)) <==> HasKey(nodes, p, j, k)
  {
    var cs := Kids(nodes, p);
    if j > 0 {
      var c := cs[j - 1];
      assert c in cs;
      LeafMapUpToKeys(nodes, p, j - 1, k);
      if HasKey(nodes, p, j - 1, k) {
        var i :| 0 <= i < j - 1 && IsVisible(nodes, cs[i]) && LeafKey(nodes, p, cs[i]) == k;
        assert 0 <= i < j;
      }
      if HasKey(nodes, p, j, k) {
        var i :| 0 <= i < j && IsVisible(nodes, cs[i]) && LeafKey(nodes, p, cs[i]) == k;
        if i < j - 1 {
          assert 0 <= i < j - 1;
        }
      }
    }
  }

  lemma {:induction false} LeafMapUpToGet<V, A>(nodes: Nodes<V, A>, p: NodeId, j: nat, k: Row, l: NodeId)
    requires j <= |Kids(nodes, p)| && LeavesOnly(nodes, p)
    ensures Get(LeafMapUpTo(nodes, p, j), k) == Some(l) <==> LastWithKey(nodes, p, j, k, l)
  {
    var cs := Kids(nodes, p);
    if j > 0 {
      var c := cs[j - 1];
      var m := LeafMapUpTo(nodes, p, j - 1);
      assert c in cs;
      LeafMapUpToGet(nodes, p, j - 1, k, l);
      if nodes[c].visible {
        GetPut(m, LeafKey(nodes, p, c), c, k);
      }
      if IsVisible(nodes, c) && LeafKey(nodes, p, c) == k {
        LastWithKeyHit(nodes, p, j, k, l);
      } else {
        LastWithKeyMiss(nodes, p, j, k, l);
      }
    }
  }

  /** A visible child with key `k` at position `j - 1` is the last one with that key among the first `j`. */
  lemma LastWithKeyHit<V, A>(nodes: Nodes<V, A>, p: NodeId, j: nat, k: Row, l: NodeId)
    requires 0 < j <= |Kids(nodes, p)| && LeavesOnly(nodes, p)
    requires var c := Kids(nodes, p)[j - 1]; IsVisible(nodes, c) && LeafKey(nodes, p, c) == k
    ensures LastWithKey(nodes, p, j, k, l) <==> l == Kids(nodes, p)[j - 1]
  {
    var cs := Kids(nodes, p);
    if l == cs[j - 1] {
      assert KeyUnusedAfter(nodes, p, j - 1, j, k);
    } else {
      forall i | 0 <= i < j && cs[i] == l ensures !KeyUnusedAfter(nodes, p, i, j, k) {
        assert i < j - 1;
      }
    }
  }

  /** Otherwise the child at position `j - 1` does not change which child is last with key `k`. */
  lemma LastWithKeyMiss<V, A>(nodes: Nodes<V, A>, p: NodeId, j: nat, k: Row, l: NodeId)
    requires 0 < j <= |Kids(nodes, p)| && LeavesOnly(nodes, p)
    requires var c := Kids(nodes, p)[j - 1]; !(IsVisible(nodes, c) && LeafKey(nodes, p, c) == k)
    ensures LastWithKey(nodes, p, j, k, l) <==> LastWithKey(nodes, p, j - 1, k, l)
  {
    var cs := Kids(nodes, p);
    if LastWithKey(nodes, p, j, k, l) {
      var i :| 0 <= i < j && cs[i] == l && IsVisible(nodes, l) && LeafKey(nodes, p, l) == k
        && KeyUnusedAfter(nodes, p, i, j, k);
      assert i < j - 1 && KeyUnusedAfter(nodes, p, i, j - 1, k);
    }
    if LastWithKey(nodes, p, j - 1, k, l) {
      var i :| 0 <= i < j - 1 && cs[i] == l && IsVisible(nodes, l) && LeafKey(nodes, p, l) == k
        && KeyUnusedAfter(nodes, p, i, j - 1, k);
      assert KeyUnusedAfter(nodes, p, i, j, k);
    }
  }

  /** The map of leaves under the last branch of each row, collected row by row. */
  function RowMaps<V, A>(nodes: Nodes<V, A>, rows: seq<Row>): (r: seq<(Row, Linked<Row, NodeId>)>)
    requires LeafRows(nodes, rows)
    ensures |r| == |rows|
    ensures forall i :: 0 <= i < |rows| ==> r[i].0 == rows[i]
  {
    seq(|rows|, i requires 0 <= i < |rows| =>
      assert rows[i] in rows;
      (rows[i], LeafMap(nodes, rows[i][|rows[i]| - 1])))
  }

  lemma RowMapsAt<V, A>(nodes: Nodes<V, A>, rows: seq<Row>, i: nat)
    requires LeafRows(nodes, rows) && i < |rows|
    ensures LeafRow(nodes, rows[i])
    ensures RowMaps(nodes, rows)[i].1 == LeafMap(nodes, rows[i][|rows[i]| - 1])
  {
    assert rows[i] in rows;
  }

  /**
   * traverseLeafs: every row, in order, mapped to the leaf map of its last branch, which maps
   * the other-axis ancestry of each visible leaf child to that leaf.
   */
  function TraverseLeafs<V, A>(nodes: Nodes<V, A>, rows: seq<Row>): Linked<Row, Linked<Row, NodeId>>
    requires LeafRows(nodes, rows)
  {
    FromPairs(RowMaps(nodes, rows))
  }

  lemma RowMapsValue<V, A>(nodes: Nodes<V, A>, rows: seq<Row>, r: Row)
    requires LeafRows(nodes, rows) && LeafRow(nodes, r)
    ensures forall i :: 0 <= i < |rows| && RowMaps(nodes, rows)[i].0 == r ==>
      RowMaps(nodes, rows)[i].1 == LeafMap(nodes, r[|r| - 1])
  {
    forall i | 0 <= i < |rows| && RowMaps(nodes, rows)[i].0 == r
      ensures RowMaps(nodes, rows)[i].1 == LeafMap(nodes, r[|r| - 1])
    {
      RowMapsAt(nodes, rows, i);
    }
  }

  /** traverseLeafs maps each row to the leaf map of its last branch. */
  lemma TraverseLeafsGet<V, A>(nodes: Nodes<V, A>, rows: seq<Row>, r: Row)
    requires LeafRows(nodes, rows) && r in rows
    ensures LeafRow(nodes, r)
    ensures Get(TraverseLeafs(nodes, rows), r) == Some(LeafMap(nodes, r[|r| - 1]))
  {
    var ps := RowMaps(nodes, rows);
    var i :| 0 <= i < |rows| && rows[i] == r;
    assert ps[i].0 == r;
    RowMapsAt(nodes, rows, i);
    var w := LeafMap(nodes, r[|r| - 1]);
    RowMapsValue(nodes, rows, r);
    FromPairsOfKey(ps, r, w);
  }

  /** The map of leaves of `p` has a key per other-axis ancestry of its visible leaves; each maps to the last such leaf. */
  lemma LeafMapMeaning<V, A>(nodes: Nodes<V, A>, p: NodeId, k: Row, l: NodeId)
    requires LeavesOnly(nodes, p)
    ensures k in KeysOf(LeafMap(nodes, p)) <==> HasKey(nodes, p, |Kids(nodes, p)|, k)
    ensures Get(LeafMap(nodes, p), k) == Some(l) <==> LastWithKey(nodes, p, |Kids(nodes, p)|, k, l)
  {
    LeafMapUpToKeys(nodes, p, |Kids(nodes, p)|, k);
    LeafMapUpToGet(nodes, p, |Kids(nodes, p)|, k, l);
  }

  /** The keys of the visible children among the first `j` children of `p`, in children order, repeats kept. */
  function VisibleKeys<V, A>(nodes: Nodes<V, A>, p: NodeId, j: nat): seq<Row>
    requires j <= |Kids(nodes, p)| && LeavesOnly(nodes, p)
  {
    if j == 0 then []
    else
      var l := Kids(nodes, p)[j - 1];
      assert l in Kids(nodes, p);
      VisibleKeys(nodes, p, j - 1) + (if nodes[l].visible then [LeafKey(nodes, p, l)] else [])
  }

  /** One more child: a visible one is put under its key and its key is listed. */
  lemma LeafMapUpToStep<V, A>(nodes: Nodes<V, A>, p: NodeId, j: nat)
    requires 0 < j <= |Kids(nodes, p)| && LeavesOnly(nodes, p)
    ensures var l := Kids(nodes, p)[j - 1];
      && l in Kids(nodes, p)
      && (nodes[l].visible ==>
            && LeafMapUpTo(nodes, p, j) == Put(LeafMapUpTo(nodes, p, j - 1), LeafKey(nodes, p, l), l)
            && VisibleKeys(nodes, p, j) == VisibleKeys(nodes, p, j - 1) + [LeafKey(nodes, p, l)])
      && (!nodes[l].visible ==>
            && LeafMapUpTo(nodes, p, j) == LeafMapUpTo(nodes, p, j - 1)
            && VisibleKeys(nodes, p, j) == VisibleKeys(nodes, p, j - 1))
  {
    assert Kids(nodes, p)[j - 1] in Kids(nodes, p);
  }

  /** `put` keeps a key where it was first inserted, so the keys come in order of first occurrence. */
  lemma {:induction false} LeafMapUpToOrder<V, A>(nodes: Nodes<V, A>, p: NodeId, j: nat)
    requires j <= |Kids(nodes, p)| && LeavesOnly(nodes, p)
    ensures KeysOf(LeafMapUpTo(nodes, p, j)) == Dedup(VisibleKeys(nodes, p, j))
  {
    if j > 0 {
      var l := Kids(nodes, p)[j - 1];
      assert l in Kids(nodes, p);
      LeafMapUpToOrder(nodes, p, j - 1);
      if nodes[l].visible {
        PutDedup(LeafMapUpTo(nodes, p, j - 1), LeafKey(nodes, p, l), l, VisibleKeys(nodes, p, j - 1));
      }
      LeafMapUpToStep(nodes, p, j);
    }
  }

  /**
   * The keys of the map of leaves of `p` are the other-axis ancestries of its visible leaf
   * children, each once, in the order in which a child first carries it: a key ahead of
   * another is carried by a visible child before every visible child carrying the other.
   */
  lemma LeafMapKeyOrder<V, A>(nodes: Nodes<V, A>, p: NodeId, i: nat, j: nat)
    requires LeavesOnly(nodes, p)
    ensures KeysOf(LeafMap(nodes, p)) == Dedup(VisibleKeys(nodes, p, |Kids(nodes, p)|))
    ensures var ks, vk := KeysOf(LeafMap(nodes, p)), VisibleKeys(nodes, p, |Kids(nodes, p)|);
      i < j < |ks| ==>
        exists a :: 0 <= a < |vk| && vk[a] == ks[i] && forall b :: 0 <= b <= a ==> vk[b] != ks[j]
  {
    LeafMapUpToOrder(nodes, p, |Kids(nodes, p)|);
    if i < j < |KeysOf(LeafMap(nodes, p))| {
      DedupOrder(VisibleKeys(nodes, p, |Kids(nodes, p)|), i, j);
    }
  }

  /**
   * The key of a leaf under `p`: the ancestry of its parent in the other axis, a chain of
   * branches from a top-level branch down to that parent.
   */
  lemma LeafKeyMeaning<V, A>(nodes: Nodes<V, A>, bound: NodeId, p: NodeId, l: NodeId)
    requires Wf(nodes, bound) && p in nodes && l in Kids(nodes, p) && IsLeaf(nodes, l)
    ensures var q := OtherParent(nodes, p, l);
      && (q == nodes[l].parent1 || q == nodes[l].parent2) && q != p
      && Axis(nodes, q) != Axis(nodes, p)
      && ParentChain(nodes, LeafKey(nodes, p, l), q)
  {
    KidFacts(nodes, bound, p, l);
    assert NodeOk(nodes, l);
    AncestryIsChain(nodes, bound, OtherParent(nodes, p, l));
  }

  /** The other-axis ancestry of each leaf child of `p`, in children order. */
  function OtherAncestries<V, A>(nodes: Nodes<V, A>, p: NodeId): (r: seq<Row>)
    requires LeavesOnly(nodes, p)
    ensures |r| == |Kids(nodes, p)|
    ensures forall i :: 0 <= i < |r| ==> r[i] == LeafKey(nodes, p, Kids(nodes, p)[i])
  {
    seq(|Kids(nodes, p)|, i requires 0 <= i < |Kids(nodes, p)| => LeafKey(nodes, p, Kids(nodes, p)[i]))
  }

  /**
   * getSortedBranches: the other-axis ancestries of the leaf children of `p` in children
   * order; when they are fewer than the unsorted rows, the unsorted rows that are not among
   * them go first, in their order. The second result is `unsorted` as the call leaves it
   * (removeAll drops those rows from it).
   */
  function SortedBranches<V, A>(nodes: Nodes<V, A>, unsorted: seq<Row>, p: NodeId): (r: (seq<Row>, seq<Row>))
    requires LeavesOnly(nodes, p)
    ensures var s := OtherAncestries(nodes, p);
      && |r.0| >= |s| && r.0[|r.0| - |s|..] == s
      && (|s| < |unsorted| ==> r.1 == Filter(unsorted, NotIn(set x | x in s)) && r.0[..|r.0| - |s|] == r.1)
      && (|s| >= |unsorted| ==> r == (s, unsorted))
      && (forall u :: u in r.0 <==> u in s || (|s| < |unsorted| && u in unsorted))
  {
    var s := OtherAncestries(nodes, p);
    if |s| < |unsorted| then
      var rest := Filter(unsorted, NotIn(set x | x in s));
      assert (rest + s)[|rest|..] == s && (rest + s)[..|rest|] == rest;
      (rest + s, rest)
    else (s, unsorted)
  }

  /**
   * When no row repeats, the ancestries of the leaves are distinct and all among the
   * unsorted rows, and fewer of them, the result reorders the unsorted rows.
   */
  lemma SortedBranchesPermutes<V, A>(nodes: Nodes<V, A>, unsorted: seq<Row>, p: NodeId)
    requires LeavesOnly(nodes, p)
    requires var s := OtherAncestries(nodes, p);
      NoDup(unsorted) && NoDup(s) && (forall x :: x in s ==> x in unsorted) && |s| < |unsorted|
    ensures multiset(SortedBranches(nodes, unsorted, p).0) == multiset(unsorted)
  {
    var s := OtherAncestries(nodes, p);
    var rest := Filter(unsorted, NotIn(set x | x in s));
    FilterNoDup(unsorted, NotIn(set x | x in s));
    NoDupAppend(rest, s);
    SameMembers(rest + s, unsorted);
  }

  lemma SameMembers<T>(a: seq<T>, b: seq<T>)
    requires NoDup(a) && NoDup(b) && forall x :: x in a <==> x in b
    ensures multiset(a) == multiset(b)
  {
    NoDupMultiset(a);
    NoDupMultiset(b);
    forall x ensures multiset(a)[x] == multiset(b)[x] {
      assert x in a <==> x in multiset(a);
      assert x in b <==> x in multiset(b);
    }
  }
}
