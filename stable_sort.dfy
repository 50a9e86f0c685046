/**
 * The in-place children sort (List.sort with a Comparator) as a stable insertion sort on
 * sequences. A comparator `cmp` is turned into `le(a, b) == cmp(a, b) <= 0`; List.sort then
 * puts the list in non-decreasing `le` order and keeps equal elements in their original
 * relative order. Both facts, and that the result is a permutation, are proved below.
 */
module StableSort {
  import opened Sequences

  /** Every two elements compare, and the order is transitive (what Comparator demands). */
  ghost predicate TotalPreorder<T(!new)>(le: (T, T) -> bool) {
    && (forall a, b :: le(a, b) || le(b, a))
    && (forall a, b, c :: le(a, b) && le(b, c) ==> le(a, c))
  }

  ghost predicate Sorted<T>(le: (T, T) -> bool, s: seq<T>) {
    forall i, j :: 0 <= i < j < |s| ==> le(s[i], s[j])
  }

  /** `y` compares equal to `x` in both directions. */
  ghost function EquivTo<T>(le: (T, T) -> bool, x: T): T -> bool {
    y => le(x, y) && le(y, x)
  }

  /** Places `x` before the first element it is not greater than. */
  function Insert<T>(x: T, s: seq<T>, le: (T, T) -> bool): (r: seq<T>)
    ensures multiset(r) == multiset(s) + multiset{x}
    ensures |r| == |s| + 1
  {
    if s == [] || le(x, s[0]) then [x] + s
    else
      assert s == [s[0]] + s[1..];
      [s[0]] + Insert(x, s[1..], le)
  }

  function Sort<T>(s: seq<T>, le: (T, T) -> bool): (r: seq<T>)
    ensures multiset(r) == multiset(s)
    ensures |r| == |s|
  {
    if s == [] then []
    else
      assert s == [s[0]] + s[1..];
      Insert(s[0], Sort(s[1..], le), le)
  }

  lemma {:induction false} InsertSorted<T(!new)>(x: T, s: seq<T>, le: (T, T) -> bool)
    requires TotalPreorder(le) && Sorted(le, s)
    ensures Sorted(le, Insert(x, s, le))
  {
    if s != [] && !le(x, s[0]) {
      assert le(s[0], x);
      InsertSorted(x, s[1..], le);
      var t := Insert(x, s[1..], le);
      forall k | 0 <= k < |t| ensures le(s[0], t[k]) {
        assert t[k] in multiset(t);
        assert t[k] == x || t[k] in multiset(s[1..]);
        if t[k] != x {
          var m :| 0 <= m < |s[1..]| && s[1..][m] == t[k];
          assert s[m + 1] == t[k];
        }
      }
    }
  }

  /** The result is in non-decreasing order. */
  lemma {:induction false} SortSorted<T(!new)>(s: seq<T>, le: (T, T) -> bool)
    requires TotalPreorder(le)
    ensures Sorted(le, Sort(s, le))
  {
    if s != [] {
      SortSorted(s[1..], le);
      InsertSorted(s[0], Sort(s[1..], le), le);
    }
  }

  /** A list already in order is left as it is. */
  lemma {:induction false} SortOfSorted<T>(s: seq<T>, le: (T, T) -> bool)
    requires Sorted(le, s)
    ensures Sort(s, le) == s
  {
    if s != [] {
      assert Sorted(le, s[1..]) by {
        forall i, j | 0 <= i < j < |s[1..]| ensures le(s[1..][i], s[1..][j]) {
          assert s[1..][i] == s[i + 1] && s[1..][j] == s[j + 1];
        }
      }
      SortOfSorted(s[1..], le);
    }
  }

  /** Sorting twice with the same comparator gives the same order as sorting once. */
  lemma SortIdempotent<T(!new)>(s: seq<T>, le: (T, T) -> bool)
    requires TotalPreorder(le)
    ensures Sort(Sort(s, le), le) == Sort(s, le)
  {
    SortSorted(s, le);
    SortOfSorted(Sort(s, le), le);
  }

  lemma {:induction false} InsertFilterEquiv<T(!new)>(a: T, t: seq<T>, le: (T, T) -> bool, x: T)
    requires TotalPreorder(le)
    ensures Filter(Insert(a, t, le), EquivTo(le, x))
         == (if EquivTo(le, x)(a) then [a] else []) + Filter(t, EquivTo(le, x))
  {
    var p := EquivTo(le, x);
    if t != [] && !le(a, t[0]) {
      var rest := Insert(a, t[1..], le);
      var f1 := Filter(t[1..], p);
      InsertFilterEquiv(a, t[1..], le, x);
      assert Insert(a, t, le) == [t[0]] + rest;
      FilterCons(t[0], rest, p);
      if p(a) {
        EquivApart(le, x, a, t[0]);
        assert Filter(rest, p) == [a] + f1;
        assert Filter(Insert(a, t, le), p) == [] + ([a] + f1) == [a] + f1;
        assert Filter(t, p) == [] + f1 == f1;
      } else {
        assert Filter(rest, p) == [] + f1 == f1;
      }
    } else {
      assert Insert(a, t, le) == [a] + t;
      FilterCons(a, t, p);
    }
  }

  /** Of two elements in strictly decreasing order, at most one is equivalent to `x`. */
  lemma EquivApart<T(!new)>(le: (T, T) -> bool, x: T, a: T, b: T)
    requires TotalPreorder(le) && !le(a, b) && EquivTo(le, x)(a)
    ensures !EquivTo(le, x)(b)
  {
  }

  /**
   * Stability: the elements equivalent to any `x` appear in the result in the same
   * relative order as in the input.
   */
  lemma {:induction false} SortStable<T(!new)>(s: seq<T>, le: (T, T) -> bool, x: T)
    requires TotalPreorder(le)
    ensures Filter(Sort(s, le), EquivTo(le, x)) == Filter(s, EquivTo(le, x))
  {
    if s != [] {
      SortStable(s[1..], le, x);
      InsertFilterEquiv(s[0], Sort(s[1..], le), le, x);
    }
  }

  lemma {:induction false} InsertCongruent<T>(x: T, s: seq<T>, le1: (T, T) -> bool, le2: (T, T) -> bool)
    requires forall a, b :: le1(a, b) == le2(a, b)
    ensures Insert(x, s, le1) == Insert(x, s, le2)
  {
    if s != [] && !le1(x, s[0]) {
      InsertCongruent(x, s[1..], le1, le2);
    }
  }

  /** Two orders that agree on every pair sort alike. */
  lemma {:induction false} SortCongruent<T>(s: seq<T>, le1: (T, T) -> bool, le2: (T, T) -> bool)
    requires forall a, b :: le1(a, b) == le2(a, b)
    ensures Sort(s, le1) == Sort(s, le2)
  {
    if s != [] {
      SortCongruent(s[1..], le1, le2);
      InsertCongruent(s[0], Sort(s[1..], le1), le1, le2);
    }
  }
}
