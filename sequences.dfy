/**
 * Sequence operations that stand in for the java.util.List calls the tree makes on its
 * children lists: add at an index, remove an element, and the filters the model uses to
 * describe which elements survive.
 */
module Sequences {

  /** No element occurs twice. */
  ghost predicate NoDup<T>(s: seq<T>) {
    forall i, j :: 0 <= i < j < |s| ==> s[i] != s[j]
  }

  /** The elements of `s` satisfying `p`, in their original order. */
  function Filter<T(!new)>(s: seq<T>, p: T -> bool): (r: seq<T>)
    ensures |r| <= |s|
    ensures forall x :: x in r <==> x in s && p(x)
  {
    if s == [] then [] else (if p(s[0]) then [s[0]] else []) + Filter(s[1..], p)
  }

  /** List.add(index, x): `x` is placed at position `i` and the rest keep their order. */
  function InsertAt<T>(s: seq<T>, i: nat, x: T): (r: seq<T>)
    requires i <= |s|
    ensures |r| == |s| + 1 && r[i] == x
    ensures forall k :: 0 <= k < i ==> r[k] == s[k]
    ensures forall k :: i < k < |r| ==> r[k] == s[k - 1]
    ensures multiset(r) == multiset(s) + multiset{x}
  {
    assert s == s[..i] + s[i..];
    s[..i] + [x] + s[i..]
  }

  /** List.remove(x): drops the first occurrence of `x`, if any. */
  function Remove<T(==)>(s: seq<T>, x: T): (r: seq<T>)
    ensures x !in s ==> r == s
    ensures x in s ==> |r| == |s| - 1
    ensures multiset(r) == multiset(s) - multiset{x}
  {
    if s == [] then []
    else
      assert s == [s[0]] + s[1..];
      if s[0] == x then s[1..] else [s[0]] + Remove(s[1..], x)
  }

  /** The distinct elements of `s`, each where it first occurs: the key order of a map that keeps insertion order. */
  function Dedup<T(==,!new)>(s: seq<T>): (r: seq<T>)
    ensures forall x :: x in r <==> x in s
  {
    if s == [] then []
    else
      var d := Dedup(s[..|s| - 1]);
      assert s == s[..|s| - 1] + [s[|s| - 1]];
      if s[|s| - 1] in d then d else d + [s[|s| - 1]]
  }

  /** Appending an element adds it to `Dedup` unless it is already there. */
  lemma DedupSnoc<T(!new)>(s: seq<T>, x: T)
    ensures Dedup(s + [x]) == if x in Dedup(s) then Dedup(s) else Dedup(s) + [x]
  {
    assert (s + [x])[..|s + [x]| - 1] == s;
  }

  /** An element ahead of another in `Dedup(s)` occurs in `s` before every occurrence of the other. */
  lemma {:induction false} DedupOrder<T(!new)>(s: seq<T>, i: nat, j: nat)
    requires i < j < |Dedup(s)|
    ensures exists a :: 0 <= a < |s| && s[a] == Dedup(s)[i] && forall b :: 0 <= b <= a ==> s[b] != Dedup(s)[j]
  {
    var n := |s| - 1;
    var init := s[..n];
    var d := Dedup(init);
    assert Dedup(s) == d || Dedup(s) == d + [s[n]];
    if j < |d| {
      assert Dedup(s)[i] == d[i] && Dedup(s)[j] == d[j];
      DedupOrder(init, i, j);
      var a :| 0 <= a < |init| && init[a] == d[i] && forall b :: 0 <= b <= a ==> init[b] != d[j];
      assert s[a] == init[a];
      forall b | 0 <= b <= a ensures s[b] != Dedup(s)[j] {
        assert s[b] == init[b];
      }
    } else {
      assert Dedup(s) == d + [s[n]] && s[n] !in d;
      assert Dedup(s)[i] == d[i] && Dedup(s)[j] == s[n];
      assert d[i] in init;
      var a :| 0 <= a < |init| && init[a] == d[i];
      forall b | 0 <= b <= a ensures s[b] != s[n] {
        assert s[b] == init[b] && init[b] in init;
      }
    }
  }

  lemma FilterAppend<T(!new)>(a: seq<T>, b: seq<T>, p: T -> bool)
    ensures Filter(a + b, p) == Filter(a, p) + Filter(b, p)
  {
    if a != [] {
      assert (a + b)[0] == a[0] && (a + b)[1..] == a[1..] + b;
      FilterAppend(a[1..], b, p);
    } else {
      assert a + b == b;
    }
  }

  lemma FilterCons<T(!new)>(h: T, s: seq<T>, p: T -> bool)
    ensures Filter([h] + s, p) == (if p(h) then [h] else []) + Filter(s, p)
  {
    assert ([h] + s)[0] == h && ([h] + s)[1..] == s;
  }

  /** Removing the only occurrence of `x` keeps everything else, in order. */
  lemma {:induction false} RemoveIsFilter<T(!new)>(s: seq<T>, x: T)
    requires NoDup(s)
    ensures Remove(s, x) == Filter(s, Except(x))
  {
    if s != [] {
      if s[0] == x {
        assert x !in s[1..] by {
          forall k | 0 <= k < |s[1..]| ensures s[1..][k] != x {
            assert s[1..][k] == s[k + 1];
          }
        }
        FilterKeepsAll(s[1..], Except(x));
      } else {
        RemoveIsFilter(s[1..], x);
      }
    }
  }

  lemma {:induction false} FilterKeepsAll<T(!new)>(s: seq<T>, p: T -> bool)
    requires forall y :: y in s ==> p(y)
    ensures Filter(s, p) == s
  {
    if s != [] {
      FilterKeepsAll(s[1..], p);
    }
  }

  lemma {:induction false} FilterNoDup<T(!new)>(s: seq<T>, p: T -> bool)
    requires NoDup(s)
    ensures NoDup(Filter(s, p))
  {
    if s != [] {
      FilterNoDup(s[1..], p);
      var t := Filter(s[1..], p);
      forall k | 0 <= k < |s[1..]| ensures s[1..][k] != s[0] {
        assert s[1..][k] == s[k + 1];
      }
      assert s[0] !in t;
    }
  }

  /** An element the filter drops may be inserted anywhere without changing the result. */
  lemma {:induction false} FilterInsertAt<T(!new)>(s: seq<T>, i: nat, x: T, p: T -> bool)
    requires i <= |s| && !p(x)
    ensures Filter(InsertAt(s, i, x), p) == Filter(s, p)
  {
    var r := InsertAt(s, i, x);
    if i == 0 {
      assert r[1..] == s;
    } else {
      assert r[0] == s[0];
      assert r[1..] == InsertAt(s[1..], i - 1, x);
      FilterInsertAt(s[1..], i - 1, x, p);
    }
  }

  /** The filter that drops `x`. */
  function Except<T(==)>(x: T): T -> bool {
    y => y != x
  }

  /** The filter that drops the members of `d`. */
  function NotIn<T(==)>(d: set<T>): T -> bool {
    y => y !in d
  }

  /** Dropping the members of one set, then of another, drops the members of their union. */
  lemma {:induction false} FilterNotInTwice<T(!new)>(s: seq<T>, d1: set<T>, d2: set<T>)
    ensures Filter(Filter(s, NotIn(d1)), NotIn(d2)) == Filter(s, NotIn(d1 + d2))
  {
    if s != [] {
      FilterNotInTwice(s[1..], d1, d2);
      FilterAppend(if s[0] !in d1 then [s[0]] else [], Filter(s[1..], NotIn(d1)), NotIn(d2));
    }
  }

  /** Dropping a freshly inserted element gives back the original sequence. */
  lemma FilterInsertFresh<T(!new)>(s: seq<T>, i: nat, x: T)
    requires i <= |s| && x !in s
    ensures Filter(InsertAt(s, i, x), Except(x)) == s
  {
    FilterInsertAt(s, i, x, Except(x));
    FilterKeepsAll(s, Except(x));
  }

  /** Filtering twice is filtering once by the conjunction. */
  lemma {:induction false} FilterFilter<T(!new)>(s: seq<T>, p: T -> bool, q: T -> bool)
    ensures Filter(Filter(s, p), q) == Filter(s, x => p(x) && q(x))
  {
    if s != [] {
      FilterFilter(s[1..], p, q);
      FilterAppend(if p(s[0]) then [s[0]] else [], Filter(s[1..], p), q);
    }
  }

  /** Filters that agree on the elements give the same result. */
  lemma {:induction false} FilterCongruent<T(!new)>(s: seq<T>, p: T -> bool, q: T -> bool)
    requires forall x :: x in s ==> (p(x) <==> q(x))
    ensures Filter(s, p) == Filter(s, q)
  {
    if s != [] {
      FilterCongruent(s[1..], p, q);
    }
  }

  /** Inserting a new element keeps a sequence duplicate-free and adds it to the multiset. */
  lemma NoDupInsert<T>(s: seq<T>, i: nat, x: T)
    requires NoDup(s) && x !in s && i <= |s|
    ensures NoDup(InsertAt(s, i, x))
  {
    var r := InsertAt(s, i, x);
    forall a, b | 0 <= a < b < |r| ensures r[a] != r[b] {
      if a < i && b < i {
      } else if a < i && b == i {
        assert r[a] == s[a];
      } else if a < i {
        assert r[a] == s[a] && r[b] == s[b - 1];
      } else if a == i {
        assert r[b] == s[b - 1];
      } else {
        assert r[a] == s[a - 1] && r[b] == s[b - 1];
      }
    }
  }

  /** A sequence is duplicate-free exactly when no element occurs twice in its multiset. */
  lemma {:induction false} NoDupMultiset<T>(s: seq<T>)
    ensures NoDup(s) <==> forall x :: multiset(s)[x] <= 1
  {
    if s != [] {
      var t := s[1..];
      assert s == [s[0]] + t;
      NoDupMultiset(t);
      if NoDup(s) {
        forall k | 0 <= k < |t| ensures t[k] != s[0] {
          assert t[k] == s[k + 1];
        }
        assert NoDup(t) by {
          forall a, b | 0 <= a < b < |t| ensures t[a] != t[b] {
            assert t[a] == s[a + 1] && t[b] == s[b + 1];
          }
        }
      }
      if forall x :: multiset(s)[x] <= 1 {
        assert forall x :: multiset(t)[x] <= 1 by {
          forall x ensures multiset(t)[x] <= 1 {
            assert multiset(s)[x] == multiset(t)[x] + (if x == s[0] then 1 else 0);
          }
        }
        assert multiset(s)[s[0]] == multiset(t)[s[0]] + 1;
        assert s[0] !in t;
        forall a, b | 0 <= a < b < |s| ensures s[a] != s[b] {
          assert s[b] == t[b - 1];
          if a > 0 {
            assert s[a] == t[a - 1];
          }
        }
      }
    }
  }

  /** Reordering keeps a sequence duplicate-free. */
  lemma NoDupPermutation<T>(s: seq<T>, r: seq<T>)
    requires NoDup(s) && multiset(r) == multiset(s)
    ensures NoDup(r)
  {
    NoDupMultiset(s);
    NoDupMultiset(r);
  }

  /** Set union regrouped, as the visited-set bookkeeping of the searches needs it. */
  lemma UnionAssoc<T>(a: set<T>, b: set<T>, c: set<T>)
    ensures a + b + c == a + (b + c)
  {
  }

  lemma UnionSwap<T>(a: set<T>, d: set<T>, b: set<T>, x: T)
    ensures a + d + b + {x} == a + (d + {x}) + b
  {
  }

  lemma UnionShuffle<T>(a: set<T>, d: set<T>, b: set<T>, x: T, u: set<T>)
    ensures a + d + b + {x} + u == a + (d + {x}) + (b + u)
  {
  }
}
