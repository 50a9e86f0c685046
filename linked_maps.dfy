/**
 * An insertion-ordered map, as java.util.LinkedHashMap behaves for `put`: a new key goes to
 * the end, and putting an existing key replaces its value where it stands.
 */
module LinkedMaps {
  import opened Sequences
  import opened TreeNodes

  type Linked<K(==), W> = seq<(K, W)>

  function KeysOf<K(==), W>(m: Linked<K, W>): (r: seq<K>)
    ensures |r| == |m| && forall i :: 0 <= i < |m| ==> r[i] == m[i].0
  {
    if m == [] then [] else [m[0].0] + KeysOf(m[1..])
  }

  /** get(k): the value stored under `k`, if any. */
  function Get<K(==), W>(m: Linked<K, W>, k: K): Option<W> {
    if m == [] then None else if m[0].0 == k then Some(m[0].1) else Get(m[1..], k)
  }

  /** put(k, w). */
  function Put<K(==), W>(m: Linked<K, W>, k: K, w: W): (r: Linked<K, W>)
    ensures k in KeysOf(m) ==> KeysOf(r) == KeysOf(m)
    ensures k !in KeysOf(m) ==> KeysOf(r) == KeysOf(m) + [k]
  {
    if m == [] then [(k, w)]
    else if m[0].0 == k then [(k, w)] + m[1..]
    else
      assert KeysOf(m) == [m[0].0] + KeysOf(m[1..]);
      [m[0]] + Put(m[1..], k, w)
  }

  /** Keys in order of first insertion stay so after another `put`. */
  lemma PutDedup<K(!new), W>(m: Linked<K, W>, k: K, w: W, s: seq<K>)
    requires KeysOf(m) == Dedup(s)
    ensures KeysOf(Put(m, k, w)) == Dedup(s + [k])
  {
    DedupSnoc(s, k);
  }

  /** The map that collecting `ps` in order builds, one put per pair. */
  function FromPairs<K(==), W>(ps: seq<(K, W)>): Linked<K, W> {
    if ps == [] then [] else Put(FromPairs(ps[..|ps| - 1]), ps[|ps| - 1].0, ps[|ps| - 1].1)
  }

  lemma {:induction false} GetPut<K, W>(m: Linked<K, W>, k: K, w: W, k': K)
    ensures Get(Put(m, k, w), k') == if k' == k then Some(w) else Get(m, k')
  {
    if m != [] && m[0].0 != k {
      GetPut(m[1..], k, w, k');
    }
  }

  lemma {:induction false} GetKeys<K, W>(m: Linked<K, W>, k: K)
    ensures Get(m, k).Some? <==> k in KeysOf(m)
  {
    if m != [] {
      GetKeys(m[1..], k);
      assert KeysOf(m) == [m[0].0] + KeysOf(m[1..]);
    }
  }

  /** No key is stored twice. */
  lemma {:induction false} FromPairsUnique<K, W>(ps: seq<(K, W)>)
    ensures NoDup(KeysOf(FromPairs(ps)))
  {
    if ps != [] {
      var m := FromPairs(ps[..|ps| - 1]);
      FromPairsUnique(ps[..|ps| - 1]);
      var k := ps[|ps| - 1].0;
      if k !in KeysOf(m) {
        var ks := KeysOf(m) + [k];
        forall i, j | 0 <= i < j < |ks| ensures ks[i] != ks[j] {
          if j == |ks| - 1 {
            assert ks[i] == KeysOf(m)[i];
          } else {
            assert ks[i] == KeysOf(m)[i] && ks[j] == KeysOf(m)[j];
          }
        }
      }
    }
  }

  /** The keys are those of the pairs. */
  lemma {:induction false} FromPairsKeys<K, W>(ps: seq<(K, W)>, k: K)
    ensures k in KeysOf(FromPairs(ps)) <==> exists i :: 0 <= i < |ps| && ps[i].0 == k
  {
    if ps != [] {
      var init := ps[..|ps| - 1];
      FromPairsKeys(init, k);
      if exists i :: 0 <= i < |ps| && ps[i].0 == k {
        var i :| 0 <= i < |ps| && ps[i].0 == k;
        if i < |ps| - 1 {
          assert init[i].0 == k;
        }
      }
      if exists i :: 0 <= i < |init| && init[i].0 == k {
        var i :| 0 <= i < |init| && init[i].0 == k;
        assert ps[i].0 == k;
      }
    }
  }

  /** When no key repeats, the keys keep the order of the pairs. */
  lemma {:induction false} FromPairsOrder<K, W>(ps: seq<(K, W)>)
    requires NoDup(KeysOf(ps))
    ensures KeysOf(FromPairs(ps)) == KeysOf(ps)
  {
    if ps != [] {
      var init := ps[..|ps| - 1];
      var k := ps[|ps| - 1].0;
      assert KeysOf(ps) == KeysOf(init) + [k];
      NoDupSnoc(KeysOf(init), k);
      FromPairsOrder(init);
    }
  }

  lemma NoDupSnoc<T>(s: seq<T>, x: T)
    requires NoDup(s + [x])
    ensures NoDup(s) && x !in s
  {
    forall i, j | 0 <= i < j < |s| ensures s[i] != s[j] {
      assert s[i] == (s + [x])[i] && s[j] == (s + [x])[j];
    }
    forall i | 0 <= i < |s| ensures s[i] != x {
      assert s[i] == (s + [x])[i] && x == (s + [x])[|s|];
    }
  }

  /** When every pair with key `k` carries `w`, the map stores `w` under `k`. */
  lemma {:induction false} FromPairsOfKey<K, W>(ps: seq<(K, W)>, k: K, w: W)
    requires exists i :: 0 <= i < |ps| && ps[i].0 == k
    requires forall i :: 0 <= i < |ps| && ps[i].0 == k ==> ps[i].1 == w
    ensures Get(FromPairs(ps), k) == Some(w)
  {
    var init, n := ps[..|ps| - 1], |ps| - 1;
    GetPut(FromPairs(init), ps[n].0, ps[n].1, k);
    if ps[n].0 != k {
      var i :| 0 <= i < |ps| && ps[i].0 == k;
      assert init[i].0 == k;
      forall i' | 0 <= i' < |init| && init[i'].0 == k ensures init[i'].1 == w {
        assert ps[i'] == init[i'];
      }
      FromPairsOfKey(init, k, w);
    }
  }
}
