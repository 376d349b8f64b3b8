/**
  Ruby's Hash as the script uses it: an insertion-ordered table built by
  `Hash[...]`, updated by `h[k] = v` and combined by `merge`. Assigning to a
  key that is present keeps its position and replaces its value; a new key
  goes last. So with duplicate keys the later value wins.
*/
module RubyHash {
  import opened Wrappers

  type Hash<K, V> = seq<(K, V)>

  predicate UniqueKeys<K(==), V>(h: Hash<K, V>)
  {
    forall i, j :: 0 <= i < j < |h| ==> h[i].0 != h[j].0
  }

  predicate HasKey<K(==), V>(h: Hash<K, V>, k: K)
  {
    exists i :: 0 <= i < |h| && h[i].0 == k
  }

  /** `h[k]`: the value of the first entry with key `k`, or nil. */
  function Get<K(==), V>(h: Hash<K, V>, k: K): (r: Option<V>)
  {
    if |h| == 0 then None
    else if h[0].0 == k then Some(h[0].1)
    else Get(h[1..], k)
  }

  /** A key is found exactly when the Hash has it, and then with the value of one of its entries. */
  lemma {:induction false} GetFinds<K, V>(h: Hash<K, V>, k: K)
    ensures Get(h, k).Some? <==> HasKey(h, k)
    ensures Get(h, k).Some? ==> exists i :: 0 <= i < |h| && h[i] == (k, Get(h, k).value)
  {
    if |h| > 0 && h[0].0 != k {
      GetFinds(h[1..], k);
      if HasKey(h, k) {
        var i :| 0 <= i < |h| && h[i].0 == k;
        assert h[1..][i - 1].0 == k;
      }
      if Get(h, k).Some? {
        var i :| 0 <= i < |h[1..]| && h[1..][i] == (k, Get(h, k).value);
        assert h[i + 1] == (k, Get(h, k).value);
      }
    }
  }

  lemma GetUnique<K, V>(h: Hash<K, V>, i: int)
    requires UniqueKeys(h) && 0 <= i < |h|
    ensures Get(h, h[i].0) == Some(h[i].1)
  {
    if i > 0 {
      assert h[0].0 != h[i].0;
      assert h[1..][i - 1] == h[i];
      GetUnique(h[1..], i - 1);
    }
  }

  /** `h[k] = v`. */
  function Store<K(==), V>(h: Hash<K, V>, k: K, v: V): (r: Hash<K, V>)
    ensures |r| == if HasKey(h, k) then |h| else |h| + 1
  {
    if |h| == 0 then [(k, v)]
    else if h[0].0 == k then [(k, v)] + h[1..]
    else
      assert HasKey(h, k) <==> HasKey(h[1..], k) by {
        if HasKey(h, k) {
          var i :| 0 <= i < |h| && h[i].0 == k;
          assert h[1..][i - 1].0 == k;
        }
        if HasKey(h[1..], k) {
          var i :| 0 <= i < |h[1..]| && h[1..][i].0 == k;
          assert h[i + 1].0 == k;
        }
      }
      [h[0]] + Store(h[1..], k, v)
  }

  /** After `h[k] = v`, `k` has value `v` and every other key keeps its value. */
  lemma {:induction false} StoreGet<K, V>(h: Hash<K, V>, k: K, v: V, k': K)
    ensures Get(Store(h, k, v), k') == if k' == k then Some(v) else Get(h, k')
  {
    if |h| > 0 && h[0].0 != k {
      StoreGet(h[1..], k, v, k');
    }
  }

  lemma {:induction false} StoreKeys<K, V>(h: Hash<K, V>, k: K, v: V)
    ensures forall i :: 0 <= i < |Store(h, k, v)| ==> Store(h, k, v)[i].0 == k || (i < |h| && Store(h, k, v)[i].0 == h[i].0)
  {
    if |h| > 0 && h[0].0 != k {
      StoreKeys(h[1..], k, v);
    }
  }

  lemma {:induction false} StoreUnique<K, V>(h: Hash<K, V>, k: K, v: V)
    requires UniqueKeys(h)
    ensures UniqueKeys(Store(h, k, v))
  {
    if |h| > 0 {
      if h[0].0 == k {
        assert forall i :: 0 < i < |h| ==> h[i].0 != k;
      } else {
        StoreUnique(h[1..], k, v);
        StoreKeys(h[1..], k, v);
        var r := Store(h[1..], k, v);
        assert forall i :: 0 <= i < |r| ==> r[i].0 != h[0].0;
      }
    }
  }

  lemma {:induction false} StoreAbsent<K, V>(h: Hash<K, V>, k: K, v: V)
    requires !HasKey(h, k)
    ensures Store(h, k, v) == h + [(k, v)]
  {
    if |h| > 0 {
      assert forall i :: 0 <= i < |h[1..]| ==> h[1..][i].0 == h[i + 1].0;
      StoreAbsent(h[1..], k, v);
      assert [h[0]] + (h[1..] + [(k, v)]) == h + [(k, v)];
    }
  }

  /** `Hash[pairs]`: the pairs stored one after the other. */
  function FromPairs<K(==), V>(ps: seq<(K, V)>): (h: Hash<K, V>)
    ensures UniqueKeys(h)
  {
    if |ps| == 0 then []
    else
      var init := FromPairs(ps[..|ps| - 1]);
      StoreUnique(init, ps[|ps| - 1].0, ps[|ps| - 1].1);
      Store(init, ps[|ps| - 1].0, ps[|ps| - 1].1)
  }

  /** The pair (k, v) is the last pair for k in ps. */
  ghost predicate LastFor<K, V>(ps: seq<(K, V)>, k: K, v: V)
  {
    exists i :: 0 <= i < |ps| && ps[i] == (k, v) && forall j :: i < j < |ps| ==> ps[j].0 != k
  }

  /** In `Hash[pairs]` a key maps to the value of its LAST pair. */
  lemma {:induction false} FromPairsGet<K, V>(ps: seq<(K, V)>, k: K, v: V)
    ensures Get(FromPairs(ps), k) == Some(v) <==> LastFor(ps, k, v)
  {
    if |ps| > 0 {
      var init, last := ps[..|ps| - 1], ps[|ps| - 1];
      StoreGet(FromPairs(init), last.0, last.1, k);
      if last.0 == k {
        if LastFor(ps, k, v) {
          var i :| 0 <= i < |ps| && ps[i] == (k, v) && forall j :: i < j < |ps| ==> ps[j].0 != k;
          assert i == |ps| - 1;
        }
      } else {
        FromPairsGet(init, k, v);
        if LastFor(init, k, v) {
          var i :| 0 <= i < |init| && init[i] == (k, v) && forall j :: i < j < |init| ==> init[j].0 != k;
          assert ps[i] == (k, v) && forall j :: i < j < |ps| ==> ps[j].0 != k;
        }
        if LastFor(ps, k, v) {
          var i :| 0 <= i < |ps| && ps[i] == (k, v) && forall j :: i < j < |ps| ==> ps[j].0 != k;
          assert i < |init| && init[i] == (k, v) && forall j :: i < j < |init| ==> init[j].0 != k;
        }
      }
    }
  }

  /** Every key of the pairs is a key of `Hash[pairs]`. */
  lemma {:induction false} FromPairsHasKey<K, V>(ps: seq<(K, V)>, i: int)
    requires 0 <= i < |ps|
    ensures Get(FromPairs(ps), ps[i].0).Some?
  {
    var init, last := ps[..|ps| - 1], ps[|ps| - 1];
    StoreGet(FromPairs(init), last.0, last.1, ps[i].0);
    if i < |ps| - 1 {
      assert init[i] == ps[i];
      FromPairsHasKey(init, i);
    }
  }

  /** A key of `Hash[pairs]` is exactly a key of one of the pairs. */
  lemma FromPairsHas<K, V>(ps: seq<(K, V)>, k: K)
    ensures Get(FromPairs(ps), k).Some? <==> exists i :: 0 <= i < |ps| && ps[i].0 == k
  {
    if exists i :: 0 <= i < |ps| && ps[i].0 == k {
      var i :| 0 <= i < |ps| && ps[i].0 == k;
      FromPairsHasKey(ps, i);
    }
    if Get(FromPairs(ps), k).Some? {
      FromPairsGet(ps, k, Get(FromPairs(ps), k).value);
    }
  }

  /** When every pair has the same value, so does every key of `Hash[pairs]`. */
  lemma FromPairsUniform<K, V>(ps: seq<(K, V)>, v: V, k: K)
    requires forall i :: 0 <= i < |ps| ==> ps[i].1 == v
    ensures Get(FromPairs(ps), k).Some? ==> Get(FromPairs(ps), k).value == v
  {
    if Get(FromPairs(ps), k).Some? {
      FromPairsGet(ps, k, Get(FromPairs(ps), k).value);
    }
  }

  /** Pairs whose keys are already distinct make a Hash in exactly their order. */
  lemma {:induction false} FromDistinctPairs<K, V>(ps: seq<(K, V)>)
    requires UniqueKeys(ps)
    ensures FromPairs(ps) == ps
  {
    if |ps| > 0 {
      var init := ps[..|ps| - 1];
      assert UniqueKeys(init);
      FromDistinctPairs(init);
      assert !HasKey(init, ps[|ps| - 1].0);
      StoreAbsent(init, ps[|ps| - 1].0, ps[|ps| - 1].1);
      assert init + [ps[|ps| - 1]] == ps;
    }
  }

  /** `a.merge(b)`: every pair of `b` stored into `a`, in `b`'s order. */
  function Merge<K(==), V>(a: Hash<K, V>, b: Hash<K, V>): Hash<K, V>
  {
    if |b| == 0 then a
    else Store(Merge(a, b[..|b| - 1]), b[|b| - 1].0, b[|b| - 1].1)
  }

  /** In `a.merge(b)` the values of `b` override those of `a`, and `a`'s other keys keep theirs. */
  lemma {:induction false} MergeGet<K, V>(a: Hash<K, V>, b: Hash<K, V>, k: K)
    requires UniqueKeys(b)
    ensures Get(Merge(a, b), k) == if Get(b, k).Some? then Get(b, k) else Get(a, k)
  {
    if |b| > 0 {
      var init, last := b[..|b| - 1], b[|b| - 1];
      assert UniqueKeys(init);
      MergeGet(a, init, k);
      StoreGet(Merge(a, init), last.0, last.1, k);
      GetFinds(init, k);
      GetFinds(b, k);
      if last.0 == k {
        assert !HasKey(init, k);
        GetUnique(b, |b| - 1);
      } else {
        GetAppendOther(init, last, k);
        assert init + [last] == b;
      }
    }
  }

  lemma {:induction false} GetAppendOther<K, V>(h: Hash<K, V>, p: (K, V), k: K)
    requires p.0 != k
    ensures Get(h + [p], k) == Get(h, k)
  {
    if |h| > 0 {
      assert (h + [p])[1..] == h[1..] + [p];
      GetAppendOther(h[1..], p, k);
    }
  }
}
