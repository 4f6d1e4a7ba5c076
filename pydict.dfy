/** A Python dict as the sequence of its (key, value) entries in insertion
    order. Assigning `d[k] = v` overwrites the value of an existing key in
    place and appends a new key at the end; a dict comprehension performs
    one such assignment per generated pair, from left to right. */
module PyDict {

  ghost predicate DistinctKeys<K, V>(d: seq<(K, V)>) {
    forall i, j :: 0 <= i < j < |d| ==> d[i].0 != d[j].0
  }

  /** Where `k` sits among the keys of `d`, or `|d|` when it is absent. */
  function IndexOf<K(==), V>(d: seq<(K, V)>, k: K): (i: nat)
    ensures i <= |d|
    ensures i < |d| ==> d[i].0 == k
    ensures forall j :: 0 <= j < i ==> d[j].0 != k
  {
    if d == [] then 0
    else if d[0].0 == k then 0
    else 1 + IndexOf(d[1..], k)
  }

  /** `d[k] = v` on a dict `d`, whose keys are distinct: an existing key
      keeps its position and takes the new value, every other entry stays
      where it was, and a new key goes at the end. */
  function Store<K(==), V>(d: seq<(K, V)>, k: K, v: V): (r: seq<(K, V)>)
    requires DistinctKeys(d)
    ensures DistinctKeys(r)
    ensures |d| <= |r| <= |d| + 1
    ensures forall j :: 0 <= j < |d| ==> r[j] == (if d[j].0 == k then (k, v) else d[j])
    ensures |r| == |d| + 1 ==> r[|d|] == (k, v) && forall j :: 0 <= j < |d| ==> d[j].0 != k
    ensures (forall j :: 0 <= j < |d| ==> d[j].0 != k) ==> |r| == |d| + 1
  {
    var i := IndexOf(d, k);
    if i < |d| then d[i := (k, v)] else d + [(k, v)]
  }

  /** `{k: v for (k, v) in ps}` */
  function FromPairs<K(==), V>(ps: seq<(K, V)>): (d: seq<(K, V)>)
    ensures DistinctKeys(d)
    ensures |d| <= |ps|
    decreases |ps|
  {
    if ps == [] then []
    else
      var last := ps[|ps| - 1];
      Store(FromPairs(ps[..|ps| - 1]), last.0, last.1)
  }

  /** `ps[i]` is `e`, and no later pair has the key of `e`. */
  ghost predicate LastFor<K, V>(ps: seq<(K, V)>, i: int, e: (K, V)) {
    0 <= i < |ps| && ps[i] == e && forall j :: i < j < |ps| ==> ps[j].0 != e.0
  }

  /** What one assignment leaves in the dict: the new pair, and the old
      entries under the other keys. */
  lemma StoreEntries<K, V>(d: seq<(K, V)>, k: K, v: V, e: (K, V))
    requires DistinctKeys(d)
    ensures e in Store(d, k, v) <==> e == (k, v) || (e in d && e.0 != k)
  {
    var i := IndexOf(d, k);
    var r := Store(d, k, v);
    if i < |d| {
      assert r == d[i := (k, v)] && r[i] == (k, v);
      if e in d && e.0 != k {
        var j :| 0 <= j < |d| && d[j] == e;
        assert r[j] == e;
      }
      if e in r && e != (k, v) {
        var j :| 0 <= j < |r| && r[j] == e;
        assert j != i && d[j] == e;
        assert d[j].0 != d[i].0;
      }
    } else {
      assert r == d + [(k, v)] && r[|d|] == (k, v);
      if e in r && e != (k, v) {
        var j :| 0 <= j < |r| && r[j] == e;
        assert j < |d| && d[j] == e;
      }
    }
  }

  /** Assigning a key the dict does not hold appends the pair. */
  lemma StoreNewKey<K, V>(d: seq<(K, V)>, k: K, v: V)
    requires DistinctKeys(d)
    requires forall j :: 0 <= j < |d| ==> d[j].0 != k
    ensures Store(d, k, v) == d + [(k, v)]
  {
    assert IndexOf(d, k) == |d|;
  }

  /** On a repeated key the later pair wins: each entry of the dict is the
      last pair generated for its key. */
  lemma {:induction false} FromPairsLastWins<K, V>(ps: seq<(K, V)>, e: (K, V))
    requires e in FromPairs(ps)
    ensures exists i :: LastFor(ps, i, e)
    decreases |ps|
  {
    var n := |ps|;
    var init, last := ps[..n - 1], ps[n - 1];
    StoreEntries(FromPairs(init), last.0, last.1, e);
    if e == last {
      assert LastFor(ps, n - 1, e);
    } else {
      FromPairsLastWins(init, e);
      var i :| LastFor(init, i, e);
      assert LastFor(ps, i, e) by {
        assert ps[i] == init[i];
        forall j | i < j < n ensures ps[j].0 != e.0 {
          if j < n - 1 { assert ps[j] == init[j]; }
        }
      }
    }
  }

  /** Every key generated is a key of the dict. */
  lemma {:induction false} FromPairsKeys<K, V>(ps: seq<(K, V)>, i: nat)
    requires i < |ps|
    ensures exists e :: e in FromPairs(ps) && e.0 == ps[i].0
    decreases |ps|
  {
    var n := |ps|;
    var init, last := ps[..n - 1], ps[n - 1];
    var d := FromPairs(init);
    if ps[i].0 == last.0 {
      StoreEntries(d, last.0, last.1, last);
    } else {
      assert ps[i] == init[i];
      FromPairsKeys(init, i);
      var e :| e in d && e.0 == ps[i].0;
      StoreEntries(d, last.0, last.1, e);
    }
  }

  /** Pairs with distinct keys build a dict holding exactly those pairs in
      the same order. */
  lemma {:induction false} FromPairsDistinct<K, V>(ps: seq<(K, V)>)
    requires DistinctKeys(ps)
    ensures FromPairs(ps) == ps
    decreases |ps|
  {
    if ps != [] {
      var n := |ps|;
      var init, last := ps[..n - 1], ps[n - 1];
      assert DistinctKeys(init);
      FromPairsDistinct(init);
      forall j | 0 <= j < |init| ensures init[j].0 != last.0 {
        assert init[j] == ps[j];
      }
      StoreNewKey(init, last.0, last.1);
      assert init + [last] == ps;
    }
  }

  /** Every entry of the dict is one of the generated pairs. */
  lemma {:induction false} FromPairsMember<K, V>(ps: seq<(K, V)>, e: (K, V))
    requires e in FromPairs(ps)
    ensures e in ps
  {
    FromPairsLastWins(ps, e);
  }
}
