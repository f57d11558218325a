/** Python dicts as insertion-ordered association lists.

    A `Dict` lists its entries in iteration order. Assignment to a fresh key
    appends; assignment to a present key replaces the value in place, so the
    key keeps the position of its first insertion. `del` drops the entry and
    leaves the others in order. */
module OrderedDict {
  import opened Wrappers

  type Dict<K, V> = seq<(K, V)>

  function Keys<K, V>(d: Dict<K, V>): (ks: seq<K>)
    ensures |ks| == |d|
    ensures forall i :: 0 <= i < |d| ==> ks[i] == d[i].0
  {
    seq(|d|, i requires 0 <= i < |d| => d[i].0)
  }

  function Values<K, V>(d: Dict<K, V>): (vs: seq<V>)
    ensures |vs| == |d|
    ensures forall i :: 0 <= i < |d| ==> vs[i] == d[i].1
  {
    seq(|d|, i requires 0 <= i < |d| => d[i].1)
  }

  predicate Distinct<T(==)>(s: seq<T>) {
    forall i, j :: 0 <= i < j < |s| ==> s[i] != s[j]
  }

  /** The invariant of every Python dict: no key twice. */
  predicate DistinctKeys<K(==), V(==)>(d: Dict<K, V>) {
    Distinct(Keys(d))
  }

  /** `d.get(k)`: the value of the entry for `k`, or `None` when `k` is absent. */
  function Get<K(==), V(==)>(d: Dict<K, V>, k: K): (r: Option<V>)
    ensures r.None? <==> k !in Keys(d)
    ensures r.Some? ==> exists i :: 0 <= i < |d| && d[i] == (k, r.value)
  {
    if |d| == 0 then None
    else if d[0].0 == k then Some(d[0].1)
    else
      var r := Get(d[1..], k);
      assert Keys(d) == [d[0].0] + Keys(d[1..]);
      assert r.Some? ==> exists i :: 0 <= i < |d| && d[i] == (k, r.value) by {
        if r.Some? {
          var i :| 0 <= i < |d[1..]| && d[1..][i] == (k, r.value);
          assert d[i + 1] == (k, r.value);
        }
      }
      r
  }

  /** In a dict, the value found for a key is the one of its (only) entry. */
  lemma {:induction false} GetEntry<K, V>(d: Dict<K, V>, i: nat)
    requires DistinctKeys(d)
    requires i < |d|
    ensures Get(d, d[i].0) == Some(d[i].1)
  {
    if i > 0 {
      assert d[0].0 == Keys(d)[0] != Keys(d)[i] == d[i].0;
      assert Keys(d[1..]) == Keys(d)[1..];
      GetEntry(d[1..], i - 1);
    }
  }

  /** `d[k] = v`. */
  function Set<K(==), V(==)>(d: Dict<K, V>, k: K, v: V): Dict<K, V>
  {
    if |d| == 0 then [(k, v)]
    else if d[0].0 == k then [(k, v)] + d[1..]
    else [d[0]] + Set(d[1..], k, v)
  }

  /** Assignment keeps the key order; a fresh key goes to the end. */
  lemma {:induction false} SetKeys<K, V>(d: Dict<K, V>, k: K, v: V)
    ensures k in Keys(d) ==> Keys(Set(d, k, v)) == Keys(d)
    ensures k !in Keys(d) ==> Keys(Set(d, k, v)) == Keys(d) + [k]
  {
    if |d| > 0 {
      assert d == [d[0]] + d[1..];
      KeysCons(d[0], d[1..]);
      if d[0].0 == k {
        KeysCons((k, v), d[1..]);
      } else {
        SetKeys(d[1..], k, v);
        KeysCons(d[0], Set(d[1..], k, v));
      }
    }
  }

  /** After `d[k] = v`, looking up `k` gives `v` and every other key is unaffected. */
  lemma {:induction false} SetGet<K, V>(d: Dict<K, V>, k: K, v: V, k': K)
    ensures Get(Set(d, k, v), k') == if k' == k then Some(v) else Get(d, k')
  {
    if |d| > 0 && d[0].0 != k {
      SetGet(d[1..], k, v, k');
    }
  }

  /** Assigning a key that is not yet present appends one entry. */
  lemma {:induction false} SetFresh<K, V>(d: Dict<K, V>, k: K, v: V)
    requires k !in Keys(d)
    ensures Set(d, k, v) == d + [(k, v)]
  {
    if |d| > 0 {
      assert Keys(d) == [d[0].0] + Keys(d[1..]);
      SetFresh(d[1..], k, v);
      assert d == [d[0]] + d[1..];
    }
  }

  /** `{k: v for (k, v) in ps}`: later pairs overwrite earlier ones in place. */
  function FromPairs<K(==), V(==)>(ps: seq<(K, V)>): Dict<K, V>
  {
    if |ps| == 0 then []
    else Set(FromPairs(ps[..|ps| - 1]), ps[|ps| - 1].0, ps[|ps| - 1].1)
  }

  /** The value the last pair with key `k` carries: an independent reading of
      "the last assignment wins". */
  function LastValue<K(==), V(==)>(ps: seq<(K, V)>, k: K): (r: Option<V>)
    ensures r.None? <==> forall i :: 0 <= i < |ps| ==> ps[i].0 != k
    ensures r.Some? ==> exists i :: 0 <= i < |ps| && ps[i] == (k, r.value) && IsLastWithKey(ps, i)
  {
    if |ps| == 0 then None
    else if ps[|ps| - 1].0 == k then
      assert IsLastWithKey(ps, |ps| - 1);
      Some(ps[|ps| - 1].1)
    else
      var r := LastValue(ps[..|ps| - 1], k);
      assert forall i :: 0 <= i < |ps| - 1 ==> ps[i] == ps[..|ps| - 1][i];
      assert r.Some? ==> exists i :: 0 <= i < |ps| && ps[i] == (k, r.value) && IsLastWithKey(ps, i) by {
        if r.Some? {
          var i :| 0 <= i < |ps| - 1 && ps[..|ps| - 1][i] == (k, r.value) && IsLastWithKey(ps[..|ps| - 1], i);
          assert IsLastWithKey(ps, i);
        }
      }
      r
  }

  /** No pair after position `i` has the key of pair `i`. */
  predicate IsLastWithKey<K(==), V(==)>(ps: seq<(K, V)>, i: int)
    requires 0 <= i < |ps|
  {
    forall j :: i < j < |ps| ==> ps[j].0 != ps[i].0
  }

  /** Position of the first occurrence of `x` in `s`; `|s|` when there is none. */
  function FirstIndex<T(==)>(s: seq<T>, x: T): (i: nat)
    ensures i <= |s|
    ensures i < |s| <==> x in s
    ensures i < |s| ==> s[i] == x
    ensures forall j :: 0 <= j < i ==> s[j] != x
  {
    if |s| == 0 then 0
    else if s[0] == x then 0
    else 1 + FirstIndex(s[1..], x)
  }

  lemma FirstIndexAppend<T>(s: seq<T>, y: T, x: T)
    requires x in s
    ensures FirstIndex(s + [y], x) == FirstIndex(s, x)
  {
    var i := FirstIndex(s, x);
    var i' := FirstIndex(s + [y], x);
    assert (s + [y])[i] == x;
    assert s[i'] == x;
  }

  /** A dict built by a comprehension has no key twice, holds exactly the keys
      of the pairs, lists them in the order of their first occurrence, and maps
      each to the value of its last occurrence. */
  lemma FromPairsSpec<K, V>(ps: seq<(K, V)>)
    ensures DistinctKeys(FromPairs(ps))
    ensures forall k :: k in Keys(FromPairs(ps)) <==> k in Keys(ps)
    ensures forall i, j :: 0 <= i < j < |FromPairs(ps)| ==>
              FirstIndex(Keys(ps), FromPairs(ps)[i].0) < FirstIndex(Keys(ps), FromPairs(ps)[j].0)
    ensures forall k :: Get(FromPairs(ps), k) == LastValue(ps, k)
  {
    FromPairsKeySet(ps);
    FromPairsOrder(ps);
    FromPairsDistinct(ps);
    FromPairsGet(ps);
  }

  lemma {:induction false} FromPairsKeySet<K, V>(ps: seq<(K, V)>)
    ensures forall k :: k in Keys(FromPairs(ps)) <==> k in Keys(ps)
  {
    if |ps| > 0 {
      var init := ps[..|ps| - 1];
      var (k, v) := ps[|ps| - 1];
      FromPairsKeySet(init);
      SetKeys(FromPairs(init), k, v);
      assert Keys(ps) == Keys(init) + [k];
    }
  }

  lemma {:induction false} FromPairsDistinct<K, V>(ps: seq<(K, V)>)
    ensures DistinctKeys(FromPairs(ps))
  {
    if |ps| > 0 {
      var init := ps[..|ps| - 1];
      var (k, v) := ps[|ps| - 1];
      var d := FromPairs(init);
      FromPairsDistinct(init);
      SetKeys(d, k, v);
      if k !in Keys(d) {
        DistinctAppend(Keys(d), k);
      }
    }
  }

  lemma DistinctAppend<T>(s: seq<T>, x: T)
    requires Distinct(s) && x !in s
    ensures Distinct(s + [x])
  {
  }

  lemma {:induction false} FromPairsGet<K, V>(ps: seq<(K, V)>)
    ensures forall k :: Get(FromPairs(ps), k) == LastValue(ps, k)
  {
    if |ps| > 0 {
      var init := ps[..|ps| - 1];
      var (k, v) := ps[|ps| - 1];
      FromPairsGet(init);
      forall k' ensures Get(FromPairs(ps), k') == LastValue(ps, k') {
        SetGet(FromPairs(init), k, v, k');
      }
    }
  }

  lemma {:induction false} FromPairsOrder<K, V>(ps: seq<(K, V)>)
    ensures forall i, j :: 0 <= i < j < |FromPairs(ps)| ==>
              FirstIndex(Keys(ps), FromPairs(ps)[i].0) < FirstIndex(Keys(ps), FromPairs(ps)[j].0)
  {
    if |ps| > 0 {
      var init := ps[..|ps| - 1];
      var (k, v) := ps[|ps| - 1];
      var d := FromPairs(init);
      FromPairsOrder(init);
      FromPairsKeySet(init);
      SetKeys(d, k, v);
      assert Keys(ps) == Keys(init) + [k];
      var d' := FromPairs(ps);
      forall i | 0 <= i < |d| ensures FirstIndex(Keys(ps), d[i].0) == FirstIndex(Keys(init), d[i].0) {
        assert d[i].0 in Keys(d);
        FirstIndexAppend(Keys(init), k, d[i].0);
      }
      if k in Keys(d) {
        forall i, j | 0 <= i < j < |d'|
          ensures FirstIndex(Keys(ps), d'[i].0) < FirstIndex(Keys(ps), d'[j].0)
        {
          assert d'[i].0 == Keys(d')[i] == Keys(d)[i] == d[i].0;
          assert d'[j].0 == Keys(d')[j] == Keys(d)[j] == d[j].0;
        }
      } else {
        FromPairsOrderFresh(ps, d, d');
      }
    }
  }

  /** The step of `FromPairsOrder` where the last pair brings a fresh key. */
  lemma FromPairsOrderFresh<K, V>(ps: seq<(K, V)>, d: Dict<K, V>, d': Dict<K, V>)
    requires |ps| > 0
    requires Keys(ps) == Keys(ps[..|ps| - 1]) + [ps[|ps| - 1].0]
    requires forall k :: k in Keys(d) <==> k in Keys(ps[..|ps| - 1])
    requires ps[|ps| - 1].0 !in Keys(d)
    requires Keys(d') == Keys(d) + [ps[|ps| - 1].0]
    requires forall i, j :: 0 <= i < j < |d| ==>
               FirstIndex(Keys(ps[..|ps| - 1]), d[i].0) < FirstIndex(Keys(ps[..|ps| - 1]), d[j].0)
    requires forall i :: 0 <= i < |d| ==> FirstIndex(Keys(ps), d[i].0) == FirstIndex(Keys(ps[..|ps| - 1]), d[i].0)
    ensures forall i, j :: 0 <= i < j < |d'| ==>
              FirstIndex(Keys(ps), d'[i].0) < FirstIndex(Keys(ps), d'[j].0)
  {
    var init := ps[..|ps| - 1];
    var k := ps[|ps| - 1].0;
    assert k !in Keys(init);
    assert FirstIndex(Keys(ps), k) == |init| by {
      assert forall j :: 0 <= j < |init| ==> Keys(ps)[j] == Keys(init)[j] != k;
    }
    forall i, j | 0 <= i < j < |d'|
      ensures FirstIndex(Keys(ps), d'[i].0) < FirstIndex(Keys(ps), d'[j].0)
    {
      assert d'[i].0 == Keys(d')[i] == (Keys(d) + [k])[i];
      assert d'[j].0 == Keys(d')[j] == (Keys(d) + [k])[j];
      if j < |d| {
        assert d'[i].0 == d[i].0 && d'[j].0 == d[j].0;
      } else {
        assert d'[i].0 == d[i].0;
        assert d[i].0 in Keys(init) by { assert d[i].0 == Keys(d)[i]; }
      }
    }
  }

  /** A comprehension over pairs whose keys are already distinct rebuilds them unchanged. */
  lemma {:induction false} FromDistinctPairs<K, V>(ps: seq<(K, V)>)
    requires DistinctKeys(ps)
    ensures FromPairs(ps) == ps
  {
    if |ps| > 0 {
      var init := ps[..|ps| - 1];
      assert Keys(init) == Keys(ps)[..|ps| - 1];
      FromDistinctPairs(init);
      assert ps[|ps| - 1].0 !in Keys(init) by {
        assert forall i :: 0 <= i < |init| ==> Keys(init)[i] == Keys(ps)[i] != Keys(ps)[|ps| - 1];
      }
      SetFresh(init, ps[|ps| - 1].0, ps[|ps| - 1].1);
      assert init + [ps[|ps| - 1]] == ps;
    }
  }

  /** The entries whose key is not in `gone`, in their order. */
  function Without<K(==), V(==)>(d: Dict<K, V>, gone: set<K>): (r: Dict<K, V>)
    ensures |r| <= |d|
    ensures forall i :: 0 <= i < |r| ==> r[i] in d && r[i].0 !in gone
    ensures forall i :: 0 <= i < |d| && d[i].0 !in gone ==> d[i] in r
  {
    if |d| == 0 then []
    else (if d[0].0 in gone then [] else [d[0]]) + Without(d[1..], gone)
  }

  /** `del d[k]`. */
  function Remove<K(==), V(==)>(d: Dict<K, V>, k: K): Dict<K, V> {
    Without(d, {k})
  }

  lemma {:induction false} WithoutKeys<K, V>(d: Dict<K, V>, gone: set<K>)
    ensures forall k :: k in Keys(Without(d, gone)) <==> k in Keys(d) && k !in gone
  {
    forall k ensures k in Keys(Without(d, gone)) <==> k in Keys(d) && k !in gone {
      var w := Without(d, gone);
      if k in Keys(w) {
        var i :| 0 <= i < |w| && Keys(w)[i] == k;
        assert w[i] in w;
        var j :| 0 <= j < |d| && d[j] == w[i];
        assert Keys(d)[j] == k;
      }
      if k in Keys(d) && k !in gone {
        var j :| 0 <= j < |d| && Keys(d)[j] == k;
        assert d[j] in w;
        var i :| 0 <= i < |w| && w[i] == d[j];
        assert Keys(w)[i] == k;
      }
    }
  }

  lemma KeysCons<K, V>(e: (K, V), d: Dict<K, V>)
    ensures Keys([e] + d) == [e.0] + Keys(d)
  {
  }

  lemma ValuesCons<K, V>(e: (K, V), d: Dict<K, V>)
    ensures Values([e] + d) == [e.1] + Values(d)
  {
  }

  lemma DistinctCons<T>(x: T, s: seq<T>)
    ensures Distinct([x] + s) <==> x !in s && Distinct(s)
  {
    if x !in s && Distinct(s) {
      forall i, j | 0 <= i < j < |[x] + s| ensures ([x] + s)[i] != ([x] + s)[j] {
        if i == 0 {
          assert ([x] + s)[j] == s[j - 1];
        }
      }
    }
    if Distinct([x] + s) {
      forall i | 0 <= i < |s| ensures s[i] != x {
        assert s[i] == ([x] + s)[i + 1] && x == ([x] + s)[0];
      }
      forall i, j | 0 <= i < j < |s| ensures s[i] != s[j] {
        assert s[i] == ([x] + s)[i + 1] && s[j] == ([x] + s)[j + 1];
      }
    }
  }

  /** Dropping entries keeps the keys distinct. */
  lemma {:induction false} WithoutDistinct<K, V>(d: Dict<K, V>, gone: set<K>)
    requires DistinctKeys(d)
    ensures DistinctKeys(Without(d, gone))
  {
    if |d| > 0 {
      assert d == [d[0]] + d[1..];
      KeysCons(d[0], d[1..]);
      DistinctCons(d[0].0, Keys(d[1..]));
      WithoutDistinct(d[1..], gone);
      var rest := Without(d[1..], gone);
      if d[0].0 !in gone {
        WithoutKeys(d[1..], gone);
        KeysCons(d[0], rest);
        DistinctCons(d[0].0, Keys(rest));
      } else {
        assert Without(d, gone) == rest;
      }
    }
  }

  /** Looking up a key that was not dropped finds what it found before. */
  lemma {:induction false} WithoutGet<K, V>(d: Dict<K, V>, gone: set<K>, k: K)
    ensures Get(Without(d, gone), k) == if k in gone then None else Get(d, k)
  {
    if |d| > 0 {
      WithoutGet(d[1..], gone, k);
      var rest := Without(d[1..], gone);
      if d[0].0 !in gone {
        assert Without(d, gone) == [d[0]] + rest;
        assert ([d[0]] + rest)[1..] == rest;
      } else {
        assert Without(d, gone) == rest;
      }
    }
  }

  /** Removing first `a` and then `b` removes `a + b`. */
  lemma {:induction false} WithoutTwice<K, V>(d: Dict<K, V>, a: set<K>, b: set<K>)
    ensures Without(Without(d, a), b) == Without(d, a + b)
  {
    if |d| > 0 {
      WithoutTwice(d[1..], a, b);
      var head := if d[0].0 in a then [] else [d[0]];
      assert Without(d, a) == head + Without(d[1..], a);
      WithoutAppend(head, Without(d[1..], a), b);
    }
  }

  lemma {:induction false} WithoutAppend<K, V>(d: Dict<K, V>, e: Dict<K, V>, gone: set<K>)
    ensures Without(d + e, gone) == Without(d, gone) + Without(e, gone)
  {
    if |d| > 0 {
      assert (d + e)[1..] == d[1..] + e;
      WithoutAppend(d[1..], e, gone);
    } else {
      assert d + e == e;
    }
  }

  /** Naming a key the dict does not hold removes nothing more. */
  lemma {:induction false} WithoutAbsent<K, V>(d: Dict<K, V>, gone: set<K>, k: K)
    requires k !in Keys(d)
    ensures Without(d, gone + {k}) == Without(d, gone)
  {
    if |d| > 0 {
      assert Keys(d) == [d[0].0] + Keys(d[1..]);
      WithoutAbsent(d[1..], gone, k);
    }
  }

  lemma {:induction false} WithoutNothing<K, V>(d: Dict<K, V>)
    ensures Without(d, {}) == d
  {
    if |d| > 0 {
      WithoutNothing(d[1..]);
      assert d == [d[0]] + d[1..];
    }
  }

  /** `del d[k]` on a present key takes exactly its value out of the dict's values. */
  lemma {:induction false} RemoveValues<K, V>(d: Dict<K, V>, k: K)
    requires DistinctKeys(d)
    requires k in Keys(d)
    ensures Get(d, k).Some?
    ensures multiset(Values(d)) == multiset(Values(Remove(d, k))) + multiset{Get(d, k).value}
  {
    assert d == [d[0]] + d[1..];
    KeysCons(d[0], d[1..]);
    DistinctCons(d[0].0, Keys(d[1..]));
    ValuesCons(d[0], d[1..]);
    if d[0].0 == k {
      RemoveHead(d, k);
    } else {
      assert k in Keys(d[1..]);
      assert Get(d, k) == Get(d[1..], k);
      RemoveValues(d[1..], k);
      RemoveKeepsHead(d, k);
      ValuesCons(d[0], Remove(d[1..], k));
      MultisetConsStep(d[0].1, Values(d[1..]), Values(Remove(d[1..], k)), Get(d, k).value);
    }
  }

  /** Removing a key other than the first keeps the first entry in front. */
  lemma RemoveKeepsHead<K, V>(d: Dict<K, V>, k: K)
    requires |d| > 0 && d[0].0 != k
    ensures Remove(d, k) == [d[0]] + Remove(d[1..], k)
  {
  }

  lemma MultisetConsStep<V>(x: V, a: seq<V>, b: seq<V>, v: V)
    requires multiset(a) == multiset(b) + multiset{v}
    ensures multiset([x] + a) == multiset([x] + b) + multiset{v}
  {
    assert multiset([x] + a) == multiset{x} + multiset(a);
    assert multiset([x] + b) == multiset{x} + multiset(b);
  }

  lemma RemoveHead<K, V>(d: Dict<K, V>, k: K)
    requires |d| > 0 && d[0].0 == k
    requires k !in Keys(d[1..])
    ensures Remove(d, k) == d[1..]
  {
    WithoutAbsent(d[1..], {}, k);
    assert {} + {k} == {k};
    WithoutNothing(d[1..]);
    assert Remove(d, k) == Without(d[1..], {k});
  }
}
