/** Small shared helpers over options, sets and maps. */
module Collections {
  datatype Option<+T> = None | Some(value: T)

  /** An element of a non-empty set, for proofs that need a witness. */
  lemma Pick<T>(s: set<T>) returns (x: T)
    requires s != {}
    ensures x in s
  {
    x :| x in s;
  }

  lemma SubsetSize<T>(a: set<T>, b: set<T>)
    requires a <= b
    ensures |a| <= |b|
    ensures a < b ==> |a| < |b|
  {
    assert b == a + (b - a);
    assert |b| == |a| + |b - a|;
    if a < b {
      var x :| x in b && x !in a;
      assert x in b - a;
    }
  }

  predicate SubMap<K, V(==)>(a: map<K, V>, b: map<K, V>) {
    a.Keys <= b.Keys && forall k :: k in a ==> a[k] == b[k]
  }

  lemma SubMapSize<K, V>(a: map<K, V>, b: map<K, V>)
    requires a.Keys <= b.Keys
    ensures |a| <= |b|
    ensures a.Keys < b.Keys ==> |a| < |b|
  {
    SubsetSize(a.Keys, b.Keys);
    assert |a| == |a.Keys| && |b| == |b.Keys|;
  }

  lemma KeyOfValue<K, V>(m: map<K, V>, v: V) returns (k: K)
    requires v in m.Values
    ensures k in m && m[k] == v
  {
    k :| k in m && m[k] == v;
  }

  /** Two sets matched one to one by a pair of inverse functions have the same size. */
  lemma {:induction false} MatchedSize<A, B>(a: set<A>, b: set<B>, f: A -> B, g: B -> A)
    requires forall x :: x in a ==> f(x) in b && g(f(x)) == x
    requires forall y :: y in b ==> g(y) in a && f(g(y)) == y
    ensures |a| == |b|
    decreases a
  {
    if a == {} {
      if b != {} {
        var y := Pick(b);
        assert false;
      }
    } else {
      var x := Pick(a);
      MatchedSize(a - {x}, b - {f(x)}, f, g);
    }
  }

  lemma RemoveSize<K, V>(m: map<K, V>, k: K)
    requires k in m
    ensures |m - {k}| == |m| - 1
  {
    assert (m - {k}).Keys == m.Keys - {k};
    assert |m| == |m.Keys| && |m - {k}| == |(m - {k}).Keys|;
  }

  /** Taking out an entry whose value occurs once takes that value out of the values. */
  lemma RemoveValue<K, V>(m: map<K, V>, k: K)
    requires k in m && forall j :: j in m && j != k ==> m[j] != m[k]
    ensures multiset(m.Values) == multiset((m - {k}).Values) + multiset{m[k]}
  {
    var rest := m - {k};
    forall x | x in m.Values ensures x in rest.Values + {m[k]} {
      var j :| j in m && m[j] == x;
      if j != k { assert j in rest && rest[j] == x; }
    }
    assert m.Values == rest.Values + {m[k]};
    assert m[k] !in rest.Values;
  }

  lemma SingleValue<K, V>(k: K, v: V)
    ensures multiset(map[k := v].Values) == multiset{v}
  {
    assert k in map[k := v];
    assert map[k := v].Values == {v};
  }

  lemma InsertSize<K, V>(m: map<K, V>, k: K, v: V)
    requires k !in m
    ensures |m[k := v]| == |m| + 1
  {
    assert m[k := v] - {k} == m;
    RemoveSize(m[k := v], k);
  }
}
