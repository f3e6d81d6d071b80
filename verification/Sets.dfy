/** Sizes of finite sets and maps. */
module Sets {
  lemma {:induction false} SubsetSize<T>(a: set<T>, b: set<T>)
    requires a <= b
    ensures |a| <= |b|
  {
    if a == {} {
    } else {
      var x :| x in a;
      SubsetSize(a - {x}, b - {x});
    }
  }

  lemma {:induction false} SameSize<T>(a: set<T>, b: set<T>)
    requires a <= b && |a| == |b|
    ensures a == b
  {
    if a == {} {
      assert b == {};
    } else {
      var x :| x in a;
      SameSize(a - {x}, b - {x});
    }
  }

  ghost function AnyOf<T>(s: set<T>): (x: T)
    requires s != {}
    ensures x in s
  {
    var x :| x in s; x
  }

  ghost function SomeKey<K, V>(m: map<K, V>): (k: K)
    requires m != map[]
    ensures k in m
  {
    assert m.Keys != {};
    var k :| k in m; k
  }

  lemma RemoveShrinks<K, V>(m: map<K, V>, k: K)
    requires k in m
    ensures |m - {k}| < |m|
  {
  }

  lemma {:induction false} InjectionSize<K, V>(m: map<K, V>, s: set<V>)
    requires forall i :: i in m ==> m[i] in s
    requires forall i, j :: i in m && j in m && m[i] == m[j] ==> i == j
    ensures |m| <= |s|
  {
    if m == map[] {
    } else {
      var i := SomeKey(m);
      var rest := m - {i};
      assert rest.Keys == m.Keys - {i};
      InjectionSize(rest, s - {m[i]});
    }
  }

  lemma ValuesSize<K, V>(m: map<K, V>)
    ensures |m.Values| <= |m|
  {
  }
}
