/** Cardinalities of finite sets. */
module Sets {

  lemma {:induction false} SubsetSize<T>(a: set<T>, b: set<T>)
    requires a <= b
    ensures |a| <= |b|
    decreases |a|
  {
    if a != {} {
      var x :| x in a;
      SubsetSize(a - {x}, b - {x});
    }
  }

  lemma AddDisjoint<T>(a: set<T>, p: set<T>, c: set<T>)
    requires p <= c && p !! a
    ensures |(a + p) * c| == |a * c| + |p|
  {
    assert (a + p) * c == a * c + p;
  }

  lemma TwoElements<T>(s: set<T>) returns (a: T, b: T)
    requires |s| >= 2
    ensures a != b && a in s && b in s
  {
    a :| a in s;
    assert |s - {a}| == |s| - 1;
    b :| b in s - {a};
  }
}
