/** Sizes of finite sets of integers. */
module Sets {

  /** A set of numbers below n has at most n members, and n of them only if it has all. */
  lemma {:induction false} SizeBelow(a: set<int>, n: nat)
    requires forall x :: x in a ==> 0 <= x < n
    ensures |a| <= n
    ensures |a| == n <==> forall x :: 0 <= x < n ==> x in a
  {
    if n == 0 {
      assert forall x :: x !in a;
      assert a == {};
    } else {
      SizeBelow(a - {n - 1}, n - 1);
      if n - 1 in a {
        assert a == (a - {n - 1}) + {n - 1};
      } else {
        assert a == a - {n - 1};
      }
    }
  }

  lemma SubsetSize(a: set<int>, b: set<int>)
    requires a <= b
    ensures |a| <= |b|
    ensures |a| == |b| ==> a == b
  {
    assert b == a + (b - a);
    assert |b - a| == 0 ==> b - a == {};
  }
}
