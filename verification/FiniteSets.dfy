/** Sizes of finite sets. */
module FiniteSets {
  lemma {:induction false} SubsetSize<T>(a: set<T>, b: set<T>)
    requires a <= b
    ensures |a| <= |b| && (a != b ==> |a| < |b|)
  {
    if a != {} {
      var x :| x in a;
      SubsetSize(a - {x}, b - {x});
      assert a != b ==> a - {x} != b - {x};
    }
  }

  lemma {:induction false} SizeBelow(s: set<nat>, n: nat)
    requires forall x :: x in s ==> x < n
    ensures |s| <= n
  {
    if n > 0 {
      SizeBelow(s - {n - 1}, n - 1);
    } else {
      assert s == {};
    }
  }
}
