/** Facts about finite sets shared by the loops that drain a set one element at a time. */
module SetFacts {

  /** Moving one element from the part still to do to the part done keeps the partition. */
  lemma MoveOne<T>(done: set<T>, rest: set<T>, whole: set<T>, x: T)
    requires done + rest == whole && done !! rest && x in rest
    ensures x !in done
    ensures (done + {x}) + (rest - {x}) == whole && (done + {x}) !! (rest - {x})
    ensures |rest - {x}| < |rest|
  {
  }

  /** A set of naturals below `n` has at most `n` elements. */
  lemma {:induction false} CardBound(a: set<nat>, n: nat)
    requires forall v :: v in a ==> v < n
    ensures |a| <= n
  {
    if n > 0 {
      CardBound(a - {n - 1}, n - 1);
    } else {
      assert a == {};
    }
  }

  lemma SubsetCard<T>(a: set<T>, b: set<T>)
    requires a <= b
    ensures |a| <= |b|
    ensures |a| == |b| ==> a == b
  {
    assert b == a + (b - a);
  }
}
