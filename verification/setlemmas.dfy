/** Small facts about finite sets of points: termination measures and picking a member. */
module SetLemmas {

  /** Adding a point of `all` shrinks what is left of `all`. */
  lemma AddShrinks(all: set<int>, small: set<int>, x: int)
    requires x in all && x !in small
    ensures all - (small + {x}) < all - small
  {
    assert x in all - small && x !in all - (small + {x});
  }

  /** The least member of `s` in `i..hi`, or `hi` when there is none. */
  function FirstFrom(s: set<int>, i: int, hi: int): (r: int)
    requires i <= hi
    ensures i <= r <= hi
    ensures r < hi ==> r in s
    ensures r == hi ==> forall x :: i <= x < hi ==> x !in s
    decreases hi - i
  {
    if i == hi then hi else if i in s then i else FirstFrom(s, i + 1, hi)
  }

  /** A member of a non-empty set of naturals below `hi`. */
  lemma Member(s: set<int>, hi: nat) returns (x: int)
    requires |s| > 0 && forall y :: y in s ==> 0 <= y < hi
    ensures x in s
  {
    x := FirstFrom(s, 0, hi);
  }
}
