/** Three-way key comparators, as the leaf page receives them: a negative result means
    "less than", zero "equal", a positive result "greater than". */
module KeyOrder {

  /** The comparator is a total preorder: the sign flips when the arguments are swapped,
      and "not greater than" is transitive. */
  ghost predicate IsTotalPreorder<K(!new)>(cmp: (K, K) -> int) {
    && (forall a, b {:trigger cmp(a, b), cmp(b, a)} :: cmp(a, b) < 0 <==> cmp(b, a) > 0)
    && (forall a, b, c {:trigger cmp(a, b), cmp(b, c), cmp(a, c)} ::
          cmp(a, b) <= 0 && cmp(b, c) <= 0 ==> cmp(a, c) <= 0)
  }

  /** Equality under the comparator is symmetric. */
  lemma EqualSymmetric<K(!new)>(cmp: (K, K) -> int, a: K, b: K)
    requires IsTotalPreorder(cmp)
    ensures cmp(a, b) == 0 <==> cmp(b, a) == 0
  {
  }

  /** "Less than" followed by "not greater than" is "less than". */
  lemma LessThenAtMost<K(!new)>(cmp: (K, K) -> int, a: K, b: K, c: K)
    requires IsTotalPreorder(cmp)
    requires cmp(a, b) < 0 && cmp(b, c) <= 0
    ensures cmp(a, c) < 0
  {
    assert cmp(a, c) < 0 <==> cmp(c, a) > 0;
    assert cmp(b, c) <= 0 && cmp(c, a) <= 0 ==> cmp(b, a) <= 0;
    assert cmp(a, b) < 0 <==> cmp(b, a) > 0;
  }

  /** The comparator the model uses for integer keys in concrete examples. */
  function IntCompare(a: int, b: int): (r: int)
    ensures r < 0 <==> a < b
    ensures r == 0 <==> a == b
  {
    if a < b then -1 else if a == b then 0 else 1
  }

  lemma IntCompareIsTotalPreorder()
    ensures IsTotalPreorder(IntCompare)
  {
  }
}
