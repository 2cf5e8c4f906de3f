/** Comparators, as the containers use them.

    A Java `Comparator` or `compareTo` is modelled by `le`, where `le(a, b)`
    stands for `compare(a, b) <= 0`; the test `compare(a, b) < 0` that the
    source writes is then `Less(le, a, b)`. */
module Orders {

  /** Every two values are comparable, and `le` is transitive
      (a comparator that may rank distinct values as equal). */
  ghost predicate TotalPreorder<T(!new)>(le: (T, T) -> bool) {
    && (forall a, b :: le(a, b) || le(b, a))
    && (forall a, b, c :: le(a, b) && le(b, c) ==> le(a, c))
  }

  /** A total preorder that ranks only equal values as equal
      (`compareTo` consistent with `equals`). */
  ghost predicate TotalOrder<T(!new)>(le: (T, T) -> bool) {
    && TotalPreorder(le)
    && (forall a, b :: le(a, b) && le(b, a) ==> a == b)
  }

  /** `compare(a, b) < 0` */
  predicate Less<T>(le: (T, T) -> bool, a: T, b: T) {
    !le(b, a)
  }

  /** Every element is `Less` than every later one: sorted, without repeats. */
  predicate StrictlyAscending<T>(le: (T, T) -> bool, s: seq<T>) {
    forall i, j :: 0 <= i < j < |s| ==> Less(le, s[i], s[j])
  }

  /** An element below every element of an ascending list may go in front of it. */
  lemma PrependAscending<T>(le: (T, T) -> bool, x: T, s: seq<T>)
    ensures StrictlyAscending(le, s) && (forall y :: y in s ==> Less(le, x, y))
            ==> StrictlyAscending(le, [x] + s)
  {
    if StrictlyAscending(le, s) && (forall y :: y in s ==> Less(le, x, y)) {
      var r := [x] + s;
      forall i, j | 0 <= i < j < |r|
        ensures Less(le, r[i], r[j])
      {
        assert r[j] == s[j - 1];
        if i > 0 {
          assert r[i] == s[i - 1];
        }
      }
    }
  }

  /** The head of an ascending list is below every later element. */
  lemma HeadBelowTail<T>(le: (T, T) -> bool, s: seq<T>)
    requires |s| > 0
    ensures StrictlyAscending(le, s) ==> forall y :: y in s[1..] ==> Less(le, s[0], y)
  {
    if StrictlyAscending(le, s) {
      forall y | y in s[1..]
        ensures Less(le, s[0], y)
      {
        var k :| 0 <= k < |s[1..]| && s[1..][k] == y;
        assert s[k + 1] == y;
      }
    }
  }
}
