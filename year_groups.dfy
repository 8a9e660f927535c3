/** Groups of twenty consecutive years, aligned to 1980: [1980, 1999],
    [2000, 2019], ... and likewise before 1980. */
module YearGroups {

  const Epoch := 1980
  const GroupSize := 20

  /** First year of the group holding `y`; `%` is Euclidean, so years before
      the epoch round down to their group as well. */
  function YearGroupStart(y: int): (g: int)
    ensures g <= y <= g + GroupSize - 1
    ensures (g - Epoch) % GroupSize == 0
  {
    y - (y - Epoch) % GroupSize
  }

  /** The last year of the group holding `y`. */
  function YearGroupEnd(y: int): int {
    YearGroupStart(y) + GroupSize - 1
  }

  predicate InYearGroupOf(y: int, k: int) {
    YearGroupStart(y) <= k <= YearGroupEnd(y)
  }

  /** Groups partition the years: every year of a group has that same group. */
  lemma SameGroup(y: int, k: int)
    requires InYearGroupOf(y, k)
    ensures YearGroupStart(k) == YearGroupStart(y)
  {
    var g := YearGroupStart(y);
    assert (k - Epoch) % GroupSize == k - g by {
      assert k - Epoch == (g - Epoch) + (k - g);
      assert 0 <= k - g < GroupSize;
    }
  }

  lemma YearGroupExamples()
    ensures YearGroupStart(1980) == 1980 && YearGroupEnd(1980) == 1999
    ensures YearGroupStart(2019) == 2000 && YearGroupStart(2020) == 2020
    ensures YearGroupStart(1979) == 1960
    ensures YearGroupStart(1) == 0 && YearGroupStart(3000) == 3000
  {
  }
}
