/**
 * The square-root equivalence scale: household income divided by the square
 * root of the household size. The square root itself comes from `math.sqrt`;
 * here it is the parameter `root`, constrained to be the positive square root.
 */
module EquivalenceScale {

  /** `root` is the positive square root of the positive integer n. */
  predicate IsSquareRoot(root: real, n: int) {
    n > 0 && root > 0.0 && root * root == n as real
  }

  /** A positive integer has at most one positive square root. */
  lemma SquareRootUnique(a: real, b: real, n: int)
    requires IsSquareRoot(a, n) && IsSquareRoot(b, n)
    ensures a == b
  {
    assert (a - b) * (a + b) == a * a - b * b == 0.0;
    assert a + b > 0.0;
  }

  /** The square root of a size of one or more is at least one. */
  lemma SquareRootAtLeastOne(root: real, n: int)
    requires IsSquareRoot(root, n)
    ensures root >= 1.0
  {
    if root < 1.0 {
      // then root * root < root < 1 <= n
      assert false;
    }
  }

  /**
   * `standardize_income`: a non-positive household size leaves the income
   * unchanged; otherwise the income is divided by the square root of the size.
   */
  function StandardizeIncome(income: real, householdSize: int, root: real): (r: real)
    requires householdSize > 0 ==> IsSquareRoot(root, householdSize)
    ensures householdSize <= 0 ==> r == income
    ensures householdSize > 0 ==> r * root == income
    ensures householdSize > 0 ==> r * r * (householdSize as real) == income * income
  {
    if householdSize <= 0 then income
    else
      var r := income / root;
      assert r * root == income;
      assert r * r * (householdSize as real) == (r * root) * (r * root);
      r
  }

  /** A one-person household keeps its income. */
  lemma StandardizeSinglePerson(income: real, root: real)
    requires IsSquareRoot(root, 1)
    ensures StandardizeIncome(income, 1, root) == income
  {
    SquareRootUnique(root, 1.0, 1);
  }

  /** A four-person household counts as half its income. */
  lemma StandardizeFourPersons(income: real, root: real)
    requires IsSquareRoot(root, 4)
    ensures StandardizeIncome(income, 4, root) == income / 2.0
  {
    SquareRootUnique(root, 2.0, 4);
  }

  /** Standardizing never raises a non-negative income. */
  lemma StandardizeNoLarger(income: real, householdSize: int, root: real)
    requires householdSize > 0 ==> IsSquareRoot(root, householdSize)
    requires income >= 0.0
    ensures 0.0 <= StandardizeIncome(income, householdSize, root) <= income
  {
    if householdSize > 0 {
      SquareRootAtLeastOne(root, householdSize);
      var r := StandardizeIncome(income, householdSize, root);
      assert r * root == income;
      assert r * 1.0 <= r * root;
    }
  }

  /** For one household size, a larger income stays larger after standardizing. */
  lemma StandardizeMonotone(income1: real, income2: real, householdSize: int, root: real)
    requires householdSize > 0 ==> IsSquareRoot(root, householdSize)
    requires income1 <= income2
    ensures StandardizeIncome(income1, householdSize, root) <= StandardizeIncome(income2, householdSize, root)
  {
    if householdSize > 0 {
      var r1 := StandardizeIncome(income1, householdSize, root);
      var r2 := StandardizeIncome(income2, householdSize, root);
      if r1 > r2 {
        assert r1 * root > r2 * root;
      }
    }
  }
}
