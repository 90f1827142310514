/**
 * The pure decisions inside the application's `main()`: turning the entered
 * income into annual and monthly USD and ILS figures, choosing the income the
 * comparison uses, the period argument handed to the key-percentile table, and
 * the three-way reading of the percentile difference.
 */
module MainFlow {
  import opened EquivalenceScale
  import Comparison
  import Interpolation
  import Frames

  datatype Currency = USD | ILS
  datatype Period = Annual | Monthly
  datatype Language = English | Hebrew

  /** The income-period radio labels (translation keys "annual" and "monthly"). */
  // Only the English labels lower-case to the period words the table expects.
  function AnnualLabel(lang: Language): (periodLabel: string)
    ensures Lower(periodLabel) == "annual" <==> lang == English
  {
    match lang
    case English => "Annual"
    case Hebrew =>
      var he := "\U{05E9}\U{05E0}\U{05EA}\U{05D9}";
      assert Lower(he)[0] == he[0];
      he
  }

  function MonthlyLabel(lang: Language): (periodLabel: string)
    ensures periodLabel != AnnualLabel(lang)
    ensures Lower(periodLabel) == "monthly" <==> lang == English
  {
    match lang
    case English => "Monthly"
    case Hebrew =>
      var he := "\U{05D7}\U{05D5}\U{05D3}\U{05E9}\U{05D9}";
      assert Lower(he)[0] == he[0];
      assert he[0] != AnnualLabel(Hebrew)[0];
      he
  }

  /** `income_period == t["annual"]`: anything other than the annual label is monthly. */
  function PeriodOfLabel(periodLabel: string, lang: Language): (p: Period)
    ensures p == Annual <==> periodLabel == AnnualLabel(lang)
  {
    if periodLabel == AnnualLabel(lang) then Annual else Monthly
  }

  /** The four figures `main()` derives from the entered income. */
  datatype Incomes = Incomes(annualUsd: real, annualIls: real, monthlyUsd: real, monthlyIls: real)

  /** The figure that was typed in, for the chosen currency and period. */
  function Entered(incomes: Incomes, currency: Currency, period: Period): real {
    match (currency, period)
    case (USD, Annual) => incomes.annualUsd
    case (USD, Monthly) => incomes.monthlyUsd
    case (ILS, Annual) => incomes.annualIls
    case (ILS, Monthly) => incomes.monthlyIls
  }

  /** ILS figures are the USD figures at the PPP rate, and monthly figures are annual over twelve. */
  ghost predicate Consistent(incomes: Incomes, pppRate: real) {
    && incomes.annualIls == incomes.annualUsd * pppRate
    && incomes.monthlyUsd * 12.0 == incomes.annualUsd
    && incomes.monthlyIls * 12.0 == incomes.annualIls
  }

  /**
   * The currency and period branches of `main()`: the entered amount keeps its
   * place and the other three figures follow from it.
   */
  function NormalizeIncome(amount: real, currency: Currency, period: Period, pppRate: real): (r: Incomes)
    requires pppRate > 0.0
    ensures Entered(r, currency, period) == amount
    ensures Consistent(r, pppRate)
  {
    match (currency, period)
    case (USD, Annual) =>
      var incomeIls := amount * pppRate;
      Incomes(amount, incomeIls, amount / 12.0, incomeIls / 12.0)
    case (USD, Monthly) =>
      var incomeIls := amount * pppRate;
      Incomes(amount * 12.0, incomeIls * 12.0, amount, incomeIls)
    case (ILS, Annual) =>
      var incomeUsd := amount / pppRate;
      assert incomeUsd * pppRate == amount;
      Incomes(incomeUsd, amount, incomeUsd / 12.0, amount / 12.0)
    case (ILS, Monthly) =>
      var incomeUsd := amount / pppRate;
      assert incomeUsd * pppRate == amount;
      Incomes(incomeUsd * 12.0, amount * 12.0, incomeUsd, amount)
  }

  /** Two consistent sets of figures with the same annual USD income are the same. */
  lemma ConsistentDeterminedByAnnualUsd(a: Incomes, b: Incomes, pppRate: real)
    requires Consistent(a, pppRate) && Consistent(b, pppRate)
    requires a.annualUsd == b.annualUsd
    ensures a == b
  {
  }

  /**
   * The same household income typed in any currency and period gives the same
   * four figures.
   */
  lemma NormalizeIndependentOfEntry(annualUsd: real, pppRate: real, currency: Currency, period: Period)
    requires pppRate > 0.0
    ensures var entered := Entered(Incomes(annualUsd, annualUsd * pppRate, annualUsd / 12.0, annualUsd * pppRate / 12.0),
                                   currency, period);
            NormalizeIncome(entered, currency, period, pppRate) == NormalizeIncome(annualUsd, USD, Annual, pppRate)
  {
    var canonical := NormalizeIncome(annualUsd, USD, Annual, pppRate);
    var entered := Entered(canonical, currency, period);
    var r := NormalizeIncome(entered, currency, period, pppRate);
    match (currency, period)
    case (USD, Annual) =>
    case (USD, Monthly) =>
    case (ILS, Annual) =>
      assert r.annualUsd * pppRate == annualUsd * pppRate;
    case (ILS, Monthly) =>
      assert r.annualUsd * pppRate == annualUsd * pppRate;
    ConsistentDeterminedByAnnualUsd(r, canonical, pppRate);
  }

  /**
   * The standardized figures shown beside the raw ones: each of the four
   * divided by the square root of the household size.
   */
  function StandardizedIncomes(incomes: Incomes, householdSize: int, root: real): (r: Incomes)
    requires householdSize > 0 ==> IsSquareRoot(root, householdSize)
    ensures r.annualUsd == StandardizeIncome(incomes.annualUsd, householdSize, root)
    ensures r.annualIls == StandardizeIncome(incomes.annualIls, householdSize, root)
    ensures r.monthlyUsd * 12.0 == r.annualUsd && r.monthlyIls * 12.0 == r.annualIls
    ensures forall pppRate :: Consistent(incomes, pppRate) ==> Consistent(r, pppRate)
  {
    var annualUsd := StandardizeIncome(incomes.annualUsd, householdSize, root);
    var annualIls := StandardizeIncome(incomes.annualIls, householdSize, root);
    var r := Incomes(annualUsd, annualIls, annualUsd / 12.0, annualIls / 12.0);
    assert forall pppRate :: Consistent(incomes, pppRate) ==> Consistent(r, pppRate) by {
      forall pppRate | Consistent(incomes, pppRate) ensures Consistent(r, pppRate) {
        if householdSize > 0 {
          assert annualIls * root == annualUsd * pppRate * root;
        }
      }
    }
    r
  }

  /**
   * `calculation_income_usd`: the annual USD income, standardized when the user
   * asked for standardization, whether or not the table has standardized data.
   */
  function ComparisonIncome(incomes: Incomes, householdSize: int, root: real, standardize: bool): (r: real)
    requires householdSize > 0 ==> IsSquareRoot(root, householdSize)
    ensures !standardize ==> r == incomes.annualUsd
    ensures standardize ==> r == StandardizedIncomes(incomes, householdSize, root).annualUsd
    ensures incomes.annualUsd >= 0.0 ==> 0.0 <= r <= incomes.annualUsd
  {
    var standardized := StandardizeIncome(incomes.annualUsd, householdSize, root);
    assert incomes.annualUsd >= 0.0 ==> 0.0 <= standardized <= incomes.annualUsd by {
      if incomes.annualUsd >= 0.0 {
        StandardizeNoLarger(incomes.annualUsd, householdSize, root);
      }
    }
    if standardize then StandardizeIncome(incomes.annualUsd, householdSize, root)
    else incomes.annualUsd
  }

  /** The reading printed under the percentile figures. */
  datatype Interpretation = SimilarPosition | HigherInIsrael | HigherInUs

  function Abs(x: real): real { if x < 0.0 then -x else x }

  /**
   * A difference under three points in magnitude reads as similar; otherwise
   * its sign says which country ranks the income higher.
   */
  function Interpret(difference: real): (r: Interpretation)
    ensures r == SimilarPosition <==> -3.0 < difference < 3.0
    ensures r == HigherInIsrael <==> difference >= 3.0
    ensures r == HigherInUs <==> difference <= -3.0
  {
    if Abs(difference) < 3.0 then SimilarPosition
    else if difference > 0.0 then HigherInIsrael
    else HigherInUs
  }

  /** Swapping the countries' percentiles swaps the reading. */
  lemma InterpretMirrors(difference: real)
    ensures Interpret(-difference) == match Interpret(difference)
                                      case SimilarPosition => SimilarPosition
                                      case HigherInIsrael => HigherInUs
                                      case HigherInUs => HigherInIsrael
  {
  }

  /** Python's `str.lower()` on the labels it meets here: ASCII letters lowered, uncased letters kept. */
  function Lower(s: string): (r: string)
    ensures |r| == |s|
    ensures forall i :: 0 <= i < |s| ==> ('A' <= s[i] <= 'Z' ==> r[i] as int == s[i] as int + 32)
    ensures forall i :: 0 <= i < |s| ==> (!('A' <= s[i] <= 'Z') ==> r[i] == s[i])
  {
    seq(|s|, i requires 0 <= i < |s| => if 'A' <= s[i] <= 'Z' then (s[i] as int + 32) as char else s[i])
  }

  /**
   * As written: the key-percentile table receives `income_period.lower()`,
   * the lower-cased label of the chosen radio button.
   */
  function TablePeriodAsWritten(periodLabel: string): (period: string)
    ensures periodLabel == AnnualLabel(English) ==> period == "annual"
    ensures periodLabel == MonthlyLabel(English) ==> period == "monthly"
    // a label without ASCII capitals, such as a Hebrew one, is passed on unchanged
    ensures (forall i :: 0 <= i < |periodLabel| ==> !('A' <= periodLabel[i] <= 'Z')) ==> period == periodLabel
  {
    Lower(periodLabel)
  }

  /**
   * The Hebrew annual label lowers to itself, not to "annual", so an annual
   * income chosen in Hebrew gets a table divided by twelve.
   */
  lemma HebrewAnnualTableIsMonthly()
    ensures PeriodOfLabel(AnnualLabel(Hebrew), Hebrew) == Annual
    ensures Comparison.PeriodDivider(TablePeriodAsWritten(AnnualLabel(Hebrew))) == 12.0
    ensures Comparison.PeriodDivider(TablePeriodAsWritten(AnnualLabel(English))) == 1.0
  {
    var he := TablePeriodAsWritten(AnnualLabel(Hebrew));
    assert he[0] == AnnualLabel(Hebrew)[0];
    assert he != "annual";
    var en := TablePeriodAsWritten(AnnualLabel(English));
    assert en == "annual";
  }

  /** Corrected: the table's period follows the period the income was entered for. */
  function TablePeriod(periodLabel: string, lang: Language): (period: string)
    ensures period == "annual" <==> PeriodOfLabel(periodLabel, lang) == Annual
  {
    if PeriodOfLabel(periodLabel, lang) == Annual then "annual" else "monthly"
  }

  /**
   * The key-percentile table of `main()`, with `TablePeriod` in place of
   * `income_period.lower()`: the default key percentiles and the user's
   * standardize choice. Its incomes are annual exactly when the income was
   * entered as annual.
   */
  method KeyPercentileTable(comparator: Comparison.Comparator, periodLabel: string, lang: Language, standardize: bool)
    returns (table: seq<Comparison.SummaryRow>)
    requires comparator.Prepared()
    ensures var ps := comparator.percentileData.columns[Comparison.PercentileCol];
            var divider := if PeriodOfLabel(periodLabel, lang) == Annual then 1.0 else 12.0;
            && (exists closest :: Comparison.NearestChoices(ps, Comparison.DefaultKeyPercentiles, closest)
                  && table == comparator.TableOf(closest, divider, standardize))
            && ((forall m :: 0 <= m < |Comparison.DefaultKeyPercentiles| ==> Comparison.DefaultKeyPercentiles[m] in ps) ==>
                  table == comparator.TableOf(Comparison.DefaultKeyPercentiles, divider, standardize))
  {
    table := comparator.CreatePercentileTable(Comparison.DefaultKeyPercentiles, TablePeriod(periodLabel, lang), standardize);
  }

  /** In both languages the corrected table is annual for the annual label and monthly for the monthly one. */
  lemma TablePeriodMatchesEntry(lang: Language)
    ensures Comparison.PeriodDivider(TablePeriod(AnnualLabel(lang), lang)) == 1.0
    ensures Comparison.PeriodDivider(TablePeriod(MonthlyLabel(lang), lang)) == 12.0
  {
    assert MonthlyLabel(lang) != AnnualLabel(lang) by {
      assert MonthlyLabel(lang)[0] != AnnualLabel(lang)[0] || |MonthlyLabel(lang)| != |AnnualLabel(lang)|;
    }
  }

  /**
   * The three-row example table at a PPP rate of 3.7: the Israeli incomes
   * convert exactly to the US ones, so an income of 50000 USD sits at the 50th
   * percentile in both countries, reads as a similar position, and the 50th
   * percentile row of the monthly key-percentile table has ratio 1.
   */
  lemma ExampleScenario()
    ensures Frames.DivideColumn([74000.0, 185000.0, 444000.0], 3.7) == [20000.0, 50000.0, 120000.0]
    ensures var us := Interpolation.Interp1d([20000.0, 50000.0, 120000.0], [10.0, 50.0, 90.0],
                                             Interpolation.FillBelow, Interpolation.FillAbove);
            var israel := Interpolation.Interp1d(Frames.DivideColumn([74000.0, 185000.0, 444000.0], 3.7),
                                                 [10.0, 50.0, 90.0], Interpolation.FillBelow, Interpolation.FillAbove);
            && us.Valid() && israel.Valid()
            && Interpolation.Eval(us, 50000.0) == 50.0 && Interpolation.Eval(israel, 50000.0) == 50.0
            && Interpret(Interpolation.Eval(israel, 50000.0) - Interpolation.Eval(us, 50000.0)) == SimilarPosition
    ensures var columns := map[
              Comparison.PercentileCol := [10.0, 50.0, 90.0],
              Comparison.UsIncomeUsd := [20000.0, 50000.0, 120000.0],
              Comparison.IsraelIncomeIls := [74000.0, 185000.0, 444000.0],
              Comparison.IsraelIncomeUsd := [20000.0, 50000.0, 120000.0]];
            && Comparison.SummaryColumnsPresent(columns, false)
            && Comparison.SummaryRowAt(columns, 1, false, 12.0).ratio.value == 1.0
  {
    var converted := Frames.DivideColumn([74000.0, 185000.0, 444000.0], 3.7);
    assert converted[0] * 3.7 == 74000.0 && converted[1] * 3.7 == 185000.0 && converted[2] * 3.7 == 444000.0;
    var us := Interpolation.Interp1d([20000.0, 50000.0, 120000.0], [10.0, 50.0, 90.0],
                                     Interpolation.FillBelow, Interpolation.FillAbove);
    Interpolation.EvalAtKnot(us, 1);
    var israel := Interpolation.Interp1d(converted, [10.0, 50.0, 90.0], Interpolation.FillBelow, Interpolation.FillAbove);
    assert israel == us;
  }
}
