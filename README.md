# US / Israel income position calculator — verified model

The calculator ranks one household income in two income distributions, the
US one and the Israeli one. It reads a table of percentile breakpoints with
columns `Percentile`, `US_Income_USD` and `Israel_Income_ILS`, and optionally
`US_Std_Income_USD` and `Israel_Std_Income_ILS` for per-capita standardized
incomes. It converts Israeli incomes to USD at a purchasing-power-parity (PPP)
rate and builds one piecewise-linear income → percentile mapping per series.
Outside the table the mapping is clamped to 1 and 99.

The calculator answers three kinds of question:

- the percentile of an income in each country, and the difference between them;
- the incomes at a few key percentiles (10, 25, 50, 75, 90, 95), annual or monthly, with a US/Israel ratio;
- the same questions for household income scaled by the square root of the household size.

This project models that logic in Dafny over exact `real` numbers:

- `interpolation.dfy` (module `Interpolation`): the `interp1d` mapping with fill values (1, 99). It gives the value at each knot, bounds between knots, clamping and monotonicity.
- `data_frame.dfy` (module `Frames`): the part of the pandas frame that is used. It is a class with named columns, and the comparator adds columns to it in place.
- `comparator.dfy` (module `Comparison`): the `IncomeDistributionComparator` class. It has the mutating `PrepareData`, construction that can fail (`NewComparator`), the `CompareIncome` query and the `CreatePercentileTable` method, whose nearest-percentile loop is `SnapToTable`.
- `equivalence_scale.dfy` (module `EquivalenceScale`): `standardize_income`.
- `main_flow.dfy` (module `MainFlow`): the pure decisions inside `main()`. These are the currency and period normalisation, the choice of comparison income, the three-way interpretation, and the period argument passed to the key-percentile table.
- `wrappers.dfy`: `Option` and `Result`.

Three behaviours of the code that a reader might expect to be otherwise, kept
as the code has them:

- Targets that snap to the same table row appear once in the key-percentile table. The code filters with `isin`, so it does not repeat rows.
- Ties between two equally near percentiles are broken by `argsort()[0]`, which does not promise the first one. The contract promises only "some row at minimal distance".
- Building an interpolant needs at least two rows. This is the model's construction rule for the `interp1d` calls: a table of fewer rows makes construction fail with `TooFewPoints`. Whether the incomes are distinct is a precondition, not a checked error.

## Model

| member | source | states |
|---|---|---|
| `Interpolation.Eval` | main.py:376-380 | Calling an interpolant on an income. An income strictly below the smallest table income maps to the lower fill value (1). An income strictly above the largest maps to the upper fill value (99). |
| `Interpolation.SegmentOf` | main.py:376-380 | For an income inside the table's range, scipy's segment (`searchsorted` clipped to [1, n − 1], minus one) is a pair of adjacent knots that encloses the income. |
| `Interpolation.Lerp` | main.py:376-380 | The linear piece of a segment passes through both of its knots. |
| `Interpolation.EvalAtKnot` | main.py:322-334 | An income equal to a table income maps to exactly that row's percentile. |
| `Interpolation.EvalOnSegment` | main.py:322-334 | Any segment that contains the income gives the value the mapping returns. At a shared knot, both neighbouring lines agree. |
| `Interpolation.EvalBetweenKnots` | main.py:322-334 | Between two adjacent table incomes, the result lies between their two percentiles. |
| `Interpolation.EvalInRange` | main.py:322-334 | When every table percentile lies within [1, 99], every result does too. |
| `Interpolation.EvalMonotone` | main.py:322-334 | With ascending table percentiles within [1, 99], a larger income never gets a smaller percentile. |
| `Interpolation.PercentileAboveFillBreaksMonotonicity` | main.py:322-327 | A row at percentile 100 makes the value at the largest income (100) exceed the value just above it (99). Monotonicity needs the [1, 99] condition. |
| `Interpolation.ExampleTableLookups` | main.py:322-327 | On the three-row example table, 50000 maps to 50, 20000 maps to 10, 500 is clamped to 1, and 35000 maps halfway to 30. |
| `Interpolation.SearchSortedLeft` | main.py:322-327 | The index scipy uses is the count of knots below the income. Every knot before it is smaller and every knot from it onward is at least as large. |
| `Frames.DivideColumn` | main.py:319 | Each entry of the divided column times the divisor gives the original entry. The length is unchanged. |
| `Frames.DataFrame.SetColumn` | main.py:319 | Assigning a column adds or replaces exactly that column. All other columns and the height are untouched. |
| `Comparison.StdColumnsPresent` | main.py:308-311 | `has_standardized_data`: true exactly when every column of `Percentile`, `US_Std_Income_USD`, `Israel_Std_Income_ILS` is in the frame. |
| `Comparison.UsColumn` | main.py:692-701 | The US series is `US_Std_Income_USD` exactly when the standardized series are used, and `US_Income_USD` otherwise. The same choice is made for queries at main.py:375-380. |
| `Comparison.IsraelIlsColumn` | main.py:692-701 | The Israeli ILS series is `Israel_Std_Income_ILS` exactly when the standardized series are used, and `Israel_Income_ILS` otherwise. |
| `Comparison.IsraelUsdColumn` | main.py:692-701 | The Israeli USD series is `Israel_Std_Income_USD` exactly when the standardized series are used, and `Israel_Income_USD` otherwise. The same choice is made for queries at main.py:375-380. |
| `Comparison.FirstMissing` | main.py:313-316 | Returns the first required column absent from the table. Every earlier one is present. |
| `Comparison.RawCheckPasses` | main.py:307-316 | The raw-column check passes exactly when `Percentile`, `US_Income_USD` and `Israel_Income_ILS` are all present. |
| `Comparison.Mapping` | main.py:322-353 | Each `interp1d(incomes, percentiles, fill_value=(1, 99))` call. It has fill values 1 and 99. Over two or more rows of strictly increasing incomes it is well formed and gives each row's income exactly that row's percentile. |
| `Comparison.WithUsdColumns` | main.py:318-339 | The prepared frame gains `Israel_Income_USD` = ILS / PPP. It gains `Israel_Std_Income_USD` only when the standardized columns are present. Every other column keeps its values. |
| `Comparison.DivideKeepsIncreasing` | main.py:329-334 | Converting ascending ILS incomes at a positive rate gives ascending USD incomes. So the Israeli mapping is well formed. |
| `Comparison.WithUsdColumnsPrepared` | main.py:318-353 | Adding the USD columns to a valid table of two or more rows yields a frame on which all the interpolants are well formed. |
| `Comparison.NearestIndex` | main.py:683-685 | `argsort()[0]` of the distances picks a table percentile at minimal distance from the target. |
| `Comparison.SelectRows` | main.py:689 | The `isin` filter keeps exactly the rows whose percentile was chosen. They stay in table order and each appears once. |
| `Comparison.PeriodDivider` | main.py:704 | The divider is 1 exactly for the string "annual". It is 12 for any other string. |
| `Comparison.SummaryRowAt` | main.py:726-732 | Income columns are divided by the divider. The ratio equals the ratio of the divided US and Israeli-USD incomes, so the period does not change it. The ratio is absent where the Israeli income is zero. |
| `Comparison.SummaryTable` | main.py:726-732 | The output frame is `SummaryRowAt` of a sequence of table rows. That sequence is strictly increasing, so the rows keep table order and each appears once. It contains a table row exactly when that row's percentile was chosen. So the frame has no more rows than the table. |
| `Comparison.SnapToTable` | main.py:681-686 | The loop that collects `closest_percentiles` gives, for each target in turn, a table percentile nearest to it. |
| `Comparison.ExactTargetsAreChosen` | main.py:681-686 | A target that is itself a table percentile is its own unique nearest percentile. So targets that all occur in the table are chosen unchanged. |
| `Comparison.ExactTargetsTable` | main.py:681-732 | When every target is a table percentile, the snapped table equals the table of the targets themselves. |
| `Comparison.Comparator.constructor` | main.py:284-302 | Stores the frame and the PPP rate. No mapping exists yet. |
| `Comparison.Comparator.BuildInterpolants` | main.py:321-353 | The part of `prepare_data` after `Israel_Income_USD` is added. It builds the raw interpolants, then adds `Israel_Std_Income_USD` and builds the standardized interpolants when there is standardized data. It leaves the comparator prepared and the frame equal to `WithUsdColumns`, with the height unchanged. |
| `Comparison.Comparator.PrepareData` | main.py:304-353 | Sets `has_standardized_data` exactly when the three standardized columns are present. A missing raw column gives an error naming the first one, and the frame is unchanged. A table with fewer than two rows gives an error after `Israel_Income_USD` has already been added. Otherwise the comparator is prepared and the frame equals `WithUsdColumns`. |
| `Comparison.NewComparator` | main.py:284-353 | The frame's height never changes. Construction succeeds exactly when the raw columns are present and the table has at least two rows. On success it returns a fresh, prepared comparator over the caller's frame, which now holds the USD columns. A missing column leaves the frame unchanged. A too-short table leaves the frame with `Israel_Income_USD` added. |
| `Comparison.Comparator.CompareIncome` | main.py:355-388 | ILS income = USD income × PPP, and difference = Israel − US. The percentiles are the table mappings evaluated at the income. The standardized series are used only when they were requested and are present. With table percentiles in [1, 99], both percentiles are in [1, 99] and the difference is in [−98, 98]. |
| `Comparison.Comparator.FallbackWithoutStandardizedData` | main.py:375-380 | Without standardized columns, a standardized query returns the same result as a raw one. |
| `Comparison.Comparator.CompareAtTableRow` | main.py:372-388 | Querying a row's own US income, or its Israeli income converted to USD, returns that row's percentile. |
| `Comparison.Comparator.CompareIncomeMonotone` | main.py:372-388 | With ascending table percentiles in [1, 99], a larger income never ranks lower in either country. |
| `Comparison.Comparator.CreatePercentileTable` | main.py:680-732 | Each target is snapped to a nearest table percentile. The result is the summary table of the rows whose percentile was chosen, in table order and each once, with the period's divider applied. When every target is a table percentile, exactly the targets' rows are kept. |
| `EquivalenceScale.StandardizeIncome` | main.py:739-759 | A size ≤ 0 returns the income unchanged. Otherwise the result times √size equals the income, and result² × size = income². |
| `EquivalenceScale.SquareRootUnique` | main.py:759 | The square root is unique, so the `root` parameter leaves no freedom. |
| `EquivalenceScale.SquareRootAtLeastOne` | main.py:759 | The square root of a positive household size is at least 1. |
| `EquivalenceScale.StandardizeSinglePerson` | main.py:755-759 | A household of one keeps its income. |
| `EquivalenceScale.StandardizeFourPersons` | main.py:755-759 | A household of four counts as half its income. |
| `EquivalenceScale.StandardizeNoLarger` | main.py:755-759 | Standardizing a non-negative income never raises it and never makes it negative. |
| `EquivalenceScale.StandardizeMonotone` | main.py:755-759 | Standardizing preserves the order of incomes. |
| `MainFlow.AnnualLabel` | main.py:32 | The annual radio label, "Annual" or its Hebrew counterpart (main.py:127). Only the English one lower-cases to "annual". |
| `MainFlow.MonthlyLabel` | main.py:33 | The monthly radio label, "Monthly" or its Hebrew counterpart (main.py:128). It differs from the annual label of the same language, and only the English one lower-cases to "monthly". |
| `MainFlow.PeriodOfLabel` | main.py:862 | The period is annual exactly when the radio label equals the annual label of the chosen language. |
| `MainFlow.NormalizeIncome` | main.py:861-922 | The entered amount keeps its currency and period slot. ILS = USD × PPP, and monthly × 12 = annual, in all four branches. |
| `MainFlow.ConsistentDeterminedByAnnualUsd` | main.py:861-922 | Consistent figures are fixed by the annual USD income. |
| `MainFlow.NormalizeIndependentOfEntry` | main.py:861-922 | The same income entered in USD or ILS, annually or monthly, produces the same four figures. |
| `MainFlow.StandardizedIncomes` | main.py:936-950 | Each standardized annual figure is `standardize_income` of the raw annual figure. Each monthly figure × 12 is its annual figure. Consistency ILS = USD × PPP is preserved for every rate. |
| `MainFlow.ComparisonIncome` | main.py:936-946 | Uses the raw annual USD income unless standardization was requested, and the standardized one otherwise, even without standardized data. It is never above a non-negative raw income. |
| `MainFlow.Interpret` | main.py:1005-1010 | "similar" exactly when −3 < d < 3, "higher in Israel" exactly when d ≥ 3, and "higher in US" exactly when d ≤ −3. |
| `MainFlow.InterpretMirrors` | main.py:1005-1010 | Negating the difference swaps "higher in Israel" and "higher in US". |
| `MainFlow.Lower` | main.py:1059 | `str.lower()` on the period labels lowers ASCII capitals and keeps uncased letters. |
| `MainFlow.HebrewAnnualTableIsMonthly` | main.py:1059 | The Hebrew annual label counts as annual for the income, but it is lowered to a string other than "annual". So the table divider is 12. The English label gives 1. |
| `MainFlow.TablePeriodAsWritten` | main.py:1059 | As written, the table's period is the lower-cased label. "Annual" becomes "annual" and "Monthly" becomes "monthly", and a label without ASCII capitals, such as a Hebrew one, passes through unchanged. |
| `MainFlow.KeyPercentileTable` | main.py:1058-1062 | The key-percentile table of `main()`, with `TablePeriod` in place of `income_period.lower()` (main.py:1059). It uses the default key percentiles 10, 25, 50, 75, 90 and 95. Its incomes are annual exactly when the income was entered as annual. When all six key percentiles are table rows, those are exactly its rows. |
| `MainFlow.TablePeriod` | main.py:1059 | Corrected period argument: "annual" exactly when the entered period is annual. |
| `MainFlow.TablePeriodMatchesEntry` | main.py:1059 | In both languages, the corrected table uses divider 1 for the annual label and 12 for the monthly label. |
| `MainFlow.ExampleScenario` | main.py:319-334 | Example table at PPP 3.7: Israeli incomes convert exactly to 20000/50000/120000. 50000 USD sits at the 50th percentile in both countries and reads "similar". The 50th-percentile row of the monthly table has ratio 1. |

## Left out

- Presentation is not modelled: the Streamlit widgets and `st.*` calls, the CSS of `get_custom_css`, the HTML markup, the translation dictionaries, the localized column renaming of the key-percentile table, and the `is_rtl` flag the comparator stores.
- `plot_income_distributions` and `plot_income_comparison` are not modelled. They only draw with matplotlib and shape text with the bidi library.
- Reading `data.csv` and reporting load errors are not modelled. The model starts from a parsed table.
- Input ranges of the number widgets (PPP 1–10, household size 1–20, non-negative incomes) are not modelled. Only the PPP rate's positivity is used, as the preconditions below.
- Float rounding is not modelled. All arithmetic is exact `real` arithmetic, including `math.sqrt`.
- `EquivalenceScale.StandardizeIncome`: `math.sqrt(household_size)` is the parameter `root`, constrained to the positive square root. Its existence over the reals is not derived. `SquareRootUnique` shows the parameter is determined.
- `Comparison.Comparator.PrepareData`: requires strictly ascending income columns and a positive PPP rate. scipy's sorting of unsorted knots, duplicate incomes and NaN entries are not modelled. A zero or negative rate, which pandas would turn into inf or sign-flipped values, is not modelled.
- `Comparison.NewComparator`: same preconditions as `PrepareData`.
- A table of exactly one row is always a construction failure here. Whether the installed scipy accepts a single point for linear interpolation depends on its version, and main.py does not state a scipy version, so that case is not modelled.
- `MainFlow.NormalizeIncome`: requires a positive PPP rate. The widget enforces at least 1.0.
- `Comparison.Comparator.CreatePercentileTable`: tie-breaking between equally near percentiles is promised only as "some nearest row". The method picks the first.
- `Comparison.Comparator.Prepared` reads the live frame. The model assumes the caller does not alter the frame after construction, as `main()` does not. The Python interpolants keep private copies of their knots.
- `Comparison.SummaryRowAt`: the ratio is `None` where pandas would divide by a zero Israeli income and produce inf or NaN.
- `MainFlow.Lower`: lowers ASCII letters only. The labels it receives are English or uncased Hebrew.
- `plot_income_comparison` receives the same lower-cased period (main.py:1038). Its labels are part of the drawing code, which is not modelled.

## Findings

| source | as written | input that shows it | evidently intended | confidence | as-written member | corrected member |
|---|---|---|---|---|---|---|
| main.py:1059 | The table receives `income_period.lower()`. Its divider is `1 if period == "annual" else 12` (main.py:704). | Hebrew interface with period "שנתי" (annual). The lowered label is not "annual", so the annual key-percentile incomes are divided by 12 while the heading says annual. | The table is in annual amounts (divider 1) whenever the annual period is chosen, in either language. | high; not executed | `MainFlow.HebrewAnnualTableIsMonthly` | `MainFlow.TablePeriod` |
