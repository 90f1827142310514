/**
 * IncomeDistributionComparator: validates the percentile table, adds the
 * Israel-in-USD columns to it, builds one income -> percentile interpolant
 * per series, answers "where does this income rank" queries and derives the
 * key-percentile summary table.
 */
module Comparison {
  import opened Wrappers
  import opened Interpolation
  import opened Frames

  // Column names of the percentile table.
  const PercentileCol: string := "Percentile"
  const UsIncomeUsd: string := "US_Income_USD"
  const IsraelIncomeIls: string := "Israel_Income_ILS"
  const UsStdIncomeUsd: string := "US_Std_Income_USD"
  const IsraelStdIncomeIls: string := "Israel_Std_Income_ILS"
  // Columns the comparator adds.
  const IsraelIncomeUsd: string := "Israel_Income_USD"
  const IsraelStdIncomeUsd: string := "Israel_Std_Income_USD"

  /** The two added columns differ from each other and from the table's own columns. */
  lemma AddedColumnsAreNew()
    ensures IsraelIncomeUsd != IsraelStdIncomeUsd
    ensures IsraelIncomeUsd !in {PercentileCol, UsIncomeUsd, IsraelIncomeIls, UsStdIncomeUsd, IsraelStdIncomeIls}
    ensures IsraelStdIncomeUsd !in {PercentileCol, UsIncomeUsd, IsraelIncomeIls, UsStdIncomeUsd, IsraelStdIncomeIls}
  {
    assert IsraelIncomeUsd[7] != IsraelStdIncomeUsd[7];
  }

  /** Checked in this order; the first one absent is the one reported. */
  const RequiredRawColumns: seq<string> := [PercentileCol, UsIncomeUsd, IsraelIncomeIls]

  /** The key percentiles `create_percentile_table` uses by default. */
  const DefaultKeyPercentiles: seq<real> := [10.0, 25.0, 50.0, 75.0, 90.0, 95.0]

  /** ValueError("Required column ... missing"), or interp1d's refusal of a one-row table. */
  datatype PrepareError = MissingColumn(column: string) | TooFewPoints

  datatype ComparisonResult = ComparisonResult(
    incomeUsd: real,
    incomeIls: real,
    usPercentile: real,
    israelPercentile: real,
    percentileDifference: real)

  /**
   * One row of the key-percentile table. `ratio` is None where pandas would
   * divide by a zero Israel income and produce inf or NaN.
   */
  datatype SummaryRow = SummaryRow(
    percentile: real,
    usIncome: real,
    israelIncomeIls: real,
    israelIncomeUsd: real,
    ratio: Option<real>)

  predicate RawColumnsPresent(columns: map<string, seq<real>>) {
    PercentileCol in columns && UsIncomeUsd in columns && IsraelIncomeIls in columns
  }

  /** The columns a table of standardized incomes must have. */
  const RequiredStdColumns: seq<string> := [PercentileCol, UsStdIncomeUsd, IsraelStdIncomeIls]

  /** `all(col in columns for col in required_std_columns)`. */
  predicate StdColumnsPresent(columns: map<string, seq<real>>): (present: bool)
    ensures present <==> forall name :: name in RequiredStdColumns ==> name in columns
  {
    PercentileCol in columns && UsStdIncomeUsd in columns && IsraelStdIncomeIls in columns
  }

  /** Index of the first name that is not a column, or |names| when all are. */
  function FirstMissing(names: seq<string>, columns: map<string, seq<real>>): (k: nat)
    ensures k <= |names|
    ensures forall m :: 0 <= m < k ==> names[m] in columns
    ensures k < |names| ==> names[k] !in columns
  {
    if |names| == 0 || names[0] !in columns then 0
    else 1 + FirstMissing(names[1..], columns)
  }

  /** The raw check passes exactly when all three raw columns are present. */
  lemma RawCheckPasses(columns: map<string, seq<real>>)
    ensures FirstMissing(RequiredRawColumns, columns) == |RequiredRawColumns| <==> RawColumnsPresent(columns)
  {
    var k := FirstMissing(RequiredRawColumns, columns);
    if k == |RequiredRawColumns| {
      assert RequiredRawColumns[0] in columns && RequiredRawColumns[1] in columns && RequiredRawColumns[2] in columns;
    }
  }

  /** Each entry of `usd` is the matching entry of `ils` divided by the PPP rate. */
  ghost predicate ConvertedColumn(usd: seq<real>, ils: seq<real>, pppRate: real) {
    |usd| == |ils| && forall i :: 0 <= i < |ils| ==> usd[i] * pppRate == ils[i]
  }

  /** The income columns the interpolants are built on ascend, as interp1d's sorted knots do. */
  ghost predicate IncomesIncreasing(columns: map<string, seq<real>>) {
    && (UsIncomeUsd in columns ==> StrictlyIncreasing(columns[UsIncomeUsd]))
    && (IsraelIncomeIls in columns ==> StrictlyIncreasing(columns[IsraelIncomeIls]))
    && (StdColumnsPresent(columns) ==>
          StrictlyIncreasing(columns[UsStdIncomeUsd]) && StrictlyIncreasing(columns[IsraelStdIncomeIls]))
  }

  /** The columns of the frame after preparation; every other column is left as it was. */
  function WithUsdColumns(columns: map<string, seq<real>>, pppRate: real): (r: map<string, seq<real>>)
    requires pppRate > 0.0 && IsraelIncomeIls in columns
    ensures r.Keys == columns.Keys + {IsraelIncomeUsd}
                      + (if StdColumnsPresent(columns) then {IsraelStdIncomeUsd} else {})
    ensures forall name :: name in columns && name != IsraelIncomeUsd
                           && (name != IsraelStdIncomeUsd || !StdColumnsPresent(columns))
                           ==> r[name] == columns[name]
    ensures ConvertedColumn(r[IsraelIncomeUsd], columns[IsraelIncomeIls], pppRate)
    ensures StdColumnsPresent(columns) ==>
              ConvertedColumn(r[IsraelStdIncomeUsd], columns[IsraelStdIncomeIls], pppRate)
  {
    var withRaw := columns[IsraelIncomeUsd := DivideColumn(columns[IsraelIncomeIls], pppRate)];
    if StdColumnsPresent(columns) then
      withRaw[IsraelStdIncomeUsd := DivideColumn(columns[IsraelStdIncomeIls], pppRate)]
    else withRaw
  }

  /**
   * The columns of a prepared frame: all of one height (two rows or more), the
   * raw columns and the added USD columns present, and every interpolant's
   * knots ascending.
   */
  ghost predicate PreparedColumns(columns: map<string, seq<real>>, height: nat, pppRate: real) {
    && pppRate > 0.0 && height >= 2
    && (forall name :: name in columns ==> |columns[name]| == height)
    && RawColumnsPresent(columns) && IsraelIncomeUsd in columns
    && ConvertedColumn(columns[IsraelIncomeUsd], columns[IsraelIncomeIls], pppRate)
    && Mapping(columns, UsIncomeUsd).Valid()
    && Mapping(columns, IsraelIncomeUsd).Valid()
    && (StdColumnsPresent(columns) ==>
          && IsraelStdIncomeUsd in columns
          && ConvertedColumn(columns[IsraelStdIncomeUsd], columns[IsraelStdIncomeIls], pppRate)
          && Mapping(columns, UsStdIncomeUsd).Valid()
          && Mapping(columns, IsraelStdIncomeUsd).Valid())
  }

  /** Adding the USD columns to a valid table yields a prepared one. */
  lemma WithUsdColumnsPrepared(columns: map<string, seq<real>>, height: nat, pppRate: real)
    requires pppRate > 0.0 && height >= 2
    requires forall name :: name in columns ==> |columns[name]| == height
    requires RawColumnsPresent(columns) && IncomesIncreasing(columns)
    ensures StdColumnsPresent(WithUsdColumns(columns, pppRate)) == StdColumnsPresent(columns)
    ensures PreparedColumns(WithUsdColumns(columns, pppRate), height, pppRate)
  {
    AddedColumnsAreNew();
    DivideKeepsIncreasing(columns[IsraelIncomeIls], pppRate);
    if StdColumnsPresent(columns) {
      DivideKeepsIncreasing(columns[IsraelStdIncomeIls], pppRate);
    }
  }

  /** Dividing by a positive rate keeps a column strictly increasing. */
  lemma DivideKeepsIncreasing(values: seq<real>, d: real)
    requires d > 0.0 && StrictlyIncreasing(values)
    ensures StrictlyIncreasing(DivideColumn(values, d))
  {
    var r := DivideColumn(values, d);
    forall i, j | 0 <= i < j < |r| ensures r[i] < r[j] {
      assert r[i] * d < r[j] * d;
    }
  }

  /**
   * `interp1d(columns[incomeColumn], columns['Percentile'], fill_value=(1, 99))`:
   * over two or more rows of increasing incomes, a well-formed interpolant
   * that gives every row's income exactly that row's percentile.
   */
  function Mapping(columns: map<string, seq<real>>, incomeColumn: string): (m: Interp1d)
    requires PercentileCol in columns && incomeColumn in columns
    ensures m.below == FillBelow && m.above == FillAbove
    ensures |columns[incomeColumn]| == |columns[PercentileCol]| >= 2 && StrictlyIncreasing(columns[incomeColumn]) ==>
              && m.Valid()
              && forall i :: 0 <= i < |columns[PercentileCol]| ==>
                   Eval(m, columns[incomeColumn][i]) == columns[PercentileCol][i]
  {
    var m := Interp1d(columns[incomeColumn], columns[PercentileCol], FillBelow, FillAbove);
    assert m.Valid() ==> forall i :: 0 <= i < |columns[PercentileCol]| ==>
             Eval(m, columns[incomeColumn][i]) == columns[PercentileCol][i] by {
      if m.Valid() {
        forall i | 0 <= i < |columns[PercentileCol]|
          ensures Eval(m, columns[incomeColumn][i]) == columns[PercentileCol][i]
        {
          EvalAtKnot(m, i);
        }
      }
    }
    m
  }

  // The series a query or a summary table reads: the standardized columns
  // exactly when useStd holds, the raw ones otherwise.
  function UsColumn(useStd: bool): (name: string)
    ensures useStd <==> name == UsStdIncomeUsd
    ensures !useStd <==> name == UsIncomeUsd
  {
    if useStd then UsStdIncomeUsd else UsIncomeUsd
  }

  function IsraelIlsColumn(useStd: bool): (name: string)
    ensures useStd <==> name == IsraelStdIncomeIls
    ensures !useStd <==> name == IsraelIncomeIls
  {
    if useStd then IsraelStdIncomeIls else IsraelIncomeIls
  }

  function IsraelUsdColumn(useStd: bool): (name: string)
    ensures useStd <==> name == IsraelStdIncomeUsd
    ensures !useStd <==> name == IsraelIncomeUsd
  {
    if useStd then IsraelStdIncomeUsd else IsraelIncomeUsd
  }

  function Distance(a: real, b: real): real {
    if a >= b then a - b else b - a
  }

  /**
   * `(ps - target).abs().argsort()[0]`: an index of a percentile nearest the
   * target. This one picks the first such index; callers rely only on minimality.
   */
  function NearestIndex(ps: seq<real>, target: real): (j: nat)
    requires |ps| > 0
    ensures j < |ps|
    ensures forall i :: 0 <= i < |ps| ==> Distance(ps[j], target) <= Distance(ps[i], target)
  {
    if |ps| == 1 then 0
    else
      var j := NearestIndex(ps[..|ps| - 1], target);
      assert forall i :: 0 <= i < |ps| - 1 ==> ps[..|ps| - 1][i] == ps[i];
      if Distance(ps[|ps| - 1], target) < Distance(ps[j], target) then |ps| - 1 else j
  }

  /** p is a table percentile at minimal distance from the target. */
  ghost predicate IsNearest(ps: seq<real>, target: real, p: real) {
    p in ps && forall i :: 0 <= i < |ps| ==> Distance(p, target) <= Distance(ps[i], target)
  }

  /** `closest[m]` is a nearest table percentile for `targets[m]`, for every m. */
  ghost predicate NearestChoices(ps: seq<real>, targets: seq<real>, closest: seq<real>) {
    |closest| == |targets| && forall m :: 0 <= m < |targets| ==> IsNearest(ps, targets[m], closest[m])
  }

  /**
   * The loop that collects `closest_percentiles`: for each target in turn, a
   * table percentile nearest to it.
   */
  method SnapToTable(ps: seq<real>, targets: seq<real>) returns (closest: seq<real>)
    requires |ps| > 0
    ensures NearestChoices(ps, targets, closest)
  {
    closest := [];
    for k := 0 to |targets|
      invariant |closest| == k
      invariant forall m :: 0 <= m < k ==> IsNearest(ps, targets[m], closest[m])
    {
      var j := NearestIndex(ps, targets[k]);
      closest := closest + [ps[j]];
    }
  }

  /**
   * `ps.isin(chosen)`: the indices of the rows whose percentile is one of the
   * chosen values, in table order and each once.
   */
  function SelectRows(ps: seq<real>, chosen: seq<real>): (rows: seq<nat>)
    ensures forall k :: 0 <= k < |rows| ==> rows[k] < |ps|
    ensures forall k, l :: 0 <= k < l < |rows| ==> rows[k] < rows[l]
    ensures forall i :: 0 <= i < |ps| ==> (i in rows <==> ps[i] in chosen)
  {
    if |ps| == 0 then []
    else
      var prefix := SelectRows(ps[..|ps| - 1], chosen);
      assert forall i :: 0 <= i < |ps| - 1 ==> ps[..|ps| - 1][i] == ps[i];
      if ps[|ps| - 1] in chosen then prefix + [|ps| - 1] else prefix
  }

  /** `1 if period == "annual" else 12`: any other string counts as monthly. */
  function PeriodDivider(period: string): (d: real)
    ensures d == 1.0 <==> period == "annual"
    ensures d == 1.0 || d == 12.0
  {
    if period == "annual" then 1.0 else 12.0
  }

  /** The columns a summary table reads are all in the frame. */
  predicate SummaryColumnsPresent(columns: map<string, seq<real>>, useStd: bool) {
    && PercentileCol in columns && UsColumn(useStd) in columns
    && IsraelIlsColumn(useStd) in columns && IsraelUsdColumn(useStd) in columns
  }

  /**
   * Row i of the summary table: incomes divided by the period divider, and the
   * ratio taken on the undivided columns.
   */
  function SummaryRowAt(columns: map<string, seq<real>>, i: nat, useStd: bool, divider: real): (row: SummaryRow)
    requires SummaryColumnsPresent(columns, useStd) && divider > 0.0
    requires i < |columns[PercentileCol]| && i < |columns[UsColumn(useStd)]|
    requires i < |columns[IsraelIlsColumn(useStd)]| && i < |columns[IsraelUsdColumn(useStd)]|
    ensures row.percentile == columns[PercentileCol][i]
    ensures row.usIncome * divider == columns[UsColumn(useStd)][i]
    ensures row.israelIncomeIls * divider == columns[IsraelIlsColumn(useStd)][i]
    ensures row.israelIncomeUsd * divider == columns[IsraelUsdColumn(useStd)][i]
    // the divider cancels: the ratio is the same on the divided incomes
    ensures row.ratio == if row.israelIncomeUsd == 0.0 then None
                         else Some(row.usIncome / row.israelIncomeUsd)
  {
    var us := columns[UsColumn(useStd)][i];
    var usd := columns[IsraelUsdColumn(useStd)][i];
    var row := SummaryRow(
      columns[PercentileCol][i],
      us / divider,
      columns[IsraelIlsColumn(useStd)][i] / divider,
      usd / divider,
      if usd == 0.0 then None else Some(us / usd));
    assert usd != 0.0 ==> (us / divider) / (usd / divider) == us / usd by {
      if usd != 0.0 {
        assert (us / divider) * usd == (usd / divider) * us;
      }
    }
    row
  }

  /**
   * The summary table for the given snapped percentiles: one row per table
   * row whose percentile was chosen, in table order, and no other rows.
   */
  function SummaryTable(columns: map<string, seq<real>>, height: nat, closest: seq<real>, useStd: bool, divider: real)
    : (table: seq<SummaryRow>)
    requires SummaryColumnsPresent(columns, useStd) && divider > 0.0
    requires forall name :: name in columns ==> |columns[name]| == height
    ensures |table| <= height
    ensures forall k :: 0 <= k < |table| ==> table[k].percentile in closest
    ensures forall i :: 0 <= i < height && columns[PercentileCol][i] in closest ==>
              exists k :: 0 <= k < |table| && table[k] == SummaryRowAt(columns, i, useStd, divider)
    // row k comes from table row rows[k]; rows keep table order and each chosen row appears once
    ensures exists rows: seq<nat> ::
              && |rows| == |table|
              && (forall k :: 0 <= k < |rows| ==> rows[k] < height && table[k] == SummaryRowAt(columns, rows[k], useStd, divider))
              && (forall k, l :: 0 <= k < l < |rows| ==> rows[k] < rows[l])
              && (forall i :: 0 <= i < height ==> (i in rows <==> columns[PercentileCol][i] in closest))
  {
    var rows := SelectRows(columns[PercentileCol], closest);
    var table := seq(|rows|, k requires 0 <= k < |rows| => SummaryRowAt(columns, rows[k], useStd, divider));
    SelectedRowsTable(columns, height, closest, useStd, divider, rows, table);
    table
  }

  /** The facts SummaryTable promises, for the rows `isin` selects. */
  lemma SelectedRowsTable(columns: map<string, seq<real>>, height: nat, closest: seq<real>, useStd: bool, divider: real,
                          rows: seq<nat>, table: seq<SummaryRow>)
    requires SummaryColumnsPresent(columns, useStd) && divider > 0.0
    requires forall name :: name in columns ==> |columns[name]| == height
    requires rows == SelectRows(columns[PercentileCol], closest)
    requires |table| == |rows|
    requires forall k :: 0 <= k < |rows| ==> table[k] == SummaryRowAt(columns, rows[k], useStd, divider)
    ensures |table| <= height
    ensures forall k :: 0 <= k < |table| ==> table[k].percentile in closest
    ensures forall i :: 0 <= i < height && columns[PercentileCol][i] in closest ==>
              exists k :: 0 <= k < |table| && table[k] == SummaryRowAt(columns, i, useStd, divider)
    ensures forall k :: 0 <= k < |rows| ==> rows[k] < height
  {
    SelectedRowsFit(rows, height);
    forall i | 0 <= i < height && columns[PercentileCol][i] in closest
      ensures exists k :: 0 <= k < |table| && table[k] == SummaryRowAt(columns, i, useStd, divider)
    {
      var k :| 0 <= k < |rows| && rows[k] == i;
      assert table[k] == SummaryRowAt(columns, i, useStd, divider);
    }
  }

  /** Strictly increasing indices below n number at most n. */
  lemma {:induction false} SelectedRowsFit(rows: seq<nat>, n: nat)
    requires forall k :: 0 <= k < |rows| ==> rows[k] < n
    requires forall k, l :: 0 <= k < l < |rows| ==> rows[k] < rows[l]
    ensures |rows| <= n
  {
    if |rows| > 0 {
      var last := rows[|rows| - 1];
      var prefix := rows[..|rows| - 1];
      assert forall k :: 0 <= k < |prefix| ==> prefix[k] < rows[|rows| - 1];
      SelectedRowsFit(prefix, last);
    }
  }

  /**
   * A target that is itself a table percentile is its own unique nearest
   * choice, so targets that all occur in the table are chosen as they are.
   */
  lemma ExactTargetsAreChosen(ps: seq<real>, targets: seq<real>, closest: seq<real>)
    requires forall m :: 0 <= m < |targets| ==> targets[m] in ps
    requires NearestChoices(ps, targets, closest)
    ensures closest == targets
  {
    forall m | 0 <= m < |targets| ensures closest[m] == targets[m] {
      var i :| 0 <= i < |ps| && ps[i] == targets[m];
      assert Distance(closest[m], targets[m]) <= Distance(ps[i], targets[m]);
    }
  }

  /** When every target is a table percentile, the snapped table is the table of the targets. */
  lemma ExactTargetsTable(columns: map<string, seq<real>>, height: nat, targets: seq<real>, closest: seq<real>,
                          useStd: bool, divider: real)
    requires SummaryColumnsPresent(columns, useStd) && divider > 0.0
    requires forall name :: name in columns ==> |columns[name]| == height
    requires NearestChoices(columns[PercentileCol], targets, closest)
    ensures (forall m :: 0 <= m < |targets| ==> targets[m] in columns[PercentileCol]) ==>
              SummaryTable(columns, height, closest, useStd, divider) == SummaryTable(columns, height, targets, useStd, divider)
  {
    if forall m :: 0 <= m < |targets| ==> targets[m] in columns[PercentileCol] {
      ExactTargetsAreChosen(columns[PercentileCol], targets, closest);
    }
  }

  class Comparator {
    const pppRate: real
    const percentileData: DataFrame
    var hasStandardizedData: bool
    var usPercentileFunc: Option<Interp1d>
    var israelPercentileFunc: Option<Interp1d>
    var usStdPercentileFunc: Option<Interp1d>
    var israelStdPercentileFunc: Option<Interp1d>

    /** The state `prepare_data` leaves behind when it does not raise. */
    ghost predicate Prepared()
      reads this, percentileData
    {
      var columns := percentileData.columns;
      && PreparedColumns(columns, percentileData.height, pppRate)
      && hasStandardizedData == StdColumnsPresent(columns)
      && usPercentileFunc == Some(Mapping(columns, UsIncomeUsd))
      && israelPercentileFunc == Some(Mapping(columns, IsraelIncomeUsd))
      && (hasStandardizedData ==>
            && usStdPercentileFunc == Some(Mapping(columns, UsStdIncomeUsd))
            && israelStdPercentileFunc == Some(Mapping(columns, IsraelStdIncomeUsd)))
    }

    /** The field assignments of `__init__`; preparation follows in PrepareData. */
    constructor (percentileData: DataFrame, pppRate: real)
      ensures this.percentileData == percentileData && this.pppRate == pppRate
      ensures !hasStandardizedData
      ensures usPercentileFunc == None && israelPercentileFunc == None
      ensures usStdPercentileFunc == None && israelStdPercentileFunc == None
    {
      this.percentileData := percentileData;
      this.pppRate := pppRate;
      hasStandardizedData := false;
      usPercentileFunc, israelPercentileFunc := None, None;
      usStdPercentileFunc, israelStdPercentileFunc := None, None;
    }

    /**
     * `prepare_data`: sets the standardized-data flag, checks the raw columns,
     * adds the Israel-in-USD columns to the shared frame and builds the
     * interpolants. A returned error stands for the exception it raises.
     */
    method PrepareData() returns (error: Option<PrepareError>)
      requires percentileData.Valid() && pppRate > 0.0
      requires IncomesIncreasing(percentileData.columns)
      modifies this, percentileData
      ensures percentileData.Valid() && percentileData.height == old(percentileData.height)
      ensures hasStandardizedData == StdColumnsPresent(old(percentileData.columns))
      ensures var missing := FirstMissing(RequiredRawColumns, old(percentileData.columns));
              missing < |RequiredRawColumns| ==>
                && error == Some(MissingColumn(RequiredRawColumns[missing]))
                && percentileData.columns == old(percentileData.columns)
      // interp1d raises only after the raw USD column has been added
      ensures RawColumnsPresent(old(percentileData.columns)) && percentileData.height < 2 ==>
                && error == Some(TooFewPoints)
                && percentileData.columns == old(percentileData.columns)[IsraelIncomeUsd :=
                     DivideColumn(old(percentileData.columns)[IsraelIncomeIls], pppRate)]
      ensures RawColumnsPresent(old(percentileData.columns)) && percentileData.height >= 2 ==>
                && error == None
                && Prepared()
                && percentileData.columns == WithUsdColumns(old(percentileData.columns), pppRate)
    {
      var columns := percentileData.columns;
      hasStandardizedData := StdColumnsPresent(columns);
      RawCheckPasses(columns);
      AddedColumnsAreNew();

      var k := 0;
      while k < |RequiredRawColumns|
        invariant 0 <= k <= |RequiredRawColumns|
        invariant forall m :: 0 <= m < k ==> RequiredRawColumns[m] in columns
      {
        if RequiredRawColumns[k] !in columns {
          return Some(MissingColumn(RequiredRawColumns[k]));
        }
        k := k + 1;
      }

      percentileData.SetColumn(IsraelIncomeUsd, DivideColumn(columns[IsraelIncomeIls], pppRate));
      if percentileData.height < 2 {
        // interp1d needs at least two points; the column added above stays in the frame
        return Some(TooFewPoints);
      }
      BuildInterpolants(columns);
      error := None;
    }

    /**
     * The part of `prepare_data` after `Israel_Income_USD` is in the frame:
     * the raw interpolants, then the standardized column and interpolants.
     */
    method BuildInterpolants(columns: map<string, seq<real>>)
      requires percentileData.Valid() && percentileData.height >= 2 && pppRate > 0.0
      requires forall name :: name in columns ==> |columns[name]| == percentileData.height
      requires RawColumnsPresent(columns) && IncomesIncreasing(columns)
      requires hasStandardizedData == StdColumnsPresent(columns)
      requires percentileData.columns == columns[IsraelIncomeUsd := DivideColumn(columns[IsraelIncomeIls], pppRate)]
      modifies this, percentileData
      ensures percentileData.Valid() && percentileData.height == old(percentileData.height)
      ensures hasStandardizedData == old(hasStandardizedData)
      ensures Prepared()
      ensures percentileData.columns == WithUsdColumns(columns, pppRate)
    {
      WithUsdColumnsPrepared(columns, percentileData.height, pppRate);
      AddedColumnsAreNew();
      usPercentileFunc := Some(Mapping(percentileData.columns, UsIncomeUsd));
      israelPercentileFunc := Some(Mapping(percentileData.columns, IsraelIncomeUsd));

      if hasStandardizedData {
        percentileData.SetColumn(IsraelStdIncomeUsd, DivideColumn(columns[IsraelStdIncomeIls], pppRate));
        usStdPercentileFunc := Some(Mapping(percentileData.columns, UsStdIncomeUsd));
        israelStdPercentileFunc := Some(Mapping(percentileData.columns, IsraelStdIncomeUsd));
      }
      assert percentileData.columns == WithUsdColumns(columns, pppRate);
    }

    /**
     * `compare_income`: the percentile of an annual USD income in both
     * countries, on the standardized series only when they were asked for and
     * the table has them.
     */
    function CompareIncome(incomeUsd: real, standardized: bool): (r: ComparisonResult)
      reads this, percentileData
      requires Prepared()
      ensures r.incomeUsd == incomeUsd && r.incomeIls == incomeUsd * pppRate
      ensures r.percentileDifference == r.israelPercentile - r.usPercentile
      ensures var useStd := standardized && hasStandardizedData;
              && r.usPercentile == Eval(Mapping(percentileData.columns, UsColumn(useStd)), incomeUsd)
              && r.israelPercentile == Eval(Mapping(percentileData.columns, IsraelUsdColumn(useStd)), incomeUsd)
      // with every table percentile in [1, 99], so is every answer
      ensures InRange(percentileData.columns[PercentileCol], FillBelow, FillAbove) ==>
                && FillBelow <= r.usPercentile <= FillAbove
                && FillBelow <= r.israelPercentile <= FillAbove
                && FillBelow - FillAbove <= r.percentileDifference <= FillAbove - FillBelow
    {
      var incomeIls := incomeUsd * pppRate;
      var us := if standardized && hasStandardizedData then usStdPercentileFunc.value else usPercentileFunc.value;
      var israel := if standardized && hasStandardizedData then israelStdPercentileFunc.value else israelPercentileFunc.value;
      var usPercentile := Eval(us, incomeUsd);
      var israelPercentile := Eval(israel, incomeUsd);
      assert InRange(percentileData.columns[PercentileCol], FillBelow, FillAbove) ==>
               FillBelow <= usPercentile <= FillAbove && FillBelow <= israelPercentile <= FillAbove by {
        if InRange(percentileData.columns[PercentileCol], FillBelow, FillAbove) {
          EvalInRange(us, incomeUsd);
          EvalInRange(israel, incomeUsd);
        }
      }
      ComparisonResult(incomeUsd, incomeIls, usPercentile, israelPercentile, israelPercentile - usPercentile)
    }

    /** Without standardized columns a standardized query silently gives the raw answer. */
    lemma FallbackWithoutStandardizedData(incomeUsd: real)
      requires Prepared() && !hasStandardizedData
      ensures CompareIncome(incomeUsd, true) == CompareIncome(incomeUsd, false)
    {
    }

    /** An income equal to a table row's income gets exactly that row's percentile. */
    lemma CompareAtTableRow(i: nat, standardized: bool)
      requires Prepared() && i < percentileData.height
      ensures var useStd := standardized && hasStandardizedData;
              var columns := percentileData.columns;
              && CompareIncome(columns[UsColumn(useStd)][i], standardized).usPercentile == columns[PercentileCol][i]
              && CompareIncome(columns[IsraelUsdColumn(useStd)][i], standardized).israelPercentile
                 == columns[PercentileCol][i]
    {
      var useStd := standardized && hasStandardizedData;
      var columns := percentileData.columns;
      EvalAtKnot(Mapping(columns, UsColumn(useStd)), i);
      EvalAtKnot(Mapping(columns, IsraelUsdColumn(useStd)), i);
    }

    /**
     * With table percentiles ascending and within [1, 99], a larger income never
     * ranks lower in either country.
     */
    lemma CompareIncomeMonotone(x1: real, x2: real, standardized: bool)
      requires Prepared() && x1 <= x2
      requires Sorted(percentileData.columns[PercentileCol])
      requires InRange(percentileData.columns[PercentileCol], FillBelow, FillAbove)
      ensures CompareIncome(x1, standardized).usPercentile <= CompareIncome(x2, standardized).usPercentile
      ensures CompareIncome(x1, standardized).israelPercentile <= CompareIncome(x2, standardized).israelPercentile
    {
      var useStd := standardized && hasStandardizedData;
      EvalMonotone(Mapping(percentileData.columns, UsColumn(useStd)), x1, x2);
      EvalMonotone(Mapping(percentileData.columns, IsraelUsdColumn(useStd)), x1, x2);
    }

    /**
     * The summary table over this comparator's frame for the chosen
     * percentiles, on the standardized series when asked for and present.
     */
    function TableOf(closest: seq<real>, divider: real, standardized: bool): seq<SummaryRow>
      reads this, percentileData
      requires Prepared() && divider > 0.0
    {
      SummaryTable(percentileData.columns, percentileData.height, closest, standardized && hasStandardizedData, divider)
    }

    /**
     * `create_percentile_table` (numeric part): snaps each target to a nearest
     * table percentile, keeps the rows whose percentile was chosen, and divides
     * the incomes by the period divider.
     */
    method CreatePercentileTable(selectedPercentiles: seq<real>, period: string, standardized: bool)
      returns (table: seq<SummaryRow>)
      requires Prepared()
      ensures exists closest :: NearestChoices(percentileData.columns[PercentileCol], selectedPercentiles, closest)
                && table == TableOf(closest, PeriodDivider(period), standardized)
      // targets that are table percentiles select exactly their own rows
      ensures (forall m :: 0 <= m < |selectedPercentiles| ==> selectedPercentiles[m] in percentileData.columns[PercentileCol]) ==>
                table == TableOf(selectedPercentiles, PeriodDivider(period), standardized)
    {
      var closest := SnapToTable(percentileData.columns[PercentileCol], selectedPercentiles);
      table := TableOf(closest, PeriodDivider(period), standardized);
      ExactTargetsTable(percentileData.columns, percentileData.height, selectedPercentiles, closest,
                        standardized && hasStandardizedData, PeriodDivider(period));
    }
  }

  /**
   * Constructing an `IncomeDistributionComparator`: either a prepared
   * comparator over the (now extended) frame, or the error it raises.
   */
  method NewComparator(percentileData: DataFrame, pppRate: real) returns (r: Result<Comparator, PrepareError>)
    requires percentileData.Valid() && pppRate > 0.0
    requires IncomesIncreasing(percentileData.columns)
    modifies percentileData
    ensures percentileData.height == old(percentileData.height) && percentileData.Valid()
    ensures r.Success? <==> RawColumnsPresent(old(percentileData.columns)) && old(percentileData.height) >= 2
    ensures r.Success? ==>
              && fresh(r.value)
              && r.value.percentileData == percentileData && r.value.pppRate == pppRate
              && r.value.Prepared()
              && r.value.hasStandardizedData == StdColumnsPresent(old(percentileData.columns))
              && percentileData.columns == WithUsdColumns(old(percentileData.columns), pppRate)
    ensures var missing := FirstMissing(RequiredRawColumns, old(percentileData.columns));
            missing < |RequiredRawColumns| ==>
              r == Failure(MissingColumn(RequiredRawColumns[missing]))
              && percentileData.columns == old(percentileData.columns)
    // the caller's frame keeps the column added before interp1d raised
    ensures RawColumnsPresent(old(percentileData.columns)) && old(percentileData.height) < 2 ==>
              && r == Failure(TooFewPoints)
              && percentileData.columns == old(percentileData.columns)[IsraelIncomeUsd :=
                   DivideColumn(old(percentileData.columns)[IsraelIncomeIls], pppRate)]
  {
    RawCheckPasses(old(percentileData.columns));
    var comparator := new Comparator(percentileData, pppRate);
    var error := comparator.PrepareData();
    if error.Some? {
      r := Failure(error.value);
    } else {
      r := Success(comparator);
    }
  }
}
