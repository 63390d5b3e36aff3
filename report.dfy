/**
 * The quality report: runs every check over the loaded table, records the
 * metrics, and sorts each check into passed or failed.
 */
module QualityReport {
  import opened Basics
  import opened Calendar
  import opened Records
  import opened Quality

  /** The line a check appends to checks_passed or checks_failed. */
  datatype Outcome =
    | NoDataFound
    | MissingDates(count: nat)
    | DateContinuityOk
    | DuplicatesFound(count: nat)
    | NoDuplicates
    | MissingValuesDetected
    | NoMissingValues
    | IncompleteDays(count: nat)
    | NoDataGaps
    | LowCoverage(percent: real)
    | GoodCoverage(percent: real)

  /** The outcomes of one run, in check order. */
  datatype Verdict = Verdict(passed: seq<Outcome>, failed: seq<Outcome>)

  /** The earliest and the latest date of the table. */
  datatype DateSpan = DateSpan(start: Day, end: Day)

  /** The one-element list of `x` when `cond` holds, else the empty list. */
  function When(cond: bool, x: Outcome): seq<Outcome> {
    if cond then [x] else []
  }

  /**
   * The verdict of the five judged checks, each outcome listed in the order
   * the checks run; the value ranges are recorded but never judged.
   */
  function Judge(missingDates: seq<Day>, duplicates: nat, missingValues: map<string, nat>,
                 gaps: seq<Gap>, coverage: real): (v: Verdict)
    ensures |v.passed| + |v.failed| == 5
    ensures v.failed == [] <==>
      missingDates == [] && duplicates == 0 && missingValues == map[] && gaps == [] && coverage >= CoverageThreshold
  {
    Verdict(
      When(missingDates == [], DateContinuityOk)
        + When(duplicates == 0, NoDuplicates)
        + When(missingValues == map[], NoMissingValues)
        + When(gaps == [], NoDataGaps)
        + When(coverage >= CoverageThreshold, GoodCoverage(coverage)),
      When(missingDates != [], MissingDates(|missingDates|))
        + When(duplicates > 0, DuplicatesFound(duplicates))
        + When(missingValues != map[], MissingValuesDetected)
        + When(gaps != [], IncompleteDays(|gaps|))
        + When(coverage < CoverageThreshold, LowCoverage(coverage)))
  }

  /** Each failing check is named among the failures, with its count, and only a failing one. */
  lemma JudgeNamesFailures(missingDates: seq<Day>, duplicates: nat, missingValues: map<string, nat>,
                           gaps: seq<Gap>, coverage: real)
    ensures var v := Judge(missingDates, duplicates, missingValues, gaps, coverage);
      && (MissingDates(|missingDates|) in v.failed <==> missingDates != [])
      && (DuplicatesFound(duplicates) in v.failed <==> duplicates > 0)
      && (MissingValuesDetected in v.failed <==> missingValues != map[])
      && (IncompleteDays(|gaps|) in v.failed <==> gaps != [])
  {
    var f1 := When(missingDates != [], MissingDates(|missingDates|));
    var f2 := When(duplicates > 0, DuplicatesFound(duplicates));
    var f3 := When(missingValues != map[], MissingValuesDetected);
    var f4 := When(gaps != [], IncompleteDays(|gaps|));
    var f5 := When(coverage < CoverageThreshold, LowCoverage(coverage));
    InFive(MissingDates(|missingDates|), f1, f2, f3, f4, f5);
    InFive(DuplicatesFound(duplicates), f1, f2, f3, f4, f5);
    InFive(MissingValuesDetected, f1, f2, f3, f4, f5);
    InFive(IncompleteDays(|gaps|), f1, f2, f3, f4, f5);
  }

  /** Membership in a concatenation of five lists. */
  lemma InFive(x: Outcome, a: seq<Outcome>, b: seq<Outcome>, c: seq<Outcome>, d: seq<Outcome>, e: seq<Outcome>)
    ensures x in a + b + c + d + e <==> x in a || x in b || x in c || x in d || x in e
  {
  }

  /** Coverage below 90% is a failure and at least 90% a pass, each quoting the percentage. */
  lemma JudgeCoverage(missingDates: seq<Day>, duplicates: nat, missingValues: map<string, nat>,
                      gaps: seq<Gap>, coverage: real)
    ensures var v := Judge(missingDates, duplicates, missingValues, gaps, coverage);
      && (LowCoverage(coverage) in v.failed <==> coverage < CoverageThreshold)
      && (GoodCoverage(coverage) in v.passed <==> coverage >= CoverageThreshold)
  {
  }

  /**
   * A table that is complete and clean passes every judged check: its dates
   * run without a hole, each date holds 24 rows, no key repeats, no cell is
   * null and at least 90% of the recent window is present.
   */
  lemma CompleteTablePasses(df: Frame, now: Instant)
    requires df.rows != [] && HasDate(df) && HasHour(df)
    requires forall d :: MinDate(df.rows) <= d <= MaxDate(df.rows) ==> DayCount(df.rows, d) == HoursPerDay
    requires UniqueKeys(df.rows)
    requires forall r, c :: r in df.rows && c in df.columns ==> !r.IsNullAt(c)
    requires Coverage(df, now, CoverageDaysBack) >= CoverageThreshold
    ensures Judge(DateContinuity(df), DuplicateCount(df), MissingValues(df), DataGaps(df),
                  Coverage(df, now, CoverageDaysBack)).failed == []
  {
    forall d | MinDate(df.rows) <= d <= MaxDate(df.rows) ensures d in DateSet(df.rows) {
      assert DayCount(df.rows, d) > 0;
    }
    NoHoleNoMissingDates(df);
    forall d | d in DateSet(df.rows) ensures DayCount(df.rows, d) == HoursPerDay {
      var r :| r in df.rows && r.date == d;
    }
    FullDaysNoGaps(df);
    NoNullsNoMissingValues(df);
  }

  /** A table without a null cell reports no missing values. */
  lemma NoNullsNoMissingValues(df: Frame)
    requires forall r, c :: r in df.rows && c in df.columns ==> !r.IsNullAt(c)
    ensures MissingValues(df) == map[]
  {
  }

  /** Dates without a hole between the first and the last leave nothing missing. */
  lemma NoHoleNoMissingDates(df: Frame)
    requires df.rows != [] && HasDate(df)
    requires forall d :: MinDate(df.rows) <= d <= MaxDate(df.rows) ==> d in DateSet(df.rows)
    ensures DateContinuity(df) == []
  {
    DateContinuityMembers(df);
    NoMemberMeansEmpty(DateContinuity(df));
  }

  /** Dates that each hold 24 rows leave no incomplete day. */
  lemma FullDaysNoGaps(df: Frame)
    requires forall d :: d in DateSet(df.rows) ==> DayCount(df.rows, d) == HoursPerDay
    ensures DataGaps(df) == []
  {
    DataGapsReportsIncompleteDays(df);
    NoMemberMeansEmpty(DataGaps(df));
  }

  /** A list with no member is empty. */
  lemma NoMemberMeansEmpty<T>(s: seq<T>)
    ensures (forall x :: x !in s) ==> s == []
  {
    if s != [] {
      assert s[0] in s;
    }
  }

  /** Appending five lists one after another appends their concatenation. */
  lemma AppendFive(s: seq<Outcome>, a: seq<Outcome>, b: seq<Outcome>, c: seq<Outcome>, d: seq<Outcome>, e: seq<Outcome>)
    ensures s + a + b + c + d + e == s + (a + b + c + d + e)
  {
  }

  /** The quality checker of one loaded table and the metrics its runs record. */
  class QualityChecker {
    const df: Frame
    var totalRecords: nat
    var dateRange: Option<DateSpan>
    var missingDates: seq<Day>
    var duplicateRecords: nat
    var missingValues: map<string, nat>
    var dataGaps: seq<Gap>
    var valueRanges: Option<map<string, RangeStats>>
    var coveragePercentage: real
    var issuesFound: bool
    var checksPassed: seq<Outcome>
    var checksFailed: seq<Outcome>

    /** A checker over a loaded table, with every metric at its initial value. */
    constructor (df: Frame)
      ensures this.df == df
      ensures totalRecords == 0 && dateRange == None && missingDates == [] && duplicateRecords == 0
      ensures missingValues == map[] && dataGaps == [] && valueRanges == None && coveragePercentage == 0.0
      ensures !issuesFound && checksPassed == [] && checksFailed == []
    {
      this.df := df;
      totalRecords := 0;
      dateRange := None;
      missingDates := [];
      duplicateRecords := 0;
      missingValues := map[];
      dataGaps := [];
      valueRanges := None;
      coveragePercentage := 0.0;
      issuesFound := false;
      checksPassed := [];
      checksFailed := [];
    }

    /**
     * Runs every check at time `now`. An empty table fails with "No data
     * found" and leaves the other metrics as they were; otherwise every
     * metric is recomputed and the five judged outcomes are appended.
     */
    method RunAllChecks(now: Instant)
      modifies this
      ensures df.rows == [] ==>
        && issuesFound
        && checksFailed == old(checksFailed) + [NoDataFound]
        && checksPassed == old(checksPassed)
        && totalRecords == old(totalRecords) && dateRange == old(dateRange)
        && missingDates == old(missingDates) && duplicateRecords == old(duplicateRecords)
        && missingValues == old(missingValues) && dataGaps == old(dataGaps)
        && valueRanges == old(valueRanges) && coveragePercentage == old(coveragePercentage)
      ensures df.rows != [] ==>
        var v := Judge(DateContinuity(df), DuplicateCount(df), MissingValues(df), DataGaps(df), Coverage(df, now, CoverageDaysBack));
        && totalRecords == |df.rows|
        && dateRange == (if HasDate(df) then Some(DateSpan(MinDate(df.rows), MaxDate(df.rows))) else old(dateRange))
        && missingDates == DateContinuity(df)
        && duplicateRecords == DuplicateCount(df)
        && missingValues == MissingValues(df)
        && dataGaps == DataGaps(df)
        && valueRanges == Some(ValueRanges(df))
        && coveragePercentage == Coverage(df, now, CoverageDaysBack)
        && checksPassed == old(checksPassed) + v.passed
        && checksFailed == old(checksFailed) + v.failed
        && issuesFound == (old(issuesFound) || v.failed != [])
    {
      if df.rows == [] {
        issuesFound := true;
        checksFailed := checksFailed + [NoDataFound];
        return;
      }
      RecordMetrics(now);
      FileOutcomes();
    }

    /** Computes every metric of a non-empty table. */
    method RecordMetrics(now: Instant)
      requires df.rows != []
      modifies this`totalRecords, this`dateRange, this`missingDates, this`duplicateRecords,
               this`missingValues, this`dataGaps, this`valueRanges, this`coveragePercentage
      ensures totalRecords == |df.rows|
      ensures dateRange == (if HasDate(df) then Some(DateSpan(MinDate(df.rows), MaxDate(df.rows))) else old(dateRange))
      ensures missingDates == DateContinuity(df)
      ensures duplicateRecords == DuplicateCount(df)
      ensures missingValues == MissingValues(df)
      ensures dataGaps == DataGaps(df)
      ensures valueRanges == Some(ValueRanges(df))
      ensures coveragePercentage == Coverage(df, now, CoverageDaysBack)
    {
      var span := dateRange;
      if DateColumn in df.columns {
        span := Some(DateSpan(MinDate(df.rows), MaxDate(df.rows)));
      }
      var nulls := CheckMissingValues(df);
      var gaps := CheckDataGaps(df, HoursPerDay);
      var ranges := CheckValueRanges(df);
      totalRecords, dateRange, missingDates, duplicateRecords := |df.rows|, span, DateContinuity(df), DuplicateCount(df);
      missingValues, dataGaps, valueRanges := nulls, gaps, Some(ranges);
      coveragePercentage := Coverage(df, now, CoverageDaysBack);
    }

    /** Files the outcome of each judged check, in check order, from the recorded metrics. */
    method FileOutcomes()
      modifies this`checksPassed, this`checksFailed, this`issuesFound
      ensures var v := Judge(missingDates, duplicateRecords, missingValues, dataGaps, coveragePercentage);
        && checksPassed == old(checksPassed) + v.passed
        && checksFailed == old(checksFailed) + v.failed
        && issuesFound == (old(issuesFound) || v.failed != [])
    {
      var passed, failed := checksPassed, checksFailed;
      FileOutcome(missingDates == [], DateContinuityOk, MissingDates(|missingDates|));
      FileOutcome(duplicateRecords == 0, NoDuplicates, DuplicatesFound(duplicateRecords));
      FileOutcome(missingValues == map[], NoMissingValues, MissingValuesDetected);
      FileOutcome(dataGaps == [], NoDataGaps, IncompleteDays(|dataGaps|));
      FileOutcome(coveragePercentage >= CoverageThreshold, GoodCoverage(coveragePercentage), LowCoverage(coveragePercentage));
      AppendFive(passed, When(missingDates == [], DateContinuityOk), When(duplicateRecords == 0, NoDuplicates),
        When(missingValues == map[], NoMissingValues), When(dataGaps == [], NoDataGaps),
        When(coveragePercentage >= CoverageThreshold, GoodCoverage(coveragePercentage)));
      AppendFive(failed, When(missingDates != [], MissingDates(|missingDates|)), When(duplicateRecords > 0, DuplicatesFound(duplicateRecords)),
        When(missingValues != map[], MissingValuesDetected), When(dataGaps != [], IncompleteDays(|dataGaps|)),
        When(coveragePercentage < CoverageThreshold, LowCoverage(coveragePercentage)));
    }

    /** Appends one check's outcome to the passed or the failed list; a failure marks that issues were found. */
    method FileOutcome(ok: bool, pass: Outcome, fail: Outcome)
      modifies this`checksPassed, this`checksFailed, this`issuesFound
      ensures checksPassed == old(checksPassed) + When(ok, pass)
      ensures checksFailed == old(checksFailed) + When(!ok, fail)
      ensures issuesFound == (old(issuesFound) || !ok)
    {
      if ok {
        checksPassed := checksPassed + [pass];
      } else {
        checksFailed := checksFailed + [fail];
        issuesFound := true;
      }
    }
  }
}
