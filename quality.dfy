/**
 * The data-quality checks run over the master table: date continuity,
 * duplicate keys, missing values, incomplete days, value ranges and
 * recent coverage. Each check is a function of the loaded table; the
 * checks that accumulate their result in a loop are methods proved equal
 * to that function.
 */
module Quality {
  import opened Basics
  import opened Calendar
  import opened Records
  import opened Merging

  /** Hours a complete day holds. */
  const HoursPerDay := 24

  /** The columns whose values are range-checked, in the order they are checked. */
  const NumericColumns := [ForecastColumn, ConsumptionColumn]

  /** A value above this many MW is counted as suspicious. */
  const SuspiciousAbove: real := 50000.0

  // ---------------------------------------------------------------------------
  // Date continuity

  /**
   * The calendar days strictly between the earliest and the latest date of
   * the table that no row carries, in ascending order; empty for an empty
   * table or one without a Date column.
   */
  function DateContinuity(df: Frame): (r: seq<Day>)
    ensures StrictlyIncreasing(r)
    ensures df.rows == [] || !HasDate(df) ==> r == []
  {
    if df.rows == [] || !HasDate(df) then []
    else RangeMinus(MinDate(df.rows), MaxDate(df.rows), 0, Midnights(df.rows))
  }

  /** A day is reported missing iff it lies strictly between the first and the last date and no row carries it. */
  lemma DateContinuityMembers(df: Frame)
    requires df.rows != [] && HasDate(df)
    ensures forall d :: d in DateContinuity(df) <==>
      MinDate(df.rows) < d < MaxDate(df.rows) && d !in DateSet(df.rows)
  {
    var lo, hi := MinDate(df.rows), MaxDate(df.rows);
    var dates, present := DateSet(df.rows), Midnights(df.rows);
    assert DateContinuity(df) == RangeMinus(lo, hi, 0, present);
    MidnightsMembers(df.rows);
    forall d ensures d in DateContinuity(df) <==> lo < d < hi && d !in dates {
      assert Instant(d, 0) in present <==> d in dates;
      if d == lo || d == hi {
        assert d in dates;
      }
    }
  }

  /** The number of missing dates is the span of the table in days less its number of distinct dates. */
  lemma DateContinuityCount(df: Frame)
    requires df.rows != [] && HasDate(df)
    ensures |DateContinuity(df)| == MaxDate(df.rows) - MinDate(df.rows) + 1 - |DateSet(df.rows)|
  {
    var lo, hi := MinDate(df.rows), MaxDate(df.rows);
    var r := DateContinuity(df);
    var dates := DateSet(df.rows);
    DateContinuityMembers(df);
    assert dates <= DayRange(lo, hi);
    assert Elements(r) == DayRange(lo, hi) - dates;
    assert Distinct(r);
    DistinctCard(r);
    DayRangeSize(lo, hi);
  }

  /** A table whose rows all carry one date has no missing dates. */
  lemma DateContinuitySingleDate(df: Frame)
    requires |DateSet(df.rows)| <= 1
    ensures DateContinuity(df) == []
  {
    if df.rows != [] && HasDate(df) {
      var lo, hi := MinDate(df.rows), MaxDate(df.rows);
      TwoMembers(DateSet(df.rows), lo, hi);
      DateContinuityCount(df);
      assert DateSet(df.rows) == {lo} by {
        assert forall x :: x in DateSet(df.rows) ==> x == lo by {
          forall x | x in DateSet(df.rows) ensures x == lo {
            TwoMembers(DateSet(df.rows), x, lo);
          }
        }
      }
    }
  }

  /** A set holding two different days has at least two elements. */
  lemma TwoMembers(s: set<Day>, a: Day, b: Day)
    ensures a in s && b in s && a != b ==> |s| >= 2
  {
    if a in s && b in s && a != b {
      var rest := s - {a, b};
      assert s == rest + {a, b};
    }
  }

  // ---------------------------------------------------------------------------
  // Duplicates

  /** The number of rows whose key is k. */
  function KeyCount(rows: seq<Row>, k: Key): (n: nat)
    ensures n <= |rows|
    ensures n > 0 <==> k in KeysOf(rows)
  {
    if rows == [] then 0
    else
      HeadOrTail(rows);
      (if rows[0].RowKey() == k then 1 else 0) + KeyCount(rows[1..], k)
  }

  /**
   * The rows of `part` that duplicated(subset=['Date', 'Timme'], keep=False)
   * marks when run over `table`: those whose key occurs more than once in `table`.
   */
  function MarkedCount(part: seq<Row>, table: seq<Row>): nat {
    if part == [] then 0
    else (if KeyCount(table, part[0].RowKey()) >= 2 then 1 else 0) + MarkedCount(part[1..], table)
  }

  /**
   * The number of rows that share their (Date, Timme) key with another row;
   * every row of a repeated key is counted, so the count is never 1.
   */
  function DuplicateCount(df: Frame): (n: nat)
    ensures n <= |df.rows|
    ensures n == 0 || n >= 2
    ensures df.rows == [] || !HasDate(df) || !HasHour(df) ==> n == 0
    ensures df.rows != [] && HasDate(df) && HasHour(df) ==> (n == 0 <==> UniqueKeys(df.rows))
  {
    if df.rows == [] then 0
    else if HasDate(df) && HasHour(df) then
      var n := MarkedCount(df.rows, df.rows);
      MarkedCountBound(df.rows, df.rows);
      MarkedCountZero(df.rows, df.rows);
      UniqueIffSingleKeys(df.rows);
      assert n == 0 || n >= 2 by {
        if n != 0 {
          var r :| r in df.rows && KeyCount(df.rows, r.RowKey()) >= 2;
          MarkedCountCoversKey(df.rows, df.rows, r.RowKey());
        }
      }
      n
    else 0
  }

  lemma {:induction false} MarkedCountBound(part: seq<Row>, table: seq<Row>)
    ensures MarkedCount(part, table) <= |part|
  {
    if part != [] {
      MarkedCountBound(part[1..], table);
    }
  }

  /** No row of `part` is marked iff every key of `part` occurs at most once in `table`. */
  lemma {:induction false} MarkedCountZero(part: seq<Row>, table: seq<Row>)
    ensures MarkedCount(part, table) == 0 <==> forall r :: r in part ==> KeyCount(table, r.RowKey()) < 2
  {
    if part != [] {
      MarkedCountZero(part[1..], table);
      assert forall r :: r in part <==> r == part[0] || r in part[1..] by {
        assert part == [part[0]] + part[1..];
      }
    }
  }

  /** When key k is repeated in `table`, each row of `part` with key k is marked. */
  lemma {:induction false} MarkedCountCoversKey(part: seq<Row>, table: seq<Row>, k: Key)
    requires KeyCount(table, k) >= 2
    ensures MarkedCount(part, table) >= KeyCount(part, k)
  {
    if part != [] {
      MarkedCountCoversKey(part[1..], table, k);
    }
  }

  /** Keys are unique iff no key occurs twice. */
  lemma {:induction false} UniqueIffSingleKeys(rows: seq<Row>)
    ensures UniqueKeys(rows) <==> forall r :: r in rows ==> KeyCount(rows, r.RowKey()) < 2
  {
    if rows != [] {
      var h, t := rows[0], rows[1..];
      UniqueIffSingleKeys(t);
      UniqueKeysCons(rows);
      HeadOrTail(rows);
      assert forall k :: KeyCount(rows, k) == (if h.RowKey() == k then 1 else 0) + KeyCount(t, k);
    }
  }

  /** Two rows with the same key are both counted. */
  lemma TwoRowsOneKey(columns: seq<string>, a: Row, b: Row)
    requires DateColumn in columns && HourColumn in columns
    requires a.RowKey() == b.RowKey()
    ensures DuplicateCount(Frame(columns, [a, b])) == 2
  {
    var rows := [a, b];
    assert rows[1..] == [b] && rows[1..][1..] == [];
    assert KeyCount(rows, a.RowKey()) == 2;
  }

  /** A table written by merging two non-empty batches has no duplicate keys. */
  lemma MergedTableHasNoDuplicates(columns: seq<string>, existing: seq<Row>, incoming: seq<Row>)
    requires existing != [] && incoming != []
    ensures DuplicateCount(Frame(columns, Merge(existing, incoming))) == 0
  {
    var merged := Merge(existing, incoming);
    assert existing[0].RowKey() in KeysOf(merged);
    assert UniqueKeys(merged);
  }

  // ---------------------------------------------------------------------------
  // Missing values

  /** The number of rows whose cell in column c is null. */
  function NullCount(rows: seq<Row>, c: string): (n: nat)
    ensures n <= |rows|
    ensures n == 0 <==> forall r :: r in rows ==> !r.IsNullAt(c)
  {
    if rows == [] then 0
    else
      assert forall r :: r in rows <==> r == rows[0] || r in rows[1..] by {
        assert rows == [rows[0]] + rows[1..];
      }
      (if rows[0].IsNullAt(c) then 1 else 0) + NullCount(rows[1..], c)
  }

  /** The columns holding at least one null, each with its number of nulls. */
  function MissingValues(df: Frame): (m: map<string, nat>)
    ensures forall c :: c in m <==> c in df.columns && exists r :: r in df.rows && r.IsNullAt(c)
    ensures forall c :: c in m ==> 1 <= m[c] <= |df.rows| && m[c] == NullCount(df.rows, c)
    ensures (forall c :: c in df.columns ==> c == DateColumn || c == HourColumn) ==> m == map[]
  {
    if df.rows == [] then map[]
    else map c | c in df.columns && NullCount(df.rows, c) > 0 :: NullCount(df.rows, c)
  }

  /** Records, column by column, how many nulls each column holds. */
  method CheckMissingValues(df: Frame) returns (missing: map<string, nat>)
    ensures missing == MissingValues(df)
  {
    if df.rows == [] {
      return map[];
    }
    missing := map[];
    for i := 0 to |df.columns|
      invariant forall c :: c in missing <==> c in df.columns[..i] && NullCount(df.rows, c) > 0
      invariant forall c :: c in missing ==> missing[c] == NullCount(df.rows, c)
    {
      var column := df.columns[i];
      var nullCount := NullCount(df.rows, column);
      if nullCount > 0 {
        missing := missing[column := nullCount];
      }
    }
    assert df.columns[..|df.columns|] == df.columns;
  }

  // ---------------------------------------------------------------------------
  // Incomplete days

  /** A date with fewer than 24 rows: how many it has and how many it lacks. */
  datatype Gap = Gap(date: Day, hoursFound: nat, hoursMissing: nat)

  /** The entry for one date, when it has fewer than 24 rows. */
  function GapAt(d: Day, rows: seq<Row>): seq<Gap> {
    var count := DayCount(rows, d);
    if count < HoursPerDay then [Gap(d, count, HoursPerDay - count)] else []
  }

  /** The gap entries for the dates in `dates`, taken in order. */
  function GapsAmong(dates: seq<Day>, rows: seq<Row>): seq<Gap> {
    if dates == [] then []
    else GapsAmong(dates[..|dates| - 1], rows) + GapAt(dates[|dates| - 1], rows)
  }

  /** One more date of a prefix adds that date's entry at the end. */
  lemma GapsAmongExtend(dates: seq<Day>, i: nat, rows: seq<Row>)
    requires i < |dates|
    ensures GapsAmong(dates[..i + 1], rows) == GapsAmong(dates[..i], rows) + GapAt(dates[i], rows)
  {
    assert dates[..i + 1][..i] == dates[..i];
  }

  /** Strictly ascending in date. */
  predicate DatesAscending(gaps: seq<Gap>) {
    forall i, j :: 0 <= i < j < |gaps| ==> gaps[i].date < gaps[j].date
  }

  /** Every entry is the entry of one of the listed dates. */
  lemma {:induction false} GapsAmongSound(dates: seq<Day>, rows: seq<Row>)
    ensures forall g :: g in GapsAmong(dates, rows) ==> g.date in dates && g in GapAt(g.date, rows)
  {
    if dates != [] {
      var init, last := dates[..|dates| - 1], dates[|dates| - 1];
      GapsAmongSound(init, rows);
      forall g | g in GapsAmong(dates, rows) ensures g.date in dates && g in GapAt(g.date, rows) {
        if g in GapsAmong(init, rows) {
          assert g.date in init;
        }
      }
    }
  }

  /** Every listed date with fewer than 24 rows has its entry produced. */
  lemma {:induction false} GapsAmongComplete(dates: seq<Day>, rows: seq<Row>)
    ensures forall d :: d in dates && DayCount(rows, d) < HoursPerDay ==>
      Gap(d, DayCount(rows, d), HoursPerDay - DayCount(rows, d)) in GapsAmong(dates, rows)
  {
    if dates != [] {
      var init, last := dates[..|dates| - 1], dates[|dates| - 1];
      GapsAmongComplete(init, rows);
      forall d | d in dates && DayCount(rows, d) < HoursPerDay
        ensures Gap(d, DayCount(rows, d), HoursPerDay - DayCount(rows, d)) in GapsAmong(dates, rows)
      {
        if d != last {
          assert d in init by {
            assert dates == init + [last];
          }
        }
      }
    }
  }

  /** Ascending dates give entries in ascending date order. */
  lemma {:induction false} GapsAmongOrdered(dates: seq<Day>, rows: seq<Row>)
    requires StrictlyIncreasing(dates)
    ensures DatesAscending(GapsAmong(dates, rows))
  {
    if dates != [] {
      var init, last := dates[..|dates| - 1], dates[|dates| - 1];
      GapsAmongOrdered(init, rows);
      GapsAmongSound(init, rows);
      var before := GapsAmong(init, rows);
      forall g | g in before ensures g.date < last {
        var k :| 0 <= k < |init| && init[k] == g.date;
      }
      var gaps := GapsAmong(dates, rows);
      forall i, j | 0 <= i < j < |gaps| ensures gaps[i].date < gaps[j].date {
        if j >= |before| {
          assert gaps[i] in before;
        }
      }
    }
  }

  /** The distinct dates of the table in ascending order, as groupby('Date') lists them. */
  function GroupDates(rows: seq<Row>): (dates: seq<Day>)
    ensures StrictlyIncreasing(dates)
    ensures forall d :: d in dates <==> d in DateSet(rows)
  {
    if rows == [] then [] else RangeKeep(MinDate(rows), MaxDate(rows), DateSet(rows))
  }

  /**
   * The dates with fewer than 24 rows, in ascending date order, each with the
   * hours it has and the hours it lacks; empty for an empty table or one
   * without a Date column.
   */
  function DataGaps(df: Frame): seq<Gap> {
    if df.rows == [] || !HasDate(df) then []
    else GapsAmong(GroupDates(df.rows), df.rows)
  }

  /** What check_data_gaps reports: exactly the incomplete dates, once each, in ascending order. */
  lemma DataGapsReportsIncompleteDays(df: Frame)
    ensures df.rows == [] || !HasDate(df) ==> DataGaps(df) == []
    ensures DatesAscending(DataGaps(df))
    ensures forall g :: g in DataGaps(df) ==>
      && g.date in DateSet(df.rows)
      && 1 <= g.hoursFound < HoursPerDay
      && g.hoursFound == DayCount(df.rows, g.date)
      && g.hoursFound + g.hoursMissing == HoursPerDay
    ensures HasDate(df) ==> forall d :: d in DateSet(df.rows) && DayCount(df.rows, d) < HoursPerDay ==>
      Gap(d, DayCount(df.rows, d), HoursPerDay - DayCount(df.rows, d)) in DataGaps(df)
  {
    if df.rows != [] && HasDate(df) {
      DataGapsSound(df.rows);
      DataGapsComplete(df.rows);
      GapsAmongOrdered(GroupDates(df.rows), df.rows);
    }
  }

  /** Each entry reported for the grouped dates is an incomplete date of the table with its counts. */
  lemma DataGapsSound(rows: seq<Row>)
    ensures forall g :: g in GapsAmong(GroupDates(rows), rows) ==>
      && g.date in DateSet(rows)
      && 1 <= g.hoursFound < HoursPerDay
      && g.hoursFound == DayCount(rows, g.date)
      && g.hoursFound + g.hoursMissing == HoursPerDay
  {
    var dates := GroupDates(rows);
    GapsAmongSound(dates, rows);
    forall g | g in GapsAmong(dates, rows)
      ensures g.date in DateSet(rows) && g == Gap(g.date, DayCount(rows, g.date), HoursPerDay - DayCount(rows, g.date))
      ensures DayCount(rows, g.date) < HoursPerDay
    {
      assert g in GapAt(g.date, rows);
    }
  }

  /** Every incomplete date of the table is reported for the grouped dates. */
  lemma DataGapsComplete(rows: seq<Row>)
    ensures forall d :: d in DateSet(rows) && DayCount(rows, d) < HoursPerDay ==>
      Gap(d, DayCount(rows, d), HoursPerDay - DayCount(rows, d)) in GapsAmong(GroupDates(rows), rows)
  {
    GapsAmongComplete(GroupDates(rows), rows);
  }

  /** Walks the dates in ascending order and records each incomplete one; the threshold is not consulted. */
  method CheckDataGaps(df: Frame, thresholdHours: int) returns (gaps: seq<Gap>)
    ensures gaps == DataGaps(df)
  {
    gaps := [];
    if df.rows == [] || !HasDate(df) {
      return;
    }
    var dates := GroupDates(df.rows);
    for i := 0 to |dates|
      invariant gaps == GapsAmong(dates[..i], df.rows)
    {
      var date := dates[i];
      var count := DayCount(df.rows, date);
      GapsAmongExtend(dates, i, df.rows);
      if count < HoursPerDay {
        gaps := gaps + [Gap(date, count, HoursPerDay - count)];
      }
    }
    assert dates[..|dates|] == dates;
  }

  // ---------------------------------------------------------------------------
  // Value ranges

  /** pd.to_numeric(errors='coerce').dropna() of a column: its numeric cells, in row order. */
  function NumericValues(rows: seq<Row>, c: string): (vs: seq<real>)
    ensures |vs| <= |rows|
  {
    if rows == [] then []
    else (if rows[0].CellAt(c).Num? then [rows[0].CellAt(c).value] else []) + NumericValues(rows[1..], c)
  }

  /** The coerced values of a column are exactly the numbers its cells hold. */
  lemma {:induction false} NumericValuesAreCells(rows: seq<Row>, c: string)
    ensures forall v :: v in NumericValues(rows, c) <==> exists r :: r in rows && r.CellAt(c) == Num(v)
  {
    if rows != [] {
      NumericValuesAreCells(rows[1..], c);
      assert forall r :: r in rows <==> r == rows[0] || r in rows[1..] by {
        assert rows == [rows[0]] + rows[1..];
      }
    }
  }

  /** The smallest of a non-empty list of values. */
  function Minimum(vs: seq<real>): (m: real)
    requires vs != []
    ensures m in vs && forall v :: v in vs ==> m <= v
  {
    if |vs| == 1 then vs[0]
    else
      var rest := Minimum(vs[1..]);
      assert forall v :: v in vs ==> v == vs[0] || v in vs[1..];
      if vs[0] <= rest then vs[0] else rest
  }

  /** The largest of a non-empty list of values. */
  function Maximum(vs: seq<real>): (m: real)
    requires vs != []
    ensures m in vs && forall v :: v in vs ==> v <= m
  {
    if |vs| == 1 then vs[0]
    else
      var rest := Maximum(vs[1..]);
      assert forall v :: v in vs ==> v == vs[0] || v in vs[1..];
      if vs[0] >= rest then vs[0] else rest
  }

  /** How many values lie below a bound. */
  function CountBelow(vs: seq<real>, bound: real): (n: nat)
    ensures n <= |vs|
  {
    if vs == [] then 0 else (if vs[0] < bound then 1 else 0) + CountBelow(vs[1..], bound)
  }

  /** How many values lie above a bound. */
  function CountAbove(vs: seq<real>, bound: real): (n: nat)
    ensures n <= |vs|
  {
    if vs == [] then 0 else (if vs[0] > bound then 1 else 0) + CountAbove(vs[1..], bound)
  }

  /** No value lies both below `low` and above `high`, so the two counts never exceed the number of values. */
  lemma {:induction false} CountsDisjoint(vs: seq<real>, low: real, high: real)
    requires low <= high
    ensures CountBelow(vs, low) + CountAbove(vs, high) <= |vs|
  {
    if vs != [] {
      CountsDisjoint(vs[1..], low, high);
    }
  }

  /** A value counted below a bound is in the list and below it, so a non-zero count has a witness. */
  lemma {:induction false} CountBelowWitness(vs: seq<real>, bound: real)
    ensures CountBelow(vs, bound) > 0 <==> exists v :: v in vs && v < bound
  {
    if vs != [] {
      CountBelowWitness(vs[1..], bound);
      assert forall v :: v in vs <==> v == vs[0] || v in vs[1..] by {
        assert vs == [vs[0]] + vs[1..];
      }
      if vs[0] < bound {
        assert vs[0] in vs;
      }
      if exists v :: v in vs && v < bound {
        var v :| v in vs && v < bound;
        if v != vs[0] {
          assert v in vs[1..];
        }
      }
    }
  }

  /** The figures kept for one numeric column (mean and standard deviation are not modelled). */
  datatype RangeStats = RangeStats(min: real, max: real, outliers: nat, suspicious: nat)

  /** The figures of a non-empty list of values: its extremes, its negatives and its values above 50000 MW. */
  function Stats(vs: seq<real>): (st: RangeStats)
    requires vs != []
    ensures st.min in vs && st.max in vs && st.min <= st.max
    ensures forall v :: v in vs ==> st.min <= v <= st.max
    ensures st.outliers + st.suspicious <= |vs|
    ensures st.outliers > 0 <==> st.min < 0.0
    ensures st.suspicious > 0 <==> st.max > SuspiciousAbove
  {
    var st := RangeStats(Minimum(vs), Maximum(vs), CountBelow(vs, 0.0), CountAbove(vs, SuspiciousAbove));
    CountsDisjoint(vs, 0.0, SuspiciousAbove);
    CountBelowWitness(vs, 0.0);
    CountAboveWitness(vs, SuspiciousAbove);
    st
  }

  lemma {:induction false} CountAboveWitness(vs: seq<real>, bound: real)
    ensures CountAbove(vs, bound) > 0 <==> exists v :: v in vs && v > bound
  {
    if vs != [] {
      CountAboveWitness(vs[1..], bound);
      assert forall v :: v in vs <==> v == vs[0] || v in vs[1..] by {
        assert vs == [vs[0]] + vs[1..];
      }
      if vs[0] > bound {
        assert vs[0] in vs;
      }
      if exists v :: v in vs && v > bound {
        var v :| v in vs && v > bound;
        if v != vs[0] {
          assert v in vs[1..];
        }
      }
    }
  }

  /** The figures of each numeric column present that holds at least one number. */
  function ValueRanges(df: Frame): (ranges: map<string, RangeStats>)
    ensures forall c :: c in ranges <==>
      c in NumericColumns && c in df.columns && exists r :: r in df.rows && r.CellAt(c).Num?
    ensures forall c :: c in ranges ==> ColumnFigures(df.rows, c, ranges[c])
  {
    assert forall c :: NumericValues(df.rows, c) != [] <==> exists r :: r in df.rows && r.CellAt(c).Num? by {
      forall c ensures NumericValues(df.rows, c) != [] <==> exists r :: r in df.rows && r.CellAt(c).Num? {
        ColumnHasNumbers(df.rows, c);
      }
    }
    var ranges := Figures(df);
    assert forall c :: c in ranges ==> ColumnFigures(df.rows, c, ranges[c]) by {
      forall c | c in ranges ensures ColumnFigures(df.rows, c, ranges[c]) {
        StatsDescribeColumn(df.rows, c);
      }
    }
    ranges
  }

  /**
   * Stats of the coerced values of each numeric column present that holds at
   * least one: the map ValueRanges returns. It is kept apart, without a
   * contract, so that proving CheckValueRanges equal to it does not carry
   * ValueRanges' quantified ensures into the loop's proof, which would take it
   * past the solver's resource limit.
   */
  function Figures(df: Frame): map<string, RangeStats> {
    map c | c in NumericColumns && c in df.columns && NumericValues(df.rows, c) != [] :: Stats(NumericValues(df.rows, c))
  }

  /** A column's coerced values are non-empty iff some row holds a number there. */
  lemma ColumnHasNumbers(rows: seq<Row>, c: string)
    ensures NumericValues(rows, c) != [] <==> exists r :: r in rows && r.CellAt(c).Num?
  {
    var vs := NumericValues(rows, c);
    NumericValuesAreCells(rows, c);
    if vs != [] {
      assert vs[0] in vs;
    }
    if exists r :: r in rows && r.CellAt(c).Num? {
      var r :| r in rows && r.CellAt(c).Num?;
      assert r.CellAt(c) == Num(r.CellAt(c).value);
      assert r.CellAt(c).value in vs;
    }
  }

  /**
   * `st` describes the numbers of column c: its extremes are cells of the
   * column and bound every number there, and its two counts are positive
   * iff some number is negative, or above 50000 MW.
   */
  ghost predicate ColumnFigures(rows: seq<Row>, c: string, st: RangeStats) {
    && (exists r :: r in rows && r.CellAt(c) == Num(st.min))
    && (exists r :: r in rows && r.CellAt(c) == Num(st.max))
    && (forall r :: r in rows && r.CellAt(c).Num? ==> st.min <= r.CellAt(c).value <= st.max)
    && (st.outliers > 0 <==> exists r :: r in rows && r.CellAt(c).Num? && r.CellAt(c).value < 0.0)
    && (st.suspicious > 0 <==> exists r :: r in rows && r.CellAt(c).Num? && r.CellAt(c).value > SuspiciousAbove)
  }

  /** The figures of a column's coerced values describe the column's numeric cells. */
  lemma StatsDescribeColumn(rows: seq<Row>, c: string)
    requires NumericValues(rows, c) != []
    ensures ColumnFigures(rows, c, Stats(NumericValues(rows, c)))
  {
    var vs := NumericValues(rows, c);
    var st := Stats(vs);
    NumericValuesAreCells(rows, c);
    forall r | r in rows && r.CellAt(c).Num? ensures st.min <= r.CellAt(c).value <= st.max {
      assert r.CellAt(c) == Num(r.CellAt(c).value);
      assert r.CellAt(c).value in vs;
    }
    if exists r :: r in rows && r.CellAt(c).Num? && r.CellAt(c).value < 0.0 {
      var r :| r in rows && r.CellAt(c).Num? && r.CellAt(c).value < 0.0;
      assert st.min <= r.CellAt(c).value;
    }
    if st.outliers > 0 {
      assert st.min < 0.0;
      var r :| r in rows && r.CellAt(c) == Num(st.min);
    }
    if exists r :: r in rows && r.CellAt(c).Num? && r.CellAt(c).value > SuspiciousAbove {
      var r :| r in rows && r.CellAt(c).Num? && r.CellAt(c).value > SuspiciousAbove;
      assert r.CellAt(c).value <= st.max;
    }
    if st.suspicious > 0 {
      assert st.max > SuspiciousAbove;
      var r :| r in rows && r.CellAt(c) == Num(st.max);
    }
  }

  /** Takes the numeric columns in turn and records the figures of those that hold numbers. */
  method CheckValueRanges(df: Frame) returns (ranges: map<string, RangeStats>)
    ensures ranges == ValueRanges(df)
  {
    ranges := map[];
    if df.rows == [] {
      return;
    }
    for i := 0 to |NumericColumns|
      invariant forall c :: c in ranges <==>
        c in NumericColumns[..i] && c in df.columns && NumericValues(df.rows, c) != []
      invariant forall c :: c in ranges ==> ranges[c] == Stats(NumericValues(df.rows, c))
    {
      var column := NumericColumns[i];
      if column in df.columns {
        var values := NumericValues(df.rows, column);
        if |values| > 0 {
          ranges := ranges[column := Stats(values)];
        }
      }
    }
    assert NumericColumns[..|NumericColumns|] == NumericColumns;
    assert ranges == Figures(df);
  }

  // ---------------------------------------------------------------------------
  // Coverage

  /** The rows whose parsed date (midnight of the row's day) lies between two timestamps, both included. */
  function CountInWindow(rows: seq<Row>, start: Instant, end: Instant): (n: nat)
    ensures n <= |rows|
  {
    if rows == [] then 0
    else
      var t := Midnight(rows[0].date);
      (if InstantLe(start, t) && InstantLe(t, end) then 1 else 0) + CountInWindow(rows[1..], start, end)
  }

  /** The rows dated lo..hi. */
  function DaysCount(rows: seq<Row>, lo: Day, hi: Day): (n: nat)
    ensures n <= |rows|
  {
    if rows == [] then 0
    else (if lo <= rows[0].date <= hi then 1 else 0) + DaysCount(rows[1..], lo, hi)
  }

  /**
   * The share of expected hourly rows present in the window from `daysBack`
   * days before now up to now, as an exact percentage: 24 rows are expected
   * for each of the daysBack + 1 daily timestamps of the window.
   */
  function Coverage(df: Frame, now: Instant, daysBack: int): (p: real)
    ensures p >= 0.0
    ensures df.rows == [] || !HasDate(df) || daysBack < 0 ==> p == 0.0
  {
    if df.rows == [] || !HasDate(df) then 0.0
    else
      var start := DaysBefore(now, daysBack);
      var expected := if daysBack >= 0 then (daysBack + 1) * HoursPerDay else 0;
      var actual := CountInWindow(df.rows, start, now);
      if expected > 0 then 100.0 * actual as real / expected as real else 0.0
  }

  /**
   * The first day whose rows fall in the window. The window starts at now's
   * time of day while a row's date parses to midnight, so rows of the start
   * day count only when now is exactly midnight.
   */
  function FirstCountedDay(now: Instant, daysBack: int): (d: Day)
    ensures forall day: Day :: InstantLe(DaysBefore(now, daysBack), Midnight(day)) <==> d <= day
  {
    if now.micros == 0 then now.day - daysBack else now.day - daysBack + 1
  }

  /** The rows in the window are exactly those dated from FirstCountedDay to today. */
  lemma {:induction false} WindowIsDays(rows: seq<Row>, now: Instant, daysBack: int)
    ensures CountInWindow(rows, DaysBefore(now, daysBack), now) == DaysCount(rows, FirstCountedDay(now, daysBack), now.day)
  {
    if rows != [] {
      WindowIsDays(rows[1..], now, daysBack);
    }
  }

  /** Coverage counts the rows dated from FirstCountedDay to today against 24 per day of the window. */
  lemma CoverageCountsDays(df: Frame, now: Instant, daysBack: nat)
    requires df.rows != [] && HasDate(df)
    ensures Coverage(df, now, daysBack) ==
      100.0 * DaysCount(df.rows, FirstCountedDay(now, daysBack), now.day) as real / ((daysBack + 1) * HoursPerDay) as real
  {
    WindowIsDays(df.rows, now, daysBack);
  }

  /** Counting up to hi is counting up to the day before plus the rows of day hi. */
  lemma {:induction false} DaysCountLast(rows: seq<Row>, lo: Day, hi: Day)
    requires lo <= hi
    ensures DaysCount(rows, lo, hi) == DaysCount(rows, lo, hi - 1) + DayCount(rows, hi)
  {
    if rows != [] {
      DaysCountLast(rows[1..], lo, hi);
    }
  }

  /** Days that each hold 24 rows hold 24 rows per day together. */
  lemma {:induction false} DaysCountFull(rows: seq<Row>, lo: Day, hi: Day)
    requires lo <= hi + 1
    requires forall d :: lo <= d <= hi ==> DayCount(rows, d) == HoursPerDay
    ensures DaysCount(rows, lo, hi) == HoursPerDay * (hi - lo + 1)
    decreases hi - lo
  {
    if lo <= hi {
      DaysCountFull(rows, lo, hi - 1);
      DaysCountLast(rows, lo, hi);
    } else {
      DaysCountEmpty(rows, lo, hi);
    }
  }

  lemma {:induction false} DaysCountEmpty(rows: seq<Row>, lo: Day, hi: Day)
    requires hi < lo
    ensures DaysCount(rows, lo, hi) == 0
  {
    if rows != [] {
      DaysCountEmpty(rows[1..], lo, hi);
    }
  }

  /**
   * A table with 24 rows on every day of the window reaches 100% only when
   * now is exactly midnight; at any other time the start day's rows fall
   * outside the window and coverage is daysBack / (daysBack + 1) of 100%.
   */
  lemma CoverageFullWindow(df: Frame, now: Instant, daysBack: nat)
    requires df.rows != [] && HasDate(df)
    requires forall d :: now.day - daysBack <= d <= now.day ==> DayCount(df.rows, d) == HoursPerDay
    ensures now.micros == 0 ==> Coverage(df, now, daysBack) == 100.0
    ensures now.micros != 0 ==> Coverage(df, now, daysBack) == 100.0 * daysBack as real / (daysBack + 1) as real
  {
    CoverageCountsDays(df, now, daysBack);
    var first := FirstCountedDay(now, daysBack);
    DaysCountFull(df.rows, first, now.day);
    var count := DaysCount(df.rows, first, now.day);
    var expected := ((daysBack + 1) * HoursPerDay) as real;
    if now.micros == 0 {
      assert count as real == expected;
      WholeIsHundred(expected);
    } else {
      assert count as real == 24.0 * daysBack as real;
      assert expected == 24.0 * (daysBack + 1) as real;
      CommonFactor(daysBack as real, (daysBack + 1) as real, 24.0);
    }
  }

  /** A positive whole is 100% of itself. */
  lemma WholeIsHundred(whole: real)
    requires whole > 0.0
    ensures 100.0 * whole / whole == 100.0
  {
  }

  /** A factor common to part and whole does not change the percentage. */
  lemma CommonFactor(part: real, whole: real, k: real)
    requires whole > 0.0 && k > 0.0
    ensures 100.0 * (k * part) / (k * whole) == 100.0 * part / whole
  {
    assert (k * part) / (k * whole) == part / whole;
  }

  /** The hours of the rows dated d. */
  function HoursOn(rows: seq<Row>, d: Day): set<int> {
    set r | r in rows && r.date == d :: r.hour
  }

  /** With unique keys, each row of day d has an hour of its own. */
  lemma {:induction false} HoursOnCount(rows: seq<Row>, d: Day)
    requires UniqueKeys(rows)
    ensures |HoursOn(rows, d)| == DayCount(rows, d)
  {
    if rows != [] {
      var h, t := rows[0], rows[1..];
      UniqueKeysCons(rows);
      HeadOrTail(rows);
      HoursOnCount(t, d);
      if h.date == d {
        assert HoursOn(rows, d) == HoursOn(t, d) + {h.hour};
        assert h.hour !in HoursOn(t, d);
      } else {
        assert HoursOn(rows, d) == HoursOn(t, d);
      }
    }
  }

  /** With unique keys and hours 0..23, no day holds more than 24 rows. */
  lemma DayCountAtMostFull(rows: seq<Row>, d: Day)
    requires UniqueKeys(rows)
    requires forall r :: r in rows ==> 0 <= r.hour < HoursPerDay
    ensures DayCount(rows, d) <= HoursPerDay
  {
    HoursOnCount(rows, d);
    var hours := HoursOn(rows, d);
    var slots := DayRange(0, HoursPerDay - 1);
    DayRangeSize(0, HoursPerDay - 1);
    assert hours <= slots;
    assert |slots - hours| == |slots| - |hours|;
  }

  /** Days of at most 24 rows each hold at most 24 rows per day together. */
  lemma {:induction false} DaysCountAtMostFull(rows: seq<Row>, lo: Day, hi: Day)
    requires lo <= hi + 1
    requires forall d :: lo <= d <= hi ==> DayCount(rows, d) <= HoursPerDay
    ensures DaysCount(rows, lo, hi) <= HoursPerDay * (hi - lo + 1)
    decreases hi - lo
  {
    if lo <= hi {
      DaysCountAtMostFull(rows, lo, hi - 1);
      DaysCountLast(rows, lo, hi);
    } else {
      DaysCountEmpty(rows, lo, hi);
    }
  }

  /** Coverage stays within 0..100 when keys are unique and every hour is one of 0..23. */
  lemma CoverageAtMostFull(df: Frame, now: Instant, daysBack: int)
    requires UniqueKeys(df.rows)
    requires forall r :: r in df.rows ==> 0 <= r.hour < HoursPerDay
    ensures 0.0 <= Coverage(df, now, daysBack) <= 100.0
  {
    if df.rows != [] && HasDate(df) && daysBack >= 0 {
      CoverageCountsDays(df, now, daysBack);
      var first := FirstCountedDay(now, daysBack);
      forall d | first <= d <= now.day ensures DayCount(df.rows, d) <= HoursPerDay {
        DayCountAtMostFull(df.rows, d);
      }
      DaysCountAtMostFull(df.rows, first, now.day);
      var actual := DaysCount(df.rows, first, now.day) as real;
      var expected := ((daysBack + 1) * HoursPerDay) as real;
      PercentAtMostHundred(actual, expected);
    }
  }

  /** A part no larger than the whole is at most 100% of it. */
  lemma PercentAtMostHundred(part: real, whole: real)
    requires 0.0 <= part <= whole && whole > 0.0
    ensures 100.0 * part / whole <= 100.0
  {
    assert part / whole <= 1.0;
  }

  /** The window run_all_checks measures, in days before now. */
  const CoverageDaysBack := 30

  /** Below this percentage coverage is reported low. */
  const CoverageThreshold: real := 90.0

  /**
   * Rounding the 30-day coverage to two decimals never moves it across the
   * 90% threshold: with 744 expected rows, 669 rows give 89.919...% and 670
   * give 90.053...%, both further than 0.005 from 90.
   */
  lemma RoundingKeepsVerdict(df: Frame, now: Instant, shown: real)
    requires -0.005 <= shown - Coverage(df, now, CoverageDaysBack) <= 0.005
    ensures shown < CoverageThreshold <==> Coverage(df, now, CoverageDaysBack) < CoverageThreshold
  {
    if df.rows != [] && HasDate(df) {
      var actual := CountInWindow(df.rows, DaysBefore(now, CoverageDaysBack), now);
      assert Coverage(df, now, CoverageDaysBack) == 100.0 * actual as real / 744.0;
      assert actual <= 669 || actual >= 670;
    }
  }
}
