/**
 * The hourly power table: one row per (Date, Timme) observation, with the
 * measurement columns held as cells that may be null or unparseable.
 */
module Records {
  import opened Calendar

  const DateColumn := "Date"
  const HourColumn := "Timme"
  const ForecastColumn := "Prognos (MW)"
  const ConsumptionColumn := "Förbrukning (MW)"

  /** A table cell: empty (NaN), a number, or text that is not a number. */
  datatype Cell = Null | Num(value: real) | Text(text: string)

  /** The identity of a row: its date and its hour-of-day slot. */
  datatype Key = Key(date: Day, hour: int)

  /**
   * One observation. `cells` holds the columns other than Date and Timme;
   * a column a row does not carry reads as null, as after pd.concat of
   * tables with different columns.
   */
  datatype Row = Row(date: Day, hour: int, cells: map<string, Cell>) {
    function RowKey(): Key {
      Key(date, hour)
    }

    function CellAt(column: string): Cell {
      if column in cells then cells[column] else Null
    }

    /** isnull() of this row's cell in a column; Date and Timme always hold a value. */
    predicate IsNullAt(column: string) {
      column != DateColumn && column != HourColumn && CellAt(column).Null?
    }
  }

  /** A loaded table: its header and its rows. */
  datatype Frame = Frame(columns: seq<string>, rows: seq<Row>)

  predicate HasDate(df: Frame) {
    DateColumn in df.columns
  }

  predicate HasHour(df: Frame) {
    HourColumn in df.columns
  }

  /** Ascending order of (Date, Timme), as sort_values(['Date', 'Timme']) orders rows. */
  predicate KeyLt(a: Key, b: Key) {
    a.date < b.date || (a.date == b.date && a.hour < b.hour)
  }

  /** The keys that occur in rows. */
  function KeysOf(rows: seq<Row>): set<Key> {
    set r | r in rows :: r.RowKey()
  }

  /** No two rows share a key. */
  predicate UniqueKeys(rows: seq<Row>) {
    forall i, j :: 0 <= i < j < |rows| ==> rows[i].RowKey() != rows[j].RowKey()
  }

  /** The distinct dates of rows. */
  function DateSet(rows: seq<Row>): set<Day> {
    set r | r in rows :: r.date
  }

  /** The midnight timestamps pd.to_datetime gives the dates of rows. */
  function Midnights(rows: seq<Row>): set<Instant> {
    set r | r in rows :: Midnight(r.date)
  }

  /** The earliest date of a non-empty table. */
  function MinDate(rows: seq<Row>): (m: Day)
    requires rows != []
    ensures m in DateSet(rows)
    ensures forall r :: r in rows ==> m <= r.date
  {
    if |rows| == 1 then rows[0].date
    else
      var rest := MinDate(rows[1..]);
      assert forall r :: r in rows ==> r == rows[0] || r in rows[1..];
      if rows[0].date <= rest then rows[0].date else rest
  }

  /** The latest date of a non-empty table. */
  function MaxDate(rows: seq<Row>): (m: Day)
    requires rows != []
    ensures m in DateSet(rows)
    ensures forall r :: r in rows ==> r.date <= m
  {
    if |rows| == 1 then rows[0].date
    else
      var rest := MaxDate(rows[1..]);
      assert forall r :: r in rows ==> r == rows[0] || r in rows[1..];
      if rows[0].date >= rest then rows[0].date else rest
  }

  /** The number of rows dated d: the size of d's group in groupby('Date'). */
  function DayCount(rows: seq<Row>, d: Day): (n: nat)
    ensures n <= |rows|
    ensures n > 0 <==> d in DateSet(rows)
  {
    if rows == [] then 0
    else
      assert forall r :: r in rows ==> r == rows[0] || r in rows[1..];
      (if rows[0].date == d then 1 else 0) + DayCount(rows[1..], d)
  }

  /** Every element of a non-empty sequence is its head or lies in its tail. */
  lemma HeadOrTail(rows: seq<Row>)
    requires rows != []
    ensures forall r :: r in rows <==> r == rows[0] || r in rows[1..]
    ensures KeysOf(rows) == {rows[0].RowKey()} + KeysOf(rows[1..])
  {
    assert rows == [rows[0]] + rows[1..];
  }

  /** A row sequence has unique keys iff its head's key is absent from its tail and the tail has unique keys. */
  lemma UniqueKeysCons(rows: seq<Row>)
    requires rows != []
    ensures UniqueKeys(rows) <==> rows[0].RowKey() !in KeysOf(rows[1..]) && UniqueKeys(rows[1..])
  {
    HeadOrTail(rows);
    if UniqueKeys(rows) {
      forall i, j | 0 <= i < j < |rows[1..]|
        ensures rows[1..][i].RowKey() != rows[1..][j].RowKey()
      {
        assert rows[1..][i] == rows[i + 1] && rows[1..][j] == rows[j + 1];
      }
    }
    if rows[0].RowKey() !in KeysOf(rows[1..]) && UniqueKeys(rows[1..]) {
      forall i, j | 0 <= i < j < |rows| ensures rows[i].RowKey() != rows[j].RowKey() {
        assert rows[j] == rows[1..][j - 1];
        if i > 0 {
          assert rows[i] == rows[1..][i - 1];
        }
      }
    }
  }

  /** A timestamp equals some row's parsed date iff it is midnight of one of the rows' dates. */
  lemma MidnightsMembers(rows: seq<Row>)
    ensures forall t: Instant :: t in Midnights(rows) <==> t.micros == 0 && t.day in DateSet(rows)
  {
    forall t: Instant | t.micros == 0 && t.day in DateSet(rows) ensures t in Midnights(rows) {
      var r :| r in rows && r.date == t.day;
      assert Midnight(r.date) == t;
    }
  }
}
