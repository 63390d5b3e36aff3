/**
 * Calendar days, naive local timestamps, and the daily ranges that
 * pd.date_range(start, end, freq='D') produces between them.
 *
 * A date is a day ordinal. The data files hold dates as ISO "YYYY-MM-DD"
 * strings, which compare and group exactly as these ordinals do.
 */
module Calendar {

  /** A calendar date as a day ordinal. */
  type Day = int

  /** Microseconds since midnight, the resolution of datetime.now(). */
  type TimeOfDay = t: int | 0 <= t < 86_400_000_000

  /** A naive local timestamp: a calendar day and a time of day. */
  datatype Instant = Instant(day: Day, micros: TimeOfDay)

  /** The timestamp a parsed date string denotes: midnight of that day. */
  function Midnight(d: Day): Instant {
    Instant(d, 0)
  }

  /** Chronological order on timestamps. */
  predicate InstantLe(a: Instant, b: Instant) {
    a.day < b.day || (a.day == b.day && a.micros <= b.micros)
  }

  /** `t - timedelta(days=n)`: the same time of day, n days earlier. */
  function DaysBefore(t: Instant, n: int): Instant {
    Instant(t.day - n, t.micros)
  }

  predicate StrictlyIncreasing(s: seq<Day>) {
    forall i, j :: 0 <= i < j < |s| ==> s[i] < s[j]
  }

  /** The days lo..hi, as a set. */
  function DayRange(lo: Day, hi: Day): (r: set<Day>)
    ensures forall d :: d in r <==> lo <= d <= hi
    decreases hi - lo
  {
    if lo > hi then {} else {lo} + DayRange(lo + 1, hi)
  }

  /**
   * `sorted(set(pd.date_range(Instant(lo, time), Instant(hi, time), freq='D')) - present)`,
   * each timestamp written out as its day: every daily timestamp of the range
   * that is not in `present`, in ascending order.
   */
  function RangeMinus(lo: Day, hi: Day, time: TimeOfDay, present: set<Instant>): (r: seq<Day>)
    ensures StrictlyIncreasing(r)
    ensures forall d :: d in r <==> lo <= d <= hi && Instant(d, time) !in present
    ensures |r| <= if lo <= hi then hi - lo + 1 else 0
    decreases hi - lo
  {
    if lo > hi then []
    else
      var rest := RangeMinus(lo + 1, hi, time, present);
      assert forall i :: 0 <= i < |rest| ==> lo < rest[i] by {
        forall i | 0 <= i < |rest| ensures lo < rest[i] {
          assert rest[i] in rest;
        }
      }
      (if Instant(lo, time) in present then [] else [lo]) + rest
  }

  /** The days lo..hi that are in `present`, in ascending order. */
  function RangeKeep(lo: Day, hi: Day, present: set<Day>): (r: seq<Day>)
    ensures StrictlyIncreasing(r)
    ensures forall d :: d in r <==> lo <= d <= hi && d in present
    decreases hi - lo
  {
    if lo > hi then []
    else
      var rest := RangeKeep(lo + 1, hi, present);
      assert forall i :: 0 <= i < |rest| ==> lo < rest[i] by {
        forall i | 0 <= i < |rest| ensures lo < rest[i] {
          assert rest[i] in rest;
        }
      }
      (if lo in present then [lo] else []) + rest
  }

  /** The range lo..hi holds hi - lo + 1 days. */
  lemma {:induction false} DayRangeSize(lo: Day, hi: Day)
    requires lo <= hi + 1
    ensures |DayRange(lo, hi)| == hi - lo + 1
    decreases hi - lo
  {
    if lo <= hi {
      DayRangeSize(lo + 1, hi);
      assert lo !in DayRange(lo + 1, hi);
    }
  }

  /** When no timestamp of the range is present, every day of the range is reported. */
  lemma {:induction false} RangeMinusNothingPresent(lo: Day, hi: Day, time: TimeOfDay, present: set<Instant>)
    requires lo <= hi + 1
    requires forall d :: lo <= d <= hi ==> Instant(d, time) !in present
    ensures |RangeMinus(lo, hi, time, present)| == hi - lo + 1
    decreases hi - lo
  {
    if lo <= hi {
      RangeMinusNothingPresent(lo + 1, hi, time, present);
    }
  }
}
