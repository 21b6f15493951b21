/** The range partitioner of `main`: the number of days in the configured
    range, and the loop that dispatches one fetch per one-day window. */
module Partition {
  import opened TimeStamp

  /** The `(begin, end)` pair handed to one fetch worker. */
  datatype Window = Window(begin: TimeStampMilli, end: TimeStampMilli)

  /** How many times `for i := 1; i < days; i++` runs. */
  function WindowCount(days: int): nat {
    if days > 1 then days - 1 else 0
  }

  /** `int(math.Ceil(endDate.Sub(startDate).Hours() / 24))`, as an integer
      ceiling division of the saturated duration by one day. */
  function RangeDays(startDate: Instant, endDate: Instant): (days: int)
    ensures (days - 1) * DayNs < Sub(endDate, startDate) as int <= days * DayNs
  {
    -((-(Sub(endDate, startDate) as int)) / DayNs)
  }

  /** The k-th window starts k days after startDate and spans one day. */
  ghost predicate IsPartition(startDate: Instant, days: int, ws: seq<Window>) {
    && |ws| == WindowCount(days)
    && forall k :: 0 <= k < |ws| ==>
         ws[k].begin.time == startDate + k * DayNs && ws[k].end.time == startDate + (k + 1) * DayNs
  }

  /** The dates under which results can be recorded: each window's end. */
  function ResultDates(startDate: Instant, days: int): set<Instant> {
    set j | 1 <= j <= WindowCount(days) :: startDate + j * DayNs
  }

  /** The dispatch loop: `begin` starts as startDate (`newTimestampMilli()`
      reads the clock, `now` here, but `fromTime` replaces it), `end` one day
      later, and each iteration dispatches `(begin, end)` and advances both by
      one day. */
  method Dispatch(now: Instant, startDate: Instant, days: int) returns (windows: seq<Window>)
    ensures |windows| == if days > 1 then days - 1 else 0
    ensures IsPartition(startDate, days, windows)
  {
    var begin := TimeStampMilli(now).FromTime(startDate);
    var end := begin.DaysAfter(1);
    windows := [];
    var i := 1;
    while i < days
      invariant 1 <= i && (i <= days || i == 1)
      invariant |windows| == i - 1
      invariant begin.time == startDate + (i - 1) * DayNs
      invariant end.time == begin.time + DayNs
      invariant forall k :: 0 <= k < |windows| ==>
        windows[k].begin.time == startDate + k * DayNs && windows[k].end.time == startDate + (k + 1) * DayNs
    {
      windows := windows + [Window(begin, end)];
      begin, end := begin.DaysAfter(1), end.DaysAfter(1);
      i := i + 1;
    }
  }

  /** Consecutive windows meet: each ends where the next begins, and each
      spans exactly one day. */
  lemma PartitionContiguous(startDate: Instant, days: int, ws: seq<Window>)
    requires IsPartition(startDate, days, ws)
    ensures forall k :: 0 <= k < |ws| ==> ws[k].end.time == ws[k].begin.time + DayNs
    ensures forall k :: 0 <= k < |ws| - 1 ==> ws[k].end == ws[k + 1].begin
  {
  }

  /** Windows are pairwise disjoint and strictly increasing. */
  lemma PartitionIncreasing(startDate: Instant, days: int, ws: seq<Window>, i: int, j: int)
    requires IsPartition(startDate, days, ws)
    requires 0 <= i < j < |ws|
    ensures ws[i].begin.time < ws[i].end.time <= ws[j].begin.time < ws[j].end.time
  {
  }

  /** The window ends are exactly startDate + 1 .. startDate + (days - 1)
      days, and no two windows share one. */
  lemma {:induction false} PartitionEnds(startDate: Instant, days: int, ws: seq<Window>)
    requires IsPartition(startDate, days, ws)
    ensures (set k | 0 <= k < |ws| :: ws[k].end.time) == ResultDates(startDate, days)
    ensures forall i, j :: 0 <= i < j < |ws| ==> ws[i].end.time != ws[j].end.time
  {
    var ends := set k | 0 <= k < |ws| :: ws[k].end.time;
    forall d | d in ResultDates(startDate, days) ensures d in ends {
      var j :| 1 <= j <= WindowCount(days) && d == startDate + j * DayNs;
      assert ws[j - 1].end.time == d;
    }
    forall i, j | 0 <= i < j < |ws| ensures ws[i].end.time != ws[j].end.time {
      PartitionIncreasing(startDate, days, ws, i, j);
    }
  }

  /** The last day of the range, the one beginning days - 1 days after
      startDate, is never dispatched: every window ends on or before it. */
  lemma LastDayNotDispatched(startDate: Instant, days: int, ws: seq<Window>)
    requires IsPartition(startDate, days, ws)
    ensures forall k :: 0 <= k < |ws| ==> ws[k].end.time <= startDate + (days - 1) * DayNs
  {
  }

  /** A range of k whole days (midnight to midnight) yields days == k, so
      k - 1 windows. */
  lemma WholeDayRange(startDate: Instant, k: int)
    requires 0 <= k <= MaxShiftDays
    ensures RangeDays(startDate, startDate + k * DayNs) == k
  {
    var d := Sub(startDate + k * DayNs, startDate) as int;
    assert d == k * DayNs;
    var days := RangeDays(startDate, startDate + k * DayNs);
    assert (days - 1) * DayNs < k * DayNs <= days * DayNs;
  }

  /** Because `Sub` saturates, the day count stays within about ±106752, so
      neither `days` nor the loop counter below it can wrap. */
  lemma DaysBounded(startDate: Instant, endDate: Instant)
    ensures -MaxShiftDays <= RangeDays(startDate, endDate) <= MaxShiftDays + 1
  {
  }
}
