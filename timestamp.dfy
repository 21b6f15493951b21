/** The `timeStampMilli` value type of main.go: a `time.Time` wrapped so that
    it prints as epoch milliseconds, with value-receiver helpers that shift it
    by whole days. An instant is a count of nanoseconds since the Unix epoch. */
module TimeStamp {
  import opened GoInt
  import opened Wrappers
  import opened Decimal

  type Instant = int

  /** `time.Millisecond`, `time.Hour` and 24 hours, in nanoseconds. */
  const Millisecond: int := 1_000_000
  const Hour: int64 := 3_600_000_000_000
  const DayNs: int := 86_400_000_000_000

  /** The largest whole number of days whose length in nanoseconds fits in a
      `time.Duration` (an int64); beyond it the duration wraps around. */
  const MaxShiftDays: int := 106751

  /** `time.Duration(days*24) * time.Hour`, computed in int64. */
  function AfterShift(days: int64): (d: int64)
    ensures Congruent(d as int, days as int * DayNs)
    ensures -MaxShiftDays <= days as int <= MaxShiftDays ==> d as int == days as int * DayNs
  {
    var h := Mul64(days, 24);
    assert Congruent(h as int * Hour as int, days as int * 24 * Hour as int) by {
      CongruentScale(h as int, days as int * 24, Hour as int);
    }
    CongruentTrans(Mul64(h, Hour) as int, h as int * Hour as int, days as int * DayNs);
    Mul64(h, Hour)
  }

  /** `time.Duration(-days*24) * time.Hour`, computed in int64 (the negation
      and both products wrap). */
  function BeforeShift(days: int64): (d: int64)
    ensures Congruent(d as int, -(days as int) * DayNs)
    ensures -MaxShiftDays <= days as int <= MaxShiftDays ==> d as int == -(days as int) * DayNs
  {
    var n := Neg64(days);
    var h := Mul64(n, 24);
    CongruentScale(n as int, -(days as int), 24);
    CongruentTrans(h as int, n as int * 24, -(days as int) * 24);
    CongruentScale(h as int, -(days as int) * 24, Hour as int);
    CongruentTrans(Mul64(h, Hour) as int, h as int * Hour as int, -(days as int) * DayNs);
    Mul64(h, Hour)
  }

  /** `time.Time.Sub`: the duration u - t, saturated to the int64 range. */
  function Sub(u: Instant, t: Instant): (d: int64)
    ensures MinInt64 <= u - t <= MaxInt64 ==> d as int == u - t
    ensures u - t > MaxInt64 ==> d as int == MaxInt64
    ensures u - t < MinInt64 ==> d as int == MinInt64
  {
    if u - t > MaxInt64 then MaxInt64 as int64
    else if u - t < MinInt64 then MinInt64 as int64
    else (u - t) as int64
  }

  datatype TimeStampMilli = TimeStampMilli(time: Instant) {

    /** `daysBefore`: a copy moved back by `days` days of 24 hours. */
    function DaysBefore(days: int64): (r: TimeStampMilli)
      ensures -MaxShiftDays <= days as int <= MaxShiftDays ==> r.time == time - days as int * DayNs
      ensures Congruent(r.time - time, -(days as int) * DayNs) && MinInt64 <= r.time - time <= MaxInt64
    {
      TimeStampMilli(time + BeforeShift(days) as int)
    }

    /** `daysAfter`: a copy moved forward by `days` days of 24 hours. */
    function DaysAfter(days: int64): (r: TimeStampMilli)
      ensures -MaxShiftDays <= days as int <= MaxShiftDays ==> r.time == time + days as int * DayNs
      ensures Congruent(r.time - time, days as int * DayNs) && MinInt64 <= r.time - time <= MaxInt64
    {
      TimeStampMilli(time + AfterShift(days) as int)
    }

    /** `time.Time.UnixNano`: the instant in nanoseconds as an int64 (Go's
        implementation wraps for instants outside roughly 1678..2262). */
    function UnixNano(): (ns: int64)
      ensures MinInt64 <= time <= MaxInt64 ==> ns as int == time
    {
      Wrap64(time)
    }

    /** `String`: decimal epoch milliseconds, `UnixNano() / 1e6` truncated. */
    function String(): (s: string)
      ensures ParseInt(s) == Some(Quo(UnixNano() as int, Millisecond))
    {
      IntRoundTrip(Quo(UnixNano() as int, Millisecond));
      IntToString(Quo(UnixNano() as int, Millisecond))
    }

    /** `fromTime`: a copy holding `newTime`; the receiver's own instant is
        discarded. */
    function FromTime(newTime: Instant): (r: TimeStampMilli)
      ensures r.ToTime() == newTime
    {
      TimeStampMilli(newTime)
    }

    /** `toTime`: the wrapped instant, which alone determines the value. */
    function ToTime(): (t: Instant)
      ensures TimeStampMilli(t) == this
    {
      time
    }
  }

  /** `fromTime` and `toTime` are inverse, whatever the receiver held. */
  lemma FromTimeToTime(t: TimeStampMilli, u: TimeStampMilli, x: Instant)
    ensures t.FromTime(x).ToTime() == x
    ensures t.FromTime(t.ToTime()) == t
    ensures t.FromTime(x) == u.FromTime(x)
  {
  }

  /** Moving forward then back by the same number of days returns the
      original instant exactly when the int64 duration is not MinInt64
      (the one value whose negation wraps to itself). */
  lemma {:induction false} AfterThenBefore(t: TimeStampMilli, days: int64)
    ensures t.DaysAfter(days).DaysBefore(days) == t <==> AfterShift(days) as int != MinInt64
  {
    ShiftsCancel(days);
  }

  /** The same for moving back first. */
  lemma {:induction false} BeforeThenAfter(t: TimeStampMilli, days: int64)
    ensures t.DaysBefore(days).DaysAfter(days) == t <==> AfterShift(days) as int != MinInt64
  {
    ShiftsCancel(days);
  }

  lemma {:induction false} ShiftsCancel(days: int64)
    ensures AfterShift(days) as int != MinInt64 ==> BeforeShift(days) as int == -(AfterShift(days) as int)
    ensures AfterShift(days) as int == MinInt64 ==> BeforeShift(days) as int == MinInt64
  {
    var a, b := AfterShift(days) as int, BeforeShift(days) as int;
    var whole := days as int * DayNs;
    assert -(days as int) * DayNs == -whole;
    // b is congruent to -a, and both are int64 values
    CongruentNeg(a, whole);
    CongruentSym(b, -whole);
    CongruentTrans(-a, -whole, b);
    WrapUnique(-a, b);
    if a == MinInt64 {
      assert Wrap64(-a) as int == MinInt64;
    }
  }

  /** Within the range where the duration does not wrap, both round trips
      hold. */
  lemma RoundTrip(t: TimeStampMilli, days: int64)
    requires -MaxShiftDays <= days as int <= MaxShiftDays
    ensures t.DaysAfter(days).DaysBefore(days) == t
    ensures t.DaysBefore(days).DaysAfter(days) == t
  {
    AfterThenBefore(t, days);
    BeforeThenAfter(t, days);
  }

  /** 2^47 days is an input for which the round trip fails: the duration of
      2^47 * 24 hours wraps to exactly MinInt64, so both shifts move the
      instant back by 2^63 nanoseconds. */
  lemma RoundTripFailsAtTwoTo47(t: TimeStampMilli)
    ensures t.DaysAfter(0x8000_0000_0000).DaysBefore(0x8000_0000_0000).time == t.time - TwoTo64
  {
    var n: int64 := 0x8000_0000_0000;
    assert Mul64(n, 24) as int == 0x8000_0000_0000 * 24;
    assert AfterShift(n) as int == MinInt64;
    ShiftsCancel(n);
  }

  /** Day shifts compose additively while no duration wraps. */
  lemma DaysAfterAdditive(t: TimeStampMilli, a: int64, b: int64)
    requires -MaxShiftDays <= a as int <= MaxShiftDays
    requires -MaxShiftDays <= b as int <= MaxShiftDays
    requires -MaxShiftDays <= a as int + b as int <= MaxShiftDays
    ensures t.DaysAfter(a).DaysAfter(b) == t.DaysAfter(a + b)
  {
  }

  /** Moving back n days is moving forward by Go's negation of n, which is
      -n for every n except MinInt64 (whose negation wraps to itself). */
  lemma DaysBeforeIsDaysAfterNegated(t: TimeStampMilli, days: int64)
    ensures t.DaysBefore(days) == t.DaysAfter(Neg64(days))
    ensures days as int != MinInt64 ==> t.DaysBefore(days) == t.DaysAfter(-days)
  {
  }

  /** The rendered text parses back to the instant's milliseconds: the
      nanoseconds divided by 1e6 and truncated toward zero. */
  lemma StringRoundTrip(t: TimeStampMilli)
    ensures ParseInt(t.String()).Some?
    ensures var ms, ns := ParseInt(t.String()).value, t.UnixNano() as int;
      && (ns >= 0 ==> 0 <= ms && ms * Millisecond <= ns < ms * Millisecond + Millisecond)
      && (ns < 0 ==> ms <= 0 && ms * Millisecond - Millisecond < ns <= ms * Millisecond)
  {
    IntRoundTrip(Quo(t.UnixNano() as int, Millisecond));
  }

  /** An instant on a whole millisecond (every day boundary is one) renders
      as exactly its millisecond count. */
  lemma StringOfWholeMillis(t: TimeStampMilli)
    requires MinInt64 <= t.time <= MaxInt64
    requires t.time % Millisecond == 0
    ensures ParseInt(t.String()) == Some(t.time / Millisecond)
  {
    IntRoundTrip(Quo(t.UnixNano() as int, Millisecond));
  }
}
