# car-online-crawler: a Dafny model of the fetch-and-aggregate core

The crawler reads a vehicle's daily odometer ("mileage") readings from a
telemetry API, one request per day of a configured date range, and saves
them as a two-column sheet sorted by date. This project models the
sequential logic inside `main.go`:

- **`timeStampMilli`**: the value type that wraps a `time.Time`, moves it by
  whole days and prints it as epoch milliseconds (module `TimeStamp`, with
  Go's int64 arithmetic in `GoInt` and `strconv.Itoa` in `Decimal`). An
  instant is an integer count of nanoseconds since the Unix epoch. The day
  shift `time.Duration(days*24) * time.Hour` is computed with explicit int64
  wrap-around. `UnixNano` wraps the same way, and the millisecond division
  truncates toward zero as Go's `/` does.
- **Range partitioner** (module `Partition`): the day count
  `ceil((endDate - startDate) / 24h)` as an integer ceiling division, and
  the dispatch loop `for i := 1; i < days; i++`, which hands out `days - 1`
  contiguous one-day windows starting at the start date.
- **Fetch worker** (module `Fetch`): what a reply turns into. A transport
  error is dropped silently. A body that JSON decoding rejects panics. A
  decoded body sends `mileage / 1000` dated with the window's end.
- **Collector** (module `Aggregate`): the `select` loop. It performs at most
  `days - 1` receives, inserts each result into the map under its date
  (later values overwrite earlier ones) and stops at once on the interrupt.
  Goroutines, the channel and the signal become one input trace of events
  (`Arrived`, `Interrupt`, `WorkerPanic`), and the loop consumes it from
  the front. Arrival order, and which results arrive at all, are whatever
  the trace says. A trace that runs out before the loop ends means the real
  loop stays blocked. `FromWorkers` restricts a trace to those `main` can
  produce for the dispatched windows: each result comes from a distinct
  worker and carries `getMileage`'s result for that worker's window.
- **Export ordering** (module `Export`): `saveToXlsx` without the workbook.
  It collects the map's keys in arbitrary order, sorts them in place on an
  array, and lays out row `i + 1` for the i-th key.
- **End of `main`** (module `Crawler`): save when the map is non-empty, and
  otherwise print "No data to save" and exit 1.

Every `timeStampMilli` helper has a value receiver; `daysBefore`,
`daysAfter`, `now` and `fromTime` return a modified copy, `String` and
`toTime` return a view of it. In the model the type is a datatype, so the
receiver can never change.

Where the code and the system's specification differ, the model follows
the code:

- the specification says the partitioner fails on `endDate <= startDate`. The code computes `days <= 0`,
  dispatches nothing and ends with "No data to save" (exit 1)
  (`Crawler.NothingToDispatch`);
- the specification speaks of windows aligned to the configured zone's midnight. `time.Parse` yields UTC
  midnight and `In(loc)` keeps that instant, so windows start at UTC midnight. Shifts are 24
  hours of elapsed time, not calendar days;
- the last day of the range is never fetched (`Partition.LastDayNotDispatched`). For a range of
  k whole days there are k - 1 windows, and the recorded dates are start + 1 … start + (k - 1) days.
  The model keeps this behaviour as written, because the intent is unconfirmed;
- the specification says a failed request costs one data point and does not abort the run. In the
  code the worker returns without sending, the collector still waits for `days - 1` results, and
  `main` stays blocked until the operator interrupts it (`Crawler.DroppedResultBlocks`).

## Model

| member | source | states |
|---|---|---|
| GoInt.Wrap64 | main.go:50 | the int64 a mathematical result wraps to: congruent to it modulo 2^64, and equal to it when it fits |
| GoInt.Mul64 | main.go:50 | int64 product: congruent to the exact product, equal to it when it fits |
| GoInt.Neg64 | main.go:50 | int64 negation: exact except that -MinInt64 wraps to MinInt64 |
| GoInt.Quo | main.go:60 | Go's `/` truncates toward zero: the quotient has the sign of the dividend and the remainder is smaller than the divisor |
| GoInt.CongruentWrapEqual | main.go:50 | congruent values wrap to the same int64 |
| TimeStamp.AfterShift | main.go:55 | `time.Duration(days*24) * time.Hour` is congruent to days × 24 h, and exactly that for \|days\| ≤ 106751 |
| TimeStamp.BeforeShift | main.go:50 | `time.Duration(-days*24) * time.Hour` is congruent to -days × 24 h, and exactly that for \|days\| ≤ 106751 |
| TimeStamp.Sub | main.go:162 | `endDate.Sub(startDate)` is the difference, saturated to the int64 range |
| TimeStamp.TimeStampMilli.DaysAfter | main.go:54-57 | a new value moved forward by days × 24 h (exactly, within the non-wrapping range; otherwise by the wrapped int64 duration) |
| TimeStamp.TimeStampMilli.DaysBefore | main.go:49-52 | a new value moved back by days × 24 h (exactly, within the non-wrapping range; otherwise by the wrapped int64 duration) |
| TimeStamp.TimeStampMilli.String | main.go:59-61 | the text reads back, through an independent parser, as the nanoseconds divided by 1e6 and truncated toward zero |
| TimeStamp.TimeStampMilli.ToTime | main.go:73-75 | the returned instant is all the value holds: wrapping it again gives back the receiver |
| TimeStamp.TimeStampMilli.UnixNano | main.go:60 | the instant in nanoseconds, unchanged whenever it fits in an int64 |
| TimeStamp.TimeStampMilli.FromTime | main.go:68-71 | the copy holds the new instant, which `toTime` returns |
| TimeStamp.FromTimeToTime | main.go:68-75 | `fromTime` and `toTime` are inverse, and `fromTime` ignores the receiver's instant |
| TimeStamp.ShiftsCancel | main.go:49-57 | the backward duration is the negation of the forward one, except when the forward one is MinInt64 |
| TimeStamp.AfterThenBefore | main.go:49-57 | `daysAfter(n).daysBefore(n)` gives back the receiver if and only if the forward duration is not MinInt64 |
| TimeStamp.BeforeThenAfter | main.go:49-57 | `daysBefore(n).daysAfter(n)` gives back the receiver if and only if the forward duration is not MinInt64 |
| TimeStamp.RoundTrip | main.go:49-57 | within ±106751 days, both round trips give back the original instant |
| TimeStamp.RoundTripFailsAtTwoTo47 | main.go:49-57 | for n = 2^47 days the round trip moves the instant back by 2^64 ns |
| TimeStamp.DaysAfterAdditive | main.go:54-57 | shifting by a and then by b equals shifting by a + b, while no duration wraps |
| TimeStamp.DaysBeforeIsDaysAfterNegated | main.go:49-57 | for every int64 n, moving back n days is moving forward by Go's wrapped -n days, which is -n for every n but MinInt64 |
| TimeStamp.StringRoundTrip | main.go:59-61 | `String()` parses back to the nanoseconds divided by 1e6, truncated toward zero |
| TimeStamp.StringOfWholeMillis | main.go:59-61 | an instant on a whole millisecond renders as exactly its epoch milliseconds |
| Decimal.NatToString | main.go:60 | the digit string of a natural number: never empty, only digits, and no leading zero |
| Decimal.IntToString | main.go:60 | `strconv.Itoa`'s output has a leading '-' exactly for negative numbers, followed by digits without a leading zero |
| Decimal.NatRoundTrip | main.go:60 | the digits of n read back as n |
| Decimal.IntRoundTrip | main.go:60 | parsing `strconv.Itoa(n)` gives back n |
| Decimal.IntToStringInjective | main.go:60 | distinct numbers render as distinct strings |
| Partition.RangeDays | main.go:162 | days is the ceiling of the saturated duration divided by one day: (days - 1) days < duration ≤ days days |
| Partition.DaysBounded | main.go:162 | the day count lies between -106751 and 106752, since the duration it comes from saturates |
| Partition.WholeDayRange | main.go:162 | a range of k whole days gives days = k |
| Partition.Dispatch | main.go:164-175 | the loop issues exactly max(0, days - 1) windows, and the k-th window begins at startDate + k days and ends one day later |
| Partition.PartitionContiguous | main.go:173-174 | each window spans one day and ends where the next begins |
| Partition.PartitionIncreasing | main.go:172-175 | windows are disjoint and strictly increasing |
| Partition.PartitionEnds | main.go:164-175 | the window ends, which serve as result dates, are exactly startDate + 1 … startDate + (days - 1) days, all distinct |
| Partition.LastDayNotDispatched | main.go:162-175 | no window reaches past startDate + (days - 1) days, so the range's last day is never fetched |
| Fetch.GetMileage | main.go:100-112 | drop exactly on a transport error, panic exactly on an undecodable body, otherwise send the reading divided by 1000 under the window's end |
| Fetch.SentDateIsResultDate | main.go:112 | a result from the k-th window is recorded under startDate + (k + 1) days, one of the partition's result dates |
| Aggregate.Collect | main.go:177-187 | the final map is the in-order fold of the received prefix. The stop reason follows the trace. The map's size is at most the number of receives, which is at most days - 1 |
| Aggregate.FoldKeys | main.go:182 | the map's keys are exactly the received dates |
| Aggregate.FoldSize | main.go:182 | the map has no more entries than readings received |
| Aggregate.FoldLastWins | main.go:182 | a date's value is that of its last reading |
| Aggregate.FoldSource | main.go:182 | every entry is the last reading received for its date |
| Aggregate.FoldDistinct | main.go:182 | with distinct dates, every reading is in the map and the size equals the count |
| Aggregate.FoldOrderIrrelevant | main.go:177-187 | with distinct dates, any reordering of the readings yields the same map |
| Aggregate.DistinctArrivals | main.go:181-182 | results whose dates differ pairwise are recorded as readings with distinct dates |
| Aggregate.WorkerResults | main.go:172-187 | when the results come from the workers of one partition, each sending at most once under its window's end (main.go:112), no date is received twice and every key of the map is a window end |
| Aggregate.CollectedDatesAreResultDates | main.go:177-187 | if every result comes from a dispatched window, every recorded date is a window end |
| Aggregate.CancelKeepsPrefix | main.go:183-185 | an interrupt after k receives stops the loop at once: exactly those k readings are kept and later events are never read |
| Aggregate.PayloadsOfArrivals | main.go:181-182 | over a run of received results, the recorded readings are those results in order |
| Export.Keys | main.go:118-121 | every key of the map appears exactly once |
| Export.SortAscending | main.go:122 | the array ends ascending and is a permutation of what it held |
| Export.SortedPermutationOfDistinct | main.go:118-122 | sorting distinct keys gives a strictly increasing sequence |
| Export.StrictlyIncreasingUnique | main.go:122 | two strictly increasing sequences with the same members are equal |
| Export.SaveToXlsx | main.go:116-129 | the rows are numbered from 1 and have strictly ascending dates; each row carries its date's value, every key has a row, and the row count equals the map's size |
| Export.ExportDeterministic | main.go:116-129 | whatever order the map yields its keys in, the rows are the same |
| Export.ExportSize | main.go:126-129 | one row per map entry, and no row for an empty map |
| Crawler.Crawl | main.go:162-197 | the windows form the partition. Then: a crash on a worker panic, blocked on an exhausted trace, otherwise "No data" for an empty map, a fatal exit on a failed save, or the sorted export |
| Crawler.ExitStatus | main.go:189-197 | exit 0 exactly after a save; 1 exactly for "No data to save" or a failed save; 2 exactly for a worker's panic; no exit exactly when blocked |
| Crawler.DroppedResultBlocks | main.go:177-187 | when fewer results arrive than windows were dispatched, as after a dropped reply (main.go:101-103), the run stays blocked and never exits |
| Crawler.ExitOneIffEmpty | main.go:189-197 | a run that ends normally exits 1 exactly when nothing was collected, and otherwise exits 0 with one row per date |
| Crawler.NothingToDispatch | main.go:172-197 | days ≤ 1 dispatches nothing and ends with "No data to save", exit 1 |
| Crawler.ArrivalOrderIrrelevant | main.go:172-190 | two runs over the same windows, whose workers deliver the same readings in different orders, write identical rows |
| Crawler.WorkerRunSaves | main.go:172-197 | a run whose results come from the partition's workers and that saves writes one row per received result, each dated with a window end and carrying that result's reading |
| Crawler.ExportOfDistinct | main.go:116-129 | readings with distinct dates export to exactly one row each, holding that reading |
| Crawler.CancelledRunSavesPrefix | main.go:172-190 | an interrupt after k > 0 worker results still saves, with exactly those k readings as rows, and exits 0 |

## Left out

- Request construction and transport (`setParam`, `http.NewRequest`, `client.Do`) are opaque library behaviour. A reply is an input of `Fetch.GetMileage`.
- JSON decoding is a library call. Its outcome is an input: `Some(m)` for an accepted body, which for a body without the field is 0, and `None` for a rejected one. The ignored error of `ioutil.ReadAll` is folded into that input.
- Fetch.GetMileage: `mileage / 1000` is float64 division in the source. The model divides exactly on `real`, so float rounding is not modelled.
- Partition.RangeDays: the source computes `math.Ceil(d.Hours() / 24)` in float64. The model uses exact integer ceiling division. The two agree for whole-day differences below millions of days, which are exact in float64. They also agree when `Sub` saturates: MaxInt64 and MinInt64 nanoseconds are about ±106751.99 days, not whole days, and both computations round them up to 106752 and -106751.
- Goroutines, the unbuffered channel, the `select` race and `signal.Notify` are concurrency. A single trace of events replaces them.
- Crawler.Crawl: a worker panic is modelled only while the collector waits. A panic during the export or after the loop has ended is not ordered into the trace.
- Configuration loading (`os.Open`, YAML), `time.LoadLocation` and `time.Parse` are file I/O and library parsing. The start and end instants are inputs.
- `now` and `newTimestampMilli` read the wall clock. The clock value is a parameter of `Partition.Dispatch`, where `fromTime` overwrites it.
- Time zones are left out. Map keys compare as instants, so the strictly ascending dates of `Export.SaveToXlsx` are ascending instants. Every key is a UTC midnight, and column A shows it with `Format` in the configured location (main.go:127). West of UTC that text is the previous calendar day. Where the zone's offset drops across a key (for example Atlantic/Azores going from +0 to -1 in autumn), two consecutive rows can show the same date text.
- `t.Format("2006-01-02")` (column A's text) is calendar formatting in a zone. A row carries the instant instead.
- excelize workbook creation and saving, logging and printing are external sinks. The failure of `SaveAs` is the `saveFails` input of `Crawler.Crawl`.
- TimeStamp.RoundTrip: stated for |days| ≤ 106751, the range where the int64 duration cannot wrap. `TimeStamp.AfterThenBefore` gives the exact condition for every int64.
- TimeStamp.DaysAfterAdditive: stated only while no duration wraps, because wrapped durations do not add.
- Go's `int` is taken to be 64 bits wide, as on every 64-bit target. On a 32-bit target two places would wrap at 2^31. The first is `days*24` inside `daysBefore`/`daysAfter`. The second is the `int(...)` conversion in `String` (main.go:60), which would truncate every epoch-millisecond count after 1970-01-25, and with it every `begin`/`end` query value (main.go:96-97). `GoInt` models only the 64-bit width.
- Go's `time.Time` arithmetic is modelled on unbounded integers. Its own saturation lies far beyond any int64 duration.
