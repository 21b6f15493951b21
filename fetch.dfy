/** The fetch worker `getMileage`, reduced to its decision: what a reply to
    the one request for a window turns into. */
module Fetch {
  import opened Wrappers
  import opened TimeStamp
  import opened Partition

  /** `parseResult`: a reading recorded under a date. */
  datatype ParseResult = ParseResult(date: Instant, mileage: real)

  /** What came back for one request: the client failed, or a body arrived
      that JSON decoding either accepted (`Some` of the `mileage` field, in
      metres) or rejected (`None`). */
  datatype Reply = TransportError | Body(decoded: Option<real>)

  /** What the worker does: send a result on the channel, return silently,
      or panic (which ends the whole process). */
  datatype WorkerOutcome = Sent(result: ParseResult) | Dropped | Panicked

  function GetMileage(w: Window, reply: Reply): (o: WorkerOutcome)
    ensures o.Dropped? <==> reply.TransportError?
    ensures o.Panicked? <==> reply == Body(None)
    ensures o.Sent? ==> o.result.date == w.end.time && o.result.mileage * 1000.0 == reply.decoded.value
  {
    match reply
    case TransportError => Dropped
    case Body(None) => Panicked
    case Body(Some(m)) => Sent(ParseResult(w.end.time, m / 1000.0))
  }

  /** A successful reply is recorded in kilometres under the window's end,
      which is one of the partition's result dates. */
  lemma SentDateIsResultDate(startDate: Instant, days: int, ws: seq<Window>, k: int, meters: real)
    requires IsPartition(startDate, days, ws)
    requires 0 <= k < |ws|
    ensures GetMileage(ws[k], Body(Some(meters))) == Sent(ParseResult(startDate + (k + 1) * DayNs, meters / 1000.0))
    ensures startDate + (k + 1) * DayNs in ResultDates(startDate, days)
  {
    assert 1 <= k + 1 <= WindowCount(days);
  }
}
