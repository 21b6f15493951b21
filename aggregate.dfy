/** The collection loop of `main`. The channel receive, the interrupt and a
    worker's panic are ordered into one trace of events; the loop consumes it
    from the front. */
module Aggregate {
  import opened Wrappers
  import opened TimeStamp
  import opened Partition
  import opened Fetch

  /** What the loop can observe while it waits in `select`: a result on the
      channel, the interrupt signal, or (outside the select) a worker panic
      that kills the process. */
  datatype Event = Arrived(result: ParseResult) | Interrupt | WorkerPanic

  /** Why the loop ended. `Waiting` means the trace ran out first: the real
      loop stays blocked in `select`. */
  datatype Stop = Completed | Cancelled | Aborted | Waiting

  /** In-order insertion into the map: a later reading for a date overwrites
      an earlier one. */
  function Fold(prs: seq<ParseResult>): map<Instant, real> {
    if prs == [] then map[]
    else Fold(prs[..|prs| - 1])[prs[|prs| - 1].date := prs[|prs| - 1].mileage]
  }

  function Dates(prs: seq<ParseResult>): set<Instant> {
    set i | 0 <= i < |prs| :: prs[i].date
  }

  predicate DistinctDates(prs: seq<ParseResult>) {
    forall i, j :: 0 <= i < j < |prs| ==> prs[i].date != prs[j].date
  }

  /** The readings carried by the Arrived events, in order. */
  function Payloads(es: seq<Event>): (prs: seq<ParseResult>)
    ensures |prs| <= |es|
  {
    if es == [] then []
    else Payloads(es[..|es| - 1]) + (if es[|es| - 1].Arrived? then [es[|es| - 1].result] else [])
  }

  /** How many events from the front are results. */
  function LeadingArrivals(es: seq<Event>): (n: nat)
    ensures n <= |es|
    ensures forall j :: 0 <= j < n ==> es[j].Arrived?
    ensures n < |es| ==> !es[n].Arrived?
  {
    if es == [] || !es[0].Arrived? then 0 else 1 + LeadingArrivals(es[1..])
  }

  /** How many results the loop receives: at most one per dispatched window,
      and none after the first non-result event. */
  function Receives(days: int, es: seq<Event>): (n: nat)
    ensures n <= WindowCount(days) && n <= |es|
    ensures n == WindowCount(days) || n == LeadingArrivals(es)
  {
    var a := LeadingArrivals(es);
    if WindowCount(days) <= a then WindowCount(days) else a
  }

  /** The readings the loop records, in arrival order. */
  function Received(days: int, es: seq<Event>): seq<ParseResult> {
    Payloads(es[..Receives(days, es)])
  }

  function StopReason(days: int, es: seq<Event>): Stop {
    var n := Receives(days, es);
    if n == WindowCount(days) then Completed
    else if n == |es| then Waiting
    else if es[n].Interrupt? then Cancelled
    else Aborted
  }

  /** `for i := 1; i < days; i++ { select { ... } }`: insert each received
      result under its date, leave the loop on the interrupt. */
  method Collect(days: int, events: seq<Event>) returns (result: map<Instant, real>, stop: Stop)
    ensures result == Fold(Received(days, events))
    ensures stop == StopReason(days, events)
    ensures |result| <= Receives(days, events) <= WindowCount(days)
  {
    result := map[];
    stop := Completed;
    var i := 1;
    while i < days
      invariant 1 <= i && (i <= days || i == 1)
      invariant i - 1 <= |events|
      invariant forall j :: 0 <= j < i - 1 ==> events[j].Arrived?
      invariant result == Fold(Payloads(events[..i - 1]))
    {
      if i - 1 == |events| {
        stop := Waiting;
        break;
      }
      var e := events[i - 1];
      if e.Interrupt? {
        stop := Cancelled;
        break;
      } else if e.WorkerPanic? {
        stop := Aborted;
        break;
      }
      assert events[..i][..i - 1] == events[..i - 1];
      result := result[e.result.date := e.result.mileage];
      i := i + 1;
    }
    LeadingArrivalsAt(events, i - 1);
    FoldSize(Received(days, events));
  }

  lemma LeadingArrivalsAt(es: seq<Event>, n: nat)
    requires n <= |es|
    requires forall j :: 0 <= j < n ==> es[j].Arrived?
    ensures n <= LeadingArrivals(es)
    ensures n < |es| && !es[n].Arrived? ==> LeadingArrivals(es) == n
  {
  }

  /** Over events that are all results, Payloads is the list of their readings. */
  lemma {:induction false} PayloadsOfArrivals(es: seq<Event>)
    requires forall j :: 0 <= j < |es| ==> es[j].Arrived?
    ensures |Payloads(es)| == |es|
    ensures forall j :: 0 <= j < |es| ==> Payloads(es)[j] == es[j].result
  {
    if es != [] {
      PayloadsOfArrivals(es[..|es| - 1]);
    }
  }

  /** Every reading comes from some Arrived event. */
  lemma {:induction false} PayloadsFromEvents(es: seq<Event>, i: int)
    requires 0 <= i < |Payloads(es)|
    ensures exists j :: 0 <= j < |es| && es[j] == Arrived(Payloads(es)[i])
  {
    var init := es[..|es| - 1];
    if i < |Payloads(init)| {
      PayloadsFromEvents(init, i);
      var j :| 0 <= j < |init| && init[j] == Arrived(Payloads(init)[i]);
      assert es[j] == init[j];
    } else {
      assert es[|es| - 1] == Arrived(Payloads(es)[i]);
    }
  }

  /** The map's keys are exactly the dates received. */
  lemma {:induction false} FoldKeys(prs: seq<ParseResult>)
    ensures Fold(prs).Keys == Dates(prs)
  {
    if prs != [] {
      var init := prs[..|prs| - 1];
      FoldKeys(init);
      assert Dates(prs) == Dates(init) + {prs[|prs| - 1].date} by {
        forall d | d in Dates(prs) ensures d in Dates(init) + {prs[|prs| - 1].date} {
          var i :| 0 <= i < |prs| && prs[i].date == d;
          if i < |init| { assert init[i] == prs[i]; }
        }
        forall d | d in Dates(init) ensures d in Dates(prs) {
          var i :| 0 <= i < |init| && init[i].date == d;
          assert prs[i] == init[i];
        }
      }
    }
  }

  /** The map never has more entries than readings were received. */
  lemma {:induction false} FoldSize(prs: seq<ParseResult>)
    ensures |Fold(prs)| <= |prs|
  {
    if prs != [] {
      FoldSize(prs[..|prs| - 1]);
    }
  }

  /** The value under a date is the one from the last reading with that date. */
  lemma {:induction false} FoldLastWins(prs: seq<ParseResult>, i: int)
    requires 0 <= i < |prs|
    requires forall j :: i < j < |prs| ==> prs[j].date != prs[i].date
    ensures prs[i].date in Fold(prs) && Fold(prs)[prs[i].date] == prs[i].mileage
  {
    if i < |prs| - 1 {
      var init := prs[..|prs| - 1];
      assert init[i] == prs[i];
      FoldLastWins(init, i);
    }
  }

  /** Every entry of the map is the last reading received for its date. */
  lemma {:induction false} FoldSource(prs: seq<ParseResult>, d: Instant)
    requires d in Fold(prs)
    ensures exists i :: 0 <= i < |prs| && prs[i] == ParseResult(d, Fold(prs)[d])
                        && forall j :: i < j < |prs| ==> prs[j].date != d
  {
    var last := prs[|prs| - 1];
    if last.date != d {
      var init := prs[..|prs| - 1];
      FoldSource(init, d);
      var i :| 0 <= i < |init| && init[i] == ParseResult(d, Fold(init)[d])
                && forall j :: i < j < |init| ==> init[j].date != d;
      assert prs[i] == init[i];
      forall j | i < j < |prs| ensures prs[j].date != d {
        if j < |init| { assert prs[j] == init[j]; }
      }
    }
  }

  /** With distinct dates, every reading is in the map and nothing merges. */
  lemma {:induction false} FoldDistinct(prs: seq<ParseResult>)
    requires DistinctDates(prs)
    ensures |Fold(prs)| == |prs|
    ensures forall i :: 0 <= i < |prs| ==> prs[i].date in Fold(prs) && Fold(prs)[prs[i].date] == prs[i].mileage
  {
    if prs != [] {
      var init := prs[..|prs| - 1];
      assert DistinctDates(init) by {
        forall i, j | 0 <= i < j < |init| ensures init[i].date != init[j].date {
          assert init[i] == prs[i] && init[j] == prs[j];
        }
      }
      FoldDistinct(init);
      FoldKeys(init);
      assert prs[|prs| - 1].date !in Fold(init);
      forall i | 0 <= i < |prs| ensures prs[i].date in Fold(prs) && Fold(prs)[prs[i].date] == prs[i].mileage {
        FoldLastWins(prs, i);
      }
    }
  }

  /** When no date is delivered twice, arrival order does not matter: any
      reordering of the same readings folds to the same map. */
  lemma FoldOrderIrrelevant(s: seq<ParseResult>, t: seq<ParseResult>)
    requires DistinctDates(s)
    requires multiset(s) == multiset(t)
    ensures Fold(s) == Fold(t)
  {
    FoldKeys(s);
    FoldKeys(t);
    FoldDistinct(s);
    assert Dates(s) == Dates(t) by {
      forall d | d in Dates(s) ensures d in Dates(t) {
        var i :| 0 <= i < |s| && s[i].date == d;
        assert s[i] in multiset(t);
      }
      forall d | d in Dates(t) ensures d in Dates(s) {
        var i :| 0 <= i < |t| && t[i].date == d;
        assert t[i] in multiset(s);
      }
    }
    forall d | d in Fold(t) ensures Fold(s)[d] == Fold(t)[d] {
      FoldSource(t, d);
      var i :| 0 <= i < |t| && t[i] == ParseResult(d, Fold(t)[d]);
      assert t[i] in multiset(s);
      var j :| 0 <= j < |s| && s[j] == t[i];
    }
  }

  /** The loop never records a date that is not a window end, provided every
      result on the channel came from a dispatched window. */
  lemma CollectedDatesAreResultDates(startDate: Instant, days: int, es: seq<Event>)
    requires forall j :: 0 <= j < |es| && es[j].Arrived? ==> es[j].result.date in ResultDates(startDate, days)
    ensures Fold(Received(days, es)).Keys <= ResultDates(startDate, days)
  {
    var prs := Received(days, es);
    FoldKeys(prs);
    forall d | d in Dates(prs) ensures d in ResultDates(startDate, days) {
      var i :| 0 <= i < |prs| && prs[i].date == d;
      PayloadsFromEvents(es[..Receives(days, es)], i);
    }
  }

  /** An interrupt after k results, with windows still outstanding, stops the
      loop at once: exactly those k results are recorded and nothing later
      in the trace (`later`, whatever it holds) is looked at. */
  lemma CancelKeepsPrefix(days: int, es: seq<Event>, k: nat, later: seq<Event>)
    requires k < WindowCount(days) && k < |es|
    requires forall j :: 0 <= j < k ==> es[j].Arrived?
    requires es[k] == Interrupt
    ensures Receives(days, es) == k
    ensures StopReason(days, es) == Cancelled
    ensures Received(days, es[..k + 1] + later) == Received(days, es)
    ensures DistinctDates(Received(days, es)) ==> |Fold(Received(days, es))| == k
  {
    LeadingArrivalsAt(es, k);
    var es' := es[..k + 1] + later;
    assert es'[..k] == es[..k];
    assert es'[k] == es[k];
    LeadingArrivalsAt(es', k);
    PayloadsOfArrivals(es[..k]);
    if DistinctDates(Received(days, es)) {
      FoldDistinct(Received(days, es));
    }
  }

  /** The traces `main` can produce for the windows `ws`: `src[j]` names the
      worker behind the j-th event when it is a result. Each worker sends
      at most once, and what it sends is `getMileage` of its own window on a
      decoded body. */
  ghost predicate FromWorkers(ws: seq<Window>, es: seq<Event>, src: seq<nat>) {
    && |src| == |es|
    && (forall j :: 0 <= j < |es| && es[j].Arrived? ==>
          src[j] < |ws| && GetMileage(ws[src[j]], Body(Some(es[j].result.mileage * 1000.0))) == Sent(es[j].result))
    && (forall i, j :: 0 <= i < j < |es| && es[i].Arrived? && es[j].Arrived? ==> src[i] != src[j])
  }

  /** Results with pairwise distinct dates give readings with distinct dates. */
  lemma {:induction false} DistinctArrivals(es: seq<Event>)
    requires forall i, j :: 0 <= i < j < |es| && es[i].Arrived? && es[j].Arrived? ==> es[i].result.date != es[j].result.date
    ensures DistinctDates(Payloads(es))
  {
    if es != [] {
      var init := es[..|es| - 1];
      DistinctArrivals(init);
      var last := es[|es| - 1];
      if last.Arrived? {
        forall i | 0 <= i < |Payloads(init)| ensures Payloads(init)[i].date != last.result.date {
          PayloadsFromEvents(init, i);
          var j :| 0 <= j < |init| && init[j] == Arrived(Payloads(init)[i]);
          assert es[j] == init[j];
        }
      }
    }
  }

  /** What the workers of one partition deliver is recorded under distinct
      window ends: no date is received twice, and every key of the map is
      one of the partition's result dates. */
  lemma WorkerResults(startDate: Instant, days: int, ws: seq<Window>, es: seq<Event>, src: seq<nat>)
    requires IsPartition(startDate, days, ws)
    requires FromWorkers(ws, es, src)
    ensures DistinctDates(Received(days, es))
    ensures Fold(Received(days, es)).Keys <= ResultDates(startDate, days)
  {
    PartitionEnds(startDate, days, ws);
    forall j | 0 <= j < |es| && es[j].Arrived? ensures es[j].result.date == ws[src[j]].end.time {
    }
    var p := es[..Receives(days, es)];
    forall i, j | 0 <= i < j < |p| && p[i].Arrived? && p[j].Arrived? ensures p[i].result.date != p[j].result.date {
      assert p[i] == es[i] && p[j] == es[j];
    }
    DistinctArrivals(p);
    forall j | 0 <= j < |es| && es[j].Arrived? ensures es[j].result.date in ResultDates(startDate, days) {
      assert ws[src[j]].end.time in (set k | 0 <= k < |ws| :: ws[k].end.time);
    }
    CollectedDatesAreResultDates(startDate, days, es);
  }
}
