/** `main` after the configuration is loaded: count the days, dispatch one
    fetch per window, collect, then either export or report that there is
    nothing to save. */
module Crawler {
  import opened TimeStamp
  import opened Partition
  import opened Fetch
  import opened Aggregate
  import opened Export

  /** How the process ends. `Saved` writes the rows and exits 0; `NoData`
      prints "No data to save" and exits 1; `SaveFailed` is `log.Fatalf`
      after a failed save (exit 1); `Crashed` is a worker's panic (exit 2);
      `Blocked` never exits: the collector waits for a result that does not
      come. */
  datatype Outcome = Saved(rows: seq<Row>) | NoData | SaveFailed | Crashed | Blocked

  datatype ExitCode = Exits(code: int) | Runs

  /** The process's exit status: 0 after a save, 1 from `os.Exit(1)` or
      `log.Fatalf`, 2 from the runtime on an unrecovered panic, and none for
      a run that stays blocked. */
  function ExitStatus(o: Outcome): (e: ExitCode)
    ensures e == Runs <==> o == Blocked
    ensures e == Exits(0) <==> o.Saved?
    ensures e == Exits(1) <==> o == NoData || o == SaveFailed
    ensures e == Exits(2) <==> o == Crashed
  {
    match o
    case Saved(_) => Exits(0)
    case NoData => Exits(1)
    case SaveFailed => Exits(1)
    case Crashed => Exits(2)
    case Blocked => Runs
  }

  /** The end of `main`, given what the collector saw; `saveFails` stands for
      the workbook's `SaveAs` returning an error. */
  ghost predicate Finishes(res: map<Instant, real>, stop: Stop, saveFails: bool, o: Outcome) {
    match stop
    case Aborted => o == Crashed
    case Waiting => o == Blocked
    case _ =>
      if res == map[] then o == NoData
      else if saveFails then o == SaveFailed
      else o.Saved? && IsExport(res, o.rows)
  }

  method Crawl(now: Instant, startDate: Instant, endDate: Instant, events: seq<Event>, saveFails: bool)
    returns (windows: seq<Window>, outcome: Outcome)
    ensures IsPartition(startDate, RangeDays(startDate, endDate), windows)
    ensures var days := RangeDays(startDate, endDate);
      Finishes(Fold(Received(days, events)), StopReason(days, events), saveFails, outcome)
  {
    var days := RangeDays(startDate, endDate);
    windows := Dispatch(now, startDate, days);
    var result, stop := Collect(days, events);
    if stop == Aborted {
      return windows, Crashed;
    } else if stop == Waiting {
      return windows, Blocked;
    }
    if |result| != 0 {
      var rows := SaveToXlsx(result);
      if saveFails {
        outcome := SaveFailed;
      } else {
        outcome := Saved(rows);
      }
    } else {
      outcome := NoData;
    }
  }

  /** A run that ends normally exits 1 without writing anything exactly when
      no reading was collected, and otherwise writes one row per date. */
  lemma ExitOneIffEmpty(res: map<Instant, real>, stop: Stop, o: Outcome)
    requires stop == Completed || stop == Cancelled
    requires Finishes(res, stop, false, o)
    ensures ExitStatus(o) == Exits(1) <==> res == map[]
    ensures ExitStatus(o) == Exits(0) <==> res != map[]
    ensures o.Saved? ==> |o.rows| == |res|
  {
    if o.Saved? {
      ExportSize(res, o.rows);
    }
  }

  /** A range of at most one day dispatches nothing, receives nothing and so
      ends with "No data to save". */
  lemma NothingToDispatch(days: int, events: seq<Event>, saveFails: bool, o: Outcome)
    requires days <= 1
    requires Finishes(Fold(Received(days, events)), StopReason(days, events), saveFails, o)
    ensures o == NoData && ExitStatus(o) == Exits(1)
  {
    assert Received(days, events) == [];
  }

  /** Arrival order does not change the sheet: two runs over the same
      windows that receive the same readings, in any two orders, write the
      same rows. */
  lemma ArrivalOrderIrrelevant(startDate: Instant, days: int, ws: seq<Window>, e1: seq<Event>, src1: seq<nat>,
                               e2: seq<Event>, rows1: seq<Row>, rows2: seq<Row>)
    requires IsPartition(startDate, days, ws) && FromWorkers(ws, e1, src1)
    requires multiset(Received(days, e1)) == multiset(Received(days, e2))
    requires IsExport(Fold(Received(days, e1)), rows1)
    requires IsExport(Fold(Received(days, e2)), rows2)
    ensures rows1 == rows2
  {
    WorkerResults(startDate, days, ws, e1, src1);
    FoldOrderIrrelevant(Received(days, e1), Received(days, e2));
    ExportDeterministic(Fold(Received(days, e1)), rows1, rows2);
  }

  /** A run whose results come from the workers of the partition and that
      saves writes one row per received result, each dated with a window's
      end and carrying that result's reading. */
  lemma WorkerRunSaves(startDate: Instant, days: int, ws: seq<Window>, events: seq<Event>, src: seq<nat>,
                       saveFails: bool, o: Outcome)
    requires IsPartition(startDate, days, ws) && FromWorkers(ws, events, src)
    requires Finishes(Fold(Received(days, events)), StopReason(days, events), saveFails, o)
    requires o.Saved?
    ensures |o.rows| == Receives(days, events)
    ensures forall i :: 0 <= i < |o.rows| ==> o.rows[i].date in ResultDates(startDate, days)
    ensures forall j :: 0 <= j < Receives(days, events) ==>
              exists i :: 0 <= i < |o.rows| && o.rows[i].date == events[j].result.date
                          && o.rows[i].mileage == events[j].result.mileage
  {
    var n := Receives(days, events);
    var prs := Received(days, events);
    WorkerResults(startDate, days, ws, events, src);
    PayloadsOfArrivals(events[..n]);
    assert IsExport(Fold(prs), o.rows);
    ExportOfDistinct(prs, o.rows);
    forall i | 0 <= i < |o.rows| ensures o.rows[i].date in ResultDates(startDate, days) {
      assert o.rows[i].date in Fold(prs).Keys;
    }
    forall j | 0 <= j < n
      ensures exists i :: 0 <= i < |o.rows| && o.rows[i].date == events[j].result.date
                          && o.rows[i].mileage == events[j].result.mileage
    {
      assert prs[j] == events[j].result;
    }
  }

  /** Readings with distinct dates export to one row each, holding that
      reading. */
  lemma ExportOfDistinct(prs: seq<ParseResult>, rows: seq<Row>)
    requires DistinctDates(prs)
    requires IsExport(Fold(prs), rows)
    ensures |rows| == |prs|
    ensures forall j :: 0 <= j < |prs| ==>
              exists i :: 0 <= i < |rows| && rows[i].date == prs[j].date && rows[i].mileage == prs[j].mileage
  {
    FoldDistinct(prs);
    ExportSize(Fold(prs), rows);
    forall j | 0 <= j < |prs|
      ensures exists i :: 0 <= i < |rows| && rows[i].date == prs[j].date && rows[i].mileage == prs[j].mileage
    {
      var d := prs[j].date;
      assert d in RowDates(rows);
      var i :| 0 <= i < |rows| && RowDates(rows)[i] == d;
      assert rows[i].date == d;
    }
  }

  /** An interrupt after k results, with windows outstanding, still saves:
      the sheet holds exactly the k readings, one row each, ascending. */
  lemma CancelledRunSavesPrefix(startDate: Instant, days: int, ws: seq<Window>, events: seq<Event>, src: seq<nat>,
                                k: nat, o: Outcome)
    requires 0 < k < WindowCount(days) && k < |events|
    requires forall j :: 0 <= j < k ==> events[j].Arrived?
    requires events[k] == Interrupt
    requires IsPartition(startDate, days, ws) && FromWorkers(ws, events, src)
    requires Finishes(Fold(Received(days, events)), StopReason(days, events), false, o)
    ensures o.Saved? && ExitStatus(o) == Exits(0)
    ensures |o.rows| == k
    ensures forall j :: 0 <= j < k ==> exists i :: 0 <= i < k && o.rows[i].date == events[j].result.date
                                                     && o.rows[i].mileage == events[j].result.mileage
  {
    CancelKeepsPrefix(days, events, k, []);
    WorkerResults(startDate, days, ws, events, src);
    assert Fold(Received(days, events)) != map[];
    assert o.Saved?;
    WorkerRunSaves(startDate, days, ws, events, src, false, o);
  }

  /** One lost result hangs the run: when fewer results arrive than windows
      were dispatched (a worker dropped its reply after a transport error)
      and nothing else happens, the loop never completes its receives and
      the process does not exit on its own. */
  lemma DroppedResultBlocks(days: int, events: seq<Event>, saveFails: bool, o: Outcome)
    requires |events| < WindowCount(days)
    requires forall j :: 0 <= j < |events| ==> events[j].Arrived?
    requires Finishes(Fold(Received(days, events)), StopReason(days, events), saveFails, o)
    ensures o == Blocked && ExitStatus(o) == Runs
  {
    LeadingArrivalsAt(events, |events|);
  }
}
