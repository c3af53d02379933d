/** `process`: the station filter, date parse, sort, per-date average and pivot that
    turn the concatenated hourly observation rows into the report's two tables. */
module Processor {
  import opened Wrappers
  import Calendar
  import Ordering
  import ValidTime

  type DateTime = Calendar.DateTime

  /** `CAMBRIDGE_STATIONS`: the AQSIDs of the stations of interest. */
  const CambridgeStations: seq<string> :=
    ["250250002", "840250250045", "840250251004", "250250042", "250250044"]

  /** One observation row, restricted to the five columns `process` selects; every cell
      holds a value (a missing cell, which pandas reads as NaN, is not modelled). */
  datatype Row = Row(aqsid: string, siteName: string, validDate: string, validTime: string, pm25: real)

  /** A selected row once its date is parsed: the columns `SiteName`, `PM25`, `date`. */
  datatype Reading = Reading(siteName: string, pm25: real, date: DateTime)

  /** One row of `df_avg`: a date and the mean concentration at it. */
  datatype AverageRow = AverageRow(date: DateTime, pm25: real)

  /** `df_by_location`: one row per date in `index`, one column per site name in
      `columns`; `cells` holds the concentrations, and a pair it lacks is NaN. */
  datatype WideTable = WideTable(
    index: seq<DateTime>, columns: seq<string>, cells: map<(DateTime, string), real>)

  /** What `process` raises: `pd.to_datetime` on a text it cannot read, or `pivot`
      on a date and site name that occur twice. */
  datatype ProcessError =
    | UnparsableDate(text: string)
    | DuplicateEntry(date: DateTime, siteName: string)

  predicate IsStation(x: Row) {
    x.aqsid in CambridgeStations
  }

  /** `df["ValidDate"] + " " + df["ValidTime"]`. */
  function DateText(x: Row): string {
    x.validDate + " " + x.validTime
  }

  /** The cell a reading fills in the pivot. */
  function Key(x: Reading): (DateTime, string) {
    (x.date, x.siteName)
  }

  // ---------------------------------------------------------------------------
  // Station filter and date parse (lines 31-39)
  // ---------------------------------------------------------------------------

  /** `df[df["AQSID"].isin(CAMBRIDGE_STATIONS)]`, keeping the rows' order. */
  function SelectStations(rows: seq<Row>): (sel: seq<Row>)
    ensures forall x :: x in sel <==> x in rows && IsStation(x)
    ensures |sel| <= |rows|
  {
    if rows == [] then []
    else (if IsStation(rows[0]) then [rows[0]] else []) + SelectStations(rows[1..])
  }

  /** Every station row is kept as often as it occurs, and no other row is kept. */
  lemma {:induction false} SelectKeepsMultiplicity(rows: seq<Row>, x: Row)
    ensures multiset(SelectStations(rows))[x] == if IsStation(x) then multiset(rows)[x] else 0
  {
    if rows != [] {
      SelectKeepsMultiplicity(rows[1..], x);
      assert rows == [rows[0]] + rows[1..];
      var head := if IsStation(rows[0]) then [rows[0]] else [];
      assert SelectStations(rows) == head + SelectStations(rows[1..]);
    }
  }

  /** The filter works row by row and keeps the rows' order: filtering two blocks of rows
      one after the other is filtering the two blocks and putting the results together. */
  lemma {:induction false} SelectAppend(a: seq<Row>, b: seq<Row>)
    ensures SelectStations(a + b) == SelectStations(a) + SelectStations(b)
  {
    if a == [] {
      assert a + b == b;
    } else {
      assert (a + b)[0] == a[0] && (a + b)[1..] == a[1..] + b;
      SelectAppend(a[1..], b);
    }
  }

  /** Assigning the parsed `date` column: every row's text must parse (pandas raises on
      the first one that does not), and then row `i` becomes reading `i`. */
  function ParseDates(sel: seq<Row>): (r: Result<seq<Reading>, ProcessError>)
    ensures r.Ok? <==> forall x :: x in sel ==> ValidTime.Parse(DateText(x)).Some?
    ensures r.Ok? ==> |r.value| == |sel| && forall i :: 0 <= i < |sel| ==>
      r.value[i] == Reading(sel[i].siteName, sel[i].pm25, ValidTime.Parse(DateText(sel[i])).value)
    ensures r.Err? ==>
      && r.error.UnparsableDate?
      && ValidTime.Parse(r.error.text).None?
      && exists x :: x in sel && DateText(x) == r.error.text
  {
    if sel == [] then Ok([])
    else
      match ValidTime.Parse(DateText(sel[0]))
      case None => Err(UnparsableDate(DateText(sel[0])))
      case Some(d) =>
        var rest :- ParseDates(sel[1..]);
        Ok([Reading(sel[0].siteName, sel[0].pm25, d)] + rest)
  }

  // ---------------------------------------------------------------------------
  // Per-date and per-cell tallies of readings, which the two views are stated by
  // ---------------------------------------------------------------------------

  /** How many readings are at date `d`. */
  function CountAt(rs: seq<Reading>, d: DateTime): nat {
    if rs == [] then 0 else (if rs[0].date == d then 1 else 0) + CountAt(rs[1..], d)
  }

  /** The sum of the concentrations of the readings at date `d`. */
  function SumAt(rs: seq<Reading>, d: DateTime): real {
    if rs == [] then 0.0 else (if rs[0].date == d then rs[0].pm25 else 0.0) + SumAt(rs[1..], d)
  }

  /** How many readings fill cell `k`. */
  function KeyCount(rs: seq<Reading>, k: (DateTime, string)): nat {
    if rs == [] then 0 else (if Key(rs[0]) == k then 1 else 0) + KeyCount(rs[1..], k)
  }

  /** The sum of all the concentrations. */
  function Total(rs: seq<Reading>): real {
    if rs == [] then 0.0 else rs[0].pm25 + Total(rs[1..])
  }

  lemma {:induction false} CountAtPositive(rs: seq<Reading>, d: DateTime)
    ensures CountAt(rs, d) > 0 <==> exists x :: x in rs && x.date == d
  {
    if rs != [] {
      CountAtPositive(rs[1..], d);
      assert forall x :: x in rs <==> x == rs[0] || x in rs[1..];
    }
  }

  lemma {:induction false} KeyCountPositive(rs: seq<Reading>, k: (DateTime, string))
    ensures KeyCount(rs, k) > 0 <==> exists x :: x in rs && Key(x) == k
  {
    if rs != [] {
      KeyCountPositive(rs[1..], k);
      assert forall x :: x in rs <==> x == rs[0] || x in rs[1..];
    }
  }

  lemma {:induction false} CountAtIndex(rs: seq<Reading>, d: DateTime)
    requires CountAt(rs, d) > 0
    ensures exists j :: 0 <= j < |rs| && rs[j].date == d
  {
    if rs[0].date != d {
      CountAtIndex(rs[1..], d);
      var j :| 0 <= j < |rs[1..]| && rs[1..][j].date == d;
      assert rs[j + 1].date == d;
    }
  }

  /** The tallies of two sequences put together add up. */
  lemma {:induction false} TalliesAppend(a: seq<Reading>, b: seq<Reading>, d: DateTime, k: (DateTime, string))
    ensures CountAt(a + b, d) == CountAt(a, d) + CountAt(b, d)
    ensures SumAt(a + b, d) == SumAt(a, d) + SumAt(b, d)
    ensures KeyCount(a + b, k) == KeyCount(a, k) + KeyCount(b, k)
  {
    if a == [] {
      assert a + b == b;
    } else {
      assert (a + b)[0] == a[0] && (a + b)[1..] == a[1..] + b;
      TalliesAppend(a[1..], b, d, k);
    }
  }

  /** A run of readings that all share date `d` sums and counts in full at `d`. */
  lemma {:induction false} TalliesOfRun(rs: seq<Reading>, d: DateTime)
    requires forall i :: 0 <= i < |rs| ==> rs[i].date == d
    ensures CountAt(rs, d) == |rs| && SumAt(rs, d) == Total(rs)
  {
    if rs != [] { TalliesOfRun(rs[1..], d); }
  }

  /** Readings none of which is at date `d` contribute nothing at `d`. */
  lemma {:induction false} TalliesElsewhere(rs: seq<Reading>, d: DateTime)
    requires forall i :: 0 <= i < |rs| ==> rs[i].date != d
    ensures CountAt(rs, d) == 0 && SumAt(rs, d) == 0.0
  {
    if rs != [] { TalliesElsewhere(rs[1..], d); }
  }

  // ---------------------------------------------------------------------------
  // sort_values("date") (line 39)
  // ---------------------------------------------------------------------------

  /** Ordered non-decreasing by date. */
  predicate DateSorted(rs: seq<Reading>) {
    forall i, j :: 0 <= i < j < |rs| ==> !Calendar.Before(rs[j].date, rs[i].date)
  }

  /** A reading no later than the first of a sorted sequence can go in front of it. */
  lemma SortedInFront(x: Reading, rs: seq<Reading>)
    requires DateSorted(rs)
    requires rs == [] || !Calendar.Before(rs[0].date, x.date)
    ensures DateSorted([x] + rs)
  {
    forall j | 0 <= j < |rs| ensures !Calendar.Before(rs[j].date, x.date) {
      if j > 0 { Calendar.NotBeforeTransitive(x.date, rs[0].date, rs[j].date); }
    }
  }

  /** A reading no later than everything in `tail` can go in front of it. */
  lemma SortedBehind(h: Reading, tail: seq<Reading>)
    requires DateSorted(tail)
    requires forall y :: y in multiset(tail) ==> !Calendar.Before(y.date, h.date)
    ensures DateSorted([h] + tail)
  {
    forall j | 0 <= j < |tail| ensures !Calendar.Before(tail[j].date, h.date) {
      assert tail[j] in multiset(tail);
    }
  }

  function InsertByDate(x: Reading, rs: seq<Reading>): (r: seq<Reading>)
    requires DateSorted(rs)
    ensures DateSorted(r)
    ensures multiset(r) == multiset(rs) + multiset{x}
  {
    if rs == [] || !Calendar.Before(rs[0].date, x.date) then
      SortedInFront(x, rs);
      [x] + rs
    else
      var tail := InsertByDate(x, rs[1..]);
      assert rs == [rs[0]] + rs[1..];
      Calendar.BeforeAsymmetric(rs[0].date, x.date);
      assert forall y :: y in multiset(tail) ==> !Calendar.Before(y.date, rs[0].date) by {
        forall y | y in multiset(tail) ensures !Calendar.Before(y.date, rs[0].date) {
          if y != x {
            assert y in multiset(rs[1..]);
            var j :| 0 <= j < |rs[1..]| && rs[1..][j] == y;
            assert rs[j + 1] == y;
          }
        }
      }
      SortedBehind(rs[0], tail);
      [rs[0]] + tail
  }

  /** The order `sort_values` leaves the rows in. pandas' default sort is not stable, so
      all the model relies on is that the result is ordered by date and a permutation. */
  function SortByDate(rs: seq<Reading>): (r: seq<Reading>)
    ensures DateSorted(r)
    ensures multiset(r) == multiset(rs)
  {
    if rs == [] then []
    else
      assert rs == [rs[0]] + rs[1..];
      InsertByDate(rs[0], SortByDate(rs[1..]))
  }

  lemma {:induction false} InsertByDateTallies(x: Reading, rs: seq<Reading>, d: DateTime, k: (DateTime, string))
    requires DateSorted(rs)
    ensures CountAt(InsertByDate(x, rs), d) == CountAt([x] + rs, d)
    ensures SumAt(InsertByDate(x, rs), d) == SumAt([x] + rs, d)
    ensures KeyCount(InsertByDate(x, rs), k) == KeyCount([x] + rs, k)
  {
    if rs != [] && Calendar.Before(rs[0].date, x.date) {
      InsertByDateTallies(x, rs[1..], d, k);
      assert ([x] + rs)[1..] == rs;
      assert ([x] + rs[1..])[1..] == rs[1..];
      assert ([rs[0]] + InsertByDate(x, rs[1..]))[1..] == InsertByDate(x, rs[1..]);
    }
  }

  /** Sorting changes no tally. */
  lemma {:induction false} SortByDateTallies(rs: seq<Reading>, d: DateTime, k: (DateTime, string))
    ensures CountAt(SortByDate(rs), d) == CountAt(rs, d)
    ensures SumAt(SortByDate(rs), d) == SumAt(rs, d)
    ensures KeyCount(SortByDate(rs), k) == KeyCount(rs, k)
  {
    if rs != [] {
      SortByDateTallies(rs[1..], d, k);
      InsertByDateTallies(rs[0], SortByDate(rs[1..]), d, k);
      assert ([rs[0]] + SortByDate(rs[1..]))[1..] == SortByDate(rs[1..]);
    }
  }

  // ---------------------------------------------------------------------------
  // groupby("date").mean() (line 40)
  // ---------------------------------------------------------------------------

  /** The length of the leading run of readings that share the first reading's date. */
  function RunLength(rs: seq<Reading>): (k: nat)
    requires rs != []
    ensures 1 <= k <= |rs|
    ensures forall i :: 0 <= i < k ==> rs[i].date == rs[0].date
    ensures k < |rs| ==> rs[k].date != rs[0].date
  {
    if |rs| == 1 || rs[1].date != rs[0].date then 1 else 1 + RunLength(rs[1..])
  }

  function AverageDates(avg: seq<AverageRow>): seq<DateTime> {
    seq(|avg|, i requires 0 <= i < |avg| => avg[i].date)
  }

  lemma AverageDatesCons(a: AverageRow, rest: seq<AverageRow>)
    ensures AverageDates([a] + rest) == [a.date] + AverageDates(rest)
  {
  }

  lemma SortedSuffix(rs: seq<Reading>, k: nat)
    requires DateSorted(rs) && k <= |rs|
    ensures DateSorted(rs[k..])
  {
    forall i, j | 0 <= i < j < |rs| - k
      ensures !Calendar.Before(rs[k..][j].date, rs[k..][i].date)
    {
      assert rs[k..][i] == rs[k + i] && rs[k..][j] == rs[k + j];
    }
  }

  /** In date order, every reading after the leading run is at a later date. */
  lemma AfterRunIsLater(rs: seq<Reading>)
    requires rs != [] && DateSorted(rs)
    ensures forall j :: RunLength(rs) <= j < |rs| ==> Calendar.Before(rs[0].date, rs[j].date)
  {
    var k, d := RunLength(rs), rs[0].date;
    if k < |rs| {
      assert !Calendar.Before(rs[k].date, d);
      Calendar.BeforeConnected(rs[k].date, d);
      forall j | k < j < |rs| ensures Calendar.Before(d, rs[j].date) {
        assert !Calendar.Before(rs[j].date, rs[k].date);
        Calendar.BeforeThenNotBefore(d, rs[k].date, rs[j].date);
      }
    }
  }

  /** The tallies at `e` of a date-ordered sequence, split after its leading run. */
  lemma LeadingRunTallies(rs: seq<Reading>, e: DateTime)
    requires rs != [] && DateSorted(rs)
    ensures var k, d := RunLength(rs), rs[0].date;
      && (e == d ==> CountAt(rs, e) == k && SumAt(rs, e) == Total(rs[..k]) && CountAt(rs[k..], e) == 0)
      && (e != d ==> CountAt(rs, e) == CountAt(rs[k..], e) && SumAt(rs, e) == SumAt(rs[k..], e))
  {
    var k, d := RunLength(rs), rs[0].date;
    var run, rest := rs[..k], rs[k..];
    assert rs == run + rest;
    TalliesAppend(run, rest, e, (e, ""));
    if e == d {
      AfterRunIsLater(rs);
      TalliesOfRun(run, d);
      assert forall j :: 0 <= j < |rest| ==> rest[j] == rs[k + j];
      TalliesElsewhere(rest, d);
    } else {
      TalliesElsewhere(run, e);
    }
  }

  /** `groupby("date").mean()` over readings in date order: one row per run of equal
      dates, holding the mean of the run. */
  function GroupMean(rs: seq<Reading>): (avg: seq<AverageRow>)
    requires DateSorted(rs)
    ensures |avg| <= |rs|
    decreases |rs|
  {
    if rs == [] then []
    else
      var k := RunLength(rs);
      SortedSuffix(rs, k);
      [AverageRow(rs[0].date, Total(rs[..k]) / (k as real))] + GroupMean(rs[k..])
  }

  /** The average view's dates are exactly the dates that occur. */
  lemma {:induction false} GroupMeanDateSet(rs: seq<Reading>)
    requires DateSorted(rs)
    ensures forall d :: d in AverageDates(GroupMean(rs)) <==> CountAt(rs, d) > 0
    decreases |rs|
  {
    if rs != [] {
      var k := RunLength(rs);
      SortedSuffix(rs, k);
      GroupMeanDateSet(rs[k..]);
      var rest := GroupMean(rs[k..]);
      var a := AverageRow(rs[0].date, Total(rs[..k]) / (k as real));
      assert GroupMean(rs) == [a] + rest;
      AverageDatesCons(a, rest);
      forall e ensures e in AverageDates(GroupMean(rs)) <==> CountAt(rs, e) > 0 {
        LeadingRunTallies(rs, e);
      }
    }
  }

  /** Every date that occurs after the leading run is later than the run's date. */
  lemma RunBeforeRest(rs: seq<Reading>, e: DateTime)
    requires rs != [] && DateSorted(rs)
    requires CountAt(rs[RunLength(rs)..], e) > 0
    ensures Calendar.Before(rs[0].date, e)
  {
    var k := RunLength(rs);
    var rest := rs[k..];
    CountAtIndex(rest, e);
    var j :| 0 <= j < |rest| && rest[j].date == e;
    assert rest[j] == rs[k + j];
    AfterRunIsLater(rs);
  }

  /** The average view's dates are each listed once, ascending. */
  lemma {:induction false} GroupMeanAscending(rs: seq<Reading>)
    requires DateSorted(rs)
    ensures Ordering.StrictlyAscending(AverageDates(GroupMean(rs)), Calendar.Before)
    decreases |rs|
  {
    if rs != [] {
      var k, d := RunLength(rs), rs[0].date;
      SortedSuffix(rs, k);
      GroupMeanAscending(rs[k..]);
      GroupMeanDateSet(rs[k..]);
      var rest := AverageDates(GroupMean(rs[k..]));
      assert AverageDates(GroupMean(rs)) == [d] + rest;
      forall e | e in rest ensures Calendar.Before(d, e) {
        RunBeforeRest(rs, e);
      }
      Ordering.AscendingCons(d, rest, Calendar.Before);
    }
  }

  /** Each date of the average view carries the mean over the readings at that date. */
  lemma {:induction false} GroupMeanValues(rs: seq<Reading>)
    requires DateSorted(rs)
    ensures forall i :: 0 <= i < |GroupMean(rs)| ==>
      && CountAt(rs, GroupMean(rs)[i].date) > 0
      && GroupMean(rs)[i].pm25 == SumAt(rs, GroupMean(rs)[i].date) / (CountAt(rs, GroupMean(rs)[i].date) as real)
    decreases |rs|
  {
    if rs != [] {
      var k, d := RunLength(rs), rs[0].date;
      SortedSuffix(rs, k);
      GroupMeanValues(rs[k..]);
      GroupMeanDateSet(rs[k..]);
      var avg, rest := GroupMean(rs), GroupMean(rs[k..]);
      assert avg == [AverageRow(d, Total(rs[..k]) / (k as real))] + rest;
      LeadingRunTallies(rs, d);
      forall i | 1 <= i < |avg|
        ensures CountAt(rs, avg[i].date) > 0
        ensures avg[i].pm25 == SumAt(rs, avg[i].date) / (CountAt(rs, avg[i].date) as real)
      {
        assert avg[i] == rest[i - 1];
        assert avg[i].date in AverageDates(rest);
        LeadingRunTallies(rs, avg[i].date);
      }
    }
  }

  // ---------------------------------------------------------------------------
  // pivot(index="date", columns="SiteName", values="PM25") (line 41)
  // ---------------------------------------------------------------------------

  /** The cells of the pivot: one per reading, and an error once a cell is filled twice. */
  function Cells(rs: seq<Reading>): (r: Result<map<(DateTime, string), real>, ProcessError>)
    ensures r.Ok? <==> forall k :: KeyCount(rs, k) <= 1
    ensures r.Ok? ==> forall k :: k in r.value <==> KeyCount(rs, k) > 0
    ensures r.Ok? ==> forall x :: x in rs ==> Key(x) in r.value && r.value[Key(x)] == x.pm25
    ensures r.Err? ==> r.error.DuplicateEntry? && KeyCount(rs, (r.error.date, r.error.siteName)) >= 2
  {
    if rs == [] then Ok(map[])
    else
      match Cells(rs[1..])
      case Err(e) =>
        assert KeyCount(rs, (e.date, e.siteName)) >= 2;
        Err(e)
      case Ok(rest) =>
      var k := Key(rs[0]);
      assert forall x :: x in rs <==> x == rs[0] || x in rs[1..];
      if k in rest then
        assert KeyCount(rs, k) >= 2;
        Err(DuplicateEntry(rs[0].date, rs[0].siteName))
      else
        assert forall x :: x in rs[1..] ==> Key(x) != k by {
          forall x | x in rs[1..] ensures Key(x) != k {
            KeyCountPositive(rs[1..], Key(x));
          }
        }
        Ok(rest[k := rs[0].pm25])
  }

  function DatesOf(rs: seq<Reading>): (ds: seq<DateTime>)
    ensures forall d :: d in ds <==> exists x :: x in rs && x.date == d
  {
    if rs == [] then [] else [rs[0].date] + DatesOf(rs[1..])
  }

  function SitesOf(rs: seq<Reading>): (ss: seq<string>)
    ensures forall s :: s in ss <==> exists x :: x in rs && x.siteName == s
  {
    if rs == [] then [] else [rs[0].siteName] + SitesOf(rs[1..])
  }

  /** `pivot`: the distinct dates, ascending, as the index; the distinct site names, in
      Python's string order, as the columns; fails when a cell would be filled twice. */
  function Pivot(rs: seq<Reading>): (r: Result<WideTable, ProcessError>)
    ensures r.Ok? <==> forall k :: KeyCount(rs, k) <= 1
    ensures r.Ok? ==>
      && Ordering.StrictlyAscending(r.value.index, Calendar.Before)
      && (forall d :: d in r.value.index <==> exists x :: x in rs && x.date == d)
      && Ordering.StrictlyAscending(r.value.columns, Ordering.LexLess)
      && (forall s :: s in r.value.columns <==> exists x :: x in rs && x.siteName == s)
      && (forall k :: k in r.value.cells <==> KeyCount(rs, k) > 0)
      && forall x :: x in rs ==> Key(x) in r.value.cells && r.value.cells[Key(x)] == x.pm25
    ensures r.Err? ==> r.error.DuplicateEntry? && KeyCount(rs, (r.error.date, r.error.siteName)) >= 2
  {
    match Cells(rs)
    case Err(e) =>
      assert KeyCount(rs, (e.date, e.siteName)) >= 2;
      Err(e)
    case Ok(cells) =>
    Calendar.BeforeIsStrictTotalOrder();
    Ordering.LexLessIsStrictTotalOrder();
    Ok(WideTable(
      Ordering.SortedDistinct(DatesOf(rs), Calendar.Before),
      Ordering.SortedDistinct(SitesOf(rs), Ordering.LexLess),
      cells))
  }

  // ---------------------------------------------------------------------------
  // process (lines 28-42)
  // ---------------------------------------------------------------------------

  /** `process(df)`: the wide view `df_by_location` and the average view `df_avg`. */
  function Process(rows: seq<Row>): (r: Result<(WideTable, seq<AverageRow>), ProcessError>)
    ensures r.Ok? ==> r.value.0.index == AverageDates(r.value.1)
  {
    var readings :- ParseDates(SelectStations(rows));
    var sorted := SortByDate(readings);
    var average := GroupMean(sorted);
    var byLocation :- Pivot(sorted);
    PivotIndex(sorted);
    Ok((byLocation, average))
  }

  // The two views stated directly in terms of the input rows.

  /** A row of one of the stations of interest whose date text parses to `d`. */
  predicate StationRowAt(x: Row, d: DateTime) {
    IsStation(x) && ValidTime.Parse(DateText(x)) == Some(d)
  }

  /** How many station rows are at date `d`. */
  function RowCountAt(rows: seq<Row>, d: DateTime): nat {
    if rows == [] then 0
    else (if StationRowAt(rows[0], d) then 1 else 0) + RowCountAt(rows[1..], d)
  }

  /** The sum of `PM25` over the station rows at date `d`. */
  function RowSumAt(rows: seq<Row>, d: DateTime): real {
    if rows == [] then 0.0
    else (if StationRowAt(rows[0], d) then rows[0].pm25 else 0.0) + RowSumAt(rows[1..], d)
  }

  /** How many station rows are at date `d` with site name `s`. */
  function RowKeyCount(rows: seq<Row>, d: DateTime, s: string): nat {
    if rows == [] then 0
    else (if StationRowAt(rows[0], d) && rows[0].siteName == s then 1 else 0) + RowKeyCount(rows[1..], d, s)
  }

  /** Every station row's date text parses. */
  predicate AllDatesParse(rows: seq<Row>) {
    forall x :: x in rows && IsStation(x) ==> ValidTime.Parse(DateText(x)).Some?
  }

  lemma SelectParseAllDates(rows: seq<Row>)
    ensures ParseDates(SelectStations(rows)).Ok? <==> AllDatesParse(rows)
  {
  }

  /** The parsed station readings tally exactly like the station rows. */
  lemma {:induction false} ReadingTallies(rows: seq<Row>, d: DateTime, k: (DateTime, string))
    requires ParseDates(SelectStations(rows)).Ok?
    ensures var rs := ParseDates(SelectStations(rows)).value;
      && CountAt(rs, d) == RowCountAt(rows, d)
      && SumAt(rs, d) == RowSumAt(rows, d)
      && KeyCount(rs, k) == RowKeyCount(rows, k.0, k.1)
  {
    if rows != [] {
      var rest := SelectStations(rows[1..]);
      assert ParseDates(rest).Ok?;
      ReadingTallies(rows[1..], d, k);
      if IsStation(rows[0]) {
        var sel := SelectStations(rows);
        assert sel == [rows[0]] + rest && sel[0] == rows[0] && sel[1..] == rest;
        var rs := ParseDates(sel).value;
        assert rs[1..] == ParseDates(rest).value;
      } else {
        assert SelectStations(rows) == rest;
      }
    }
  }

  /** The parsed station readings are exactly the station rows, each with its parsed date. */
  lemma ReadingsOfRows(rows: seq<Row>)
    requires ParseDates(SelectStations(rows)).Ok?
    ensures var rs := ParseDates(SelectStations(rows)).value;
      && (forall x, d :: x in rows && StationRowAt(x, d) ==> Reading(x.siteName, x.pm25, d) in rs)
      && (forall r :: r in rs ==>
            exists x :: x in rows && StationRowAt(x, r.date) && r == Reading(x.siteName, x.pm25, r.date))
  {
    var sel := SelectStations(rows);
    var rs := ParseDates(sel).value;
    forall x, d | x in rows && StationRowAt(x, d) ensures Reading(x.siteName, x.pm25, d) in rs {
      var i :| 0 <= i < |sel| && sel[i] == x;
      assert rs[i] == Reading(x.siteName, x.pm25, d);
    }
    forall r | r in rs
      ensures exists x :: x in rows && StationRowAt(x, r.date) && r == Reading(x.siteName, x.pm25, r.date)
    {
      var i :| 0 <= i < |rs| && rs[i] == r;
      assert sel[i] in sel;
    }
  }

  /** `process` stage by stage: the parse can fail, then the pivot can. */
  lemma ProcessStages(rows: seq<Row>)
    ensures var parsed := ParseDates(SelectStations(rows));
      && (parsed.Err? ==> Process(rows) == Err(parsed.error))
      && (parsed.Ok? && Cells(SortByDate(parsed.value)).Err? ==>
            Process(rows) == Err(Cells(SortByDate(parsed.value)).error))
      && (parsed.Ok? && Cells(SortByDate(parsed.value)).Ok? ==>
            Process(rows) == Ok((Pivot(SortByDate(parsed.value)).value, GroupMean(SortByDate(parsed.value)))))
  {
  }

  /** `process` fails exactly when some station row's date text does not parse, or two
      station rows share a parsed date and a site name. Rows of other stations are never
      parsed, so they cannot make it fail. */
  lemma ProcessFailure(rows: seq<Row>)
    ensures Process(rows).Ok? <==>
      AllDatesParse(rows) && forall d, s :: RowKeyCount(rows, d, s) <= 1
    ensures Process(rows).Err? && Process(rows).error.UnparsableDate? ==>
      exists x :: x in rows && IsStation(x) && DateText(x) == Process(rows).error.text
        && ValidTime.Parse(DateText(x)).None?
    ensures Process(rows).Err? && Process(rows).error.DuplicateEntry? ==>
      AllDatesParse(rows)
        && RowKeyCount(rows, Process(rows).error.date, Process(rows).error.siteName) >= 2
  {
    ProcessStages(rows);
    SelectParseAllDates(rows);
    var parsed := ParseDates(SelectStations(rows));
    if parsed.Ok? {
      CellsFailure(rows);
    }
  }

  /** Past the parse, the pivot fails exactly on a cell two station rows fill. */
  lemma CellsFailure(rows: seq<Row>)
    requires ParseDates(SelectStations(rows)).Ok?
    ensures var cells := Cells(SortByDate(ParseDates(SelectStations(rows)).value));
      && (cells.Ok? <==> forall d, s :: RowKeyCount(rows, d, s) <= 1)
      && (cells.Err? ==> RowKeyCount(rows, cells.error.date, cells.error.siteName) >= 2)
  {
    var rs := ParseDates(SelectStations(rows)).value;
    var sorted := SortByDate(rs);
    var cells := Cells(sorted);
    if cells.Ok? {
      forall d, s ensures RowKeyCount(rows, d, s) <= 1 {
        SortByDateTallies(rs, d, (d, s));
        ReadingTallies(rows, d, (d, s));
        assert KeyCount(sorted, (d, s)) <= 1;
      }
    } else {
      var d, s := cells.error.date, cells.error.siteName;
      SortByDateTallies(rs, d, (d, s));
      ReadingTallies(rows, d, (d, s));
      assert KeyCount(sorted, (d, s)) >= 2;
      assert RowKeyCount(rows, d, s) >= 2;
    }
  }

  /** The average view: its dates are the parsed dates of the station rows, each once
      and ascending, and each carries the mean `PM25` of the station rows at that date. */
  lemma ProcessAverageView(rows: seq<Row>)
    requires Process(rows).Ok?
    ensures var avg := Process(rows).value.1;
      && Ordering.StrictlyAscending(AverageDates(avg), Calendar.Before)
      && (forall d :: d in AverageDates(avg) <==> RowCountAt(rows, d) > 0)
      && forall i :: 0 <= i < |avg| ==>
           && RowCountAt(rows, avg[i].date) > 0
           && avg[i].pm25 == RowSumAt(rows, avg[i].date) / (RowCountAt(rows, avg[i].date) as real)
  {
    var rs := ParseDates(SelectStations(rows)).value;
    var sorted := SortByDate(rs);
    GroupMeanAscending(sorted);
    GroupMeanDateSet(sorted);
    GroupMeanValues(sorted);
    forall d ensures CountAt(sorted, d) == RowCountAt(rows, d) && SumAt(sorted, d) == RowSumAt(rows, d) {
      SortByDateTallies(rs, d, (d, ""));
      ReadingTallies(rows, d, (d, ""));
    }
  }

  /** Readings and their sorted order hold the same values. */
  lemma SortedMembers(rs: seq<Reading>)
    ensures forall r :: r in SortByDate(rs) <==> r in rs
  {
    var sorted := SortByDate(rs);
    forall r ensures r in sorted <==> r in rs {
      assert r in sorted <==> r in multiset(sorted);
      assert r in rs <==> r in multiset(rs);
    }
  }

  /** The wide view: one row per date of the average view, one column per site name of
      the station rows in string order, and exactly the cells some station row fills,
      each holding that row's `PM25`. */
  lemma ProcessWideView(rows: seq<Row>)
    requires Process(rows).Ok?
    ensures var (wide, avg) := Process(rows).value;
      && wide.index == AverageDates(avg)
      && Ordering.StrictlyAscending(wide.columns, Ordering.LexLess)
      && (forall s :: s in wide.columns <==> exists x :: x in rows && IsStation(x) && x.siteName == s)
      && (forall d, s :: (d, s) in wide.cells <==> RowKeyCount(rows, d, s) > 0)
      && forall x, d :: x in rows && StationRowAt(x, d) ==>
           (d, x.siteName) in wide.cells && wide.cells[(d, x.siteName)] == x.pm25
  {
    WideColumns(rows);
    WideCells(rows);
  }

  /** Over readings in date order, the pivot's index is the average view's dates. */
  lemma PivotIndex(sorted: seq<Reading>)
    requires DateSorted(sorted) && Pivot(sorted).Ok?
    ensures Pivot(sorted).value.index == AverageDates(GroupMean(sorted))
  {
    Calendar.BeforeIsStrictTotalOrder();
    var index := Ordering.SortedDistinct(DatesOf(sorted), Calendar.Before);
    assert Pivot(sorted).value.index == index;
    var ds := AverageDates(GroupMean(sorted));
    GroupMeanAscending(sorted);
    GroupMeanDateSet(sorted);
    forall d ensures d in index <==> d in ds {
      CountAtPositive(sorted, d);
    }
    Ordering.AscendingUnique(index, ds, Calendar.Before);
  }

  lemma WideColumns(rows: seq<Row>)
    requires Process(rows).Ok?
    ensures var wide := Process(rows).value.0;
      && Ordering.StrictlyAscending(wide.columns, Ordering.LexLess)
      && (forall s :: s in wide.columns <==> exists x :: x in rows && IsStation(x) && x.siteName == s)
  {
    var rs := ParseDates(SelectStations(rows)).value;
    var sorted := SortByDate(rs);
    var wide := Process(rows).value.0;
    Ordering.LexLessIsStrictTotalOrder();
    assert wide.columns == Ordering.SortedDistinct(SitesOf(sorted), Ordering.LexLess);
    ReadingsOfRows(rows);
    SortedMembers(rs);
    SelectParseAllDates(rows);
    forall s ensures s in wide.columns <==> exists x :: x in rows && IsStation(x) && x.siteName == s {
      if s in wide.columns {
        var r :| r in sorted && r.siteName == s;
        var x :| x in rows && StationRowAt(x, r.date) && r == Reading(x.siteName, x.pm25, r.date);
      }
      if exists x :: x in rows && IsStation(x) && x.siteName == s {
        var x :| x in rows && IsStation(x) && x.siteName == s;
        var d := ValidTime.Parse(DateText(x)).value;
        assert StationRowAt(x, d);
        assert Reading(x.siteName, x.pm25, d) in sorted;
      }
    }
  }

  lemma WideCells(rows: seq<Row>)
    requires Process(rows).Ok?
    ensures var wide := Process(rows).value.0;
      && (forall d, s :: (d, s) in wide.cells <==> RowKeyCount(rows, d, s) > 0)
      && forall x, d :: x in rows && StationRowAt(x, d) ==>
           (d, x.siteName) in wide.cells && wide.cells[(d, x.siteName)] == x.pm25
  {
    var rs := ParseDates(SelectStations(rows)).value;
    var sorted := SortByDate(rs);
    var wide := Process(rows).value.0;
    var cells := Cells(sorted).value;
    assert Cells(sorted).Ok? && wide.cells == cells;
    forall d, s ensures (d, s) in cells <==> RowKeyCount(rows, d, s) > 0 {
      SortByDateTallies(rs, d, (d, s));
      ReadingTallies(rows, d, (d, s));
    }
    ReadingsOfRows(rows);
    SortedMembers(rs);
    forall x, d | x in rows && StationRowAt(x, d)
      ensures (d, x.siteName) in cells && cells[(d, x.siteName)] == x.pm25
    {
      var r := Reading(x.siteName, x.pm25, d);
      assert r in sorted;
      assert Key(r) == (d, x.siteName);
    }
  }

  /** Rows of stations outside `CAMBRIDGE_STATIONS` contribute nothing: `process` gives
      the same result, or the same error, once they are removed. */
  lemma ProcessIgnoresOtherStations(rows: seq<Row>)
    ensures Process(SelectStations(rows)) == Process(rows)
  {
    SelectIdempotent(rows);
  }

  lemma {:induction false} SelectIdempotent(rows: seq<Row>)
    ensures SelectStations(SelectStations(rows)) == SelectStations(rows)
  {
    if rows != [] {
      SelectIdempotent(rows[1..]);
      var rest := SelectStations(rows[1..]);
      if IsStation(rows[0]) {
        var sel := [rows[0]] + rest;
        assert sel[0] == rows[0] && sel[1..] == rest;
        assert SelectStations(sel) == [sel[0]] + SelectStations(sel[1..]);
        assert SelectStations(rows) == sel;
      } else {
        assert SelectStations(rows) == rest;
      }
    }
  }
}
