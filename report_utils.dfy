/** Report generation and retrieval (`ReportUtils`): one entry per store built
    from three windows that share one end, a driver over a list of stores,
    the status lookup of a report, and its rendering as CSV text. */
module ReportUtils {

  import opened Wrappers
  import opened Clock
  import opened Models
  import opened Database
  import opened Uptime
  import opened Text

  // ---------------------------------------------------------------------------
  // Per-store entries

  /** The entry generated for one store, or None when a step raises: the
      business-hour query fails, or a window start falls before datetime.min.
      The week's start is the earliest of the three, so it alone decides
      whether any of them does. An entry exists exactly when neither happens,
      and it carries the report and store ids. */
  function EntryFor(q: Query<seq<MenuHours>>, reportId: string, storeId: int, now: Timestamp, status: StatusOracle)
    : (r: Option<ReportEntry>)
    ensures r.Some? <==> q.Rows? && MicrosPerWeek <= now
    ensures r.Some? ==> r.value.reportId == reportId && r.value.storeId == storeId
  {
    if q.DbError? || now < MicrosPerWeek then None
    else
      var hour := Measure(q.rows, storeId, TimeOf(now - MicrosPerHour), TimeOf(now), status);
      var day := Measure(q.rows, storeId, TimeOf(now - MicrosPerDay), TimeOf(now), status);
      var week := Measure(q.rows, storeId, TimeOf(now - MicrosPerWeek), TimeOf(now), status);
      Some(ReportEntry(reportId, storeId, hour.uptime, day.uptime, week.uptime, hour.downtime, day.downtime, week.downtime))
  }

  /** What any entry says, whatever the status source: it exists exactly when
      the query succeeds and `now` is at least a week after datetime.min; it
      carries the report and store ids; its day and week metrics are all zero;
      and its hour metrics are non-negative and add up to at most one hour per
      business-hour row. */
  lemma EntryForShape(q: Query<seq<MenuHours>>, reportId: string, storeId: int, now: Timestamp, status: StatusOracle)
    ensures EntryFor(q, reportId, storeId, now, status).Some? <==> q.Rows? && MicrosPerWeek <= now
    ensures EntryFor(q, reportId, storeId, now, status).Some? ==>
              var e := EntryFor(q, reportId, storeId, now, status).value;
              && e.reportId == reportId && e.storeId == storeId
              && e.uptimeLastDay == 0.0 && e.downtimeLastDay == 0.0
              && e.updateLastWeek == 0.0 && e.downtimeLastWeek == 0.0
              && 0.0 <= e.uptimeLastHour && 0.0 <= e.downtimeLastHour
              && e.uptimeLastHour + e.downtimeLastHour <= |q.rows| as real
  {
    if q.Rows? && MicrosPerWeek <= now {
      var ws, we := TimeOf(now - MicrosPerHour), TimeOf(now);
      DayAndWeekWindowsAreEmpty(q.rows, storeId, now, status);
      MeasureSplitsBusinessTime(q.rows, storeId, ws, we, status);
      HourWindowBound(q.rows, now);
    }
  }

  /** With the always-active status source an entry's hour uptime is the
      hour's whole business time (zero when the hour wraps past midnight)
      and every downtime is zero. */
  lemma StubEntry(q: Query<seq<MenuHours>>, reportId: string, storeId: int, now: Timestamp)
    requires q.Rows? && MicrosPerWeek <= now
    ensures var e := EntryFor(q, reportId, storeId, now, GetStoreStatus).value;
            && e.uptimeLastHour == BusinessSeconds(q.rows, TimeOf(now - MicrosPerHour), TimeOf(now)) as real / 3600.0
            && e.downtimeLastHour == 0.0 && e.downtimeLastDay == 0.0 && e.downtimeLastWeek == 0.0
            && (now % MicrosPerDay < MicrosPerHour ==> e.uptimeLastHour == 0.0)
  {
    StubHasNoDowntime(q.rows, storeId, TimeOf(now - MicrosPerHour), TimeOf(now));
    DayAndWeekWindowsAreEmpty(q.rows, storeId, now, GetStoreStatus);
    HourWindowBound(q.rows, now);
  }

  /** `generate_and_store_report_data`: computes the hour, day and week
      windows ending at `now` and adds one entry for the store; any error is
      logged and swallowed, and then nothing is added. */
  method GenerateAndStoreReportData(db: Db, reportId: string, store: TimeZone, now: Timestamp, status: StatusOracle)
    modifies db
    ensures db.entries == old(db.entries) + Emitted(EntryFor(db.QueryMenuHours(store.storeId), reportId, store.storeId, now, status))
    ensures db.tasks == old(db.tasks)
  {
    var businessHours := db.QueryMenuHours(store.storeId);
    if businessHours.DbError? {
      return;
    }
    var hourStart := Subtract(now, MicrosPerHour);
    if hourStart.None? {
      return;
    }
    var lastHour := CalculateUptimeDowntime(db, store.storeId, hourStart.value, now, status);
    if lastHour.None? {
      return;
    }
    var dayStart := Subtract(now, MicrosPerDay);
    if dayStart.None? {
      return;
    }
    var lastDay := CalculateUptimeDowntime(db, store.storeId, dayStart.value, now, status);
    if lastDay.None? {
      return;
    }
    var weekStart := Subtract(now, MicrosPerWeek);
    if weekStart.None? {
      return;
    }
    var lastWeek := CalculateUptimeDowntime(db, store.storeId, weekStart.value, now, status);
    if lastWeek.None? {
      return;
    }
    var entry := ReportEntry(
      reportId, store.storeId,
      lastHour.value.uptime, lastDay.value.uptime, lastWeek.value.uptime,
      lastHour.value.downtime, lastDay.value.downtime, lastWeek.value.downtime);
    db.AddEntry(entry);
  }

  // ---------------------------------------------------------------------------
  // Many stores

  /** The entries a run over `stores` adds, store by store in list order, all
      with the same report id and the same window end. */
  function JobEntries(menuHours: seq<MenuHours>, faulty: set<int>, reportId: string, stores: seq<TimeZone>,
                      now: Timestamp, status: StatusOracle): seq<ReportEntry>
  {
    if stores == [] then []
    else
      var last := stores[|stores| - 1];
      JobEntries(menuHours, faulty, reportId, stores[..|stores| - 1], now, status)
        + Emitted(EntryFor(MenuHoursQuery(menuHours, faulty, last.storeId), reportId, last.storeId, now, status))
  }

  /** A run adds no more entries than there are stores, each under the run's
      report id and for a store of the list whose query did not fail. */
  lemma {:induction false} JobEntriesShape(menuHours: seq<MenuHours>, faulty: set<int>, reportId: string,
                                           stores: seq<TimeZone>, now: Timestamp, status: StatusOracle)
    ensures var r := JobEntries(menuHours, faulty, reportId, stores, now, status);
            && |r| <= |stores|
            && (forall i :: 0 <= i < |r| ==> r[i].reportId == reportId)
            && (forall i :: 0 <= i < |r| ==> r[i].storeId !in faulty)
            && (forall i :: 0 <= i < |r| ==> exists k :: 0 <= k < |stores| && stores[k].storeId == r[i].storeId)
  {
    if stores != [] {
      var init := stores[..|stores| - 1];
      var last := stores[|stores| - 1];
      JobEntriesShape(menuHours, faulty, reportId, init, now, status);
      var q := MenuHoursQuery(menuHours, faulty, last.storeId);
      var r0 := JobEntries(menuHours, faulty, reportId, init, now, status);
      var r := JobEntries(menuHours, faulty, reportId, stores, now, status);
      forall i | 0 <= i < |r|
        ensures exists k :: 0 <= k < |stores| && stores[k].storeId == r[i].storeId
      {
        if i < |r0| {
          var k :| 0 <= k < |init| && init[k].storeId == r0[i].storeId;
          assert stores[k] == init[k];
        } else {
          assert stores[|stores| - 1].storeId == r[i].storeId;
        }
      }
    }
  }

  /** Entries before the run, and the run over one more store, are those
      entries, the run so far and the new store's entry if it has one. */
  lemma JobEntriesStep(before: seq<ReportEntry>, menuHours: seq<MenuHours>, faulty: set<int>, reportId: string,
                       stores: seq<TimeZone>, i: nat, now: Timestamp, status: StatusOracle)
    requires i < |stores|
    ensures before + JobEntries(menuHours, faulty, reportId, stores[..i + 1], now, status)
         == before + JobEntries(menuHours, faulty, reportId, stores[..i], now, status)
            + Emitted(EntryFor(MenuHoursQuery(menuHours, faulty, stores[i].storeId), reportId, stores[i].storeId, now, status))
  {
    var upTo := stores[..i + 1];
    assert upTo[..i] == stores[..i];
    assert upTo[i] == stores[i];
    var own := Emitted(EntryFor(MenuHoursQuery(menuHours, faulty, stores[i].storeId), reportId, stores[i].storeId, now, status));
    var run := JobEntries(menuHours, faulty, reportId, stores[..i], now, status);
    assert JobEntries(menuHours, faulty, reportId, upTo, now, status) == run + own;
    assert before + (run + own) == before + run + own;
  }

  /** A run over two lists of stores adds the entries of the first, then
      those of the second. */
  lemma {:induction false} JobEntriesAppend(menuHours: seq<MenuHours>, faulty: set<int>, reportId: string,
                                            a: seq<TimeZone>, b: seq<TimeZone>, now: Timestamp, status: StatusOracle)
    ensures JobEntries(menuHours, faulty, reportId, a + b, now, status)
         == JobEntries(menuHours, faulty, reportId, a, now, status) + JobEntries(menuHours, faulty, reportId, b, now, status)
    decreases |b|
  {
    if b == [] {
      assert a + b == a;
    } else {
      var init, last := b[..|b| - 1], b[|b| - 1];
      JobEntriesAppend(menuHours, faulty, reportId, a, init, now, status);
      assert (a + b)[..|a + b| - 1] == a + init;
      assert (a + b)[|a + b| - 1] == last;
      var own := Emitted(EntryFor(MenuHoursQuery(menuHours, faulty, last.storeId), reportId, last.storeId, now, status));
      var ra, ri := JobEntries(menuHours, faulty, reportId, a, now, status), JobEntries(menuHours, faulty, reportId, init, now, status);
      assert JobEntries(menuHours, faulty, reportId, a + b, now, status) == ra + ri + own;
      assert JobEntries(menuHours, faulty, reportId, b, now, status) == ri + own;
      assert ra + ri + own == ra + (ri + own);
    }
  }

  /** Each store's entry, or its absence, depends on that store alone: a run
      adds the entries of the stores before it, then its own entry if it has
      one, then the entries of the stores after it. */
  lemma JobEntriesAround(menuHours: seq<MenuHours>, faulty: set<int>, reportId: string,
                         stores: seq<TimeZone>, k: nat, now: Timestamp, status: StatusOracle)
    requires k < |stores|
    ensures JobEntries(menuHours, faulty, reportId, stores, now, status)
         == JobEntries(menuHours, faulty, reportId, stores[..k], now, status)
            + Emitted(EntryFor(MenuHoursQuery(menuHours, faulty, stores[k].storeId), reportId, stores[k].storeId, now, status))
            + JobEntries(menuHours, faulty, reportId, stores[k + 1..], now, status)
  {
    var before, after := stores[..k], stores[k + 1..];
    assert stores == before + [stores[k]] + after;
    JobEntriesAppend(menuHours, faulty, reportId, before + [stores[k]], after, now, status);
    JobEntriesAppend(menuHours, faulty, reportId, before, [stores[k]], now, status);
    assert [stores[k]][..0] == [];
  }

  /** A store whose query succeeds gets its entry once `now` is at least a
      week after datetime.min, whichever other stores fail. */
  lemma WorkingStoreKeepsItsEntry(menuHours: seq<MenuHours>, faulty: set<int>, reportId: string,
                                  stores: seq<TimeZone>, k: nat, now: Timestamp, status: StatusOracle)
    requires k < |stores| && stores[k].storeId !in faulty && MicrosPerWeek <= now
    ensures var r := JobEntries(menuHours, faulty, reportId, stores, now, status);
            exists i :: 0 <= i < |r| && r[i].storeId == stores[k].storeId && r[i].reportId == reportId
  {
    JobEntriesAround(menuHours, faulty, reportId, stores, k, now, status);
    var r := JobEntries(menuHours, faulty, reportId, stores, now, status);
    var i := |JobEntries(menuHours, faulty, reportId, stores[..k], now, status)|;
    assert r[i].storeId == stores[k].storeId && r[i].reportId == reportId;
  }

  /** When no store's query fails and `now` is at least a week after
      datetime.min, there is exactly one entry per store, in list order. */
  lemma {:induction false} JobEntriesPerStore(menuHours: seq<MenuHours>, faulty: set<int>, reportId: string,
                                              stores: seq<TimeZone>, now: Timestamp, status: StatusOracle)
    requires MicrosPerWeek <= now
    requires forall k :: 0 <= k < |stores| ==> stores[k].storeId !in faulty
    ensures var r := JobEntries(menuHours, faulty, reportId, stores, now, status);
            && |r| == |stores|
            && forall i :: 0 <= i < |r| ==> r[i].storeId == stores[i].storeId && r[i].reportId == reportId
  {
    if stores != [] {
      var init, last := stores[..|stores| - 1], stores[|stores| - 1];
      assert forall k :: 0 <= k < |init| ==> init[k] == stores[k];
      JobEntriesPerStore(menuHours, faulty, reportId, init, now, status);
      var q := MenuHoursQuery(menuHours, faulty, last.storeId);
      var r0 := JobEntries(menuHours, faulty, reportId, init, now, status);
      var e := EntryFor(q, reportId, last.storeId, now, status).value;
      var r := JobEntries(menuHours, faulty, reportId, stores, now, status);
      assert r == r0 + [e];
      forall i | 0 <= i < |r|
        ensures r[i].storeId == stores[i].storeId && r[i].reportId == reportId
      {
        if i < |r0| {
          assert r[i] == r0[i];
        } else {
          assert r[i] == e;
        }
      }
    }
  }

  /** Less than a week after datetime.min every store fails, and nothing is added. */
  lemma {:induction false} JobEntriesTooEarly(menuHours: seq<MenuHours>, faulty: set<int>, reportId: string,
                                              stores: seq<TimeZone>, now: Timestamp, status: StatusOracle)
    requires now < MicrosPerWeek
    ensures JobEntries(menuHours, faulty, reportId, stores, now, status) == []
  {
    if stores != [] {
      JobEntriesTooEarly(menuHours, faulty, reportId, stores[..|stores| - 1], now, status);
    }
  }

  /** `generate_reports`: visits every store in order and returns the report id;
      per-store errors never escape. */
  method GenerateReports(db: Db, reportId: string, now: Timestamp, stores: seq<TimeZone>, status: StatusOracle)
    returns (r: string)
    modifies db
    ensures r == reportId
    ensures db.entries == old(db.entries) + JobEntries(db.menuHours, db.faultyStores, reportId, stores, now, status)
    ensures db.tasks == old(db.tasks)
  {
    for i := 0 to |stores|
      invariant db.entries == old(db.entries) + JobEntries(db.menuHours, db.faultyStores, reportId, stores[..i], now, status)
      invariant db.tasks == old(db.tasks)
    {
      JobEntriesStep(old(db.entries), db.menuHours, db.faultyStores, reportId, stores, i, now, status);
      GenerateAndStoreReportData(db, reportId, stores[i], now, status);
    }
    assert stores[..|stores|] == stores;
    r := reportId;
  }

  // ---------------------------------------------------------------------------
  // Status lookup and CSV rendering

  const NotFound := "Not Found"

  const Columns: seq<string> := [
    "store_id", "uptime_last_hour", "uptime_last_day", "update_last_week",
    "downtime_last_hour", "downtime_last_day", "downtime_last_week"]

  /** The fixed header line, the column names separated by commas. */
  const Header: string := Join(Columns, ',')

  /** How a float is written inside an f-string (Python's `repr`). */
  type NumberFormat = real -> string

  /** A number format whose output holds neither a comma nor a newline, as
      Python's float text does not. */
  ghost predicate PlainFormat(fmt: NumberFormat) {
    forall x :: ',' !in fmt(x) && '\n' !in fmt(x)
  }

  /** The field texts of one CSV line, in header order. */
  function Fields(e: ReportEntry, fmt: NumberFormat): seq<string> {
    [ IntToString(e.storeId), fmt(e.uptimeLastHour), fmt(e.uptimeLastDay), fmt(e.updateLastWeek),
      fmt(e.downtimeLastHour), fmt(e.downtimeLastDay), fmt(e.downtimeLastWeek) ]
  }

  /** One entry's line without its newline: the f-string's seven fields separated by commas. */
  function Line(e: ReportEntry, fmt: NumberFormat): string {
    Join(Fields(e, fmt), ',')
  }

  /** The entries' lines, in order. */
  function Lines(entries: seq<ReportEntry>, fmt: NumberFormat): seq<string> {
    seq(|entries|, i requires 0 <= i < |entries| => Line(entries[i], fmt))
  }

  /** The header line, then each entry's line, every line ending in a newline. */
  function CsvText(entries: seq<ReportEntry>, fmt: NumberFormat): string {
    Header + "\n" + Unlines(Lines(entries, fmt))
  }

  /** `generate_report_csv_data`: the header and one line per entry of the
      report, in the order the entries were stored. */
  method GenerateReportCsvData(db: Db, reportId: string, fmt: NumberFormat) returns (csvData: string)
    ensures csvData == CsvText(EntriesOfReport(db.entries, reportId), fmt)
  {
    var reportEntries := EntriesOfReport(db.entries, reportId);
    var head := Header + "\n";
    csvData := head;
    for i := 0 to |reportEntries|
      invariant csvData == head + Unlines(Lines(reportEntries[..i], fmt))
    {
      var entry := reportEntries[i];
      LinesStep(head, reportEntries, i, fmt);
      csvData := csvData + Line(entry, fmt) + "\n";
    }
    assert reportEntries[..|reportEntries|] == reportEntries;
  }

  /** Text before the lines, and the lines of one more entry, is that text,
      the lines so far and the new entry's line. */
  lemma LinesStep(prefix: string, entries: seq<ReportEntry>, i: nat, fmt: NumberFormat)
    requires i < |entries|
    ensures prefix + Unlines(Lines(entries[..i + 1], fmt))
         == prefix + Unlines(Lines(entries[..i], fmt)) + Line(entries[i], fmt) + "\n"
  {
    var lines := Lines(entries[..i + 1], fmt);
    assert lines[..i] == Lines(entries[..i], fmt);
    UnlinesStep(prefix, lines);
  }

  /** `get_report_status_and_data`: an unknown id gives "Not Found" and no
      data; a complete report gives its status and its CSV text; any other
      status is returned with no data. */
  method GetReportStatusAndData(db: Db, reportId: string, fmt: NumberFormat) returns (status: string, data: Option<string>)
    ensures reportId !in db.tasks ==> status == NotFound && data == None
    ensures reportId in db.tasks && db.tasks[reportId] == Complete ==>
              status == Complete && data == Some(CsvText(EntriesOfReport(db.entries, reportId), fmt))
    ensures reportId in db.tasks && db.tasks[reportId] != Complete ==> status == db.tasks[reportId] && data == None
  {
    if reportId !in db.tasks {
      return NotFound, None;
    }
    var taskStatus := db.tasks[reportId];
    if taskStatus == Complete {
      var csvData := GenerateReportCsvData(db, reportId, fmt);
      return taskStatus, Some(csvData);
    }
    return taskStatus, None;
  }

  // ---------------------------------------------------------------------------
  // What the CSV text is made of

  lemma JoinAvoids(parts: seq<string>, c: char, d: char)
    requires |parts| >= 1 && c != d
    requires forall k :: 0 <= k < |parts| ==> d !in parts[k]
    ensures d !in Join(parts, c)
  {
    if |parts| > 1 {
      JoinAvoids(parts[1..], c, d);
    }
  }

  lemma FieldsArePlain(e: ReportEntry, fmt: NumberFormat)
    requires PlainFormat(fmt)
    ensures |Fields(e, fmt)| == |Columns|
    ensures forall k :: 0 <= k < |Fields(e, fmt)| ==> ',' !in Fields(e, fmt)[k] && '\n' !in Fields(e, fmt)[k]
  {
    var s := IntToString(e.storeId);
    assert ',' !in s && '\n' !in s;
  }

  /** Each line splits at its commas into the entry's seven fields, in header order. */
  lemma LineSplitsIntoFields(e: ReportEntry, fmt: NumberFormat)
    requires PlainFormat(fmt)
    ensures Split(Line(e, fmt), ',') == Fields(e, fmt)
    ensures |Split(Line(e, fmt), ',')| == |Columns|
    ensures '\n' !in Line(e, fmt)
  {
    FieldsArePlain(e, fmt);
    SplitJoin(Fields(e, fmt), ',');
    JoinAvoids(Fields(e, fmt), ',', '\n');
  }

  /** The header splits at its commas into the column names. */
  lemma HeaderSplitsIntoColumns()
    ensures Split(Header, ',') == Columns
  {
    var c := Columns;
    assert forall k :: 0 <= k < |c| ==> ',' !in c[k];
    SplitJoin(c, ',');
  }

  lemma HeaderHasNoNewline()
    ensures '\n' !in Header
  {
    var c := Columns;
    assert forall k :: 0 <= k < |c| ==> '\n' !in c[k];
    JoinAvoids(c, ',', '\n');
  }

  /** Each of the entries' lines splits at its commas into that entry's
      fields, and holds no newline. */
  lemma LinesSplitIntoFields(entries: seq<ReportEntry>, fmt: NumberFormat)
    requires PlainFormat(fmt)
    ensures forall i :: 0 <= i < |entries| ==> Split(Lines(entries, fmt)[i], ',') == Fields(entries[i], fmt)
    ensures forall i :: 0 <= i < |entries| ==> '\n' !in Lines(entries, fmt)[i]
  {
    forall i | 0 <= i < |entries|
      ensures Split(Lines(entries, fmt)[i], ',') == Fields(entries[i], fmt)
      ensures '\n' !in Lines(entries, fmt)[i]
    {
      LineSplitsIntoFields(entries[i], fmt);
    }
  }

  /** The CSV text is the header line and then exactly one line per entry, in
      order, each newline-terminated: 1 + |entries| lines in all; each entry's
      line splits at its commas into its fields in header order. */
  lemma CsvLayout(entries: seq<ReportEntry>, fmt: NumberFormat)
    requires PlainFormat(fmt)
    ensures Split(CsvText(entries, fmt), '\n') == [Header] + Lines(entries, fmt) + [""]
    ensures |Split(CsvText(entries, fmt), '\n')| == 1 + |entries| + 1
    ensures forall i :: 0 <= i < |entries| ==> Split(Lines(entries, fmt)[i], ',') == Fields(entries[i], fmt)
  {
    HeaderHasNoNewline();
    LinesSplitIntoFields(entries, fmt);
    SplitAfterFirstLine(Header, Lines(entries, fmt));
  }
}
