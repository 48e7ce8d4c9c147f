/** The records of the store-monitoring database: store status values,
    business-hour rows, store time zones, report entries and report tasks. */
module Models {

  import opened Clock

  /** A store's operational status; the enumeration has exactly these two members. */
  datatype Status = Active | Inactive

  /** The value each status member is stored under. */
  function StatusValue(s: Status): (v: string)
    ensures v == "active" || v == "inactive"
    ensures v == "active" <==> s == Active
  {
    match s
    case Active => "active"
    case Inactive => "inactive"
  }

  /** A day of the week, 0 for Monday through 6 for Sunday. */
  type Weekday = d: int | 0 <= d <= 6

  /** One configured business-hour interval of a store, in local clock time.
      Every column is non-null. */
  datatype MenuHours = MenuHours(storeId: int, day: Weekday, startTimeLocal: TimeOfDay, endTimeLocal: TimeOfDay)

  /** A store and the name of its time zone; this table is the store roster. */
  datatype TimeZone = TimeZone(storeId: int, timezoneStr: string)

  /** One store's result row in one report: six non-null metrics in hours.
      The week's uptime is kept under the name `update_last_week`. */
  datatype ReportEntry = ReportEntry(
    reportId: string,
    storeId: int,
    uptimeLastHour: real,
    uptimeLastDay: real,
    updateLastWeek: real,
    downtimeLastHour: real,
    downtimeLastDay: real,
    downtimeLastWeek: real)

  /** The status values a report task is ever written with. */
  const Running := "Running"
  const Complete := "Complete"

  /** `MenuHours.query.filter_by(store_id = storeId).all()`, in table order. */
  function HoursOfStore(rows: seq<MenuHours>, storeId: int): (r: seq<MenuHours>)
    ensures |r| <= |rows|
    ensures forall row :: row in r <==> row in rows && row.storeId == storeId
  {
    if rows == [] then []
    else
      var rest := HoursOfStore(rows[..|rows| - 1], storeId);
      var last := rows[|rows| - 1];
      assert rows == rows[..|rows| - 1] + [last];
      if last.storeId == storeId then rest + [last] else rest
  }

  /** The business-hour query keeps every row of the store as many times as
      the table holds it, and no row of another store. */
  lemma {:induction false} HoursOfStoreCounts(rows: seq<MenuHours>, storeId: int)
    ensures forall row :: multiset(HoursOfStore(rows, storeId))[row]
                          == if row.storeId == storeId then multiset(rows)[row] else 0
  {
    if rows != [] {
      var init, last := rows[..|rows| - 1], rows[|rows| - 1];
      HoursOfStoreCounts(init, storeId);
      assert rows == init + [last];
      assert multiset(rows) == multiset(init) + multiset{last};
    }
  }

  /** `ReportEntry.query.filter_by(report_id = reportId).all()`, in insertion order. */
  function EntriesOfReport(entries: seq<ReportEntry>, reportId: string): (r: seq<ReportEntry>)
    ensures |r| <= |entries|
    ensures forall e :: e in r <==> e in entries && e.reportId == reportId
  {
    if entries == [] then []
    else
      var rest := EntriesOfReport(entries[..|entries| - 1], reportId);
      var last := entries[|entries| - 1];
      assert entries == entries[..|entries| - 1] + [last];
      if last.reportId == reportId then rest + [last] else rest
  }

  /** Adding a row of another report leaves a report's entries as they were;
      adding one of its own appends it. */
  lemma {:induction false} EntriesOfReportAppend(entries: seq<ReportEntry>, e: ReportEntry, reportId: string)
    ensures EntriesOfReport(entries + [e], reportId)
         == EntriesOfReport(entries, reportId) + (if e.reportId == reportId then [e] else [])
  {
    assert (entries + [e])[..|entries + [e]| - 1] == entries;
  }

  /** A report none of whose entries is stored has no entries. */
  lemma {:induction false} EntriesOfAbsentReport(entries: seq<ReportEntry>, reportId: string)
    requires forall e :: e in entries ==> e.reportId != reportId
    ensures EntriesOfReport(entries, reportId) == []
  {
    if entries != [] {
      var init := entries[..|entries| - 1];
      assert forall e :: e in init ==> e in entries;
      EntriesOfAbsentReport(init, reportId);
      assert entries[|entries| - 1] in entries;
    }
  }

  /** Appending entries that all belong to a report no stored entry belongs
      to makes them exactly that report's entries. */
  lemma {:induction false} EntriesOfFreshReport(entries: seq<ReportEntry>, added: seq<ReportEntry>, reportId: string)
    requires forall e :: e in entries ==> e.reportId != reportId
    requires forall i :: 0 <= i < |added| ==> added[i].reportId == reportId
    ensures EntriesOfReport(entries + added, reportId) == added
    decreases |added|
  {
    if added == [] {
      assert entries + added == entries;
      EntriesOfAbsentReport(entries, reportId);
    } else {
      var init, last := added[..|added| - 1], added[|added| - 1];
      EntriesOfFreshReport(entries, init, reportId);
      assert entries + added == (entries + init) + [last];
      EntriesOfReportAppend(entries + init, last, reportId);
      assert init + [last] == added;
    }
  }
}
