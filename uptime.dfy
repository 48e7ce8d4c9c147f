/** Uptime and downtime of one store over one window (`calculate_uptime_downtime`
    and `get_store_status`). Each business-hour row of the store is clipped
    against the time of day of the window's start and end; the whole seconds of
    every non-empty overlap count as business time, and as uptime when the
    status source reports the store active over that overlap. The row's weekday
    and the window's calendar dates play no part. */
module Uptime {

  import opened Wrappers
  import opened Clock
  import opened Models
  import opened Database

  /** Where a store's status over an interval comes from. */
  type StatusOracle = (int, TimeOfDay, TimeOfDay) -> Status

  /** `get_store_status` as implemented: the store is always active. */
  function GetStoreStatus(storeId: int, startTime: TimeOfDay, endTime: TimeOfDay): (s: Status)
    ensures s == Active
  {
    Active
  }

  /** Uptime and downtime, in hours. */
  datatype Totals = Totals(uptime: real, downtime: real)

  function OverlapStart(row: MenuHours, windowStart: TimeOfDay): TimeOfDay {
    Later(row.startTimeLocal, windowStart)
  }

  function OverlapEnd(row: MenuHours, windowEnd: TimeOfDay): TimeOfDay {
    Earlier(row.endTimeLocal, windowEnd)
  }

  predicate Overlaps(row: MenuHours, windowStart: TimeOfDay, windowEnd: TimeOfDay) {
    Before(OverlapStart(row, windowStart), OverlapEnd(row, windowEnd))
  }

  /** The seconds one row adds to the window's business time. */
  function Contribution(row: MenuHours, windowStart: TimeOfDay, windowEnd: TimeOfDay): (secs: nat)
    ensures secs > 0 ==> Overlaps(row, windowStart, windowEnd)
  {
    var s := OverlapStart(row, windowStart);
    var e := OverlapEnd(row, windowEnd);
    if Before(s, e) then
      ClockSecondsMonotone(s, e);
      e.ClockSeconds() - s.ClockSeconds()
    else 0
  }

  /** The row overlaps the window and the status source calls that overlap active. */
  predicate CountsAsUp(row: MenuHours, storeId: int, windowStart: TimeOfDay, windowEnd: TimeOfDay, status: StatusOracle) {
    && Overlaps(row, windowStart, windowEnd)
    && status(storeId, OverlapStart(row, windowStart), OverlapEnd(row, windowEnd)) == Active
  }

  /** Total business seconds of the rows in the window. */
  function BusinessSeconds(rows: seq<MenuHours>, windowStart: TimeOfDay, windowEnd: TimeOfDay): nat {
    if rows == [] then 0
    else BusinessSeconds(rows[..|rows| - 1], windowStart, windowEnd) + Contribution(rows[|rows| - 1], windowStart, windowEnd)
  }

  /** Business seconds of the rows whose overlap the status source calls active. */
  function UpSeconds(rows: seq<MenuHours>, storeId: int, windowStart: TimeOfDay, windowEnd: TimeOfDay, status: StatusOracle): nat {
    if rows == [] then 0
    else
      var last := rows[|rows| - 1];
      UpSeconds(rows[..|rows| - 1], storeId, windowStart, windowEnd, status)
        + (if CountsAsUp(last, storeId, windowStart, windowEnd, status) then Contribution(last, windowStart, windowEnd) else 0)
  }

  /** The pair the calculation returns: uptime hours, and business hours minus uptime hours. */
  function Measure(rows: seq<MenuHours>, storeId: int, windowStart: TimeOfDay, windowEnd: TimeOfDay, status: StatusOracle): Totals {
    var up := UpSeconds(rows, storeId, windowStart, windowEnd, status);
    Totals(up as real / 3600.0, (BusinessSeconds(rows, windowStart, windowEnd) - up) as real / 3600.0)
  }

  /** One more row adds its contribution to the business seconds, and to the
      up seconds when it counts as up. */
  lemma SumsStep(rows: seq<MenuHours>, i: nat, storeId: int, windowStart: TimeOfDay, windowEnd: TimeOfDay, status: StatusOracle)
    requires i < |rows|
    ensures BusinessSeconds(rows[..i + 1], windowStart, windowEnd)
         == BusinessSeconds(rows[..i], windowStart, windowEnd) + Contribution(rows[i], windowStart, windowEnd)
    ensures UpSeconds(rows[..i + 1], storeId, windowStart, windowEnd, status)
         == UpSeconds(rows[..i], storeId, windowStart, windowEnd, status)
            + (if CountsAsUp(rows[i], storeId, windowStart, windowEnd, status) then Contribution(rows[i], windowStart, windowEnd) else 0)
  {
    var upTo := rows[..i + 1];
    assert upTo[..i] == rows[..i];
    assert upTo[i] == rows[i];
  }

  /** `calculate_uptime_downtime`: None when the business-hour query raises
      (the error is logged and the function falls off its end). */
  method CalculateUptimeDowntime(db: Db, storeId: int, startTime: Timestamp, endTime: Timestamp, status: StatusOracle)
    returns (r: Option<Totals>)
    ensures db.QueryMenuHours(storeId).DbError? ==> r == None
    ensures db.QueryMenuHours(storeId).Rows? ==>
              r == Some(Measure(db.QueryMenuHours(storeId).rows, storeId, TimeOf(startTime), TimeOf(endTime), status))
  {
    var businessHours := db.QueryMenuHours(storeId);
    if businessHours.DbError? {
      return None;
    }
    var totalBusinessHours, totalUptime := SumOverlaps(businessHours.rows, storeId, TimeOf(startTime), TimeOf(endTime), status);
    var totalDowntime := totalBusinessHours - totalUptime;
    r := Some(Totals(totalUptime, totalDowntime));
  }

  /** The loop of `calculate_uptime_downtime`: the hours of every row's
      overlap with the window, and of those the status source calls active. */
  method SumOverlaps(rows: seq<MenuHours>, storeId: int, windowStart: TimeOfDay, windowEnd: TimeOfDay, status: StatusOracle)
    returns (totalBusinessHours: real, totalUptime: real)
    ensures totalBusinessHours == BusinessSeconds(rows, windowStart, windowEnd) as real / 3600.0
    ensures totalUptime == UpSeconds(rows, storeId, windowStart, windowEnd, status) as real / 3600.0
  {
    totalBusinessHours, totalUptime := 0.0, 0.0;
    for i := 0 to |rows|
      invariant totalBusinessHours == BusinessSeconds(rows[..i], windowStart, windowEnd) as real / 3600.0
      invariant totalUptime == UpSeconds(rows[..i], storeId, windowStart, windowEnd, status) as real / 3600.0
    {
      var row := rows[i];
      SumsStep(rows, i, storeId, windowStart, windowEnd, status);
      var overlapStart := Later(row.startTimeLocal, windowStart);
      var overlapEnd := Earlier(row.endTimeLocal, windowEnd);
      if Before(overlapStart, overlapEnd) {
        ClockSecondsMonotone(overlapStart, overlapEnd);
        var overlapSeconds := overlapEnd.ClockSeconds() - overlapStart.ClockSeconds();
        totalBusinessHours := totalBusinessHours + overlapSeconds as real / 3600.0;
        var storeStatus := status(storeId, overlapStart, overlapEnd);
        if storeStatus == Active {
          totalUptime := totalUptime + overlapSeconds as real / 3600.0;
        }
      }
    }
    assert rows[..|rows|] == rows;
  }

  /** A row takes part exactly when the later of the two starts is before the
      earlier of the two ends, counted in microseconds since midnight; it then
      adds the whole seconds between them (each end rounded down to a second),
      which is within one second of the exact overlap and equal to it when all
      four ends are whole seconds. */
  lemma ContributionIsClippedOverlap(row: MenuHours, windowStart: TimeOfDay, windowEnd: TimeOfDay)
    ensures var a := if row.startTimeLocal.Micros() < windowStart.Micros() then windowStart.Micros() else row.startTimeLocal.Micros();
            var b := if windowEnd.Micros() < row.endTimeLocal.Micros() then windowEnd.Micros() else row.endTimeLocal.Micros();
            && (Overlaps(row, windowStart, windowEnd) <==> a < b)
            && (a < b ==> Contribution(row, windowStart, windowEnd) == b / 1_000_000 - a / 1_000_000)
            && (a < b ==> b - a - 1_000_000 < Contribution(row, windowStart, windowEnd) * 1_000_000 < b - a + 1_000_000)
            && (a < b && a % 1_000_000 == 0 && b % 1_000_000 == 0 ==> Contribution(row, windowStart, windowEnd) * 1_000_000 == b - a)
            && (b <= a ==> Contribution(row, windowStart, windowEnd) == 0)
  {
    var s, e := OverlapStart(row, windowStart), OverlapEnd(row, windowEnd);
    BeforeIsMicrosLess(row.startTimeLocal, windowStart);
    BeforeIsMicrosLess(windowEnd, row.endTimeLocal);
    BeforeIsMicrosLess(s, e);
    ClockSecondsIsFloor(s);
    ClockSecondsIsFloor(e);
  }

  /** A row whose end is not after its start (one that runs past midnight) never counts. */
  lemma OvernightRowNeverCounts(row: MenuHours, windowStart: TimeOfDay, windowEnd: TimeOfDay)
    requires !Before(row.startTimeLocal, row.endTimeLocal)
    ensures !Overlaps(row, windowStart, windowEnd)
    ensures Contribution(row, windowStart, windowEnd) == 0
  {
    var s, e := OverlapStart(row, windowStart), OverlapEnd(row, windowEnd);
    BeforeIsMicrosLess(row.startTimeLocal, row.endTimeLocal);
    BeforeIsMicrosLess(row.startTimeLocal, windowStart);
    BeforeIsMicrosLess(windowEnd, row.endTimeLocal);
    BeforeIsMicrosLess(s, e);
  }

  /** Whatever the status source says, uptime lies between zero and the business time. */
  lemma {:induction false} UpWithinBusiness(rows: seq<MenuHours>, storeId: int, windowStart: TimeOfDay, windowEnd: TimeOfDay, status: StatusOracle)
    ensures UpSeconds(rows, storeId, windowStart, windowEnd, status) <= BusinessSeconds(rows, windowStart, windowEnd)
  {
    if rows != [] {
      UpWithinBusiness(rows[..|rows| - 1], storeId, windowStart, windowEnd, status);
    }
  }

  /** For any status source, uptime and downtime are non-negative and add up to
      the business time of the window, in hours. */
  lemma MeasureSplitsBusinessTime(rows: seq<MenuHours>, storeId: int, windowStart: TimeOfDay, windowEnd: TimeOfDay, status: StatusOracle)
    ensures var m := Measure(rows, storeId, windowStart, windowEnd, status);
            && 0.0 <= m.uptime && 0.0 <= m.downtime
            && m.uptime + m.downtime == BusinessSeconds(rows, windowStart, windowEnd) as real / 3600.0
  {
    UpWithinBusiness(rows, storeId, windowStart, windowEnd, status);
  }

  /** With the always-active status source every business second is uptime. */
  lemma {:induction false} StubUpIsBusiness(rows: seq<MenuHours>, storeId: int, windowStart: TimeOfDay, windowEnd: TimeOfDay)
    ensures UpSeconds(rows, storeId, windowStart, windowEnd, GetStoreStatus) == BusinessSeconds(rows, windowStart, windowEnd)
  {
    if rows != [] {
      StubUpIsBusiness(rows[..|rows| - 1], storeId, windowStart, windowEnd);
    }
  }

  /** With the always-active status source downtime is zero and uptime is the
      whole business time. */
  lemma StubHasNoDowntime(rows: seq<MenuHours>, storeId: int, windowStart: TimeOfDay, windowEnd: TimeOfDay)
    ensures Measure(rows, storeId, windowStart, windowEnd, GetStoreStatus)
         == Totals(BusinessSeconds(rows, windowStart, windowEnd) as real / 3600.0, 0.0)
  {
    StubUpIsBusiness(rows, storeId, windowStart, windowEnd);
  }

  /** A store without business-hour rows gets zero uptime and zero downtime:
      there is no always-open default. */
  lemma NoHoursNoTime(storeId: int, windowStart: TimeOfDay, windowEnd: TimeOfDay, status: StatusOracle)
    ensures Measure([], storeId, windowStart, windowEnd, status) == Totals(0.0, 0.0)
  {
  }

  lemma SameTimeOfDayRowIsEmpty(row: MenuHours, t: TimeOfDay)
    ensures Contribution(row, t, t) == 0
  {
    var s, e := OverlapStart(row, t), OverlapEnd(row, t);
    BeforeIsMicrosLess(row.startTimeLocal, t);
    BeforeIsMicrosLess(t, row.endTimeLocal);
    BeforeIsMicrosLess(s, e);
  }

  /** When the window starts and ends at the same time of day, no row counts. */
  lemma {:induction false} SameTimeOfDayIsEmpty(rows: seq<MenuHours>, t: TimeOfDay)
    ensures BusinessSeconds(rows, t, t) == 0
  {
    if rows != [] {
      SameTimeOfDayIsEmpty(rows[..|rows| - 1], t);
      SameTimeOfDayRowIsEmpty(rows[|rows| - 1], t);
    }
  }

  /** The one-day and one-week windows ending at `now` start at the same time of
      day as they end, so they always measure zero uptime and zero downtime. */
  lemma DayAndWeekWindowsAreEmpty(rows: seq<MenuHours>, storeId: int, now: int, status: StatusOracle)
    ensures Measure(rows, storeId, TimeOf(now - MicrosPerDay), TimeOf(now), status) == Totals(0.0, 0.0)
    ensures Measure(rows, storeId, TimeOf(now - MicrosPerWeek), TimeOf(now), status) == Totals(0.0, 0.0)
  {
    TimeOfWholeDays(now, 1);
    TimeOfWholeDays(now, 7);
    SameTimeOfDayIsEmpty(rows, TimeOf(now));
    UpWithinBusiness(rows, storeId, TimeOf(now), TimeOf(now), status);
  }

  lemma HourWindowStart(now: int)
    ensures now % MicrosPerDay >= MicrosPerHour ==> TimeOf(now - MicrosPerHour).Micros() == TimeOf(now).Micros() - MicrosPerHour
    ensures now % MicrosPerDay < MicrosPerHour ==> TimeOf(now).Micros() < TimeOf(now - MicrosPerHour).Micros()
  {
    var q, r := now / 86_400_000_000, now % 86_400_000_000;
    assert now == q * 86_400_000_000 + r;
    if r >= 3_600_000_000 {
      assert now - 3_600_000_000 == q * 86_400_000_000 + (r - 3_600_000_000);
      assert (now - 3_600_000_000) % 86_400_000_000 == r - 3_600_000_000;
    } else {
      assert now - 3_600_000_000 == (q - 1) * 86_400_000_000 + (r - 3_600_000_000 + 86_400_000_000);
      assert (now - 3_600_000_000) % 86_400_000_000 == r - 3_600_000_000 + 86_400_000_000;
    }
  }

  lemma HourWindowRow(row: MenuHours, now: int)
    ensures Contribution(row, TimeOf(now - MicrosPerHour), TimeOf(now)) <= 3600
    ensures now % MicrosPerDay < MicrosPerHour ==> Contribution(row, TimeOf(now - MicrosPerHour), TimeOf(now)) == 0
  {
    var ws, we := TimeOf(now - MicrosPerHour), TimeOf(now);
    ContributionIsClippedOverlap(row, ws, we);
    HourWindowStart(now);
    var a := if row.startTimeLocal.Micros() < ws.Micros() then ws.Micros() else row.startTimeLocal.Micros();
    var b := if we.Micros() < row.endTimeLocal.Micros() then we.Micros() else row.endTimeLocal.Micros();
    if a < b {
      assert b <= a + 3_600_000_000;
      assert b / 1_000_000 <= (a + 3_600_000_000) / 1_000_000;
      assert (a + 3_600_000_000) / 1_000_000 == a / 1_000_000 + 3600;
    }
  }

  /** In the one-hour window ending at `now` each row adds at most 3600 seconds,
      and when that hour wraps past midnight no row adds anything. */
  lemma {:induction false} HourWindowBound(rows: seq<MenuHours>, now: int)
    ensures BusinessSeconds(rows, TimeOf(now - MicrosPerHour), TimeOf(now)) <= 3600 * |rows|
    ensures now % MicrosPerDay < MicrosPerHour ==> BusinessSeconds(rows, TimeOf(now - MicrosPerHour), TimeOf(now)) == 0
  {
    if rows != [] {
      HourWindowBound(rows[..|rows| - 1], now);
      HourWindowRow(rows[|rows| - 1], now);
    }
  }

  /** Neither the weekday nor the store id of a row is consulted: rows with the
      same clock times give the same measure. */
  lemma {:induction false} DayIsNeverConsulted(rows: seq<MenuHours>, others: seq<MenuHours>, storeId: int,
                                                windowStart: TimeOfDay, windowEnd: TimeOfDay, status: StatusOracle)
    requires |rows| == |others|
    requires forall i :: 0 <= i < |rows| ==>
               rows[i].startTimeLocal == others[i].startTimeLocal && rows[i].endTimeLocal == others[i].endTimeLocal
    ensures BusinessSeconds(rows, windowStart, windowEnd) == BusinessSeconds(others, windowStart, windowEnd)
    ensures Measure(rows, storeId, windowStart, windowEnd, status) == Measure(others, storeId, windowStart, windowEnd, status)
  {
    if rows != [] {
      DayIsNeverConsulted(rows[..|rows| - 1], others[..|others| - 1], storeId, windowStart, windowEnd, status);
    }
  }

  /** Widening the window can lose business time: a store open 09:00-17:00,
      at 16:00 on a day at least a week after datetime.min, has a full hour of
      uptime in the last hour and none at all in the last day. */
  lemma WideningCanLoseTime()
    ensures var row := MenuHours(1, 0, Time(9, 0, 0, 0), Time(17, 0, 0, 0));
            var now := 7 * MicrosPerDay + 16 * MicrosPerHour;
            && Measure([row], 1, TimeOf(now - MicrosPerHour), TimeOf(now), GetStoreStatus) == Totals(1.0, 0.0)
            && Measure([row], 1, TimeOf(now - MicrosPerDay), TimeOf(now), GetStoreStatus) == Totals(0.0, 0.0)
  {
    var row := MenuHours(1, 0, Time(9, 0, 0, 0), Time(17, 0, 0, 0));
    var now := 7 * MicrosPerDay + 16 * MicrosPerHour;
    assert TimeOf(now) == Time(16, 0, 0, 0);
    assert TimeOf(now - MicrosPerHour) == Time(15, 0, 0, 0);
    assert [row][..0] == [];
    DayAndWeekWindowsAreEmpty([row], 1, now, GetStoreStatus);
  }
}
