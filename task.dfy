/** The background job (`generate_reports_task`): rebuild the store records
    from the roster it was given, generate every store's entry, then mark the
    report's task complete if the task exists. */
module Task {

  import opened Clock
  import opened Models
  import opened Database
  import opened Uptime
  import opened ReportUtils

  /** One roster item as handed to the job: `{store_id, timezone_str}`. */
  datatype StoreInfo = StoreInfo(storeId: int, timezoneStr: string)

  /** The arguments of one scheduled job. */
  datatype Job = Job(reportId: string, timestamp: Timestamp, storesInfo: seq<StoreInfo>)

  /** The store records rebuilt from the roster items, in order. The roster's
      store ids are already integers, so `int(...)` leaves them unchanged. */
  function ToStores(storesInfo: seq<StoreInfo>): (stores: seq<TimeZone>)
    ensures |stores| == |storesInfo|
    ensures forall i :: 0 <= i < |stores| ==>
              stores[i].storeId == storesInfo[i].storeId && stores[i].timezoneStr == storesInfo[i].timezoneStr
  {
    seq(|storesInfo|, i requires 0 <= i < |storesInfo| => TimeZone(storesInfo[i].storeId, storesInfo[i].timezoneStr))
  }

  /** `generate_reports_task`: one entry per store that succeeds, in roster
      order, all under `reportId` and ending at `timestamp`; afterwards the
      task with that id, if there is one, is Complete, whether or not any
      store failed. No task is created, and other tasks are untouched. */
  method GenerateReportsTask(db: Db, reportId: string, timestamp: Timestamp, storesInfo: seq<StoreInfo>, status: StatusOracle)
    requires db.Valid()
    modifies db
    ensures db.Valid()
    ensures db.entries
         == old(db.entries) + JobEntries(db.menuHours, db.faultyStores, reportId, ToStores(storesInfo), timestamp, status)
    ensures db.tasks == if reportId in old(db.tasks) then old(db.tasks)[reportId := Complete] else old(db.tasks)
  {
    var stores := ToStores(storesInfo);
    for i := 0 to |stores|
      invariant db.entries == old(db.entries) + JobEntries(db.menuHours, db.faultyStores, reportId, stores[..i], timestamp, status)
      invariant db.tasks == old(db.tasks)
    {
      JobEntriesStep(old(db.entries), db.menuHours, db.faultyStores, reportId, stores, i, timestamp, status);
      GenerateAndStoreReportData(db, reportId, stores[i], timestamp, status);
    }
    assert stores[..|stores|] == stores;
    if reportId in db.tasks {
      db.tasks := db.tasks[reportId := Complete];
    }
  }
}
