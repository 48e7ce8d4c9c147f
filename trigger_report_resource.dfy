/** The trigger handler (`TriggerReportResource.post`): draw a report id,
    project the roster, schedule the job, then record the task as Running. */
module TriggerReportResource {

  import opened Clock
  import opened Models
  import opened Database
  import opened Http
  import opened Task
  import opened Text

  const HexDigits := "0123456789abcdef"

  /** Eight characters, each a lower-case hexadecimal digit. */
  predicate IsReportId(s: string) {
    |s| == 8 && forall i :: 0 <= i < |s| ==> s[i] in HexDigits
  }

  /** The id spelled by eight draws of `random.choice('0123456789abcdef')`,
      each draw given as the index it picked. */
  function ReportIdFrom(draws: seq<nat>): (id: string)
    requires |draws| == 8 && forall i :: 0 <= i < 8 ==> draws[i] < 16
    ensures IsReportId(id)
  {
    seq(8, i requires 0 <= i < 8 => HexDigits[draws[i]])
  }

  /** Every well-formed id can be drawn, so the draws leave out no id. */
  lemma ReportIdReachable(id: string)
    requires IsReportId(id)
    ensures exists draws: seq<nat> :: |draws| == 8 && (forall i :: 0 <= i < 8 ==> draws[i] < 16) && ReportIdFrom(draws) == id
  {
    var draws := seq(8, i requires 0 <= i < 8 => IndexOf(HexDigits, id[i]));
    assert ReportIdFrom(draws) == id;
  }

  /** `[{"store_id": ..., "timezone_str": ...} for store in stores]`. */
  function Roster(stores: seq<TimeZone>): (storesInfo: seq<StoreInfo>)
    ensures |storesInfo| == |stores|
    ensures forall i :: 0 <= i < |stores| ==>
              storesInfo[i].storeId == stores[i].storeId && storesInfo[i].timezoneStr == stores[i].timezoneStr
  {
    seq(|stores|, i requires 0 <= i < |stores| => StoreInfo(stores[i].storeId, stores[i].timezoneStr))
  }

  /** The job rebuilds exactly the roster it was given: one store record per
      TimeZone row, in the same order. */
  lemma RosterRoundTrip(stores: seq<TimeZone>)
    ensures |Roster(stores)| == |stores|
    ensures ToStores(Roster(stores)) == stores
  {
    var back := ToStores(Roster(stores));
    forall i | 0 <= i < |stores|
      ensures back[i] == stores[i]
    {
      assert Roster(stores)[i] == StoreInfo(stores[i].storeId, stores[i].timezoneStr);
    }
  }

  /** `post`: the job is scheduled, with the fresh id, the one timestamp read
      and the roster, before the task row is written. The id is not checked
      for freshness: if a task with it exists, the unique constraint refuses
      the row, nothing changes and the reply is the error reply, yet the job
      has already been scheduled. */
  method Post(db: Db, draws: seq<nat>, now: Timestamp) returns (reply: Reply, job: Job)
    requires |draws| == 8 && forall i :: 0 <= i < 8 ==> draws[i] < 16
    requires db.Valid()
    modifies db
    ensures db.Valid()
    ensures job == Job(ReportIdFrom(draws), now, Roster(db.timeZones))
    ensures IsReportId(job.reportId)
    ensures db.entries == old(db.entries)
    ensures job.reportId !in old(db.tasks) ==>
              db.tasks == old(db.tasks)[job.reportId := Running] && reply == Reply([("report_id", job.reportId)], 200)
    ensures job.reportId in old(db.tasks) ==> db.tasks == old(db.tasks) && reply == ErrorReply
  {
    var currentTimestamp := now;
    var reportId := ReportIdFrom(draws);
    var stores := db.timeZones;
    var storesInfo := Roster(stores);
    job := Job(reportId, currentTimestamp, storesInfo);
    var committed := db.AddTask(reportId, Running);
    if committed {
      reply := Reply([("report_id", reportId)], 200);
    } else {
      reply := ErrorReply;
    }
  }
}
