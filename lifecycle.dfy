/** The report lifecycle as a client sees it, with the background job run at
    a chosen point: trigger, poll, job, poll. */
module Lifecycle {

  import opened Wrappers
  import opened Clock
  import opened Models
  import opened Database
  import opened Uptime
  import opened Http
  import opened ReportUtils
  import opened Task
  import opened TriggerReportResource
  import opened ReportResource

  /** A trigger with a fresh id answers with that id; a poll before the job
      has run answers Running and writes nothing; once the job has run, a
      poll answers Complete and writes the CSV text of exactly the entries
      the job generated, over every store of the roster. */
  method TriggerRunPoll(db: Db, draws: seq<nat>, now: Timestamp, fmt: NumberFormat, status: StatusOracle)
    returns (triggered: Reply, early: Option<Reply>, late: Option<Reply>, file: Option<FileWrite>)
    requires |draws| == 8 && forall i :: 0 <= i < 8 ==> draws[i] < 16
    requires db.Valid()
    requires ReportIdFrom(draws) !in db.tasks
    requires forall e :: e in db.entries ==> e.reportId != ReportIdFrom(draws)
    modifies db
    ensures db.Valid()
    ensures triggered == Reply([("report_id", ReportIdFrom(draws))], 200)
    ensures early == Some(RunningReply)
    ensures late == Some(CompleteReply(ReportIdFrom(draws)))
    ensures file == Some(FileWrite(ReportPath(ReportIdFrom(draws)),
                                   CsvText(JobEntries(db.menuHours, db.faultyStores, ReportIdFrom(draws), db.timeZones, now, status), fmt)))
  {
    var job;
    triggered, job := Post(db, draws, now);
    var written;
    early, written := Get(db, job.reportId, fmt, true);
    GenerateReportsTask(db, job.reportId, job.timestamp, job.storesInfo, status);
    RosterRoundTrip(db.timeZones);
    JobEntriesShape(db.menuHours, db.faultyStores, job.reportId, db.timeZones, now, status);
    EntriesOfFreshReport(old(db.entries), JobEntries(db.menuHours, db.faultyStores, job.reportId, db.timeZones, now, status), job.reportId);
    late, file := Get(db, job.reportId, fmt, true);
  }

  /** The job is scheduled before the task row is written, so it may run
      first. It then finds no task to complete, the row written afterwards
      says Running, and every later poll answers Running although all the
      entries are stored. */
  method JobOvertakesInsert(db: Db, draws: seq<nat>, now: Timestamp, fmt: NumberFormat, status: StatusOracle)
    returns (triggered: Reply, polled: Option<Reply>)
    requires |draws| == 8 && forall i :: 0 <= i < 8 ==> draws[i] < 16
    requires db.Valid()
    requires ReportIdFrom(draws) !in db.tasks
    modifies db
    ensures db.Valid()
    ensures triggered == Reply([("report_id", ReportIdFrom(draws))], 200)
    ensures db.tasks == old(db.tasks)[ReportIdFrom(draws) := Running]
    ensures db.entries
         == old(db.entries) + JobEntries(db.menuHours, db.faultyStores, ReportIdFrom(draws), db.timeZones, now, status)
    ensures polled == Some(RunningReply)
  {
    var reportId := ReportIdFrom(draws);
    GenerateReportsTask(db, reportId, now, Roster(db.timeZones), status);
    RosterRoundTrip(db.timeZones);
    var job;
    triggered, job := Post(db, draws, now);
    var written;
    polled, written := Get(db, reportId, fmt, true);
  }
}
