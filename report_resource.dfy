/** The poll handler (`ReportResource.get`): look the report up, answer
    Running, or write the CSV text to the report's file and answer Complete.
    The file write is returned as a value. */
module ReportResource {

  import opened Wrappers
  import opened Models
  import opened Database
  import opened Http
  import opened ReportUtils

  /** A file the handler writes, with its content. */
  datatype FileWrite = FileWrite(path: string, content: string)

  function ReportFileName(reportId: string): string {
    "report_" + reportId + ".csv"
  }

  /** Where the CSV text is written: `reports/report_<id>.csv`. */
  function ReportPath(reportId: string): string {
    "reports/" + ReportFileName(reportId)
  }

  const RunningReply := Reply([("status", Running)], 200)

  /** The Complete reply: its "File Path" is `csv_file_path/report_<id>.csv`. */
  function CompleteReply(reportId: string): Reply {
    Reply([("Status", Complete), ("File Path", "csv_file_path/" + ReportFileName(reportId))], 200)
  }

  /** The status-to-reply dispatch: Running, Complete (writing the data when
      there is any; a failed write is answered with the error reply), and no
      reply at all for any other status. */
  function Respond(reportId: string, status: string, csvData: Option<string>, writeOk: bool)
    : (r: (Option<Reply>, Option<FileWrite>))
    ensures r.0.None? <==> status != Running && status != Complete
    ensures r.0.None? ==> r.1.None?
    ensures r.1.Some? <==> status == Complete && csvData.Some? && writeOk
    ensures r.1.Some? ==> r.1.value == FileWrite(ReportPath(reportId), csvData.value)
    ensures r.0 == Some(ErrorReply) <==> status == Complete && csvData.Some? && !writeOk
    ensures status == Running ==> r.0 == Some(RunningReply)
    ensures status == Complete && !(csvData.Some? && !writeOk) ==> r.0 == Some(CompleteReply(reportId))
  {
    if status == Running then (Some(Reply([("status", status)], 200)), None)
    else if status == Complete then
      if csvData.None? then (Some(CompleteReply(reportId)), None)
      else if writeOk then (Some(CompleteReply(reportId)), Some(FileWrite(ReportPath(reportId), csvData.value)))
      else (Some(ErrorReply), None)
    else (None, None)
  }

  /** A Complete status gets the same reply whether or not there is data to
      write, as long as the write does not fail. */
  lemma CompleteReplyIgnoresData(reportId: string, csvData: string)
    ensures Respond(reportId, Complete, None, true).0 == Respond(reportId, Complete, Some(csvData), true).0
    ensures Respond(reportId, Complete, None, false).0 == Some(CompleteReply(reportId))
  {
  }

  /** The path the Complete reply names is not the path the file is written to. */
  lemma ReplyPathIsNotWrittenPath(reportId: string)
    ensures CompleteReply(reportId).body[1].1 != ReportPath(reportId)
  {
    assert CompleteReply(reportId).body[1].1[0] == 'c';
    assert ReportPath(reportId)[0] == 'r';
  }

  /** `get`: an unknown report gets no reply at all (its "Not Found" status
      matches no branch); a Running one gets `{"status": "Running"}` and no
      file; a Complete one has its CSV text written to its file and gets the
      Complete reply, or the error reply if the write fails. */
  method Get(db: Db, reportId: string, fmt: NumberFormat, writeOk: bool)
    returns (reply: Option<Reply>, written: Option<FileWrite>)
    ensures reportId !in db.tasks ==> reply == None && written == None
    ensures reportId in db.tasks && db.tasks[reportId] == Running ==> reply == Some(RunningReply) && written == None
    ensures reportId in db.tasks && db.tasks[reportId] == Complete ==>
              && reply == Some(if writeOk then CompleteReply(reportId) else ErrorReply)
              && written == if writeOk
                            then Some(FileWrite(ReportPath(reportId), CsvText(EntriesOfReport(db.entries, reportId), fmt)))
                            else None
    ensures reportId in db.tasks && db.tasks[reportId] != Running && db.tasks[reportId] != Complete ==>
              reply == None && written == None
    ensures db.Valid() ==> (reply.None? <==> reportId !in db.tasks)
  {
    var status, csvData := GetReportStatusAndData(db, reportId, fmt);
    var response := Respond(reportId, status, csvData, writeOk);
    reply, written := response.0, response.1;
  }
}
