/** Job logging (src-tauri/src/log_manager.rs). Log files are text files
    next to the executable, modelled as a map from file name to contents;
    the timestamp is an input (an RFC 3339 local time or "unknown time"). */
module LogManager {

  type LogFiles = map<string, string>

  /** What job_log does with one message. */
  datatype Routing = WriteInfo | WriteError | Drop

  /** The decision table of job_log. */
  function Route(msgType: string, logSetting: string): (r: Routing)
    ensures msgType == "FILE" ==> (r == WriteInfo <==> logSetting == "high") && r != WriteError
    ensures msgType == "STEP" ==> (r == WriteInfo <==> logSetting != "low") && r != WriteError
    ensures msgType == "ERROR" ==> r == WriteError
    ensures msgType != "FILE" && msgType != "STEP" && msgType != "ERROR" ==> r == WriteInfo
    ensures r == Drop <==> (msgType == "FILE" && logSetting != "high") || (msgType == "STEP" && logSetting == "low")
  {
    if msgType == "FILE" then
      if logSetting == "high" then WriteInfo else Drop
    else if msgType == "STEP" then
      if logSetting != "low" then WriteInfo else Drop
    else if msgType == "ERROR" then
      WriteError
    else
      WriteInfo
  }

  /** The log title of a job. */
  function JobLogTitle(jobId: string): string
  {
    "job-" + jobId
  }

  /** The file a log title is written to. */
  function LogFileName(logTitle: string): string
  {
    "archway-" + logTitle + ".log"
  }

  /** The entry text built by `log`: "<time> [<type>]: <body>" and a newline. */
  function LogEntry(time: string, msgType: string, body: string): string
  {
    time + " [" + msgType + "]: " + body + "\n"
  }

  /** `log`: appends the entry and the newline writeln! adds to the named
      file, creating it when missing; no other file changes. */
  function Log(files: LogFiles, logTitle: string, body: string, msgType: string, time: string): (r: LogFiles)
    ensures r.Keys == files.Keys + {LogFileName(logTitle)}
    ensures forall f :: f in files && f != LogFileName(logTitle) ==> r[f] == files[f]
    ensures r[LogFileName(logTitle)]
              == (if LogFileName(logTitle) in files then files[LogFileName(logTitle)] else "")
                 + time + " [" + msgType + "]: " + body + "\n\n"
  {
    var name := LogFileName(logTitle);
    var before := if name in files then files[name] else "";
    files[name := before + LogEntry(time, msgType, body) + "\n"]
  }

  /** job_log: routes the message and writes at most one entry, into the
      job's own log file. */
  function JobLog(files: LogFiles, jobId: string, body: string, msgType: string, logSetting: string, time: string): (r: LogFiles)
    ensures Route(msgType, logSetting) == Drop ==> r == files
    ensures Route(msgType, logSetting) == WriteInfo ==> r == Log(files, "job-" + jobId, body, "INFO", time)
    ensures Route(msgType, logSetting) == WriteError ==> r == Log(files, "job-" + jobId, body, "ERROR", time)
  {
    match Route(msgType, logSetting)
    case WriteInfo => Log(files, JobLogTitle(jobId), body, "INFO", time)
    case WriteError => Log(files, JobLogTitle(jobId), body, "ERROR", time)
    case Drop => files
  }

  /** One job_log call touches only "archway-job-<id>.log": it is left alone
      exactly when the message is dropped, and otherwise grows by one entry
      typed ERROR for "ERROR" messages and INFO for all others. */
  lemma {:induction false} JobLogTouchesOneFile(files: LogFiles, jobId: string, body: string, msgType: string, logSetting: string, time: string)
    ensures var r := JobLog(files, jobId, body, msgType, logSetting, time);
            var name := "archway-job-" + jobId + ".log";
            var before := if name in files then files[name] else "";
            var t := if msgType == "ERROR" then "ERROR" else "INFO";
            && r.Keys <= files.Keys + {name}
            && (forall f :: f in files && f != name ==> r[f] == files[f])
            && (r == files <==> Route(msgType, logSetting) == Drop)
            && (r != files ==> r[name] == before + time + " [" + t + "]: " + body + "\n\n")
  {
    var name := "archway-job-" + jobId + ".log";
    assert LogFileName(JobLogTitle(jobId)) == name;
    var r := JobLog(files, jobId, body, msgType, logSetting, time);
    if Route(msgType, logSetting) != Drop {
      var before := if name in files then files[name] else "";
      assert |r[name]| > |before|;
    }
  }
}
