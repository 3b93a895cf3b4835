/** The job store (src-tauri/src/storage_manager.rs): the list of job
    definitions kept in jobs.json next to the executable. The file is a
    Document value; a write is decided by the `writeOk` flag. */
module StorageManager {
  import opened Structs

  type JobsFile = Document<seq<JobInfo>>

  /** Every stored job, or the empty list when the file is missing,
      cannot be opened or does not decode. */
  function GetAllJobs(file: JobsFile): (r: seq<JobInfo>)
    ensures file.Parsed? ==> r == file.value
    ensures !file.Parsed? ==> r == []
  {
    if file.Parsed? then file.value else []
  }

  /** Replaces the stored list; the flag tells whether the write succeeded. */
  function SetAllJobs(file: JobsFile, allJobs: seq<JobInfo>, writeOk: bool): (r: (bool, JobsFile))
    ensures r.0 == writeOk
    ensures r.0 ==> GetAllJobs(r.1) == allJobs
    ensures !r.0 ==> r.1 == file
  {
    (writeOk, Written(file, allJobs, writeOk))
  }

  /** Each of the three read failures gives the empty list. */
  lemma GetAllJobsFallback(file: JobsFile)
    ensures file == Absent || file == Unopenable || file == Malformed ==> GetAllJobs(file) == []
  {
  }

  /** Is there a stored job with this uuid? get_job_by_uuid panics otherwise. */
  predicate HasJob(file: JobsFile, uuid: string)
  {
    uuid in JobUuids(GetAllJobs(file))
  }

  /** The first stored job carrying `uuid`. */
  function GetJobByUuid(file: JobsFile, uuid: string): (job: JobInfo)
    requires HasJob(file, uuid)
    ensures job.uuid == uuid
    ensures exists i :: 0 <= i < |GetAllJobs(file)| && GetAllJobs(file)[i] == job
              && uuid !in JobUuids(GetAllJobs(file)[..i])
  {
    var jobs := GetAllJobs(file);
    var i := FirstIndex(JobUuids(jobs), uuid).value;
    assert JobUuids(jobs)[..i] == JobUuids(jobs[..i]);
    jobs[i]
  }

  /** The list without its first job carrying `uuid` (unchanged when there is none). */
  function RemoveFirst(jobs: seq<JobInfo>, uuid: string): seq<JobInfo>
  {
    match FirstIndex(JobUuids(jobs), uuid)
    case None => jobs
    case Some(i) => jobs[..i] + jobs[i + 1..]
  }

  /** remove_job_by_uuid: drops the first job with that uuid and writes the
      list back; with no such job it writes nothing and fails. */
  method RemoveJobByUuid(file: JobsFile, uuid: string, writeOk: bool) returns (ok: bool, file': JobsFile)
    ensures uuid !in JobUuids(GetAllJobs(file)) ==> !ok && file' == file
    ensures uuid in JobUuids(GetAllJobs(file)) ==>
              ok == writeOk && file' == Written(file, RemoveFirst(GetAllJobs(file), uuid), writeOk)
  {
    var allJobs := GetAllJobs(file);
    var pos := Position(JobUuids(allJobs), uuid);
    if pos.Some? {
      allJobs := allJobs[..pos.value] + allJobs[pos.value + 1..];
      var written := SetAllJobs(file, allJobs, writeOk);
      ok, file' := written.0, written.1;
    } else {
      ok, file' := false, file;
    }
  }

  /** Removal takes out exactly the first match: one element fewer, the
      entries before it in place, the entries after it shifted down by one. */
  lemma RemoveFirstShape(jobs: seq<JobInfo>, uuid: string)
    requires uuid in JobUuids(jobs)
    ensures var i := FirstIndex(JobUuids(jobs), uuid).value;
            var r := RemoveFirst(jobs, uuid);
            && |r| == |jobs| - 1
            && (forall k :: 0 <= k < i ==> r[k] == jobs[k])
            && (forall k :: i <= k < |r| ==> r[k] == jobs[k + 1])
  {
    var i := FirstIndex(JobUuids(jobs), uuid).value;
    assert RemoveFirst(jobs, uuid) == jobs[..i] + jobs[i + 1..];
    RemoveAtShape(jobs, i);
  }

  lemma RemoveAtShape<T>(xs: seq<T>, i: nat)
    requires i < |xs|
    ensures var r := xs[..i] + xs[i + 1..];
            && |r| == |xs| - 1
            && (forall k :: 0 <= k < i ==> r[k] == xs[k])
            && (forall k :: i <= k < |r| ==> r[k] == xs[k + 1])
  {
  }

  /** Later duplicates of the uuid survive: the number of jobs carrying it
      drops by exactly one. */
  lemma RemoveFirstKeepsLaterDuplicates(jobs: seq<JobInfo>, uuid: string)
    requires uuid in JobUuids(jobs)
    ensures multiset(JobUuids(RemoveFirst(jobs, uuid)))[uuid] == multiset(JobUuids(jobs))[uuid] - 1
  {
    var keys := JobUuids(jobs);
    var i := FirstIndex(keys, uuid).value;
    assert RemoveFirst(jobs, uuid) == jobs[..i] + jobs[i + 1..];
    JobUuidsRemoveAt(jobs, i);
    MultisetRemoveAt(keys, i);
  }

  /** Dropping index i removes one occurrence of keys[i] and nothing else. */
  lemma MultisetRemoveAt(keys: seq<string>, i: nat)
    requires i < |keys|
    ensures multiset(keys[..i] + keys[i + 1..]) == multiset(keys) - multiset{keys[i]}
  {
    assert keys == keys[..i] + [keys[i]] + keys[i + 1..];
  }

  lemma JobUuidsRemoveAt(jobs: seq<JobInfo>, i: nat)
    requires i < |jobs|
    ensures JobUuids(jobs[..i] + jobs[i + 1..]) == JobUuids(jobs)[..i] + JobUuids(jobs)[i + 1..]
  {
  }

  /** What set_all_jobs wrote, get_all_jobs reads back. */
  lemma SetThenGetAllJobs(file: JobsFile, allJobs: seq<JobInfo>)
    ensures GetAllJobs(SetAllJobs(file, allJobs, true).1) == allJobs
  {
  }
}
