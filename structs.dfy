/** Records shared by the managers (src-tauri/src/structs.rs), plus the two
    records the managers use whose declarations are not in that file
    (JobStatus and DriveInfoFile), and the abstract view of a JSON document
    on disk that replaces serde and std::fs throughout the model. */
module Structs {

  datatype Option<+T> = None | Some(value: T)

  /** Rust's u32 and u64. */
  newtype u32 = x: int | 0 <= x < 0x1_0000_0000
  newtype u64 = x: int | 0 <= x < 0x1_0000_0000_0000_0000

  /** An f32 progress value, stored and never computed with. */
  type Percent = real

  datatype InputFile = InputFile(pathType: string, path: string)

  datatype FilterTraits = FilterTraits(
    size: Option<u64>,
    lastUsed: Option<string>,
    extensions: Option<seq<string>>)

  datatype FileFilter = FileFilter(filterType: string, traits: FilterTraits)

  datatype TriggerTraits = TriggerTraits(time: Option<seq<string>>, event: Option<string>)

  datatype Trigger = Trigger(triggerType: string, traits: TriggerTraits)

  datatype JobInfo = JobInfo(
    jobName: string,
    uuid: string,
    fileBehavior: string,
    inputDirs: seq<InputFile>,
    outputDir: string,
    outputDevice: string,
    copies: u32,
    portable: bool,
    fileFilters: seq<FileFilter>,
    triggers: seq<Trigger>,
    version: u32)

  /** The live status of one started job. */
  datatype JobStatus = JobStatus(
    job: JobInfo,
    step: u32,
    totalSteps: u32,
    stepTitle: string,
    lastAction: string,
    success: bool,
    completed: bool,
    percent: Percent)

  /** The marker document kept at the root of a drive. */
  datatype DriveInfoFile = DriveInfoFile(uuid: string, jobs: seq<JobInfo>)

  /** What reading a JSON document of type T from disk can meet: no file, a
      file that cannot be opened, a file that does not decode as T, or a
      decoded value. Encoding and decoding themselves are abstract: writing
      a value and reading it back yields that value. */
  datatype Document<T> = Absent | Unopenable | Malformed | Parsed(value: T)

  /** Writing `value` over a document: a write that succeeds leaves exactly
      `value` behind; one that fails leaves the document as it was. */
  function Written<T>(doc: Document<T>, value: T, writeOk: bool): Document<T>
  {
    if writeOk then Parsed(value) else doc
  }

  /** The uuids of a job list, in order. */
  function JobUuids(jobs: seq<JobInfo>): (r: seq<string>)
    ensures |r| == |jobs|
    ensures forall i :: 0 <= i < |jobs| ==> r[i] == jobs[i].uuid
  {
    seq(|jobs|, i requires 0 <= i < |jobs| => jobs[i].uuid)
  }

  /** The index of the first occurrence of `key` in `keys`, the way
      Iterator::position and Iterator::find pick their element. */
  function FirstIndex(keys: seq<string>, key: string): (r: Option<nat>)
    ensures r.None? <==> key !in keys
    ensures r.Some? ==> r.value < |keys| && keys[r.value] == key && key !in keys[..r.value]
  {
    if keys == [] then None
    else if keys[0] == key then Some(0)
    else
      match FirstIndex(keys[1..], key)
      case None => None
      case Some(i) =>
        assert keys[..i + 1] == [keys[0]] + keys[1..][..i];
        Some(i + 1)
  }

  /** Iterator::position over a list of keys. */
  method Position(keys: seq<string>, key: string) returns (pos: Option<nat>)
    ensures pos == FirstIndex(keys, key)
  {
    var i := 0;
    while i < |keys|
      invariant 0 <= i <= |keys|
      invariant key !in keys[..i]
    {
      if keys[i] == key {
        FirstIndexIsUnique(keys, key, i);
        return Some(i);
      }
      assert keys[..i + 1] == keys[..i] + [keys[i]];
      i := i + 1;
    }
    assert keys[..i] == keys;
    pos := None;
  }

  /** The first occurrence is the only index that is an occurrence with none before it. */
  lemma FirstIndexIsUnique(keys: seq<string>, key: string, i: nat)
    requires i < |keys| && keys[i] == key && key !in keys[..i]
    ensures FirstIndex(keys, key) == Some(i)
  {
  }
}
