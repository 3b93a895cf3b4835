/** Job execution (src-tauri/src/job_manager.rs): the table of live job
    statuses, and the indexing stage that lists every folder and file under
    a job's inputs. The directory tree is a value; a job is started
    synchronously, and stage one is a separate call (the source spawns it). */
module JobManager {
  import opened Structs
  import StorageManager

  // ---------------------------------------------------------------------
  // The live status table

  /** The job uuids of a status list, in order. */
  function StatusUuids(statuses: seq<JobStatus>): (r: seq<string>)
    ensures |r| == |statuses|
    ensures forall i :: 0 <= i < |statuses| ==> r[i] == statuses[i].job.uuid
  {
    seq(|statuses|, i requires 0 <= i < |statuses| => statuses[i].job.uuid)
  }

  /** No two statuses belong to jobs with the same uuid. */
  ghost predicate DistinctUuids(statuses: seq<JobStatus>)
  {
    forall i, j :: 0 <= i < j < |statuses| ==> statuses[i].job.uuid != statuses[j].job.uuid
  }

  const TotalSteps: u32 := 4

  /** The status start_job records for a job. */
  function InitialStatus(job: JobInfo): JobStatus
  {
    JobStatus(job, 0, TotalSteps, "Initializing Job", "Starting job...", true, false, 0.0)
  }

  /** The list after update_job_status: the first status of the job gets the
      new step, titles, flags and percent; nothing else changes. */
  function WithStatus(statuses: seq<JobStatus>, uuid: string, step: u32, stepTitle: string, lastAction: string,
                      success: bool, completed: bool, percent: Percent): seq<JobStatus>
  {
    match FirstIndex(StatusUuids(statuses), uuid)
    case None => statuses
    case Some(i) =>
      statuses[i := statuses[i].(step := step, stepTitle := stepTitle, lastAction := lastAction,
                                 success := success, completed := completed, percent := percent)]
  }

  /** The list after update_last_action. */
  function WithLastAction(statuses: seq<JobStatus>, uuid: string, lastAction: string): seq<JobStatus>
  {
    match FirstIndex(StatusUuids(statuses), uuid)
    case None => statuses
    case Some(i) => statuses[i := statuses[i].(lastAction := lastAction)]
  }

  /** update_job_status touches only the first status of the job, and of it
      neither the job record; with no status for the job nothing changes. */
  lemma WithStatusTouchesFirstMatchOnly(statuses: seq<JobStatus>, uuid: string, step: u32, stepTitle: string,
                                        lastAction: string, success: bool, completed: bool, percent: Percent)
    ensures var r := WithStatus(statuses, uuid, step, stepTitle, lastAction, success, completed, percent);
            && |r| == |statuses|
            && StatusUuids(r) == StatusUuids(statuses)
            && (uuid !in StatusUuids(statuses) ==> r == statuses)
            && (uuid in StatusUuids(statuses) ==>
                  var i := FirstIndex(StatusUuids(statuses), uuid).value;
                  && (forall k :: 0 <= k < |r| && k != i ==> r[k] == statuses[k])
                  && r[i].job == statuses[i].job && r[i].totalSteps == statuses[i].totalSteps
                  && r[i].step == step && r[i].stepTitle == stepTitle && r[i].lastAction == lastAction
                  && r[i].success == success && r[i].completed == completed && r[i].percent == percent
                  && (forall k :: 0 <= k < i ==> statuses[k].job.uuid != uuid))
  {
    var r := WithStatus(statuses, uuid, step, stepTitle, lastAction, success, completed, percent);
    if uuid in StatusUuids(statuses) {
      var i := FirstIndex(StatusUuids(statuses), uuid).value;
      forall k | 0 <= k < i ensures statuses[k].job.uuid != uuid {
        assert StatusUuids(statuses)[..i][k] == statuses[k].job.uuid;
      }
    }
  }

  /** update_last_action changes only the last action of the first status of
      the job; with no status for the job nothing changes. */
  lemma WithLastActionTouchesFirstMatchOnly(statuses: seq<JobStatus>, uuid: string, lastAction: string)
    ensures var r := WithLastAction(statuses, uuid, lastAction);
            && |r| == |statuses|
            && StatusUuids(r) == StatusUuids(statuses)
            && (uuid !in StatusUuids(statuses) ==> r == statuses)
            && (uuid in StatusUuids(statuses) ==>
                  var i := FirstIndex(StatusUuids(statuses), uuid).value;
                  && (forall k :: 0 <= k < |r| && k != i ==> r[k] == statuses[k])
                  && r[i] == statuses[i].(lastAction := lastAction))
  {
  }

  /** Appending a status whose job uuid is not yet listed keeps the uuids
      distinct; appending one whose uuid is listed does not. */
  lemma AppendKeepsDistinct(statuses: seq<JobStatus>, s: JobStatus)
    requires DistinctUuids(statuses)
    ensures DistinctUuids(statuses + [s]) <==> s.job.uuid !in StatusUuids(statuses)
  {
    var r := statuses + [s];
    if s.job.uuid in StatusUuids(statuses) {
      var i :| 0 <= i < |statuses| && StatusUuids(statuses)[i] == s.job.uuid;
      assert r[i].job.uuid == r[|statuses|].job.uuid;
    }
  }

  /** The table of live statuses (the JOB_STATUSES global). */
  class JobStatusTable {
    var statuses: seq<JobStatus>

    ghost predicate Valid()
      reads this
    {
      DistinctUuids(statuses)
    }

    constructor ()
      ensures Valid() && statuses == []
    {
      statuses := [];
    }

    /** start_job: refuses a uuid that already has a status, completed or
        not; otherwise appends the initial status of the stored job. The
        stored job must exist (the source panics otherwise). */
    method StartJob(uuid: string, jobsFile: StorageManager.JobsFile) returns (started: bool)
      requires Valid()
      requires uuid !in StatusUuids(statuses) ==> StorageManager.HasJob(jobsFile, uuid)
      modifies this
      ensures Valid()
      ensures started <==> uuid !in StatusUuids(old(statuses))
      ensures old(statuses) <= statuses
      ensures !started ==> statuses == old(statuses)
      ensures started ==> statuses == old(statuses) + [InitialStatus(StorageManager.GetJobByUuid(jobsFile, uuid))]
    {
      var pos := Position(StatusUuids(statuses), uuid);
      var alreadyRunning := pos.Some?;
      if alreadyRunning {
        return false;
      }
      var newJob := StorageManager.GetJobByUuid(jobsFile, uuid);
      AppendKeepsDistinct(statuses, InitialStatus(newJob));
      statuses := statuses + [InitialStatus(newJob)];
      started := true;
    }

    /** get_all_job_statuses: a copy of the table. */
    method GetAllJobStatuses() returns (r: seq<JobStatus>)
      ensures r == statuses
    {
      r := statuses;
    }

    /** update_job_status. */
    method UpdateJobStatus(uuid: string, step: u32, stepTitle: string, lastAction: string,
                           success: bool, completed: bool, percent: Percent)
      requires Valid()
      modifies this
      ensures Valid()
      ensures statuses == WithStatus(old(statuses), uuid, step, stepTitle, lastAction, success, completed, percent)
    {
      var pos := Position(StatusUuids(statuses), uuid);
      if pos.Some? {
        var i := pos.value;
        statuses := statuses[i := statuses[i].(step := step, stepTitle := stepTitle, lastAction := lastAction,
                                               success := success, completed := completed, percent := percent)];
      }
    }

    /** update_last_action. */
    method UpdateLastAction(uuid: string, lastAction: string)
      requires Valid()
      modifies this
      ensures Valid()
      ensures statuses == WithLastAction(old(statuses), uuid, lastAction)
    {
      var pos := Position(StatusUuids(statuses), uuid);
      if pos.Some? {
        var i := pos.value;
        statuses := statuses[i := statuses[i].(lastAction := lastAction)];
      }
    }

    /** job_stage_one: marks the job as indexing, lists the input folders
        with all their subfolders, then every file under each listed folder. */
    method JobStageOne(uuid: string, jobsFile: StorageManager.JobsFile, fs: FileSystem)
      returns (allFolders: seq<Node>, allFiles: seq<string>)
      requires Valid()
      requires StorageManager.HasJob(jobsFile, uuid)
      modifies this
      ensures Valid()
      ensures allFolders == StageFolders(fs, StorageManager.GetJobByUuid(jobsFile, uuid).inputDirs)
      ensures allFiles == StageFiles(allFolders)
      ensures statuses == WithLastAction(
                WithStatus(old(statuses), uuid, 1, "Indexing Files", "Getting all input folders...", true, false, -1.0),
                uuid, "Getting all files...")
    {
      UpdateJobStatus(uuid, 1, "Indexing Files", "Getting all input folders...", true, false, -1.0);
      var inputDirs := StorageManager.GetJobByUuid(jobsFile, uuid).inputDirs;
      allFolders := CollectFolders(fs, inputDirs);
      UpdateLastAction(uuid, "Getting all files...");
      allFiles := CollectFiles(allFolders);
    }
  }

  // ---------------------------------------------------------------------
  // Directory enumeration

  /** An entry met by read_dir: a file, a directory with the entries
      read_dir yields for it (none when read_dir fails on it: the source
      treats both alike), or anything that is neither (a symbolic link, or
      an entry whose type cannot be read), which is skipped. */
  datatype Node =
    | File(path: string)
    | Folder(path: string, entries: seq<Node>)
    | Other(path: string)

  /** The directory listings of the input paths that read_dir can read. */
  type FileSystem = map<string, seq<Node>>

  /** The entries read_dir yields for a node: none for a file. */
  function Children(n: Node): (cs: seq<Node>)
    ensures forall c :: c in cs ==> c < n
  {
    match n
    case Folder(_, cs) => cs
    case _ => []
  }

  /** The folder an input path names. */
  function Root(fs: FileSystem, path: string): (n: Node)
    ensures n.Folder? && n.path == path
  {
    Folder(path, if path in fs then fs[path] else [])
  }

  /** Folders listed by get_all_subfolders after the first k entries of n:
      each folder entry, immediately followed by its own subfolders. */
  function SubfoldersUpTo(n: Node, k: nat): seq<Node>
    requires k <= |Children(n)|
    decreases n, k
  {
    if k == 0 then []
    else
      var c := Children(n)[k - 1];
      SubfoldersUpTo(n, k - 1) + if c.Folder? then [c] + SubfoldersUpTo(c, |Children(c)|) else []
  }

  function Subfolders(n: Node): seq<Node>
  {
    SubfoldersUpTo(n, |Children(n)|)
  }

  /** Files listed by get_all_files after the first k entries of n. */
  function FilesUpTo(n: Node, k: nat): seq<string>
    requires k <= |Children(n)|
    decreases n, k
  {
    if k == 0 then []
    else
      var c := Children(n)[k - 1];
      FilesUpTo(n, k - 1) + match c
        case File(p) => [p]
        case Folder(_, _) => FilesUpTo(c, |Children(c)|)
        case Other(_) => []
  }

  function Files(n: Node): seq<string>
  {
    FilesUpTo(n, |Children(n)|)
  }

  /** all_folders of job_stage_one: each input folder followed by its subfolders. */
  function StageFolders(fs: FileSystem, inputs: seq<InputFile>): seq<Node>
  {
    if inputs == [] then []
    else
      var root := Root(fs, inputs[|inputs| - 1].path);
      StageFolders(fs, inputs[..|inputs| - 1]) + [root] + Subfolders(root)
  }

  /** all_files of job_stage_one: the files of each listed folder, in order. */
  function StageFiles(folders: seq<Node>): seq<string>
  {
    if folders == [] then [] else StageFiles(folders[..|folders| - 1]) + Files(folders[|folders| - 1])
  }

  /** get_all_subfolders, returning the folder entries (their paths are the
      strings the source returns). */
  method GetAllSubfolders(n: Node) returns (subfolders: seq<Node>)
    ensures subfolders == Subfolders(n)
    decreases n
  {
    subfolders := [];
    var entries := Children(n);
    for i := 0 to |entries|
      invariant subfolders == SubfoldersUpTo(n, i)
    {
      var entry := entries[i];
      if entry.Folder? {
        var nested := GetAllSubfolders(entry);
        subfolders := subfolders + [entry] + nested;
      }
    }
  }

  /** get_all_files. */
  method GetAllFiles(n: Node) returns (files: seq<string>)
    ensures files == Files(n)
    decreases n
  {
    files := [];
    var entries := Children(n);
    for i := 0 to |entries|
      invariant files == FilesUpTo(n, i)
    {
      var entry := entries[i];
      if entry.File? {
        files := files + [entry.path];
      } else if entry.Folder? {
        var nested := GetAllFiles(entry);
        files := files + nested;
      }
    }
  }

  /** The first loop of job_stage_one. */
  method CollectFolders(fs: FileSystem, inputDirs: seq<InputFile>) returns (allFolders: seq<Node>)
    ensures allFolders == StageFolders(fs, inputDirs)
  {
    allFolders := [];
    for i := 0 to |inputDirs|
      invariant allFolders == StageFolders(fs, inputDirs[..i])
    {
      assert inputDirs[..i + 1][..i] == inputDirs[..i];
      var root := Root(fs, inputDirs[i].path);
      var nested := GetAllSubfolders(root);
      allFolders := allFolders + [root] + nested;
    }
    assert inputDirs[..|inputDirs|] == inputDirs;
  }

  /** The second loop of job_stage_one. */
  method CollectFiles(allFolders: seq<Node>) returns (allFiles: seq<string>)
    ensures allFiles == StageFiles(allFolders)
  {
    allFiles := [];
    for i := 0 to |allFolders|
      invariant allFiles == StageFiles(allFolders[..i])
    {
      assert allFolders[..i + 1][..i] == allFolders[..i];
      var files := GetAllFiles(allFolders[i]);
      allFiles := allFiles + files;
    }
    assert allFolders[..|allFolders|] == allFolders;
  }

  // ---------------------------------------------------------------------
  // What the enumeration lists

  /** x sits somewhere in the tree under n (n itself excluded). */
  predicate Below(x: Node, n: Node)
    decreases n
  {
    exists i :: 0 <= i < |Children(n)| && (Children(n)[i] == x || Below(x, Children(n)[i]))
  }

  /** Being below is transitive. */
  lemma {:induction false} BelowTransitive(x: Node, s: Node, n: Node)
    requires Below(x, s) && Below(s, n)
    ensures Below(x, n)
    decreases n
  {
    var i :| 0 <= i < |Children(n)| && (Children(n)[i] == s || Below(s, Children(n)[i]));
    if Children(n)[i] != s {
      BelowTransitive(x, s, Children(n)[i]);
    }
  }

  /** x is, or sits below, one of the first k entries of n. */
  predicate UnderFirst(x: Node, n: Node, k: nat)
    requires k <= |Children(n)|
  {
    exists i :: 0 <= i < k && (Children(n)[i] == x || Below(x, Children(n)[i]))
  }

  lemma UnderFirstStep(x: Node, n: Node, k: nat)
    requires 0 < k <= |Children(n)|
    ensures var c := Children(n)[k - 1];
            UnderFirst(x, n, k) <==> UnderFirst(x, n, k - 1) || c == x || Below(x, c)
  {
    var c := Children(n)[k - 1];
    if UnderFirst(x, n, k) && !(c == x || Below(x, c)) {
      var i :| 0 <= i < k && (Children(n)[i] == x || Below(x, Children(n)[i]));
      assert i < k - 1;
    }
  }

  lemma {:induction false} SubfoldersUpToMembers(n: Node, k: nat, x: Node)
    requires k <= |Children(n)|
    ensures x in SubfoldersUpTo(n, k) <==> x.Folder? && UnderFirst(x, n, k)
    decreases n, k
  {
    if k > 0 {
      var c := Children(n)[k - 1];
      SubfoldersUpToMembers(n, k - 1, x);
      UnderFirstStep(x, n, k);
      if c.Folder? {
        SubfoldersUpToMembers(c, |Children(c)|, x);
        assert SubfoldersUpTo(n, k) == SubfoldersUpTo(n, k - 1) + [c] + SubfoldersUpTo(c, |Children(c)|);
      } else {
        assert !Below(x, c);
      }
    }
  }

  /** get_all_subfolders lists exactly the folders below n, and never a
      file: a folder is listed iff it sits somewhere under n. */
  lemma SubfoldersAreTheFoldersBelow(n: Node, x: Node)
    ensures x in Subfolders(n) <==> x.Folder? && Below(x, n)
  {
    SubfoldersUpToMembers(n, |Children(n)|, x);
    assert Below(x, n) <==> UnderFirst(x, n, |Children(n)|);
  }

  lemma {:induction false} FilesUpToMembers(n: Node, k: nat, p: string)
    requires k <= |Children(n)|
    ensures p in FilesUpTo(n, k) <==> UnderFirst(File(p), n, k)
    decreases n, k
  {
    if k > 0 {
      var c := Children(n)[k - 1];
      FilesUpToMembers(n, k - 1, p);
      UnderFirstStep(File(p), n, k);
      match c
      case File(q) =>
        assert FilesUpTo(n, k) == FilesUpTo(n, k - 1) + [q];
        assert !Below(File(p), c);
      case Folder(_, _) =>
        FilesUpToMembers(c, |Children(c)|, p);
        assert FilesUpTo(n, k) == FilesUpTo(n, k - 1) + Files(c);
        assert Below(File(p), c) <==> UnderFirst(File(p), c, |Children(c)|);
      case Other(_) =>
        assert FilesUpTo(n, k) == FilesUpTo(n, k - 1);
        assert !Below(File(p), c);
    }
  }

  /** get_all_files lists exactly the files below n. */
  lemma FilesAreTheFilesBelow(n: Node, p: string)
    ensures p in Files(n) <==> Below(File(p), n)
  {
    FilesUpToMembers(n, |Children(n)|, p);
    assert Below(File(p), n) <==> UnderFirst(File(p), n, |Children(n)|);
  }

  /** The subfolders of s[i] sit right after s[i] in s. */
  predicate FollowedBySubfolders(s: seq<Node>, i: nat)
    requires i < |s|
  {
    var d := Subfolders(s[i]);
    i + 1 + |d| <= |s| && s[i + 1..i + 1 + |d|] == d
  }

  lemma FollowedInPrefix(a: seq<Node>, b: seq<Node>, i: nat)
    requires i < |a| && FollowedBySubfolders(a, i)
    ensures FollowedBySubfolders(a + b, i)
  {
    var d := Subfolders(a[i]);
    assert (a + b)[i + 1..i + 1 + |d|] == a[i + 1..i + 1 + |d|];
  }

  lemma FollowedInSuffix(a: seq<Node>, b: seq<Node>, j: nat)
    requires j < |b| && FollowedBySubfolders(b, j)
    ensures FollowedBySubfolders(a + b, |a| + j)
  {
    var d := Subfolders(b[j]);
    assert (a + b)[|a| + j + 1..|a| + j + 1 + |d|] == b[j + 1..j + 1 + |d|];
  }

  /** One more entry extends the partial listing by that entry and its
      subfolders when it is a folder, and by nothing otherwise. */
  lemma SubfoldersUpToStep(n: Node, k: nat)
    requires 0 < k <= |Children(n)|
    ensures var c := Children(n)[k - 1];
            SubfoldersUpTo(n, k) == SubfoldersUpTo(n, k - 1) + if c.Folder? then [c] + Subfolders(c) else []
  {
  }

  lemma {:induction false} SubfoldersUpToPreOrder(n: Node, k: nat, i: nat)
    requires k <= |Children(n)| && i < |SubfoldersUpTo(n, k)|
    ensures FollowedBySubfolders(SubfoldersUpTo(n, k), i)
    decreases n, k, 2
  {
    SubfoldersUpToStep(n, k);
    if i < |SubfoldersUpTo(n, k - 1)| {
      PreOrderEarlierEntry(n, k, i);
    } else {
      PreOrderLastEntry(n, k, i);
    }
  }

  /** A folder listed for the first k - 1 entries keeps its subfolders behind it. */
  lemma {:induction false} PreOrderEarlierEntry(n: Node, k: nat, i: nat)
    requires 0 < k <= |Children(n)| && i < |SubfoldersUpTo(n, k - 1)|
    ensures FollowedBySubfolders(SubfoldersUpTo(n, k), i)
    decreases n, k, 1
  {
    var c := Children(n)[k - 1];
    SubfoldersUpToPreOrder(n, k - 1, i);
    SubfoldersUpToStep(n, k);
    FollowedInPrefix(SubfoldersUpTo(n, k - 1), if c.Folder? then [c] + Subfolders(c) else [], i);
  }

  /** A folder listed for entry k is followed by its subfolders. */
  lemma {:induction false} PreOrderLastEntry(n: Node, k: nat, i: nat)
    requires 0 < k <= |Children(n)| && |SubfoldersUpTo(n, k - 1)| <= i < |SubfoldersUpTo(n, k)|
    ensures FollowedBySubfolders(SubfoldersUpTo(n, k), i)
    decreases n, k, 1
  {
    var c := Children(n)[k - 1];
    var a := SubfoldersUpTo(n, k - 1);
    SubfoldersUpToStep(n, k);
    assert c.Folder?;
    FolderThenSubfoldersPreOrder(c, i - |a|);
    FollowedInSuffix(a, [c] + Subfolders(c), i - |a|);
  }

  /** A folder followed by its own listing is in pre-order too. */
  lemma {:induction false} FolderThenSubfoldersPreOrder(c: Node, j: nat)
    requires c.Folder? && j < 1 + |Subfolders(c)|
    ensures FollowedBySubfolders([c] + Subfolders(c), j)
    decreases c, |Children(c)| + 1, 0
  {
    var tail := [c] + Subfolders(c);
    if j == 0 {
      assert tail[1..1 + |Subfolders(c)|] == Subfolders(c);
    } else {
      SubfoldersUpToPreOrder(c, |Children(c)|, j - 1);
      FollowedInSuffix([c], Subfolders(c), j - 1);
    }
  }

  /** Pre-order: every listed folder is immediately followed by its own
      subfolders. */
  lemma SubfoldersPreOrder(n: Node, i: nat)
    requires i < |Subfolders(n)|
    ensures var s := Subfolders(n);
            var d := Subfolders(s[i]);
            i + 1 + |d| <= |s| && s[i + 1..i + 1 + |d|] == d
  {
    SubfoldersUpToPreOrder(n, |Children(n)|, i);
  }

  /** How many of the listed folders hold the file p somewhere below them. */
  function FoldersHolding(folders: seq<Node>, p: string): nat
  {
    if folders == [] then 0
    else FoldersHolding(folders[..|folders| - 1], p) + if Below(File(p), folders[|folders| - 1]) then 1 else 0
  }

  /** A file is listed by job_stage_one once for every listed folder that
      holds it directly or further down (when no single folder lists it
      twice, as on a real file system). */
  lemma {:induction false} StageFilesCount(folders: seq<Node>, p: string)
    requires forall i :: 0 <= i < |folders| ==> multiset(Files(folders[i]))[p] <= 1
    ensures multiset(StageFiles(folders))[p] == FoldersHolding(folders, p)
  {
    if folders != [] {
      var last := folders[|folders| - 1];
      StageFilesCount(folders[..|folders| - 1], p);
      FilesAreTheFilesBelow(last, p);
      assert multiset(StageFiles(folders)) == multiset(StageFiles(folders[..|folders| - 1])) + multiset(Files(last));
    }
  }

  /** Whatever the file system, every folder holding p contributes p at least once. */
  lemma {:induction false} StageFilesCountAtLeast(folders: seq<Node>, p: string)
    ensures multiset(StageFiles(folders))[p] >= FoldersHolding(folders, p)
  {
    if folders != [] {
      var last := folders[|folders| - 1];
      StageFilesCountAtLeast(folders[..|folders| - 1], p);
      FilesAreTheFilesBelow(last, p);
      assert multiset(StageFiles(folders)) == multiset(StageFiles(folders[..|folders| - 1])) + multiset(Files(last));
    }
  }

  lemma {:induction false} FoldersHoldingTwo(folders: seq<Node>, p: string, i: nat, j: nat)
    requires i < j < |folders|
    requires Below(File(p), folders[i]) && Below(File(p), folders[j])
    ensures FoldersHolding(folders, p) >= 2
  {
    var init := folders[..|folders| - 1];
    if j < |folders| - 1 {
      assert init[i] == folders[i] && init[j] == folders[j];
      FoldersHoldingTwo(init, p, i, j);
    } else {
      assert init[i] == folders[i];
      FoldersHoldingAtLeastOne(init, p, i);
    }
  }

  lemma {:induction false} FoldersHoldingAtLeastOne(folders: seq<Node>, p: string, i: nat)
    requires i < |folders| && Below(File(p), folders[i])
    ensures FoldersHolding(folders, p) >= 1
  {
    if i < |folders| - 1 {
      var init := folders[..|folders| - 1];
      assert init[i] == folders[i];
      FoldersHoldingAtLeastOne(init, p, i);
    }
  }

  /** A file inside a subfolder of an input is listed at least twice by
      job_stage_one: once through the input and once through that subfolder. */
  lemma NestedFileListedTwice(fs: FileSystem, inputs: seq<InputFile>, k: nat, sub: Node, p: string)
    requires k < |inputs|
    requires sub in Subfolders(Root(fs, inputs[k].path))
    requires p in Files(sub)
    ensures multiset(StageFiles(StageFolders(fs, inputs)))[p] >= 2
  {
    var root := Root(fs, inputs[k].path);
    var folders := StageFolders(fs, inputs);
    HeldByRootAndSubfolder(root, sub, p);
    var j :| 0 <= j < |Subfolders(root)| && Subfolders(root)[j] == sub;
    var at := StageFoldersContainRoot(fs, inputs, k);
    PlacedIndex(folders, at, root, j);
    FoldersHoldingTwo(folders, p, at, at + 1 + j);
    StageFilesCountAtLeast(folders, p);
  }

  /** A file listed under a subfolder lies below both that subfolder and the root. */
  lemma HeldByRootAndSubfolder(root: Node, sub: Node, p: string)
    requires sub in Subfolders(root) && p in Files(sub)
    ensures Below(File(p), sub) && Below(File(p), root)
  {
    SubfoldersAreTheFoldersBelow(root, sub);
    FilesAreTheFilesBelow(sub, p);
    BelowTransitive(File(p), sub, root);
  }

  /** folders holds `root` at index `at`, immediately followed by its subfolders. */
  predicate Placed(folders: seq<Node>, at: nat, root: Node)
  {
    at + 1 + |Subfolders(root)| <= |folders|
    && folders[at] == root
    && folders[at + 1..at + 1 + |Subfolders(root)|] == Subfolders(root)
  }

  lemma PlacedIndex(folders: seq<Node>, at: nat, root: Node, j: nat)
    requires Placed(folders, at, root) && j < |Subfolders(root)|
    ensures at + 1 + j < |folders| && folders[at] == root && folders[at + 1 + j] == Subfolders(root)[j]
  {
    assert folders[at + 1..at + 1 + |Subfolders(root)|][j] == folders[at + 1 + j];
  }

  lemma PlacedInPrefix(a: seq<Node>, b: seq<Node>, c: seq<Node>, at: nat, root: Node)
    requires Placed(a, at, root)
    ensures Placed(a + b + c, at, root)
  {
    var d := |Subfolders(root)|;
    assert (a + b + c)[at + 1..at + 1 + d] == a[at + 1..at + 1 + d];
  }

  lemma PlacedAtJoin(a: seq<Node>, root: Node)
    ensures Placed(a + [root] + Subfolders(root), |a|, root)
  {
    var f := a + [root] + Subfolders(root);
    assert f[|a| + 1..|a| + 1 + |Subfolders(root)|] == Subfolders(root);
  }

  /** The last input's folder is placed right after the folders of the earlier inputs. */
  lemma PlacedLastInput(fs: FileSystem, inputs: seq<InputFile>)
    requires inputs != []
    ensures Placed(StageFolders(fs, inputs), |StageFolders(fs, inputs[..|inputs| - 1])|, Root(fs, inputs[|inputs| - 1].path))
  {
    PlacedAtJoin(StageFolders(fs, inputs[..|inputs| - 1]), Root(fs, inputs[|inputs| - 1].path));
  }

  /** Folders placed for the earlier inputs stay placed when another input follows. */
  lemma PlacedEarlierInput(fs: FileSystem, inputs: seq<InputFile>, at: nat, root: Node)
    requires inputs != []
    requires Placed(StageFolders(fs, inputs[..|inputs| - 1]), at, root)
    ensures Placed(StageFolders(fs, inputs), at, root)
  {
    var last := Root(fs, inputs[|inputs| - 1].path);
    PlacedInPrefix(StageFolders(fs, inputs[..|inputs| - 1]), [last], Subfolders(last), at, root);
  }

  /** The root of input k and its subfolders sit contiguously in all_folders. */
  lemma {:induction false} StageFoldersContainRoot(fs: FileSystem, inputs: seq<InputFile>, k: nat) returns (at: nat)
    requires k < |inputs|
    ensures Placed(StageFolders(fs, inputs), at, Root(fs, inputs[k].path))
  {
    var init := inputs[..|inputs| - 1];
    if k == |inputs| - 1 {
      at := |StageFolders(fs, init)|;
      PlacedLastInput(fs, inputs);
    } else {
      assert init[k] == inputs[k];
      at := StageFoldersContainRoot(fs, init, k);
      PlacedEarlierInput(fs, inputs, at, Root(fs, inputs[k].path));
    }
  }
}
