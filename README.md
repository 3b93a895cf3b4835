# Archway core, modelled in Dafny

Archway is a desktop backup engine (a Tauri application written in Rust).
This project models the sequential logic under its plumbing and proves
what that logic promises:

- **the live job-status table** (`JobManager.JobStatusTable`): starting a job
  appends its initial status unless a status for that job uuid already
  exists, and progress updates rewrite the first status of a job in place;
  the table keeps its job uuids distinct and never shrinks;
- **directory enumeration** (`JobManager`): the recursive listing of every
  subfolder (pre-order) and every file under a folder, and the indexing
  stage that lists each input folder with its subfolders and then the files
  of every listed folder, so that a nested file is listed once per
  enclosing listed folder;
- **drive identity and portable jobs** (`DriveManager`): the `archway.json`
  marker at a drive root, created with a fresh uuid when missing, the
  upsert of a job into the marker's job list, and the extraction of a
  path's Windows prefix (`C:`, `\\server\share`, `\\?\…`, `\\.\…`);
- **the job store** (`StorageManager`): reading, writing, finding and
  removing job definitions in `jobs.json`;
- **settings** (`SettingsManager`): defaulting of the two optional settings
  and their load/save;
- **the recovery manifest check** (`RecoveryManager`);
- **job logging** (`LogManager`): the routing table from message type and
  log level, and the log file name and entry format.

Files on disk are values. A JSON document is a `Structs.Document<T>`:
absent, present but not openable, present but not decoding, or decoded to a
value; encoding and decoding are abstract (what is written is what is read
back). The outcome of each write, the fresh uuid a drive receives, the
local time a log entry carries, and the directory listings are inputs.
The status table, which the source keeps in a global `Mutex<Vec<_>>`, is a
class whose methods update its `seq` field; a settings record, which the
source fills in place, is a class as well.

Notable behaviour of the code, which the model keeps:

- every started job gets `total_steps` 4, whatever its file behaviour;
- the duplicate check of `start_job` also refuses a job whose status is
  completed;
- the recovery check only checks that each entry has two elements, not
  that they are non-empty;
- the root of a path is its Windows prefix component, not the mount point
  the path lies on; a path without such a prefix has no root;
- no stage after indexing exists: the indexing stage ends after listing.

## Model

| member | source | states |
|---|---|---|
| Structs.FirstIndex | src-tauri/src/storage_manager.rs:56 | the index `position` finds: none iff the key is absent, otherwise an index holding the key with no occurrence before it |
| Structs.Position | src-tauri/src/storage_manager.rs:56 | the scan returns the first index holding the key, or none when no element does |
| Structs.FirstIndexIsUnique | src-tauri/src/storage_manager.rs:51 | an occurrence with none before it is the one `find`/`position` returns |
| StorageManager.SetAllJobs | src-tauri/src/storage_manager.rs:35-37 | returns true iff the write succeeded; after success the stored list is the one written, after failure the file is unchanged |
| StorageManager.GetAllJobs | src-tauri/src/storage_manager.rs:39-47 | a decoded jobs file yields exactly its list; any file that does not decode yields the empty list |
| StorageManager.GetAllJobsFallback | src-tauri/src/storage_manager.rs:39-47 | a missing, unopenable or undecodable jobs file reads as the empty list |
| StorageManager.SetThenGetAllJobs | src-tauri/src/storage_manager.rs:35-47 | a list written successfully is read back unchanged |
| StorageManager.GetJobByUuid | src-tauri/src/storage_manager.rs:49-52 | returns a stored job with the uuid, and it is the first such job; a missing job is a precondition (the source panics) |
| StorageManager.RemoveJobByUuid | src-tauri/src/storage_manager.rs:54-63 | with no job of that uuid: false and nothing written; otherwise the list without its first match is written and the write result returned |
| StorageManager.RemoveFirstShape | src-tauri/src/storage_manager.rs:56-57 | removal shortens the list by one, keeps the entries before the first match in place and shifts the later ones down by one |
| StorageManager.RemoveFirstKeepsLaterDuplicates | src-tauri/src/storage_manager.rs:56-57 | the number of jobs carrying the uuid drops by exactly one, so later duplicates remain |
| JobManager.WithStatusTouchesFirstMatchOnly | src-tauri/src/job_manager.rs:52-62 | update_job_status sets step, title, last action, success, completed and percent of the first status of the job only; its job record, its total steps and every other status are unchanged; no match, no change |
| JobManager.WithLastActionTouchesFirstMatchOnly | src-tauri/src/job_manager.rs:64-69 | update_last_action changes only the last action of the first status of the job; no match, no change |
| JobManager.AppendKeepsDistinct | src-tauri/src/job_manager.rs:17-24 | appending a status keeps the job uuids distinct iff its uuid is not listed yet, which is what the duplicate check guarantees |
| JobManager.JobStatusTable.constructor | src-tauri/src/job_manager.rs:6 | the table starts empty |
| JobManager.JobStatusTable.StartJob | src-tauri/src/job_manager.rs:16-46 | refuses (false, table unchanged) iff some status, completed or not, has the uuid; otherwise appends exactly the initial status of the stored job (step 0 of 4, "Initializing Job", "Starting job...", success, not completed, percent 0) and keeps the uuids distinct; the old table is a prefix of the new |
| JobManager.JobStatusTable.GetAllJobStatuses | src-tauri/src/job_manager.rs:48-50 | returns the current table |
| JobManager.JobStatusTable.UpdateJobStatus | src-tauri/src/job_manager.rs:52-62 | the table becomes the in-place update of the first status of the job and keeps its uuids distinct |
| JobManager.JobStatusTable.UpdateLastAction | src-tauri/src/job_manager.rs:64-69 | the table becomes the in-place last-action update of the first status of the job |
| JobManager.JobStatusTable.JobStageOne | src-tauri/src/job_manager.rs:99-121 | marks the job as step 1 "Indexing Files" (percent -1), lists each input folder followed by its subfolders, sets the last action to "Getting all files...", then lists the files of every listed folder in order |
| JobManager.GetAllSubfolders | src-tauri/src/job_manager.rs:71-83 | the loop with its recursion yields the pre-order listing of the folders under a folder |
| JobManager.GetAllFiles | src-tauri/src/job_manager.rs:85-97 | the loop with its recursion yields the files under a folder, in listing order |
| JobManager.CollectFolders | src-tauri/src/job_manager.rs:104-108 | all_folders is each input folder followed by its subfolders, in input order |
| JobManager.CollectFiles | src-tauri/src/job_manager.rs:111-114 | all_files is the concatenation of the file listings of the listed folders, in order |
| JobManager.SubfoldersUpToMembers | src-tauri/src/job_manager.rs:71-83 | after the first k entries, a node is listed iff it is a folder among or below those entries |
| JobManager.SubfoldersAreTheFoldersBelow | src-tauri/src/job_manager.rs:71-83 | a node is listed iff it is a folder somewhere below the folder; files are never listed |
| JobManager.FilesUpToMembers | src-tauri/src/job_manager.rs:85-97 | after the first k entries, a path is listed iff it is a file among or below those entries |
| JobManager.FilesAreTheFilesBelow | src-tauri/src/job_manager.rs:85-97 | a path is listed iff it is a file somewhere below the folder |
| JobManager.SubfoldersUpToPreOrder | src-tauri/src/job_manager.rs:76-78 | in each partial listing every folder is immediately followed by its own subfolder listing |
| JobManager.SubfoldersPreOrder | src-tauri/src/job_manager.rs:71-83 | the listing is in pre-order: every listed folder is immediately followed by its own subfolders |
| JobManager.StageFoldersContainRoot | src-tauri/src/job_manager.rs:105-108 | each input folder appears in all_folders immediately followed by all its subfolders |
| JobManager.StageFilesCount | src-tauri/src/job_manager.rs:111-114 | when no folder listing repeats a file, a file appears in all_files exactly once for each listed folder it lies under |
| JobManager.StageFilesCountAtLeast | src-tauri/src/job_manager.rs:111-114 | a file appears in all_files at least once for each listed folder it lies under |
| JobManager.NestedFileListedTwice | src-tauri/src/job_manager.rs:103-114 | a file inside a subfolder of an input folder is listed at least twice in all_files |
| DriveManager.GetDriveUuid | src-tauri/src/drive_manager.rs:6-43 | a decoded marker gives its uuid and nothing is written; an undecodable marker gives "" and nothing is written; a missing marker gives the fresh uuid, and a marker {uuid, jobs: []} is stored only if the write succeeded; an unopenable existing marker is a precondition (the source panics) |
| DriveManager.DriveUuidIsStable | src-tauri/src/drive_manager.rs:11-42 | after a marker was created, a second call returns the same uuid, whatever fresh uuid it is offered, and writes nothing |
| DriveManager.ReturnedUuidIsStored | src-tauri/src/drive_manager.rs:6-43 | the marker is readable after the call iff it was before or was created, and then it holds the uuid returned |
| DriveManager.UpsertJob | src-tauri/src/drive_manager.rs:71-84 | the loop, without early exit, replaces every entry with the job's uuid and appends the job when none matched |
| DriveManager.UpsertedShape | src-tauri/src/drive_manager.rs:71-84 | entries with the job's uuid become the job, the others keep their positions, and the length grows by one exactly when nothing matched, with the job last |
| DriveManager.UpsertedContainsJob | src-tauri/src/drive_manager.rs:71-84 | the result contains the job, and every entry with its uuid is the job |
| DriveManager.UpsertedIdempotent | src-tauri/src/drive_manager.rs:71-84 | upserting the same job twice gives the list upserting it once gave |
| DriveManager.AddJobToDrive | src-tauri/src/drive_manager.rs:45-93 | false when the marker is missing and creating it fails or yields "", or when the marker cannot be opened; otherwise the marker is rewritten with the job upserted and the result is whether the rewrite succeeded; an undecodable marker is a precondition (the source panics) |
| DriveManager.ComponentLength | src-tauri/src/drive_manager.rs:97 | the first path component runs up to, and not including, the first separator (backslash only in verbatim paths) |
| DriveManager.PrefixLength | src-tauri/src/drive_manager.rs:97-98 | a recognised prefix is at least two characters and no longer than the path; which prefix each path form yields is stated by the lemmas below |
| DriveManager.GetRootDrive | src-tauri/src/drive_manager.rs:95-103 | returns a leading part of the path of at least two characters exactly when the path begins with a Windows prefix, and None otherwise |
| DriveManager.GetRootDriveCases | src-tauri/src/drive_manager.rs:95-103 | a drive letter and colon give that two-character root; an empty path, a path starting with a single separator, and a path starting with anything but a separator or a letter have no root |
| DriveManager.RootNeedsDriveOrTwoSeparators | src-tauri/src/drive_manager.rs:95-103 | a path has a root only if it starts with a drive letter and colon or with two separators; a path starting with a letter not followed by a colon (a relative path such as docs/x) has none |
| DriveManager.ServerWithoutShareHasNoRoot | src-tauri/src/drive_manager.rs:95-103 | two separators and a separator-free server with no share, followed by nothing or by one separator, have no root |
| DriveManager.EmptyServerHasNoRoot | src-tauri/src/drive_manager.rs:95-103 | two separators followed by nothing or by a third separator (an empty server) have no root, whatever follows |
| DriveManager.GetRootDriveIdempotent | src-tauri/src/drive_manager.rs:95-103 | the root of a root is itself |
| DriveManager.UncRoot | src-tauri/src/drive_manager.rs:95-103 | for two separators, a non-empty server that is not `?` or `.`, a separator and a non-empty share (neither holding a separator), followed by nothing or a separator, the root is exactly that `\\server\share` part |
| DriveManager.DeviceRoot | src-tauri/src/drive_manager.rs:95-103 | for `\\.\` (either separator) followed by a separator-free name and then nothing or a separator, the root is `\\.\name` |
| DriveManager.VerbatimRoot | src-tauri/src/drive_manager.rs:95-103 | for `\\?\` followed by a name without a backslash (a forward slash stays inside the name) that is neither `UNC…` nor a drive, then nothing or a backslash, the root is `\\?\name` |
| DriveManager.VerbatimDiskRoot | src-tauri/src/drive_manager.rs:95-103 | for `\\?\` followed by a drive letter and colon, then nothing or either separator, the root is `\\?\C:` |
| DriveManager.VerbatimUncRoot | src-tauri/src/drive_manager.rs:95-103 | for `\\?\UNC` and a separator followed by a server without a backslash, a backslash and a non-empty share without a backslash, then nothing or a backslash, the root is that `\\?\UNC\server\share` part |
| RecoveryManager.NormalizeSlashes | src-tauri/src/recovery_manager.rs:4 | every backslash becomes a slash, all other characters and the length are unchanged, and no backslash remains |
| RecoveryManager.NormalizeSlashesIdempotent | src-tauri/src/recovery_manager.rs:4 | normalising twice is normalising once |
| RecoveryManager.AllEntriesArePairs | src-tauri/src/recovery_manager.rs:13-17 | the scan succeeds iff every entry has exactly two elements |
| RecoveryManager.VerifyRecoveryFile | src-tauri/src/recovery_manager.rs:3-26 | "Valid" iff the manifest decodes and every entry has two elements; the entry-length error iff it decodes and some entry does not; the format error iff it does not decode |
| RecoveryManager.EmptyManifestIsValid | src-tauri/src/recovery_manager.rs:13-19 | an empty manifest is valid |
| RecoveryManager.EmptyStringsAccepted | src-tauri/src/recovery_manager.rs:16 | entries of two empty strings are accepted: only the length is checked |
| RecoveryManager.SeparatorSpellingIrrelevant | src-tauri/src/recovery_manager.rs:4 | two paths differing only in backslash versus slash give the same verdict |
| SettingsManager.Defaulted | src-tauri/src/settings_manager.rs:10-22 | both fields are present afterwards; a present field is kept; a missing run_on_startup becomes true and a missing log_level becomes "low" |
| SettingsManager.DefaultedIdempotent | src-tauri/src/settings_manager.rs:10-22 | defaulting twice is defaulting once, and a record with both fields present is left alone |
| SettingsManager.Settings.constructor | src-tauri/src/settings_manager.rs:4-8 | the record holds the given values |
| SettingsManager.Settings.FillDefaultSettings | src-tauri/src/settings_manager.rs:10-22 | the record becomes its defaulted value |
| SettingsManager.LoadedSettings | src-tauri/src/settings_manager.rs:24-39 | both fields are present; a missing or undecodable file gives (true, "low"); present fields of a decoded file are kept, and its missing run-on-startup becomes true and its missing log level "low" (the decoded record, defaulted) |
| SettingsManager.GetSettings | src-tauri/src/settings_manager.rs:24-39 | returns a new record holding the loaded settings |
| SettingsManager.SetSettings | src-tauri/src/settings_manager.rs:41-54 | writes the defaulted copy of the record, leaves the record itself unmodified, and returns whether the write succeeded; a failed write leaves the file unchanged |
| SettingsManager.SetThenGetSettings | src-tauri/src/settings_manager.rs:24-54 | what a successful save wrote is exactly what loading returns |
| LogManager.Route | src-tauri/src/log_manager.rs:31-53 | FILE is written as INFO only at level "high"; STEP as INFO at every level but "low"; ERROR always as ERROR; any other type always as INFO; nothing else is dropped |
| LogManager.Log | src-tauri/src/log_manager.rs:4-21 | appends "time [type]: body" and two newlines to "archway-" + title + ".log", creating it when missing; no other file changes |
| LogManager.JobLog | src-tauri/src/log_manager.rs:31-53 | a dropped message changes nothing; otherwise the message is logged as INFO or ERROR under the title "job-" + id |
| LogManager.JobLogTouchesOneFile | src-tauri/src/log_manager.rs:4-53 | one call changes only "archway-job-<id>.log", changes it iff the message is not dropped, and then appends exactly one entry typed ERROR for ERROR messages and INFO otherwise |

## Left out

- `src-tauri/src/lib.rs` (command registration, `greet`, `get_drives`) and `src-tauri/src/background_manager.rs` (a polling loop over the system's disk list) are not part of this model: UI and system plumbing.
- `get_all_drives` (src-tauri/src/drive_manager.rs:105-117) is not modelled: it only copies what the `sysinfo` crate reports.
- JSON encoding and decoding, `file_with_executable`, `read_json_file`, `write_json_file`, `to_json_string` and `from_json_string` are abstracted into `Structs.Document`: a write either succeeds and leaves exactly the value behind or fails and leaves the document unchanged. A file truncated by a failed serialisation, and a buffered write whose flush error is dropped, are not modelled.
- Fresh uuids (`Uuid::new_v4`), the outcome of each write, the local time of a log entry (and its "unknown time" fallback) and directory listings are parameters.
- `start_job` spawns `job_stage_one` asynchronously; here `JobStageOne` is a separate call, the global mutex is the table object, and the race between the duplicate check and the push is not modelled.
- `percent` (an `f32`) is a real that is stored and never computed with.
- `println!` and `eprintln!` diagnostics are left out; `job_stage_one` prints its two lists, which `JobStageOne` returns instead.
- `JobManager.GetAllSubfolders` returns the folder entries (path and subtree) rather than path strings; the paths are the entries' `path` fields. The file system is a fixed tree, so the second pass of `job_stage_one` reads the same listings as the first; changes between the passes and lossy path conversion are not modelled.
- A directory that `read_dir` cannot open is a folder with no entries, as the source treats both alike; entries whose type cannot be read and symbolic links are `Other` nodes and are skipped.
- `LogManager.Log` assumes the log file can be opened (the source unwraps the open) and that the append succeeds (the source only reports a failed append).
- Panics are preconditions: `GetJobByUuid` and `StartJob` require the job to be stored, `JobStageOne` requires its job to be stored (the lookup in `job_stage_one` panics otherwise), `GetDriveUuid` requires an existing marker to be openable, and `AddJobToDrive` requires an existing marker to decode.
- `DriveManager.GetRootDrive` follows Windows path syntax; on other platforms the source never finds a prefix. The prefix kinds are not returned, only the prefix text.
- The records `JobStatus` and `DriveInfoFile` are not declared in src-tauri/src/structs.rs; their fields are those the managers construct and read.
- Later job stages (copying, verifying, deleting), triggers, file filters, health records and recovery replay do not exist in this code and are not modelled.
