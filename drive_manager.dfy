/** Drive identity and portable jobs (src-tauri/src/drive_manager.rs).
    Every drive root may hold a marker document, archway.json, holding the
    drive's uuid and the jobs stored on it; the markers of all drives are a
    map from drive name to Document. Fresh uuids (Uuid::new_v4) and the
    success of each write are inputs. Paths follow Windows path syntax. */
module DriveManager {
  import opened Structs

  type MarkerStore = map<string, Document<DriveInfoFile>>

  /** What sits at `drive`/archway.json. */
  function MarkerAt(store: MarkerStore, drive: string): Document<DriveInfoFile>
  {
    if drive in store then store[drive] else Absent
  }

  datatype UuidReply = UuidReply(uuid: string, store: MarkerStore)

  /** get_drive_uuid: the stored uuid of a readable marker; "" for a marker
      that does not decode; for a missing marker, a fresh uuid, returned
      whether or not writing the new marker {uuid, jobs: []} succeeded.
      Opening an existing marker is unwrapped, so it must succeed. */
  function GetDriveUuid(store: MarkerStore, drive: string, freshUuid: string, writeOk: bool): (r: UuidReply)
    requires MarkerAt(store, drive) != Unopenable
    ensures MarkerAt(store, drive).Parsed? ==> r == UuidReply(MarkerAt(store, drive).value.uuid, store)
    ensures MarkerAt(store, drive) == Malformed ==> r == UuidReply("", store)
    ensures MarkerAt(store, drive) == Absent ==> r.uuid == freshUuid
    ensures r.store != store ==>
              && MarkerAt(store, drive) == Absent && writeOk
              && r.store == store[drive := Parsed(DriveInfoFile(freshUuid, []))]
  {
    match MarkerAt(store, drive)
    case Parsed(info) => UuidReply(info.uuid, store)
    case Malformed => UuidReply("", store)
    case Absent =>
      var marker := DriveInfoFile(freshUuid, []);
      UuidReply(freshUuid, if writeOk then store[drive := Parsed(marker)] else store)
  }

  /** Once a marker has been written, the drive keeps its identity: a
      second call returns the same uuid, whatever fresh uuid it is offered,
      and writes nothing. */
  lemma {:induction false} DriveUuidIsStable(store: MarkerStore, drive: string, fresh1: string, fresh2: string, writeOk2: bool)
    requires MarkerAt(store, drive) == Absent
    ensures var first := GetDriveUuid(store, drive, fresh1, true);
            var second := GetDriveUuid(first.store, drive, fresh2, writeOk2);
            second.uuid == first.uuid == fresh1 && second.store == first.store
  {
    var first := GetDriveUuid(store, drive, fresh1, true);
    assert MarkerAt(first.store, drive) == Parsed(DriveInfoFile(fresh1, []));
  }

  /** After any call the marker, when readable, holds the uuid returned,
      unless the marker was unreadable ("" returned) or could not be created. */
  lemma {:induction false} ReturnedUuidIsStored(store: MarkerStore, drive: string, freshUuid: string, writeOk: bool)
    requires MarkerAt(store, drive) != Unopenable
    ensures var r := GetDriveUuid(store, drive, freshUuid, writeOk);
            MarkerAt(r.store, drive).Parsed? <==> MarkerAt(store, drive).Parsed? || (MarkerAt(store, drive) == Absent && writeOk)
    ensures var r := GetDriveUuid(store, drive, freshUuid, writeOk);
            MarkerAt(r.store, drive).Parsed? ==> MarkerAt(r.store, drive).value.uuid == r.uuid
  {
    var r := GetDriveUuid(store, drive, freshUuid, writeOk);
    if MarkerAt(store, drive) == Absent && writeOk {
      assert r.store[drive] == Parsed(DriveInfoFile(freshUuid, []));
    }
  }

  /** The job list after the upsert in add_job_to_drive: every entry with
      the job's uuid replaced by the job, or the job appended when none has it. */
  function Upserted(jobs: seq<JobInfo>, job: JobInfo): seq<JobInfo>
  {
    var replaced := seq(|jobs|, i requires 0 <= i < |jobs| => if jobs[i].uuid == job.uuid then job else jobs[i]);
    if job.uuid in JobUuids(jobs) then replaced else replaced + [job]
  }

  /** The loop of add_job_to_drive: overwrites each matching entry in place
      (no early exit), then pushes the job if nothing matched. */
  method UpsertJob(jobs: seq<JobInfo>, job: JobInfo) returns (r: seq<JobInfo>)
    ensures r == Upserted(jobs, job)
  {
    r := jobs;
    var alreadyExists := false;
    for i := 0 to |r|
      invariant |r| == |jobs|
      invariant forall k :: 0 <= k < i ==> r[k] == if jobs[k].uuid == job.uuid then job else jobs[k]
      invariant forall k :: i <= k < |r| ==> r[k] == jobs[k]
      invariant alreadyExists <==> job.uuid in JobUuids(jobs)[..i]
    {
      assert JobUuids(jobs)[..i + 1] == JobUuids(jobs)[..i] + [jobs[i].uuid];
      if r[i].uuid == job.uuid {
        r := r[i := job];
        alreadyExists := true;
      }
    }
    assert JobUuids(jobs)[..|jobs|] == JobUuids(jobs);
    if !alreadyExists {
      r := r + [job];
    }
  }

  /** Shape of the upsert: matching entries become the job, the others keep
      their positions, and the length grows by one exactly when nothing matched. */
  lemma UpsertedShape(jobs: seq<JobInfo>, job: JobInfo)
    ensures var r := Upserted(jobs, job);
            && |r| == (if job.uuid in JobUuids(jobs) then |jobs| else |jobs| + 1)
            && (forall k :: 0 <= k < |jobs| && jobs[k].uuid != job.uuid ==> r[k] == jobs[k])
            && (forall k :: 0 <= k < |jobs| && jobs[k].uuid == job.uuid ==> r[k] == job)
            && (job.uuid !in JobUuids(jobs) ==> r[|jobs|] == job)
  {
  }

  /** The job is always in the result, and it is the only entry carrying its uuid. */
  lemma {:induction false} UpsertedContainsJob(jobs: seq<JobInfo>, job: JobInfo)
    ensures job in Upserted(jobs, job)
    ensures forall k :: 0 <= k < |Upserted(jobs, job)| && Upserted(jobs, job)[k].uuid == job.uuid ==> Upserted(jobs, job)[k] == job
  {
    var r := Upserted(jobs, job);
    if job.uuid in JobUuids(jobs) {
      var i :| 0 <= i < |jobs| && JobUuids(jobs)[i] == job.uuid;
      assert r[i] == job;
    } else {
      assert r[|jobs|] == job;
    }
  }

  /** Upserting the same job twice gives the list upserting it once gave. */
  lemma {:induction false} UpsertedIdempotent(jobs: seq<JobInfo>, job: JobInfo)
    ensures Upserted(Upserted(jobs, job), job) == Upserted(jobs, job)
  {
    var once := Upserted(jobs, job);
    UpsertedContainsJob(jobs, job);
    var i :| 0 <= i < |once| && once[i] == job;
    assert JobUuids(once)[i] == job.uuid;
  }

  /** add_job_to_drive: creates the marker through get_drive_uuid when it is
      missing (failing if that yields ""), fails when the marker cannot be
      opened, otherwise upserts the job into the marker's list and reports
      whether the rewrite succeeded. A marker that exists but does not
      decode makes the source panic, so it is excluded. */
  method AddJobToDrive(store: MarkerStore, drive: string, job: JobInfo, freshUuid: string, createOk: bool, writeOk: bool)
    returns (ok: bool, store': MarkerStore)
    requires MarkerAt(store, drive) != Malformed
    ensures MarkerAt(store, drive) == Unopenable ==> !ok && store' == store
    ensures MarkerAt(store, drive).Parsed? ==>
              var info := MarkerAt(store, drive).value;
              ok == writeOk &&
              store' == if writeOk then store[drive := Parsed(DriveInfoFile(info.uuid, Upserted(info.jobs, job)))] else store
    ensures MarkerAt(store, drive) == Absent ==>
              ok == (createOk && freshUuid != "" && writeOk) &&
              store' == if !createOk then store
                        else store[drive := Parsed(DriveInfoFile(freshUuid, if ok then [job] else []))]
  {
    store' := store;
    if MarkerAt(store', drive) == Absent {
      var reply := GetDriveUuid(store', drive, freshUuid, createOk);
      store' := reply.store;
      if reply.uuid == "" {
        return false, store';
      }
    }
    match MarkerAt(store', drive)
    case Parsed(info) =>
      var jobs := UpsertJob(info.jobs, job);
      if writeOk {
        store' := store'[drive := Parsed(DriveInfoFile(info.uuid, jobs))];
      }
      ok := writeOk;
      assert Upserted([], job) == [job];
    case _ =>
      ok := false;
  }

  predicate IsSep(c: char)
  {
    c == '\\' || c == '/'
  }

  /** Separators inside a component: verbatim (\\?\) paths only split on backslash. */
  predicate SplitsAt(c: char, verbatim: bool)
  {
    if verbatim then c == '\\' else IsSep(c)
  }

  predicate IsAsciiLetter(c: char)
  {
    'a' <= c <= 'z' || 'A' <= c <= 'Z'
  }

  /** The length of the first component of `s`: everything before the first separator. */
  function ComponentLength(s: string, verbatim: bool): (n: nat)
    ensures n <= |s|
    ensures forall i :: 0 <= i < n ==> !SplitsAt(s[i], verbatim)
    ensures n < |s| ==> SplitsAt(s[n], verbatim)
  {
    if s == [] || SplitsAt(s[0], verbatim) then 0 else 1 + ComponentLength(s[1..], verbatim)
  }

  /** What follows the first component and its separator. */
  function AfterComponent(s: string, verbatim: bool): (r: string)
    ensures |r| <= |s|
  {
    var n := ComponentLength(s, verbatim);
    if n < |s| then s[n + 1..] else []
  }

  /** The length of the second component of `s` (the share after the server). */
  function ShareLength(s: string, verbatim: bool): nat
  {
    ComponentLength(AfterComponent(s, verbatim), verbatim)
  }

  /** The length of "server\share" at the start of `s`; the separator and
      share only count when the share is not empty. */
  function ServerShareLength(s: string, verbatim: bool): (n: nat)
    ensures n <= |s|
  {
    var server := ComponentLength(s, verbatim);
    var share := ShareLength(s, verbatim);
    server + if share > 0 then 1 + share else 0
  }

  /** The path starts with \\?\ written with backslashes only. */
  predicate IsVerbatim(p: string)
  {
    |p| >= 4 && p[0] == '\\' && p[1] == '\\' && p[2] == '?' && p[3] == '\\'
  }

  /** After \\?\ comes UNC and a separator. */
  predicate IsVerbatimUnc(p: string)
  {
    |p| >= 8 && p[4] == 'U' && p[5] == 'N' && p[6] == 'C' && IsSep(p[7])
  }

  /** The path starts with \\.\ (either separator). */
  predicate IsDevice(p: string)
  {
    |p| >= 4 && p[2] == '.' && IsSep(p[3])
  }

  /** A verbatim drive \\?\C: ends the path or is followed by either separator. */
  predicate IsVerbatimDisk(p: string)
  {
    |p| >= 6 && IsAsciiLetter(p[4]) && p[5] == ':' && (|p| == 6 || IsSep(p[6]))
  }

  /** The length of a verbatim prefix: \\?\UNC\server\share, the drive
      \\?\C:, or \\?\x up to the next backslash. */
  function VerbatimPrefixLength(p: string): (n: nat)
    requires IsVerbatim(p)
    ensures 4 <= n <= |p|
  {
    if IsVerbatimUnc(p) then 8 + ServerShareLength(p[8..], true)
    else if IsVerbatimDisk(p) then 6
    else 4 + ComponentLength(p[4..], true)
  }

  /** The length of the Windows path prefix `p` starts with, if any: a
      verbatim UNC prefix \\?\UNC\server\share, a verbatim drive \\?\C:, a
      verbatim prefix \\?\x, a
      device prefix \\.\x, a UNC prefix \\server\share, or a drive letter C:. */
  function PrefixLength(p: string): (n: Option<nat>)
    ensures n.Some? ==> 2 <= n.value <= |p|
  {
    if |p| >= 2 && IsSep(p[0]) && IsSep(p[1]) then
      if IsVerbatim(p) then Some(VerbatimPrefixLength(p))
      else if IsDevice(p) then
        Some(4 + ComponentLength(p[4..], false))
      else if ComponentLength(p[2..], false) > 0 && ShareLength(p[2..], false) > 0 then
        Some(2 + ServerShareLength(p[2..], false))
      else
        None
    else if |p| >= 2 && IsAsciiLetter(p[0]) && p[1] == ':' then
      Some(2)
    else
      None
  }

  /** get_root_drive: the text of the path's prefix component, if it has one. */
  function GetRootDrive(path: string): (r: Option<string>)
    ensures r.Some? ==> 2 <= |r.value| && r.value <= path
    ensures r.None? <==> PrefixLength(path).None?
  {
    match PrefixLength(path)
    case Some(n) => Some(path[..n])
    case None => None
  }

  /** Drive letters are recognised; empty, relative and root-slash paths have no root. */
  lemma GetRootDriveCases(path: string)
    ensures |path| >= 2 && IsAsciiLetter(path[0]) && path[1] == ':' ==> GetRootDrive(path) == Some(path[..2])
    ensures path == [] ==> GetRootDrive(path).None?
    ensures |path| >= 1 && IsSep(path[0]) && (|path| == 1 || !IsSep(path[1])) ==> GetRootDrive(path).None?
    ensures |path| >= 1 && !IsSep(path[0]) && !IsAsciiLetter(path[0]) ==> GetRootDrive(path).None?
  {
  }

  /** Only a drive letter with its colon, or two leading separators, can
      start a root: a relative path such as docs/x has none. */
  lemma RootNeedsDriveOrTwoSeparators(path: string)
    ensures GetRootDrive(path).Some? ==>
              (|path| >= 2 && IsAsciiLetter(path[0]) && path[1] == ':')
              || (|path| >= 2 && IsSep(path[0]) && IsSep(path[1]))
    ensures |path| >= 1 && IsAsciiLetter(path[0]) && (|path| == 1 || path[1] != ':') ==> GetRootDrive(path).None?
  {
  }

  /** \\server with no share, with or without one trailing separator, has
      no root. */
  lemma ServerWithoutShareHasNoRoot(s1: char, s2: char, server: string, rest: string)
    requires IsSep(s1) && IsSep(s2)
    requires forall i :: 0 <= i < |server| ==> !IsSep(server[i])
    requires rest == [] || (|rest| == 1 && IsSep(rest[0]))
    requires rest != [] ==> server != "?" && server != "."
    ensures GetRootDrive([s1, s2] + server + rest).None?
  {
    var p := [s1, s2] + server + rest;
    assert p[2..] == server + rest;
    ComponentLengthOfJoin(server, rest, false);
    assert AfterComponent(p[2..], false) == [];
    assert |server| >= 1 ==> p[2] == server[0];
    assert |server| >= 2 ==> p[3] == server[1];
    assert server == [] && rest != [] ==> p[2] == rest[0];
    assert !IsVerbatim(p) && !IsDevice(p);
  }

  /** \\ followed by nothing or a separator names an empty server and has no
      root, whatever follows. */
  lemma EmptyServerHasNoRoot(s1: char, s2: char, rest: string)
    requires IsSep(s1) && IsSep(s2)
    requires rest == [] || IsSep(rest[0])
    ensures GetRootDrive([s1, s2] + rest).None?
  {
    var p := [s1, s2] + rest;
    assert p[2..] == rest;
    assert |p| > 2 ==> p[2] == rest[0];
    assert !IsVerbatim(p) && !IsDevice(p);
  }

  /** A component is measured the same in any extension of it that does not
      run past its terminating separator. */
  lemma ComponentLengthOfPrefix(s: string, m: nat, verbatim: bool)
    requires ComponentLength(s, verbatim) <= m <= |s|
    ensures ComponentLength(s[..m], verbatim) == ComponentLength(s, verbatim)
  {
  }

  /** Cutting a string after its first component and a part of what follows
      cuts what follows the same way. */
  lemma AfterComponentOfPrefix(s: string, m: nat, verbatim: bool)
    requires ComponentLength(s, verbatim) <= m <= |s|
    ensures ComponentLength(s[..m], verbatim) == ComponentLength(s, verbatim)
    ensures var n := ComponentLength(s, verbatim);
            AfterComponent(s[..m], verbatim) == if m == n then [] else AfterComponent(s, verbatim)[..m - n - 1]
  {
    ComponentLengthOfPrefix(s, m, verbatim);
  }

  /** Cutting a string right after "server\share" measures the same server
      and share in what is left. */
  lemma ServerShareOfPrefix(s: string, verbatim: bool)
    ensures var m := ServerShareLength(s, verbatim);
            && ComponentLength(s[..m], verbatim) == ComponentLength(s, verbatim)
            && ShareLength(s[..m], verbatim) == ShareLength(s, verbatim)
            && ServerShareLength(s[..m], verbatim) == m
  {
    var server := ComponentLength(s, verbatim);
    var rest := AfterComponent(s, verbatim);
    var share := ComponentLength(rest, verbatim);
    var m := ServerShareLength(s, verbatim);
    AfterComponentOfPrefix(s, m, verbatim);
    if share > 0 {
      ComponentLengthOfPrefix(rest, share, verbatim);
    }
  }

  /** The root of a root is itself. */
  lemma {:induction false} GetRootDriveIdempotent(path: string)
    requires GetRootDrive(path).Some?
    ensures GetRootDrive(GetRootDrive(path).value) == GetRootDrive(path)
  {
    var n := PrefixLength(path).value;
    var r := path[..n];
    assert GetRootDrive(path) == Some(r);
    assert r[..n] == r;
    if IsSep(path[0]) && IsSep(path[1]) {
      if IsVerbatim(path) {
        if IsVerbatimUnc(path) {
          VerbatimUncRootIsRoot(path);
        } else if IsVerbatimDisk(path) {
          assert IsVerbatim(r) && !IsVerbatimUnc(r) && IsVerbatimDisk(r);
        } else {
          VerbatimRootIsRoot(path);
        }
      } else if IsDevice(path) {
        DeviceRootIsRoot(path);
      } else {
        UncRootIsRoot(path);
      }
    }
  }

  lemma VerbatimUncRootIsRoot(path: string)
    requires IsVerbatim(path) && IsVerbatimUnc(path)
    ensures PrefixLength(path) == Some(8 + ServerShareLength(path[8..], true))
    ensures var n := PrefixLength(path).value; PrefixLength(path[..n]) == Some(n)
  {
    var s := path[8..];
    var m := ServerShareLength(s, true);
    var r := path[..8 + m];
    ServerShareOfPrefix(s, true);
    assert r[8..] == s[..m];
    assert IsVerbatim(r) && IsVerbatimUnc(r);
  }

  lemma VerbatimRootIsRoot(path: string)
    requires IsVerbatim(path) && !IsVerbatimUnc(path) && !IsVerbatimDisk(path)
    ensures PrefixLength(path) == Some(4 + ComponentLength(path[4..], true))
    ensures var n := PrefixLength(path).value; PrefixLength(path[..n]) == Some(n)
  {
    var s := path[4..];
    var m := ComponentLength(s, true);
    var r := path[..4 + m];
    assert r[4..] == s[..m];
    ComponentLengthOfPrefix(s, m, true);
    assert IsVerbatim(r) && !IsVerbatimUnc(r);
    assert !IsVerbatimDisk(r);
  }

  lemma DeviceRootIsRoot(path: string)
    requires |path| >= 2 && IsSep(path[0]) && IsSep(path[1]) && !IsVerbatim(path) && IsDevice(path)
    ensures PrefixLength(path) == Some(4 + ComponentLength(path[4..], false))
    ensures var n := PrefixLength(path).value; PrefixLength(path[..n]) == Some(n)
  {
    var s := path[4..];
    var m := ComponentLength(s, false);
    var r := path[..4 + m];
    assert r[..4] == path[..4];
    assert !IsVerbatim(r) && IsDevice(r);
    assert r[4..] == s[..m];
    ComponentLengthOfPrefix(s, m, false);
  }

  lemma UncRootIsRoot(path: string)
    requires UncForm(path)
    ensures PrefixLength(path) == Some(2 + ServerShareLength(path[2..], false))
    ensures var n := PrefixLength(path).value; PrefixLength(path[..n]) == Some(n)
  {
    var s := path[2..];
    var m := ServerShareLength(s, false);
    var r := path[..2 + m];
    UncPrefixLength(path);
    assert UncForm(r) && ServerShareLength(r[2..], false) == m by {
      ServerShareOfPrefix(s, false);
      assert r[2..] == s[..m];
      assert |r| >= 4 ==> r[..4] == path[..4];
    }
    UncPrefixLength(r);
    assert PrefixLength(r) == Some(2 + m);
    assert path[..PrefixLength(path).value] == r;
  }

  /** Two separators, neither verbatim nor device, then a non-empty server
      and a non-empty share. */
  predicate UncForm(p: string)
  {
    |p| >= 2 && IsSep(p[0]) && IsSep(p[1]) && !IsVerbatim(p) && !IsDevice(p)
    && ComponentLength(p[2..], false) > 0 && ShareLength(p[2..], false) > 0
  }

  lemma UncPrefixLength(p: string)
    requires UncForm(p)
    ensures PrefixLength(p) == Some(2 + ServerShareLength(p[2..], false))
  {
  }


  /** A part free of splitting characters, followed by nothing or by a
      splitting character, is measured whole as one component. */
  lemma {:induction false} ComponentLengthOfJoin(a: string, b: string, verbatim: bool)
    requires forall i :: 0 <= i < |a| ==> !SplitsAt(a[i], verbatim)
    requires b == [] || SplitsAt(b[0], verbatim)
    ensures ComponentLength(a + b, verbatim) == |a|
    ensures AfterComponent(a + b, verbatim) == if b == [] then [] else b[1..]
  {
    if a == [] {
      assert a + b == b;
    } else {
      assert (a + b)[1..] == a[1..] + b;
      ComponentLengthOfJoin(a[1..], b, verbatim);
    }
  }

  /** "server", a splitting character, a non-empty "share" and the rest:
      server and share are measured whole. */
  lemma ServerShareOfJoin(server: string, c: char, share: string, rest: string, verbatim: bool)
    requires forall i :: 0 <= i < |server| ==> !SplitsAt(server[i], verbatim)
    requires SplitsAt(c, verbatim)
    requires share != []
    requires forall i :: 0 <= i < |share| ==> !SplitsAt(share[i], verbatim)
    requires rest == [] || SplitsAt(rest[0], verbatim)
    ensures var x := server + ([c] + (share + rest));
            && ComponentLength(x, verbatim) == |server|
            && ShareLength(x, verbatim) == |share|
            && ServerShareLength(x, verbatim) == |server| + 1 + |share|
  {
    var after := share + rest;
    ComponentLengthOfJoin(server, [c] + after, verbatim);
    assert ([c] + after)[1..] == after;
    ComponentLengthOfJoin(share, rest, verbatim);
    ServerShareOfParts(server + ([c] + after), after, verbatim);
  }

  /** ServerShareLength from the measured server and the measured share. */
  lemma ServerShareOfParts(x: string, after: string, verbatim: bool)
    requires AfterComponent(x, verbatim) == after
    requires ComponentLength(after, verbatim) > 0
    ensures ShareLength(x, verbatim) == ComponentLength(after, verbatim)
    ensures ServerShareLength(x, verbatim) == ComponentLength(x, verbatim) + 1 + ComponentLength(after, verbatim)
  {
  }

  /** \\server\share: the root of a UNC path is the two separators, the
      server, a separator and the share, with what follows cut off. */
  lemma UncRoot(s1: char, s2: char, s3: char, server: string, share: string, rest: string)
    requires IsSep(s1) && IsSep(s2) && IsSep(s3)
    requires server != [] && server != "?" && server != "."
    requires forall i :: 0 <= i < |server| ==> !IsSep(server[i])
    requires share != []
    requires forall i :: 0 <= i < |share| ==> !IsSep(share[i])
    requires rest == [] || IsSep(rest[0])
    ensures GetRootDrive([s1, s2] + server + [s3] + share + rest) == Some([s1, s2] + server + [s3] + share)
  {
    var root := [s1, s2] + server + [s3] + share;
    var p := root + rest;
    assert p[2..] == server + ([s3] + (share + rest));
    ServerShareOfJoin(server, s3, share, rest, false);
    assert p[..|root|] == root;
    assert p[2] == server[0];
    assert |server| > 1 ==> p[3] == server[1];
    assert |server| == 1 ==> p[2] != '?' && p[2] != '.';
    assert !IsVerbatim(p) && !IsDevice(p);
  }

  /** \\.\name: the root of a device path is the device name. */
  lemma DeviceRoot(s1: char, s2: char, s3: char, name: string, rest: string)
    requires IsSep(s1) && IsSep(s2) && IsSep(s3)
    requires forall i :: 0 <= i < |name| ==> !IsSep(name[i])
    requires rest == [] || IsSep(rest[0])
    ensures GetRootDrive([s1, s2, '.', s3] + name + rest) == Some([s1, s2, '.', s3] + name)
  {
    var root := [s1, s2, '.', s3] + name;
    var p := root + rest;
    assert p[4..] == name + rest;
    ComponentLengthOfJoin(name, rest, false);
    assert p[..|root|] == root;
    assert !IsVerbatim(p) && IsDevice(p);
  }

  /** \\?\name: a verbatim root runs to the next backslash; a forward slash
      is part of the name. */
  lemma VerbatimRoot(name: string, rest: string)
    requires forall i :: 0 <= i < |name| ==> name[i] != '\\'
    requires rest == [] || rest[0] == '\\'
    requires !(|name| >= 3 && name[0] == 'U' && name[1] == 'N' && name[2] == 'C')
    requires !(|name| >= 2 && IsAsciiLetter(name[0]) && name[1] == ':')
    ensures GetRootDrive("\\\\?\\" + name + rest) == Some("\\\\?\\" + name)
  {
    var root := "\\\\?\\" + name;
    var t := name + rest;
    var p := root + rest;
    assert p == "\\\\?\\" + t && p[4..] == t;
    ComponentLengthOfJoin(name, rest, true);
    assert p[..|root|] == root;
    NameIsNotUncOrDrive(name, rest);
    assert IsVerbatim(p) && !IsVerbatimUnc(p) && !IsVerbatimDisk(p);
  }

  /** A verbatim name that neither starts with "UNC" nor is a drive, followed
      by a backslash or nothing, starts neither form. */
  lemma NameIsNotUncOrDrive(name: string, rest: string)
    requires rest == [] || rest[0] == '\\'
    requires !(|name| >= 3 && name[0] == 'U' && name[1] == 'N' && name[2] == 'C')
    requires !(|name| >= 2 && IsAsciiLetter(name[0]) && name[1] == ':')
    ensures var t := name + rest;
            && !(|t| >= 3 && t[0] == 'U' && t[1] == 'N' && t[2] == 'C')
            && !(|t| >= 2 && IsAsciiLetter(t[0]) && t[1] == ':')
  {
    var t := name + rest;
    assert |name| < |t| ==> t[|name|] == '\\';
    assert forall i :: 0 <= i < |name| ==> t[i] == name[i];
  }


  /** \\?\C: the root of a verbatim drive is the drive, whichever separator
      follows it. */
  lemma VerbatimDiskRoot(d: char, rest: string)
    requires IsAsciiLetter(d)
    requires rest == [] || IsSep(rest[0])
    ensures GetRootDrive("\\\\?\\" + [d, ':'] + rest) == Some("\\\\?\\" + [d, ':'])
  {
    var root := "\\\\?\\" + [d, ':'];
    var p := root + rest;
    assert p[..6] == root;
    assert IsVerbatim(p) && !IsVerbatimUnc(p) && IsVerbatimDisk(p);
  }

  /** A verbatim UNC path whose server and share are given measures both. */
  lemma VerbatimUncLength(p: string, server: string, share: string, rest: string)
    requires IsVerbatim(p) && IsVerbatimUnc(p)
    requires p[8..] == server + (['\\'] + (share + rest))
    requires forall i :: 0 <= i < |server| ==> server[i] != '\\'
    requires share != []
    requires forall i :: 0 <= i < |share| ==> share[i] != '\\'
    requires rest == [] || rest[0] == '\\'
    ensures PrefixLength(p) == Some(8 + |server| + 1 + |share|)
  {
    ServerShareOfJoin(server, '\\', share, rest, true);
  }

  /** \\?\UNC\server\share: a verbatim UNC root is the server and the share,
      each running to the next backslash. */
  lemma VerbatimUncRoot(s: char, server: string, share: string, rest: string)
    requires IsSep(s)
    requires forall i :: 0 <= i < |server| ==> server[i] != '\\'
    requires share != []
    requires forall i :: 0 <= i < |share| ==> share[i] != '\\'
    requires rest == [] || rest[0] == '\\'
    ensures GetRootDrive("\\\\?\\UNC" + [s] + server + "\\" + share + rest)
         == Some("\\\\?\\UNC" + [s] + server + "\\" + share)
  {
    var root := "\\\\?\\UNC" + [s] + server + "\\" + share;
    var p := root + rest;
    assert IsVerbatim(p) && IsVerbatimUnc(p);
    assert p[8..] == server + (['\\'] + (share + rest));
    VerbatimUncLength(p, server, share, rest);
    assert p[..|root|] == root;
  }
}
