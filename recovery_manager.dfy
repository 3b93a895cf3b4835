/** Recovery manifest validation (src-tauri/src/recovery_manager.rs). A
    manifest is a JSON array of string arrays; the files that could hold one
    are a map from path to Document. */
module RecoveryManager {
  import opened Structs

  type Manifest = seq<seq<string>>
  type ManifestFiles = map<string, Document<Manifest>>

  const ValidMessage: string := "Valid"
  const EntryLengthError: string := "Error: Each entry in the recovery file must contain exactly two string elements."
  const FormatError: string := "Error: Recovery file is not JSON or not in the correct format."

  /** The path with every backslash turned into a forward slash. */
  function NormalizeSlashes(path: string): (r: string)
    ensures |r| == |path|
    ensures forall i :: 0 <= i < |path| ==> r[i] == if path[i] == '\\' then '/' else path[i]
    ensures '\\' !in r
  {
    if path == [] then []
    else [if path[0] == '\\' then '/' else path[0]] + NormalizeSlashes(path[1..])
  }

  /** The scan over the entries: stops at the first entry whose length is not two. */
  function AllEntriesArePairs(entries: Manifest): (ok: bool)
    ensures ok <==> forall i :: 0 <= i < |entries| ==> |entries[i]| == 2
  {
    if entries == [] then true
    else if |entries[0]| != 2 then false
    else AllEntriesArePairs(entries[1..])
  }

  /** What reading the manifest at `path` yields. */
  function ReadManifest(files: ManifestFiles, path: string): Document<Manifest>
  {
    if path in files then files[path] else Absent
  }

  /** verify_recovery_file: reads the manifest under the normalized path and
      reports "Valid", the entry-length error, or the format error. */
  function VerifyRecoveryFile(files: ManifestFiles, path: string): (r: string)
    ensures var doc := ReadManifest(files, NormalizeSlashes(path));
            && (r == ValidMessage <==> doc.Parsed? && forall i :: 0 <= i < |doc.value| ==> |doc.value[i]| == 2)
            && (r == FormatError <==> !doc.Parsed?)
            && (r == EntryLengthError <==> doc.Parsed? && exists i :: 0 <= i < |doc.value| && |doc.value[i]| != 2)
  {
    match ReadManifest(files, NormalizeSlashes(path))
    case Parsed(entries) => if AllEntriesArePairs(entries) then ValidMessage else EntryLengthError
    case _ => FormatError
  }

  /** An empty manifest is valid. */
  lemma EmptyManifestIsValid(files: ManifestFiles, path: string)
    requires ReadManifest(files, NormalizeSlashes(path)) == Parsed([])
    ensures VerifyRecoveryFile(files, path) == ValidMessage
  {
  }

  /** Only the length of an entry is checked: pairs of empty strings pass. */
  lemma EmptyStringsAccepted(files: ManifestFiles, path: string, n: nat)
    requires ReadManifest(files, NormalizeSlashes(path)) == Parsed(seq(n, _ => ["", ""]))
    ensures VerifyRecoveryFile(files, path) == ValidMessage
  {
  }

  /** Backslash and slash spellings of a path name the same manifest. */
  lemma {:induction false} SeparatorSpellingIrrelevant(files: ManifestFiles, p: string, q: string)
    requires |p| == |q|
    requires forall i :: 0 <= i < |p| ==> p[i] == q[i] || (p[i] in "\\/" && q[i] in "\\/")
    ensures VerifyRecoveryFile(files, p) == VerifyRecoveryFile(files, q)
  {
    assert NormalizeSlashes(p) == NormalizeSlashes(q);
  }

  /** Normalizing is idempotent. */
  lemma {:induction false} NormalizeSlashesIdempotent(path: string)
    ensures NormalizeSlashes(NormalizeSlashes(path)) == NormalizeSlashes(path)
  {
    var r := NormalizeSlashes(path);
    assert forall i :: 0 <= i < |r| ==> r[i] != '\\';
  }
}
