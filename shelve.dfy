/** The shelf store of shelve.c. A shelf named N keeps, in the shelves
    directory of its working copy, a version pointer "N.current" (the
    decimal max_version), a revprop file "N.log" and one patch file
    "N-<version>.patch" for each version 1..max_version. The directory is a
    map from file name to content; a Shelf object is the in-memory handle
    with the fields shelve.c keeps (name, max_version, revprops). */
module Shelve {
  import opened Wrappers
  import opened Decimal
  import opened ShelfNames

  /** A file of the shelves directory. A revprop file holds the hash that
      svn_hash_write2 serialises; that encoding is another library's, so
      its content is the map itself. Every other file is plain text. */
  datatype FileData = Bytes(data: string) | PropHash(props: map<string, string>)

  type Files = map<string, FileData>

  /** The revprop that holds the shelf's log message. */
  const LogProp: string := "svn:log"

  // ---------------------------------------------------------------------
  // The on-disk state, and the effect of each operation on it

  /** shelf_read_current: no pointer file reads as 0; otherwise fscanf("%d")
      assigns the number it reads, and assigns nothing (leaving `current`)
      when the text holds none. */
  function PointerOnDisk(files: Files, name: string, current: int): int
  {
    var f := CurrentFileName(name);
    if f !in files then 0
    else match files[f]
      case Bytes(text) => ScanInt(text).GetOr(current)
      case PropHash(_) => current
  }

  /** shelf_read_revprops: no revprop file reads as no revprops; a file that
      is not a serialised hash makes svn_hash_read2 fail. */
  function RevpropsOnDisk(files: Files, name: string): Result<map<string, string>, ShelfError>
  {
    var f := LogFileName(name);
    if f !in files then Success(map[])
    else match files[f]
      case PropHash(props) => Success(props)
      case Bytes(_) => Failure(MalformedRevprops(f))
  }

  /** The patch files of versions lo..hi. */
  function PatchFiles(name: string, lo: int, hi: int): set<string>
  {
    set v: int | lo <= v <= hi :: PatchFileName(name, v)
  }

  /** get_existing_patch_abspath: the one range check every version
      accessor goes through. */
  function ExistingPatchFile(name: string, maxVersion: int, version: int): (r: Result<string, ShelfError>)
    ensures r.Success? <==> 1 <= version <= maxVersion
    ensures r.Success? ==> r.value == PatchFileName(name, version)
    ensures r.Failure? && maxVersion <= 0 ==> r.error == NoVersions(name)
    ensures r.Failure? && maxVersion > 0 ==> r.error == BadVersion(name, version, maxVersion)
  {
    if maxVersion <= 0 then Failure(NoVersions(name))
    else if version <= 0 || version > maxVersion then Failure(BadVersion(name, version, maxVersion))
    else Success(PatchFileName(name, version))
  }

  /** Every version the pointer calls valid has its patch file. */
  ghost predicate Consistent(files: Files, name: string, maxVersion: int)
  {
    forall v :: 1 <= v <= maxVersion ==> PatchFileName(name, v) in files
  }

  /** What an operation leaves behind: its error, the directory, max_version. */
  datatype Step = Step(err: Option<ShelfError>, files: Files, maxVersion: int)

  /** The loop shared by set_current_version and delete: remove the patch
      files of max_version down to version + 1, each through the range
      check (an absent file is no error), stopping at the first refusal. */
  function DeleteNewerSpec(name: string, files: Files, maxVersion: int, version: int): (Option<ShelfError>, Files)
  {
    if version >= maxVersion then (None, files)
    else if maxVersion <= 0 then (Some(NoVersions(name)), files)
    else if version < 0 then
      // versions max_version..1 go, then the range check refuses version 0
      (Some(BadVersion(name, 0, maxVersion)), files - PatchFiles(name, 1, maxVersion))
    else (None, files - PatchFiles(name, version + 1, maxVersion))
  }

  /** svn_client_shelf_set_current_version: delete the newer patch files,
      then set and write the pointer. */
  function SetCurrentVersionSpec(name: string, files: Files, maxVersion: int, version: int): Step
  {
    var (err, remaining) := DeleteNewerSpec(name, files, maxVersion, version);
    if err.Some? then Step(err, remaining, maxVersion)
    else Step(None, remaining[CurrentFileName(name) := Bytes(FormatInt(version))], version)
  }

  /** What the diff engine wrote into the new patch file before it
      finished, and the error it stopped with, if any. */
  datatype DiffOutput = DiffOutput(written: string, failure: Option<ShelfError>)

  /** svn_client_shelf_save_new_version: write the patch of version
      max_version + 1, and publish it only when it is not empty. */
  function SaveNewVersionSpec(name: string, files: Files, maxVersion: int, diff: DiffOutput): Step
  {
    var next := maxVersion + 1;
    var written := files[PatchFileName(name, next) := Bytes(diff.written)];
    if diff.failure.Some? then Step(diff.failure, written, maxVersion)
    else if |diff.written| > 0 then SetCurrentVersionSpec(name, written, maxVersion, next)
    else Step(None, written, maxVersion)
  }

  /** svn_client_shelf_delete: open the shelf, delete its patch files from
      max_version down to 1, then its revprop and pointer files; absent
      files are no error. */
  function DeleteSpec(name: string, files: Files): (Option<ShelfError>, Files)
  {
    if !ValidName(name) then (Some(BadName(name)), files)
    else match RevpropsOnDisk(files, name)
      case Failure(e) => (Some(e), files)
      case Success(_) =>
        var (err, remaining) := DeleteNewerSpec(name, files, PointerOnDisk(files, name, 0), 0);
        if err.Some? then (err, remaining)
        else (None, remaining - {LogFileName(name), CurrentFileName(name)})
  }

  /** The shelves svn_client_shelves_list reports for a directory. */
  function ListSpec(files: Files): set<string>
  {
    set f | f in files && ShelfOfEntry(f).Some? :: ShelfOfEntry(f).value
  }

  // ---------------------------------------------------------------------
  // Lemmas about the specification

  lemma PatchFilesMember(name: string, lo: int, hi: int, v: int)
    ensures PatchFileName(name, v) in PatchFiles(name, lo, hi) <==> lo <= v <= hi
  {
    if PatchFileName(name, v) in PatchFiles(name, lo, hi) {
      var w :| lo <= w <= hi && PatchFileName(name, w) == PatchFileName(name, v);
      PatchFileNameInjective(name, v, w);
    }
  }

  lemma PatchFilesNotOther(name: string, lo: int, hi: int)
    ensures LogFileName(name) !in PatchFiles(name, lo, hi)
    ensures CurrentFileName(name) !in PatchFiles(name, lo, hi)
  {
    forall v | lo <= v <= hi
      ensures PatchFileName(name, v) != LogFileName(name) && PatchFileName(name, v) != CurrentFileName(name)
    {
      FileKindsDistinct(name, name, v);
    }
  }

  lemma PatchFilesSplit(name: string, lo: int, hi: int)
    requires lo <= hi
    ensures PatchFiles(name, lo, hi) == PatchFiles(name, lo + 1, hi) + {PatchFileName(name, lo)}
  {
  }

  /** One step of a descending deletion loop. */
  lemma DeleteStep(files: Files, name: string, i: int, hi: int)
    requires i <= hi
    ensures (files - PatchFiles(name, i + 1, hi)) - {PatchFileName(name, i)} == files - PatchFiles(name, i, hi)
  {
    PatchFilesSplit(name, i, hi);
  }

  lemma PatchFilesEmpty(name: string, lo: int, hi: int)
    requires lo > hi
    ensures PatchFiles(name, lo, hi) == {}
  {
  }

  /** Whatever was the pointer value before, the pointer file written for v reads back as v. */
  lemma PointerRoundTrip(files: Files, name: string, v: int, current: int)
    ensures PointerOnDisk(files[CurrentFileName(name) := Bytes(FormatInt(v))], name, current) == v
  {
    ScanFormatted(v, 0);
  }

  /** Rolling back to v >= 0 removes exactly the patch files v+1..max_version,
      leaves every other patch file as it was, and leaves the pointer at v,
      after which the range check refuses every version above v. */
  lemma RollbackRemovesOnlyNewer(name: string, files: Files, maxVersion: int, v: int)
    requires 0 <= v || maxVersion <= v
    ensures var r := SetCurrentVersionSpec(name, files, maxVersion, v);
      && r.err.None? && r.maxVersion == v
      && PointerOnDisk(r.files, name, maxVersion) == v
      && (forall j :: v < j <= maxVersion ==> PatchFileName(name, j) !in r.files)
      && (forall j :: !(v < j <= maxVersion) && PatchFileName(name, j) in files ==>
            PatchFileName(name, j) in r.files && r.files[PatchFileName(name, j)] == files[PatchFileName(name, j)])
      && (forall j :: !(v < j <= maxVersion) && PatchFileName(name, j) !in files ==> PatchFileName(name, j) !in r.files)
      && (forall j :: j > v ==> ExistingPatchFile(name, r.maxVersion, j).Failure?)
  {
    var r := SetCurrentVersionSpec(name, files, maxVersion, v);
    PointerRoundTrip(if v >= maxVersion then files else files - PatchFiles(name, v + 1, maxVersion), name, v, maxVersion);
    forall j ensures PatchFileName(name, j) != CurrentFileName(name) {
      FileKindsDistinct(name, name, j);
    }
    forall j ensures PatchFileName(name, j) in PatchFiles(name, v + 1, maxVersion) <==> v < j <= maxVersion {
      PatchFilesMember(name, v + 1, maxVersion, j);
    }
  }

  /** A negative version is refused only after max_version..1 are deleted:
      the pointer keeps max_version, which no longer has its patch files. */
  lemma NegativeVersionLeavesDanglingPointer(name: string, files: Files, maxVersion: int, v: int)
    requires v < 0 < maxVersion
    ensures var r := SetCurrentVersionSpec(name, files, maxVersion, v);
      && r.err == Some(BadVersion(name, 0, maxVersion)) && r.maxVersion == maxVersion
      && !Consistent(r.files, name, r.maxVersion)
  {
    var r := SetCurrentVersionSpec(name, files, maxVersion, v);
    PatchFilesMember(name, 1, maxVersion, 1);
    assert PatchFileName(name, 1) !in r.files;
  }

  /** Rollback to a version that has its patch files, and publishing the
      next version once its patch file is written, keep the store consistent. */
  lemma SetCurrentVersionKeepsConsistent(name: string, files: Files, maxVersion: int, v: int)
    requires Consistent(files, name, maxVersion)
    requires 0 <= v <= maxVersion || (v == maxVersion + 1 && PatchFileName(name, v) in files)
    ensures var r := SetCurrentVersionSpec(name, files, maxVersion, v);
      r.err.None? && Consistent(r.files, name, r.maxVersion)
  {
    var r := SetCurrentVersionSpec(name, files, maxVersion, v);
    forall j | 1 <= j <= v ensures PatchFileName(name, j) in r.files {
      PatchFilesMember(name, v + 1, maxVersion, j);
    }
  }

  /** A diff with content is published as version max_version + 1: every
      earlier patch file stays as it was and the pointer reads the new version. */
  lemma SaveNewVersionPublishes(name: string, files: Files, maxVersion: int, diff: DiffOutput)
    requires diff.failure.None? && |diff.written| > 0
    ensures var r := SaveNewVersionSpec(name, files, maxVersion, diff);
      && r.err.None? && r.maxVersion == maxVersion + 1
      && PointerOnDisk(r.files, name, maxVersion) == maxVersion + 1
      && r.files[PatchFileName(name, maxVersion + 1)] == Bytes(diff.written)
      && (forall j :: j != maxVersion + 1 && PatchFileName(name, j) in files ==>
            PatchFileName(name, j) in r.files && r.files[PatchFileName(name, j)] == files[PatchFileName(name, j)])
  {
    var next := maxVersion + 1;
    var written := files[PatchFileName(name, next) := Bytes(diff.written)];
    RollbackRemovesOnlyNewer(name, written, maxVersion, next);
    forall j | j != next ensures PatchFileName(name, j) != PatchFileName(name, next) {
      if PatchFileName(name, j) == PatchFileName(name, next) { PatchFileNameInjective(name, j, next); }
    }
  }

  /** An empty diff is not published: max_version and the pointer file stay,
      and the empty patch file is left in the directory. */
  lemma SaveNewVersionEmptyKeepsVersion(name: string, files: Files, maxVersion: int, diff: DiffOutput)
    requires diff.failure.None? && diff.written == ""
    ensures var r := SaveNewVersionSpec(name, files, maxVersion, diff);
      && r.err.None? && r.maxVersion == maxVersion
      && r.files == files[PatchFileName(name, maxVersion + 1) := Bytes("")]
      && PointerOnDisk(r.files, name, maxVersion) == PointerOnDisk(files, name, maxVersion)
  {
    FileKindsDistinct(name, name, maxVersion + 1);
  }

  lemma SaveNewVersionKeepsConsistent(name: string, files: Files, maxVersion: int, diff: DiffOutput)
    requires Consistent(files, name, maxVersion)
    ensures var r := SaveNewVersionSpec(name, files, maxVersion, diff);
      Consistent(r.files, name, r.maxVersion)
  {
    var next := maxVersion + 1;
    var written := files[PatchFileName(name, next) := Bytes(diff.written)];
    assert Consistent(written, name, maxVersion);
    if diff.failure.None? && |diff.written| > 0 {
      SetCurrentVersionKeepsConsistent(name, written, maxVersion, next);
    }
  }

  /** Deleting a shelf whose files are all gone changes nothing. */
  lemma DeleteAbsentShelfIsNoOp(name: string, files: Files)
    requires ValidName(name)
    requires LogFileName(name) !in files && CurrentFileName(name) !in files
    ensures DeleteSpec(name, files) == (None, files)
  {
    assert PointerOnDisk(files, name, 0) == 0;
    assert DeleteNewerSpec(name, files, 0, 0) == (None, files);
    assert files - {LogFileName(name), CurrentFileName(name)} == files;
  }

  /** Delete can be repeated: a second delete succeeds and changes nothing,
      and the shelf is no longer listed. */
  lemma DeleteIdempotent(name: string, files: Files)
    requires DeleteSpec(name, files).0.None?
    ensures var after := DeleteSpec(name, files).1;
      DeleteSpec(name, after) == (None, after) && name !in ListSpec(after)
  {
    var after := DeleteSpec(name, files).1;
    DeleteAbsentShelfIsNoOp(name, after);
    ListedIffPointer(after, name);
  }

  /** A shelf is listed exactly when its pointer file exists. */
  lemma ListedIffPointer(files: Files, name: string)
    ensures name in ListSpec(files) <==> CurrentFileName(name) in files
  {
    ShelfOfPointerFile(name);
    if name in ListSpec(files) {
      var f :| f in files && ShelfOfEntry(f) == Some(name);
      OnlyPointerFilesNameShelves(f, name);
    }
  }

  // ---------------------------------------------------------------------
  // The handles

  /** The shelves directory of a working copy. */
  class ShelvesDir {
    var files: Files

    constructor (files: Files)
      ensures this.files == files
    {
      this.files := files;
    }

    /** Create or truncate a file and write data into it. */
    method WriteFile(filename: string, data: FileData)
      modifies this
      ensures files == old(files)[filename := data]
    {
      files := files[filename := data];
    }

    /** svn_io_remove_file2 with ignore_enoent: an absent file is no error. */
    method RemoveFile(filename: string)
      modifies this
      ensures files == old(files) - {filename}
    {
      files := files - {filename};
    }
  }

  /** A patch collaborator's verdict for (patch file, reverse, dry run). */
  type Patcher = (string, bool, bool) -> Option<ShelfError>

  /** Where the log message comes from: no callback configured, a message,
      a callback that withdraws (returns NULL), or one that fails. */
  datatype LogMessageSource = NoLogMessageFunc | Message(text: string) | Withdrawn | LogMessageFailed(error: ShelfError)

  /** What svn_client_shelf_version_get_info reports: the patch file, and
      whether it exists (a null modification time when it does not). */
  datatype VersionInfo = VersionInfo(patchFile: string, present: bool)

  /** svn_client_shelf_t: an open shelf. */
  class Shelf {
    const name: string
    const dir: ShelvesDir
    var maxVersion: int
    var revprops: map<string, string>

    /** The fresh handle of svn_client_shelf_open, before anything is read. */
    constructor (name: string, dir: ShelvesDir)
      ensures this.name == name && this.dir == dir
      ensures maxVersion == 0 && revprops == map[]
    {
      this.name := name;
      this.dir := dir;
      maxVersion := 0;
      revprops := map[];
    }

    /** svn_client_shelf_open: validate the name, then read revprops and pointer. */
    static method Open(name: string, dir: ShelvesDir) returns (r: Result<Shelf, ShelfError>)
      ensures r.Failure? <==> !ValidName(name) || RevpropsOnDisk(dir.files, name).Failure?
      ensures !ValidName(name) ==> r == Failure(BadName(name))
      ensures ValidName(name) && r.Failure? ==> r.error == RevpropsOnDisk(dir.files, name).error
      ensures r.Success? ==>
        && fresh(r.value) && r.value.name == name && r.value.dir == dir
        && r.value.revprops == RevpropsOnDisk(dir.files, name).value
        && r.value.maxVersion == PointerOnDisk(dir.files, name, 0)
    {
      var invalid := ValidateName(name);
      if invalid.Some? {
        return Failure(invalid.value);
      }
      var shelf := new Shelf(name, dir);
      var err := shelf.ReadRevprops();
      if err.Some? {
        return Failure(err.value);
      }
      shelf.ReadCurrent();
      return Success(shelf);
    }

    /** shelf_read_revprops */
    method ReadRevprops() returns (err: Option<ShelfError>)
      modifies this
      ensures maxVersion == old(maxVersion)
      ensures RevpropsOnDisk(dir.files, name).Success? ==> err.None? && revprops == RevpropsOnDisk(dir.files, name).value
      ensures RevpropsOnDisk(dir.files, name).Failure? ==> err == Some(RevpropsOnDisk(dir.files, name).error) && revprops == map[]
    {
      var f := LogFileName(name);
      revprops := map[];
      if f !in dir.files {
        return None;
      }
      match dir.files[f]
      case PropHash(props) =>
        revprops := props;
        return None;
      case Bytes(_) =>
        return Some(MalformedRevprops(f));
    }

    /** shelf_write_revprops: the whole map replaces the revprop file. */
    method WriteRevprops()
      modifies dir
      ensures dir.files == old(dir.files)[LogFileName(name) := PropHash(revprops)]
      ensures RevpropsOnDisk(dir.files, name) == Success(revprops)
    {
      dir.WriteFile(LogFileName(name), PropHash(revprops));
    }

    /** shelf_read_current */
    method ReadCurrent()
      modifies this
      ensures maxVersion == PointerOnDisk(dir.files, name, old(maxVersion))
      ensures revprops == old(revprops)
    {
      var f := CurrentFileName(name);
      if f !in dir.files {
        maxVersion := 0;
        return;
      }
      match dir.files[f]
      case Bytes(text) =>
        var scanned := ScanInt(text);
        if scanned.Some? {
          maxVersion := scanned.value;
        }
      case PropHash(_) =>
    }

    /** shelf_write_current: the pointer file holds max_version as "%d". */
    method WriteCurrent()
      modifies dir
      ensures dir.files == old(dir.files)[CurrentFileName(name) := Bytes(FormatInt(maxVersion))]
      ensures PointerOnDisk(dir.files, name, 0) == maxVersion
    {
      dir.WriteFile(CurrentFileName(name), Bytes(FormatInt(maxVersion)));
      PointerRoundTrip(old(dir.files), name, maxVersion, 0);
    }

    /** svn_client__shelf_revprop_set: set one revprop and rewrite the file. */
    method RevpropSet(propName: string, value: string)
      modifies this, dir
      ensures maxVersion == old(maxVersion)
      ensures revprops == old(revprops)[propName := value]
      ensures RevpropGet(propName) == Some(value)
      ensures dir.files == old(dir.files)[LogFileName(name) := PropHash(revprops)]
      ensures RevpropsOnDisk(dir.files, name) == Success(revprops)
    {
      revprops := revprops[propName := value];
      WriteRevprops();
    }

    /** svn_client__shelf_revprop_get */
    function RevpropGet(propName: string): (r: Option<string>)
      reads this
      ensures r.Some? <==> propName in revprops
      ensures r.Some? ==> r.value == revprops[propName]
    {
      if propName in revprops then Some(revprops[propName]) else None
    }

    /** svn_client_shelf_get_log_message: "" when there is no svn:log. */
    function GetLogMessage(): (message: string)
      reads this
      ensures LogProp !in revprops ==> message == ""
      ensures LogProp in revprops ==> message == revprops[LogProp]
    {
      RevpropGet(LogProp).GetOr("")
    }

    /** svn_client_shelf_set_log_message */
    method SetLogMessage(dryRun: bool, source: LogMessageSource) returns (err: Option<ShelfError>)
      modifies this, dir
      ensures maxVersion == old(maxVersion)
      ensures source.LogMessageFailed? ==> err == Some(source.error)
      ensures !source.LogMessageFailed? ==> err.None?
      ensures source.LogMessageFailed? || source.Withdrawn? || dryRun ==>
        revprops == old(revprops) && dir.files == old(dir.files)
      ensures (source.NoLogMessageFunc? || source.Message?) && !dryRun ==>
        && revprops == old(revprops)[LogProp := if source.Message? then source.text else ""]
        && GetLogMessage() == (if source.Message? then source.text else "")
        && RevpropsOnDisk(dir.files, name) == Success(revprops)
        && dir.files == old(dir.files)[LogFileName(name) := PropHash(revprops)]
    {
      var message := "";
      if source.LogMessageFailed? {
        return Some(source.error);
      } else if source.Withdrawn? {
        return None;
      } else if source.Message? {
        message := source.text;
      }
      if !dryRun {
        RevpropSet(LogProp, message);
      }
      return None;
    }

    /** shelf_delete_patch_file: range-checked, absent file no error. */
    method DeletePatchFile(version: int) returns (err: Option<ShelfError>)
      modifies dir
      ensures ExistingPatchFile(name, maxVersion, version).Failure? ==>
        err == Some(ExistingPatchFile(name, maxVersion, version).error) && dir.files == old(dir.files)
      ensures ExistingPatchFile(name, maxVersion, version).Success? ==>
        err.None? && dir.files == old(dir.files) - {PatchFileName(name, version)}
    {
      var f := ExistingPatchFile(name, maxVersion, version);
      if f.Failure? {
        return Some(f.error);
      }
      dir.RemoveFile(f.value);
      return None;
    }

    /** The descending deletion loop of set_current_version and delete. */
    method DeleteNewerThan(version: int) returns (err: Option<ShelfError>)
      modifies dir
      ensures (err, dir.files) == DeleteNewerSpec(name, old(dir.files), maxVersion, version)
    {
      ghost var files0 := dir.files;
      var i := maxVersion;
      PatchFilesEmpty(name, maxVersion + 1, maxVersion);
      while i > version
        invariant version < maxVersion ==> version <= i <= maxVersion
        invariant version >= maxVersion ==> i == maxVersion
        invariant i >= 0 || i == maxVersion
        invariant dir.files == files0 - PatchFiles(name, i + 1, maxVersion)
      {
        err := DeletePatchFile(i);
        if err.Some? {
          return;
        }
        DeleteStep(files0, name, i, maxVersion);
        i := i - 1;
      }
      return None;
    }

    /** svn_client_shelf_set_current_version */
    method SetCurrentVersion(version: int) returns (err: Option<ShelfError>)
      modifies this, dir
      ensures Step(err, dir.files, maxVersion) == SetCurrentVersionSpec(name, old(dir.files), old(maxVersion), version)
      ensures revprops == old(revprops)
    {
      err := DeleteNewerThan(version);
      if err.Some? {
        return;
      }
      maxVersion := version;
      WriteCurrent();
    }

    /** svn_client_shelf_save_new_version, with the diff engine's output given. */
    method SaveNewVersion(diff: DiffOutput) returns (err: Option<ShelfError>)
      modifies this, dir
      ensures Step(err, dir.files, maxVersion) == SaveNewVersionSpec(name, old(dir.files), old(maxVersion), diff)
      ensures revprops == old(revprops)
    {
      var next := maxVersion + 1;
      dir.WriteFile(PatchFileName(name, next), Bytes(diff.written));
      if diff.failure.Some? {
        return diff.failure;
      }
      if |diff.written| > 0 {
        err := SetCurrentVersion(next);
      } else {
        err := None;
      }
    }

    /** svn_client_shelf_get_paths, with the patch parser given: the
      old-path to new-path map of every patch in the file. */
    method GetPaths(version: int, parser: FileData -> Result<map<string, string>, ShelfError>)
      returns (r: Result<map<string, string>, ShelfError>)
      ensures !(1 <= version <= maxVersion) ==> r == Failure(ExistingPatchFile(name, maxVersion, version).error)
      ensures 1 <= version <= maxVersion && PatchFileName(name, version) !in dir.files ==>
        r == Failure(NotFound(PatchFileName(name, version)))
      ensures 1 <= version <= maxVersion && PatchFileName(name, version) in dir.files ==>
        r == parser(dir.files[PatchFileName(name, version)])
    {
      var f := ExistingPatchFile(name, maxVersion, version);
      if f.Failure? {
        return Failure(f.error);
      }
      if f.value !in dir.files {
        return Failure(NotFound(f.value));
      }
      r := parser(dir.files[f.value]);
    }

    /** svn_client_shelf_has_changes: the patch touches at least one path. */
    method HasChanges(version: int, parser: FileData -> Result<map<string, string>, ShelfError>)
      returns (r: Result<bool, ShelfError>)
      ensures !(1 <= version <= maxVersion) ==> r == Failure(ExistingPatchFile(name, maxVersion, version).error)
      ensures 1 <= version <= maxVersion && PatchFileName(name, version) !in dir.files ==>
        r == Failure(NotFound(PatchFileName(name, version)))
      ensures 1 <= version <= maxVersion && PatchFileName(name, version) in dir.files ==>
        match parser(dir.files[PatchFileName(name, version)])
        case Success(paths) => r == Success(|paths| != 0)
        case Failure(e) => r == Failure(e)
    {
      var paths := GetPaths(version, parser);
      if paths.Failure? {
        return Failure(paths.error);
      }
      return Success(|paths.value| != 0);
    }

    /** svn_client_shelf_apply: the patch engine, forward. */
    method Apply(version: int, dryRun: bool, patcher: Patcher) returns (err: Option<ShelfError>)
      ensures !(1 <= version <= maxVersion) ==> err == Some(ExistingPatchFile(name, maxVersion, version).error)
      ensures 1 <= version <= maxVersion ==> err == patcher(PatchFileName(name, version), false, dryRun)
    {
      var f := ExistingPatchFile(name, maxVersion, version);
      if f.Failure? {
        return Some(f.error);
      }
      err := patcher(f.value, false, dryRun);
    }

    /** svn_client_shelf_unapply: the patch engine, in reverse. */
    method Unapply(version: int, dryRun: bool, patcher: Patcher) returns (err: Option<ShelfError>)
      ensures !(1 <= version <= maxVersion) ==> err == Some(ExistingPatchFile(name, maxVersion, version).error)
      ensures 1 <= version <= maxVersion ==> err == patcher(PatchFileName(name, version), true, dryRun)
    {
      var f := ExistingPatchFile(name, maxVersion, version);
      if f.Failure? {
        return Some(f.error);
      }
      err := patcher(f.value, true, dryRun);
    }

    /** svn_client_shelf_export_patch: the patch file's content, uninterpreted. */
    method ExportPatch(version: int) returns (r: Result<FileData, ShelfError>)
      ensures !(1 <= version <= maxVersion) ==> r == Failure(ExistingPatchFile(name, maxVersion, version).error)
      ensures 1 <= version <= maxVersion && PatchFileName(name, version) !in dir.files ==>
        r == Failure(NotFound(PatchFileName(name, version)))
      ensures 1 <= version <= maxVersion && PatchFileName(name, version) in dir.files ==>
        r == Success(dir.files[PatchFileName(name, version)])
    {
      var f := ExistingPatchFile(name, maxVersion, version);
      if f.Failure? {
        return Failure(f.error);
      }
      if f.value !in dir.files {
        return Failure(NotFound(f.value));
      }
      return Success(dir.files[f.value]);
    }

    /** svn_client_shelf_version_get_info: an absent patch file is no error. */
    method VersionGetInfo(version: int) returns (r: Result<VersionInfo, ShelfError>)
      ensures !(1 <= version <= maxVersion) ==> r == Failure(ExistingPatchFile(name, maxVersion, version).error)
      ensures 1 <= version <= maxVersion ==>
        r == Success(VersionInfo(PatchFileName(name, version), PatchFileName(name, version) in dir.files))
    {
      var f := ExistingPatchFile(name, maxVersion, version);
      if f.Failure? {
        return Failure(f.error);
      }
      return Success(VersionInfo(f.value, f.value in dir.files));
    }
  }

  /** svn_client_shelf_delete. Its dry_run flag is not consulted. */
  method Delete(name: string, dir: ShelvesDir, dryRun: bool) returns (err: Option<ShelfError>)
    modifies dir
    ensures (err, dir.files) == DeleteSpec(name, old(dir.files))
  {
    var invalid := ValidateName(name);
    if invalid.Some? {
      return invalid;
    }
    var opening := Shelf.Open(name, dir);
    if opening.Failure? {
      return Some(opening.error);
    }
    var shelf := opening.value;
    err := shelf.DeleteNewerThan(0);
    if err.Some? {
      return;
    }
    ghost var remaining := dir.files;
    dir.RemoveFile(LogFileName(name));
    dir.RemoveFile(CurrentFileName(name));
    assert dir.files == remaining - {LogFileName(name), CurrentFileName(name)};
  }

  /** svn_client_shelves_list: the shelves whose pointer files the
      directory holds (their modification times are not kept). */
  method ListShelves(dir: ShelvesDir) returns (names: set<string>)
    ensures forall n :: n in names <==> CurrentFileName(n) in dir.files
    ensures names == ListSpec(dir.files)
  {
    names := {};
    var todo := dir.files.Keys;
    while todo != {}
      invariant todo <= dir.files.Keys
      invariant forall n :: n in names <==> CurrentFileName(n) in dir.files && CurrentFileName(n) !in todo
    {
      var f :| f in todo;
      todo := todo - {f};
      match ShelfOfEntry(f)
      case Some(n) =>
        OnlyPointerFilesNameShelves(f, n);
        names := names + {n};
      case None =>
        forall n | CurrentFileName(n) == f ensures false {
          ShelfOfPointerFile(n);
        }
    }
    forall n ensures n in names <==> n in ListSpec(dir.files) {
      ListedIffPointer(dir.files, n);
    }
  }

  /** svn_client_shelves_any */
  method AnyShelves(dir: ShelvesDir) returns (any: bool)
    ensures any <==> exists n :: CurrentFileName(n) in dir.files
  {
    var names := ListShelves(dir);
    any := |names| != 0;
    if any {
      var n :| n in names;
    }
  }
}
