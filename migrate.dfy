/** One run of `updateRegistryInformation` (lib/src/pnpm-lockfile-migrate.ts:58-322):
    check the scopes, back the lockfile up, read it, refresh the matched packages and
    write it back when something changed. */
module Migrate {
  import opened Wrappers
  import opened Strings
  import opened PackageKey
  import opened Resolutions
  import opened Lockfile
  import opened Backup

  /** The errors the run throws. */
  datatype Error =
    | InvalidArgument     // no scope given (lines 77-81)
    | LockfileNotFound    // no non-empty pnpm-lock.yaml (line 319)
    | LockfileParseError  // the reader returned nothing (lines 122-124)
    | LookupFailure       // some `pnpm view` failed or printed no JSON (lines 183-193)

  /** What a file holds, as far as the lockfile library can tell. */
  datatype FileState = Empty | Unreadable | Readable(doc: Document)

  /** The files of the machine, by path. */
  class Disk {
    var files: map<string, FileState>

    constructor (files: map<string, FileState>)
      ensures this.files == files
    {
      this.files := files;
    }
  }

  /** The end state of a run: what it returns or throws, and the files afterwards. */
  datatype Run = Run(result: Result<nat, Error>, files: map<string, FileState>)

  /** The files after the optional backup (lines 82-94), made before anything else
      happens to the lockfile. */
  function AfterBackup(files: map<string, FileState>, path: string, backupLockfile: bool): map<string, FileState>
  {
    if backupLockfile && path in files then files[BackupPath(path) := files[path]] else files
  }

  /** The whole run as a function of the files, the arguments and the registry. */
  function Migration(files: map<string, FileState>, dir: string, scopes: seq<string>,
                     backupLockfile: bool, lookup: Lookup): Run
  {
    if scopes == [] then Run(Failure(InvalidArgument), files)
    else
      var path := LockfilePath(dir);
      var backedUp := AfterBackup(files, path, backupLockfile);
      if path !in files || files[path] == Empty then Run(Failure(LockfileNotFound), backedUp)
      else if files[path] == Unreadable then Run(Failure(LockfileParseError), backedUp)
      else
        var doc := files[path].doc;
        var matched := MatchedPackages(doc.keys, scopes);
        if AnyLookupFailed(matched, lookup) then Run(Failure(LookupFailure), backedUp)
        else
          var count := ChangedCount(doc.packages, matched, lookup);
          var written := Readable(doc.(packages := Applied(doc.packages, matched, lookup)));
          Run(Success(count), if count > 0 then backedUp[path := written] else backedUp)
  }

  /** The lockfile found at the path is well formed, as the reader guarantees. */
  predicate ReadableWellFormed(files: map<string, FileState>, path: string)
  {
    path in files && files[path].Readable? ==> WellFormed(files[path].doc)
  }

  /** The matched packages of a well-formed document are distinct packages of it. */
  lemma MatchedOfDocument(doc: Document, scopes: seq<string>)
    requires WellFormed(doc)
    ensures Distinct(KeysOf(MatchedPackages(doc.keys, scopes)))
    ensures forall i :: 0 <= i < |MatchedPackages(doc.keys, scopes)| ==>
              MatchedPackages(doc.keys, scopes)[i].key in doc.packages
  {
    MatchedPackagesDistinct(doc.keys, scopes);
    forall i | 0 <= i < |MatchedPackages(doc.keys, scopes)|
      ensures MatchedPackages(doc.keys, scopes)[i].key in doc.packages
    {
      MatchedPackagesSound(doc.keys, scopes, i);
    }
  }

  /** What a successful run found and did. */
  lemma MigrationSucceeded(files: map<string, FileState>, dir: string, scopes: seq<string>,
                           backupLockfile: bool, lookup: Lookup)
    requires Migration(files, dir, scopes, backupLockfile, lookup).result.Success?
    ensures var path := LockfilePath(dir);
            && scopes != [] && path in files && files[path].Readable?
            && var doc := files[path].doc;
               var matched := MatchedPackages(doc.keys, scopes);
               var count := ChangedCount(doc.packages, matched, lookup);
               var backedUp := AfterBackup(files, path, backupLockfile);
               && !AnyLookupFailed(matched, lookup)
               && Migration(files, dir, scopes, backupLockfile, lookup)
                  == Run(Success(count),
                         if count > 0 then backedUp[path := Readable(doc.(packages := Applied(doc.packages, matched, lookup)))]
                         else backedUp)
  {
  }

  /** Every run's files are the files it found, the files after the backup, or those
      with the lockfile replaced. */
  lemma MigrationShape(files: map<string, FileState>, dir: string, scopes: seq<string>,
                       backupLockfile: bool, lookup: Lookup)
    ensures var run := Migration(files, dir, scopes, backupLockfile, lookup);
            var path := LockfilePath(dir);
            var backedUp := AfterBackup(files, path, backupLockfile);
            || run.files == files
            || run.files == backedUp
            || (path in run.files && run.files == backedUp[path := run.files[path]])
  {
    var path := LockfilePath(dir);
    if scopes != [] && path in files && files[path].Readable? {
      var doc := files[path].doc;
      var matched := MatchedPackages(doc.keys, scopes);
      if !AnyLookupFailed(matched, lookup) {
        var written := Readable(doc.(packages := Applied(doc.packages, matched, lookup)));
        var backedUp := AfterBackup(files, path, backupLockfile);
        assert Migration(files, dir, scopes, backupLockfile, lookup).files
               == if ChangedCount(doc.packages, matched, lookup) > 0 then backedUp[path := written] else backedUp;
      }
    }
  }

  /** A run, whatever its outcome, touches no file but the lockfile and its backup. */
  lemma MigrationFrame(files: map<string, FileState>, dir: string, scopes: seq<string>,
                       backupLockfile: bool, lookup: Lookup, f: string)
    requires f != LockfilePath(dir) && f != BackupPath(LockfilePath(dir))
    ensures var run := Migration(files, dir, scopes, backupLockfile, lookup);
            && (f in run.files <==> f in files)
            && (f in files ==> run.files[f] == files[f])
  {
    var path := LockfilePath(dir);
    var backedUp := AfterBackup(files, path, backupLockfile);
    assert (f in backedUp <==> f in files) && (f in files ==> backedUp[f] == files[f]);
    MigrationShape(files, dir, scopes, backupLockfile, lookup);
  }

  /** With `backupLockfile` and at least one scope, the backup holds the lockfile as
      the run found it, whatever happens afterwards; without the option no backup
      is made. */
  lemma MigrationBacksUp(files: map<string, FileState>, dir: string, scopes: seq<string>,
                         backupLockfile: bool, lookup: Lookup)
    requires scopes != [] && LockfilePath(dir) in files
    ensures var run := Migration(files, dir, scopes, backupLockfile, lookup);
            var backup := BackupPath(LockfilePath(dir));
            && (backupLockfile ==> backup in run.files && run.files[backup] == files[LockfilePath(dir)])
            && (!backupLockfile ==> (backup in run.files <==> backup in files))
            && (!backupLockfile && backup in files ==> run.files[backup] == files[backup])
  {
    BackupIsSibling(dir);
    var path := LockfilePath(dir);
    var backup := BackupPath(path);
    var backedUp := AfterBackup(files, path, backupLockfile);
    assert !backupLockfile ==> backedUp == files;
    assert backupLockfile ==> backup in backedUp && backedUp[backup] == files[path];
    MigrationShape(files, dir, scopes, backupLockfile, lookup);
  }

  /** A successful run rewrites the lockfile if and only if it reports a positive
      count. */
  lemma MigrationWritesIffCounted(files: map<string, FileState>, dir: string, scopes: seq<string>,
                                  backupLockfile: bool, lookup: Lookup)
    requires ReadableWellFormed(files, LockfilePath(dir))
    requires Migration(files, dir, scopes, backupLockfile, lookup).result.Success?
    ensures var run := Migration(files, dir, scopes, backupLockfile, lookup);
            var path := LockfilePath(dir);
            && path in run.files
            && (run.files[path] != files[path] <==> run.result.value > 0)
  {
    var path := LockfilePath(dir);
    MigrationSucceeded(files, dir, scopes, backupLockfile, lookup);
    BackupIsSibling(dir);
    var doc := files[path].doc;
    var matched := MatchedPackages(doc.keys, scopes);
    var count := ChangedCount(doc.packages, matched, lookup);
    var backedUp := AfterBackup(files, path, backupLockfile);
    assert path in backedUp && backedUp[path] == files[path];
    MatchedOfDocument(doc, scopes);
    ChangedCountPositiveIffModified(doc.packages, matched, lookup);
    if count > 0 {
      assert doc.(packages := Applied(doc.packages, matched, lookup)) != doc;
    }
  }

  /** A run that throws leaves the lockfile as it found it, and changes at most its
      backup; an empty scope list is refused before any file is touched. */
  lemma MigrationFailureKeepsLockfile(files: map<string, FileState>, dir: string, scopes: seq<string>,
                                      backupLockfile: bool, lookup: Lookup)
    requires Migration(files, dir, scopes, backupLockfile, lookup).result.Failure?
    ensures var run := Migration(files, dir, scopes, backupLockfile, lookup);
            var path := LockfilePath(dir);
            && (path in run.files <==> path in files)
            && (path in files ==> run.files[path] == files[path])
            && (scopes == [] <==> run.result.error == InvalidArgument)
            && (scopes == [] ==> run.files == files)
  {
    BackupIsSibling(dir);
    var path := LockfilePath(dir);
    if scopes != [] {
      var backedUp := AfterBackup(files, path, backupLockfile);
      assert path in backedUp <==> path in files;
      assert path in files ==> backedUp[path] == files[path];
      if path in files && files[path].Readable? {
        var doc := files[path].doc;
        assert AnyLookupFailed(MatchedPackages(doc.keys, scopes), lookup);
        assert Migration(files, dir, scopes, backupLockfile, lookup) == Run(Failure(LookupFailure), backedUp);
      }
    }
  }

  /** A run over a readable lockfile whose lookups all answer succeeds with the count
      of changed packages. */
  lemma MigrationOfReadable(files: map<string, FileState>, dir: string, scopes: seq<string>,
                            backupLockfile: bool, lookup: Lookup, doc: Document)
    requires scopes != []
    requires LockfilePath(dir) in files && files[LockfilePath(dir)] == Readable(doc)
    requires !AnyLookupFailed(MatchedPackages(doc.keys, scopes), lookup)
    ensures var path := LockfilePath(dir);
            var matched := MatchedPackages(doc.keys, scopes);
            var count := ChangedCount(doc.packages, matched, lookup);
            var backedUp := AfterBackup(files, path, backupLockfile);
            Migration(files, dir, scopes, backupLockfile, lookup)
            == Run(Success(count),
                   if count > 0 then backedUp[path := Readable(doc.(packages := Applied(doc.packages, matched, lookup)))]
                   else backedUp)
  {
  }

  /** A second run with the same registry answers and no backup finds nothing to do:
      it reports 0 and leaves every file as the first run left it. */
  lemma MigrationIdempotent(files: map<string, FileState>, dir: string, scopes: seq<string>,
                            backupLockfile: bool, lookup: Lookup)
    requires ReadableWellFormed(files, LockfilePath(dir))
    requires Migration(files, dir, scopes, backupLockfile, lookup).result.Success?
    ensures var first := Migration(files, dir, scopes, backupLockfile, lookup);
            Migration(first.files, dir, scopes, false, lookup) == Run(Success(0), first.files)
  {
    var path := LockfilePath(dir);
    MigrationSucceeded(files, dir, scopes, backupLockfile, lookup);
    BackupIsSibling(dir);
    var doc := files[path].doc;
    var matched := MatchedPackages(doc.keys, scopes);
    var count := ChangedCount(doc.packages, matched, lookup);
    var backedUp := AfterBackup(files, path, backupLockfile);
    assert path in backedUp && backedUp[path] == files[path];
    MatchedOfDocument(doc, scopes);
    var first := Migration(files, dir, scopes, backupLockfile, lookup);
    var doc' := if count > 0 then doc.(packages := Applied(doc.packages, matched, lookup)) else doc;
    assert path in first.files && first.files[path] == Readable(doc');
    assert ChangedCount(doc'.packages, matched, lookup) == 0 by {
      if count > 0 {
        RefreshIdempotent(doc.packages, matched, lookup);
      }
    }
    MigrationOfReadable(first.files, dir, scopes, false, lookup, doc');
  }

  /** A lockfile with one package inside the scopes and one outside them, and a
      registry that reports a new integrity for the first: the run counts one
      package and rewrites the lockfile with the first entry's integrity replaced,
      the second entry and everything else as they were. */
  lemma MigrationExample(files: map<string, FileState>, dir: string, scopes: seq<string>,
                         lookup: Lookup, doc: Document, ka: string, kb: string, x: string, y: string, z: string)
    requires Matches(Identifier(ka), scopes) && !Matches(Identifier(kb), scopes)
    requires z != "" && x != z
    requires lookup(Identifier(ka)) == Some(Metadata(Some(z), None, None, None))
    requires doc == Document([ka, kb], map[ka := IntegrityEntry(x), kb := IntegrityEntry(y)], map[])
    requires LockfilePath(dir) in files && files[LockfilePath(dir)] == Readable(doc)
    ensures Migration(files, dir, scopes, false, lookup)
            == Run(Success(1),
                   files[LockfilePath(dir) := Readable(doc.(packages := doc.packages[ka := IntegrityEntry(z)]))])
  {
    assert ka != kb;
    MatchedPackagesPair(ka, kb, scopes);
    OneIntegrityRefreshed(doc.packages, PackageInfo(ka, Identifier(ka)), lookup, x, z);
    MigrationOfReadable(files, dir, scopes, false, lookup, doc);
  }

  /** `updateRegistryInformation`: the imperative run over the disk and the in-memory
      lockfile; its end state is exactly `Migration`. */
  method UpdateRegistryInformation(disk: Disk, dir: string, scopes: seq<string>,
                                   backupLockfile: bool, lookup: Lookup)
    returns (r: Result<nat, Error>)
    requires ReadableWellFormed(disk.files, LockfilePath(dir))
    modifies disk
    ensures Run(r, disk.files) == Migration(old(disk.files), dir, scopes, backupLockfile, lookup)
  {
    if scopes == [] {
      return Failure(InvalidArgument);
    }
    var path := LockfilePath(dir);
    if backupLockfile && path in disk.files {
      disk.files := disk.files[BackupPath(path) := disk.files[path]];
    }
    BackupIsSibling(dir);
    if path !in disk.files || disk.files[path] == Empty {
      return Failure(LockfileNotFound);
    }
    if disk.files[path] == Unreadable {
      return Failure(LockfileParseError);
    }
    var lockfile := new Lockfile.Read(disk.files[path].doc);
    var matched := MatchedPackages(lockfile.keys, scopes);
    MatchedOfDocument(lockfile.Contents(), scopes);
    var count, failed := lockfile.RefreshAll(matched, lookup);
    if failed {
      return Failure(LookupFailure);
    }
    if count > 0 {
      disk.files := disk.files[path := Readable(lockfile.Contents())];
    }
    r := Success(count);
  }
}
