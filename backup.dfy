/** Where the lockfile and its backup live (lib/src/pnpm-lockfile-migrate.ts:82-94). */
module Backup {
  import opened Strings

  /** `join(dir, 'pnpm-lock.yaml')` for a directory already made absolute. */
  function LockfilePath(dir: string): string
  {
    dir + "/pnpm-lock.yaml"
  }

  /** The backup path as written, `filePath.replace('.yaml', '.bck.yaml')` (line 86):
      the FIRST `.yaml` of the whole path is replaced, even inside the directory. */
  function BackupPathAsWritten(path: string): string
  {
    ReplaceFirst(path, ".yaml", ".bck.yaml")
  }

  /** The backup path as intended: `.bck` goes in front of the file's `.yaml`
      extension, so the backup sits next to the lockfile. */
  function BackupPath(path: string): string
  {
    if EndsWith(path, ".yaml") then path[..|path| - 5] + ".bck.yaml" else path + ".bck"
  }

  /** The backup is a different file in the lockfile's own directory. */
  lemma BackupIsSibling(dir: string)
    ensures BackupPath(LockfilePath(dir)) == dir + "/pnpm-lock.bck.yaml"
    ensures BackupPath(LockfilePath(dir)) != LockfilePath(dir)
  {
    var path := LockfilePath(dir);
    assert path[|path| - 5..] == ".yaml";
    assert path[..|path| - 5] == dir + "/pnpm-lock";
    assert |BackupPath(path)| != |path|;
  }

  /** When the directory holds no `.yaml`, the first `.yaml` of the lockfile path is
      the file's extension. */
  lemma FirstYamlIsExtension(dir: string)
    requires !Contains(dir, ".yaml")
    ensures IndexOf(LockfilePath(dir), ".yaml") == |dir| + 10
  {
    var path := LockfilePath(dir);
    var d := |dir|;
    assert OccursAt(path, ".yaml", d + 10) by {
      assert path[d + 10..d + 15] == ".yaml";
    }
    forall j | 0 <= j < d + 10 ensures !OccursAt(path, ".yaml", j) {
      NoYamlBefore(dir, j);
    }
    IndexOfIs(path, ".yaml", d + 10);
  }

  /** No `.yaml` starts before the extension of the lockfile path. */
  lemma NoYamlBefore(dir: string, j: nat)
    requires !Contains(dir, ".yaml")
    requires j < |dir| + 10
    ensures !OccursAt(LockfilePath(dir), ".yaml", j)
  {
    var path := LockfilePath(dir);
    var d := |dir|;
    if j + 5 <= d {
      assert path[j..j + 5] == dir[j..j + 5];
      assert !OccursAt(dir, ".yaml", j);
    } else if j < d {
      assert path[d] == '/' && ".yaml"[d - j] != '/';
      assert j + 5 <= |path| ==> path[j..j + 5][d - j] == path[d];
    } else {
      assert path[j] == "/pnpm-lock"[j - d] && path[j] != '.';
      assert path[j..j + 5][0] == path[j];
    }
  }

  /** When the directory holds no `.yaml`, the backup path as written is the intended one. */
  lemma BackupPathAsWrittenAgrees(dir: string)
    requires !Contains(dir, ".yaml")
    ensures BackupPathAsWritten(LockfilePath(dir)) == BackupPath(LockfilePath(dir))
  {
    var path := LockfilePath(dir);
    var d := |dir|;
    FirstYamlIsExtension(dir);
    BackupIsSibling(dir);
    assert path[..d + 10] == dir + "/pnpm-lock";
    assert path[d + 15..] == [];
  }

  /** When the directory is a `.yaml`-free parent followed by `.yaml`, the first
      `.yaml` of the lockfile path is the directory's. */
  lemma FirstYamlInDirectory(parent: string)
    requires !Contains(parent, ".yaml")
    ensures IndexOf(LockfilePath(parent + ".yaml"), ".yaml") == |parent|
  {
    var path := LockfilePath(parent + ".yaml");
    var p := |parent|;
    assert OccursAt(path, ".yaml", p) by {
      assert path[p..p + 5] == ".yaml";
    }
    forall j | 0 <= j < p ensures !OccursAt(path, ".yaml", j) {
      if j + 5 <= p {
        assert path[j..j + 5] == parent[j..j + 5];
        assert !OccursAt(parent, ".yaml", j);
      } else {
        assert path[p] == '.' && ".yaml"[p - j] != '.';
        assert path[j..j + 5][p - j] == path[p];
      }
    }
    IndexOfIs(path, ".yaml", p);
  }

  /** Under a directory that ends in its only `.yaml`, the backup path as written
      puts `.bck` into the directory's name. */
  lemma BackupPathAsWrittenInDirectory(parent: string)
    requires !Contains(parent, ".yaml")
    ensures BackupPathAsWritten(LockfilePath(parent + ".yaml")) == parent + ".bck.yaml" + "/pnpm-lock.yaml"
  {
    var path := LockfilePath(parent + ".yaml");
    var p := |parent|;
    FirstYamlInDirectory(parent);
    assert path[..p] == parent;
    assert path[p + 5..] == "/pnpm-lock.yaml";
  }

  /** The intended backup stays inside the lockfile's directory. */
  lemma BackupStaysInDirectory(dir: string)
    ensures StartsWith(BackupPath(LockfilePath(dir)), dir + "/")
  {
    BackupIsSibling(dir);
    assert BackupPath(LockfilePath(dir))[..|dir + "/"|] == dir + "/";
  }

  /** `parent.bck.yaml/...` does not lie under `parent.yaml/`. */
  lemma RenamedDirectoryIsOther(parent: string)
    ensures !StartsWith(parent + ".bck.yaml" + "/pnpm-lock.yaml", parent + ".yaml/")
  {
    var p := |parent|;
    var written := parent + ".bck.yaml" + "/pnpm-lock.yaml";
    assert written[p + 1] == 'b';
    assert (parent + ".yaml/")[p + 1] == 'y';
  }

  /** A project whose directory ends in `.yaml`, such as `/srv/app.yaml`, gets its
      backup written to `/srv/app.bck.yaml/pnpm-lock.yaml`: a file in ANOTHER
      directory, instead of `/srv/app.yaml/pnpm-lock.bck.yaml`. */
  lemma BackupPathAsWrittenLeavesDirectory(parent: string)
    requires !Contains(parent, ".yaml")
    ensures BackupPathAsWritten(LockfilePath(parent + ".yaml")) == parent + ".bck.yaml" + "/pnpm-lock.yaml"
    ensures !StartsWith(BackupPathAsWritten(LockfilePath(parent + ".yaml")), parent + ".yaml/")
    ensures StartsWith(BackupPath(LockfilePath(parent + ".yaml")), parent + ".yaml/")
  {
    BackupPathAsWrittenInDirectory(parent);
    RenamedDirectoryIsOther(parent);
    BackupStaysInDirectory(parent + ".yaml");
  }
}
