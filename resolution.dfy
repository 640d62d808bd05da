/** The field-level comparison of a lockfile resolution with the registry's metadata
    (lib/src/pnpm-lockfile-migrate.ts:25-41, 210-283). The source's `type` field is
    called `kind` here, `type` being a Dafny keyword. */
module Resolutions {
  import opened Wrappers

  /** A package's `resolution` record: the three fields the migration may rewrite, each
      absent (`undefined`) or a string, and the record's other fields (`directory`,
      `repo`, `commit`, ...), which it never touches. */
  datatype Resolution = Resolution(
    integrity: Option<string>,
    tarball: Option<string>,
    kind: Option<string>,
    other: map<string, string>)

  /** What `pnpm view <name@version> dist --json` reports: `result.integrity`,
      `result.tarball`, `result.type` and `result.resolution`, each possibly absent. */
  datatype Metadata = Metadata(
    integrity: Option<string>,
    tarball: Option<string>,
    kind: Option<string>,
    resolution: Option<string>)

  /** `isResolutionWithIntegrity`: the field is `!== undefined` (lines 25-29). */
  predicate HasIntegrity(r: Resolution) { r.integrity.Some? }

  /** `isResolutionWithTarball` (lines 31-35). */
  predicate HasTarball(r: Resolution) { r.tarball.Some? }

  /** `isResolutionWithType` (lines 37-41). */
  predicate HasType(r: Resolution) { r.kind.Some? }

  /** JavaScript truthiness of a possibly absent string: present and not "". */
  predicate Truthy(v: Option<string>) { v.Some? && v.value != "" }

  /** `!['directory', 'git'].includes(result?.resolution)` (line 262). */
  predicate TypeRewritable(m: Metadata)
  {
    m.resolution != Some("directory") && m.resolution != Some("git")
  }

  /** The rule shared by the three fields: a present field that is `!==` the
      registry's value is set to that value when it is truthy and deleted otherwise. */
  function Refreshed(current: Option<string>, latest: Option<string>): (r: Option<string>)
    ensures current.None? ==> r.None?
    ensures current.Some? && current != latest && Truthy(latest) ==> r == latest
    ensures current.Some? && current != latest && !Truthy(latest) ==> r.None?
    ensures current == latest ==> r == current
  {
    if current.Some? && current != latest then
      (if Truthy(latest) then latest else None)
    else current
  }

  /** The integrity rule fires (lines 213-219). */
  predicate IntegrityDiffers(r: Resolution, m: Metadata)
  {
    HasIntegrity(r) && r.integrity != m.integrity
  }

  /** The tarball rule fires (lines 234-240). */
  predicate TarballDiffers(r: Resolution, m: Metadata)
  {
    HasTarball(r) && r.tarball != m.tarball
  }

  /** The type rule fires, unless the registry reports a directory or git
      resolution (lines 255-263). */
  predicate TypeDiffers(r: Resolution, m: Metadata)
  {
    HasType(r) && r.kind != m.kind && TypeRewritable(m)
  }

  /** The local `updated` flag after the three rules: at least one rule fired. */
  predicate Changed(r: Resolution, m: Metadata)
  {
    IntegrityDiffers(r, m) || TarballDiffers(r, m) || TypeDiffers(r, m)
  }

  /** The resolution after the three rules have been applied to it. */
  function Patched(r: Resolution, m: Metadata): (p: Resolution)
    // no field is ever added, and fields outside the three are kept
    ensures r.integrity.None? ==> p.integrity.None?
    ensures r.tarball.None? ==> p.tarball.None?
    ensures r.kind.None? ==> p.kind.None?
    ensures p.other == r.other
    // the type is left alone for directory and git resolutions
    ensures !TypeRewritable(m) ==> p.kind == r.kind
    // after the patch every present field agrees with the registry, except a
    // type that was protected
    ensures p.integrity.Some? ==> p.integrity == m.integrity
    ensures p.tarball.Some? ==> p.tarball == m.tarball
    ensures p.kind.Some? && TypeRewritable(m) ==> p.kind == m.kind
  {
    Resolution(
      Refreshed(r.integrity, m.integrity),
      Refreshed(r.tarball, m.tarball),
      if TypeRewritable(m) then Refreshed(r.kind, m.kind) else r.kind,
      r.other)
  }

  /** The `updated` flag is exact: it is raised if and only if the patch changes the
      resolution, so `count` never counts a package that stayed the same, and never
      misses one that changed. */
  lemma ChangedIffPatchDiffers(r: Resolution, m: Metadata)
    ensures Changed(r, m) <==> Patched(r, m) != r
  {
    if IntegrityDiffers(r, m) {
      assert Patched(r, m).integrity != r.integrity;
    } else if TarballDiffers(r, m) {
      assert Patched(r, m).tarball != r.tarball;
    } else if TypeDiffers(r, m) {
      assert Patched(r, m).kind != r.kind;
    }
  }

  /** Patching twice with the same metadata changes nothing the second time. */
  lemma PatchIdempotent(r: Resolution, m: Metadata)
    ensures !Changed(Patched(r, m), m)
    ensures Patched(Patched(r, m), m) == Patched(r, m)
  {
    ChangedIffPatchDiffers(Patched(r, m), m);
  }

  /** A resolution whose three fields already agree with the registry is left as it is. */
  lemma AgreeingResolutionUnchanged(r: Resolution, m: Metadata)
    requires r.integrity.Some? ==> r.integrity == m.integrity
    requires r.tarball.Some? ==> r.tarball == m.tarball
    requires r.kind.Some? ==> r.kind == m.kind
    ensures !Changed(r, m) && Patched(r, m) == r
  {
  }

  /** Clearing removes the field: an `integrity` of "sha1" with no registry
      integrity becomes absent, not an empty string. */
  lemma ClearingRemovesField(other: map<string, string>)
    ensures Patched(Resolution(Some("sha1"), None, None, other), Metadata(None, None, None, None))
            == Resolution(None, None, None, other)
  {
  }

  /** An empty registry value also deletes the field (empty strings are falsy). */
  lemma EmptyRegistryValueDeletes(r: Resolution, m: Metadata)
    requires r.tarball.Some? && r.tarball != Some("") && m.tarball == Some("")
    ensures Patched(r, m).tarball.None? && Changed(r, m)
  {
  }

  /** The protection for `type` looks at the REGISTRY's `resolution` field, not at the
      lockfile's own `type`: a lockfile `type` of "directory" is deleted when the
      registry reports no type and no resolution kind. */
  lemma ExistingDirectoryTypeNotProtected(other: map<string, string>)
    ensures Patched(Resolution(None, None, Some("directory"), other), Metadata(None, None, None, None)).kind.None?
  {
  }

  /** A resolution with only an integrity hash takes the registry's new hash, and
      the change is detected. */
  lemma IntegrityOnlyRefreshed(x: string, z: string, other: map<string, string>)
    requires z != "" && x != z
    ensures var r := Resolution(Some(x), None, None, other);
            var m := Metadata(Some(z), None, None, None);
            && Changed(r, m)
            && Patched(r, m) == Resolution(Some(z), None, None, other)
  {
  }
}
