# pnpm lockfile registry migration, modelled in Dafny

`updateRegistryInformation` rewrites a project's `pnpm-lock.yaml` after the package
registry has moved. It takes the project directory and a list of package scopes such as
`@yourscope`. It parses every key of the lockfile's `packages` table into a
`name@version` identifier and keeps the packages whose identifier starts with one of the
scopes. For each kept package it asks the registry (`pnpm view <name@version> dist
--json`) for the current `integrity`, `tarball` and `type`. It then patches the package's
`resolution` record field by field:

- A field that is present and differs from the registry's value is set to that value
  when this value is truthy.
- Such a field is deleted when the registry's value is absent or empty.
- A field that is absent stays absent.
- `type` is not touched when the registry reports a `directory` or `git` resolution.

A package counts once when at least one of its fields changed. The lockfile is written
back only when that count is positive, and the count is returned. An empty scope list is
refused before anything else. On request, and only when the lockfile exists, a backup
copy `pnpm-lock.bck.yaml` is then made, before the lockfile is read.

The project has six modules:

- `Wrappers`: `Option` and `Result`.
- `Strings`: the JavaScript string operations the migration uses (`slice`, `split`,
  `lastIndexOf`, `startsWith`, `replace`), on `seq<char>`. `substring` is sequence
  slicing, and `IndexOf` is the first-occurrence search that `replace` performs.
- `PackageKey`: key parsing and the scope filter, as pure functions.
- `Resolutions`: the resolution record, the registry metadata, the presence tests and the
  per-field set-or-delete rule, as pure functions.
- `Lockfile`: the in-memory lockfile as a class.
  - `UpdatePackage` patches one entry in place.
  - `RefreshAll` is the loop over the matched packages.
  - Both are proved against the specification functions `Applied` (the packages after
    the steps) and `ChangedCount` (the count).
- `Backup` and `Migrate`: the lockfile and backup paths, the disk as a class, the whole
  run as the function `Migration`, and the imperative `UpdateRegistryInformation`, whose
  end state is proved equal to `Migration`.

The source's `type` field is called `kind` in the model, because `type` is a Dafny
keyword.

## Model

| member | source | states |
|---|---|---|
| Strings.DropFirst | lib/src/pnpm-lockfile-migrate.ts:128 | `slice(1)` drops exactly the first character and leaves "" as "" |
| Strings.TakeUntil | lib/src/pnpm-lockfile-migrate.ts:128 | `split('(')[0]` is the longest prefix free of `(`: it ends at the first `(` or at the end |
| Strings.LastIndexOf | lib/src/pnpm-lockfile-migrate.ts:130 | `lastIndexOf('/')` is -1 or a position holding `/` with no `/` after it |
| Strings.IndexOf | lib/src/pnpm-lockfile-migrate.ts:86 | the search `replace` performs is -1 when the pattern never occurs, otherwise its first occurrence |
| Strings.IndexOfIs | lib/src/pnpm-lockfile-migrate.ts:86 | an occurrence with no earlier one is the position the search finds |
| Strings.ReplaceFirst | lib/src/pnpm-lockfile-migrate.ts:86 | `replace` with a string pattern returns the text unchanged when the pattern never occurs, and otherwise puts the replacement in place of the occurrence that no earlier occurrence precedes, keeping the rest |
| PackageKey.IdentifierOfKey | lib/src/pnpm-lockfile-migrate.ts:126-134 | a key made of a lead character, a name (which may contain `/`), `/`, a version and an optional `(` peer suffix parses to exactly `name@version` |
| PackageKey.IdentifierWithoutSlash | lib/src/pnpm-lockfile-migrate.ts:130-134 | with no `/` after the lead, `substring(0, -1)` is empty and the identifier is `@` followed by the rest |
| PackageKey.IdentifierExample | lib/src/pnpm-lockfile-migrate.ts:126-134 | `/@scope/pkg/1.2.3(react@18)` parses to `@scope/pkg@1.2.3` |
| PackageKey.FindScope | lib/src/pnpm-lockfile-migrate.ts:144-146 | `find` gives none exactly when no scope is a prefix, otherwise the first scope that is |
| PackageKey.MatchesSomeScope | lib/src/pnpm-lockfile-migrate.ts:142-147 | the filter keeps an identifier if and only if some listed scope is a string prefix of it |
| PackageKey.MatchesAsWrittenAgrees | lib/src/pnpm-lockfile-migrate.ts:142-147 | when no scope is empty, the `!!find` test as written and the some-scope-is-a-prefix filter agree in both directions |
| PackageKey.EmptyScopeHidesLaterScope | lib/src/pnpm-lockfile-migrate.ts:144 | with scopes `["", "@foo"]` the `!!find` test drops `@foo/bar@1` although a scope matches it |
| PackageKey.MatchesIsPrefixTest | lib/src/pnpm-lockfile-migrate.ts:145 | `@foo/bar@1.0.0` is in scope `@foo` and not in scope `@foobar` |
| PackageKey.Parsed | lib/src/pnpm-lockfile-migrate.ts:126-141 | the `map` step yields one entry per key, in key order, each pairing the key with its own identifier |
| PackageKey.InScope | lib/src/pnpm-lockfile-migrate.ts:142-147 | the `filter` step never yields more entries than it is given |
| PackageKey.InScopeSound | lib/src/pnpm-lockfile-migrate.ts:142-147 | every entry the filter keeps was among its input and is in scope |
| PackageKey.InScopeComplete | lib/src/pnpm-lockfile-migrate.ts:142-147 | every input entry that is in scope is kept |
| PackageKey.InScopeAppend | lib/src/pnpm-lockfile-migrate.ts:142-147 | filtering two runs of entries one after the other keeps those of the first, then those of the second |
| PackageKey.ParsedAppend | lib/src/pnpm-lockfile-migrate.ts:126-141 | parsing two runs of keys gives the entries of the first, then those of the second |
| PackageKey.MatchedPackages | lib/src/pnpm-lockfile-migrate.ts:126-147 | the map-then-filter yields no more packages than there are lockfile keys |
| PackageKey.MatchedPackagesIsParsedInScope | lib/src/pnpm-lockfile-migrate.ts:126-147 | the matched packages are exactly the parsed keys, filtered |
| PackageKey.MatchedPackagesSound | lib/src/pnpm-lockfile-migrate.ts:126-147 | every matched entry names a lockfile key, carries that key's identifier, and is in scope |
| PackageKey.MatchedPackagesComplete | lib/src/pnpm-lockfile-migrate.ts:142-147 | every lockfile key whose identifier is in scope is among the matched packages |
| PackageKey.MatchedPackagesAppend | lib/src/pnpm-lockfile-migrate.ts:126-147 | filtering distributes over concatenation, so the matched packages keep the keys' order |
| PackageKey.MatchedPackagesDistinct | lib/src/pnpm-lockfile-migrate.ts:126-147 | distinct lockfile keys give distinct matched keys, so no package is patched or counted twice |
| PackageKey.MatchedPackagesPair | lib/src/pnpm-lockfile-migrate.ts:142-147 | of one key in scope and one out of it, exactly the first is matched, with its identifier |
| Resolutions.Refreshed | lib/src/pnpm-lockfile-migrate.ts:213-232 | an absent field stays absent, an agreeing field is kept, and a differing one takes a truthy registry value or is deleted |
| Resolutions.Patched | lib/src/pnpm-lockfile-migrate.ts:213-276 | no field is added, other fields are kept, `type` is kept for directory or git results, and every remaining field equals the registry's value |
| Resolutions.ChangedIffPatchDiffers | lib/src/pnpm-lockfile-migrate.ts:211-283 | `updated` is raised if and only if the patch changes the resolution |
| Resolutions.PatchIdempotent | lib/src/pnpm-lockfile-migrate.ts:210-283 | a second patch with the same metadata raises no flag and changes nothing |
| Resolutions.AgreeingResolutionUnchanged | lib/src/pnpm-lockfile-migrate.ts:213-276 | a resolution whose present fields all agree with the registry is neither changed nor counted |
| Resolutions.ClearingRemovesField | lib/src/pnpm-lockfile-migrate.ts:225-230 | an `integrity` of `sha1` without a registry integrity is removed, not emptied |
| Resolutions.EmptyRegistryValueDeletes | lib/src/pnpm-lockfile-migrate.ts:241-251 | an empty registry tarball is falsy: the field is deleted and the change counts |
| Resolutions.ExistingDirectoryTypeNotProtected | lib/src/pnpm-lockfile-migrate.ts:255-274 | the `type` guard reads the registry's `resolution`, so a lockfile `type` of `directory` is still deleted |
| Resolutions.IntegrityOnlyRefreshed | lib/src/pnpm-lockfile-migrate.ts:213-232 | an integrity-only resolution takes a new non-empty registry integrity, and the change is counted |
| Lockfile.PatchEntry | lib/src/pnpm-lockfile-migrate.ts:210-283 | an entry without a resolution is left alone; otherwise only its resolution changes, to the patched one |
| Lockfile.Outcome | lib/src/pnpm-lockfile-migrate.ts:183-283 | a failed lookup leaves the package's entry as it was |
| Lockfile.AppliedSnoc | lib/src/pnpm-lockfile-migrate.ts:152-289 | one more step patches its own entry, adds one to `count` exactly when that entry changed, and raises the failure flag exactly when its lookup failed |
| Lockfile.AnsweredSnoc | lib/src/pnpm-lockfile-migrate.ts:183-283 | a step whose lookup answers patches its own entry, adds one to `count` exactly when that patch changes something, and records no failure |
| Lockfile.UnansweredSnoc | lib/src/pnpm-lockfile-migrate.ts:183-193 | a step whose lookup fails changes no entry and no count, and records the failure |
| Lockfile.AppliedKeys | lib/src/pnpm-lockfile-migrate.ts:152-289 | the refresh never adds or removes a package key |
| Lockfile.AppliedUntouched | lib/src/pnpm-lockfile-migrate.ts:152-289 | an entry that no matched package names is left as it was |
| Lockfile.AppliedMatched | lib/src/pnpm-lockfile-migrate.ts:152-283 | each matched entry ends as its own step leaves its original value, whatever order the steps run in |
| Lockfile.LastStepSeesOriginal | lib/src/pnpm-lockfile-migrate.ts:210-283 | with distinct keys, the last step finds its entry as originally read, so it counts exactly when it would on the original table |
| Lockfile.ChangedCountIsCounted | lib/src/pnpm-lockfile-migrate.ts:278-282 | `count` is the number of matched packages whose original entry some rule changes, once per package and not once per field |
| Lockfile.OutcomeDiffersIffChanged | lib/src/pnpm-lockfile-migrate.ts:183-283 | a package's entry changes exactly when its lookup answered and some rule fired |
| Lockfile.MatchedEntryChangedIffCounts | lib/src/pnpm-lockfile-migrate.ts:210-283 | with distinct keys, a matched entry ends different from its original exactly when its step counts |
| Lockfile.ChangedCountPositiveIffModified | lib/src/pnpm-lockfile-migrate.ts:278-300 | `count > 0` if and only if the packages table differs after the refresh |
| Lockfile.RefreshIdempotent | lib/src/pnpm-lockfile-migrate.ts:210-283 | refreshing the refreshed table with the same answers changes nothing and counts 0 |
| Lockfile.OneIntegrityRefreshed | lib/src/pnpm-lockfile-migrate.ts:213-232 | one package with only an integrity hash and a registry reporting another, non-empty hash: the step counts once and the entry now carries the new hash alone |
| Lockfile.Lockfile.Read | lib/src/pnpm-lockfile-migrate.ts:111-115 | the in-memory lockfile holds exactly the document read |
| Lockfile.Lockfile.UpdatePackage | lib/src/pnpm-lockfile-migrate.ts:210-283 | the in-place patch changes only the named entry, to `PatchEntry` of it, and `updated` is exactly `EntryChanged` |
| Lockfile.Lockfile.RefreshAll | lib/src/pnpm-lockfile-migrate.ts:152-289 | after the loop the packages are `Applied`, `count` is `ChangedCount`, and the failure flag says whether any lookup failed |
| Backup.BackupIsSibling | lib/src/pnpm-lockfile-migrate.ts:82-94 | the intended backup is `pnpm-lock.bck.yaml` in the lockfile's own directory, a different file from the lockfile |
| Backup.BackupStaysInDirectory | lib/src/pnpm-lockfile-migrate.ts:82-94 | the intended backup path lies inside the lockfile's directory |
| Backup.FirstYamlIsExtension | lib/src/pnpm-lockfile-migrate.ts:86 | for a directory without `.yaml`, the first `.yaml` of the lockfile path is its extension |
| Backup.FirstYamlInDirectory | lib/src/pnpm-lockfile-migrate.ts:86 | for a directory ending in its only `.yaml`, the first `.yaml` of the lockfile path is the directory's |
| Backup.BackupPathAsWrittenInDirectory | lib/src/pnpm-lockfile-migrate.ts:86 | for such a directory, the `replace` as written inserts `.bck` into the directory's name |
| Backup.BackupPathAsWrittenAgrees | lib/src/pnpm-lockfile-migrate.ts:86 | when the directory contains no `.yaml`, the `replace` as written gives the intended backup path |
| Backup.BackupPathAsWrittenLeavesDirectory | lib/src/pnpm-lockfile-migrate.ts:86 | for a directory ending in `.yaml`, the `replace` as written puts the backup in another directory, and the intended path does not |
| Migrate.MatchedOfDocument | lib/src/pnpm-lockfile-migrate.ts:126-147 | the matched packages of a read lockfile are distinct entries of its table |
| Migrate.MigrationSucceeded | lib/src/pnpm-lockfile-migrate.ts:103-321 | a successful run had scopes, found a readable lockfile, had every lookup answer, and returns `ChangedCount` |
| Migrate.MigrationShape | lib/src/pnpm-lockfile-migrate.ts:82-300 | a run leaves the files as found, or as after the backup, or as after the backup with only the lockfile replaced |
| Migrate.MigrationFrame | lib/src/pnpm-lockfile-migrate.ts:82-300 | no file other than the lockfile and its backup is created, removed or changed |
| Migrate.MigrationBacksUp | lib/src/pnpm-lockfile-migrate.ts:82-94 | when scopes are given and the lockfile exists: with the option, the backup holds the lockfile as found, whatever the later outcome; without it the backup path is untouched (with no scopes the run throws first, and `MigrationFailureKeepsLockfile` shows no file is touched) |
| Migrate.MigrationWritesIffCounted | lib/src/pnpm-lockfile-migrate.ts:296-300 | after a successful run the lockfile differs from before if and only if the returned count is positive |
| Migrate.MigrationFailureKeepsLockfile | lib/src/pnpm-lockfile-migrate.ts:77-81 | a failing run leaves the lockfile as found; an empty scope list, and only that, gives the argument error, with no file touched |
| Migrate.MigrationOfReadable | lib/src/pnpm-lockfile-migrate.ts:103-321 | a readable lockfile whose lookups all answer gives `Success(count)`, written back exactly when `count > 0` |
| Migrate.MigrationIdempotent | lib/src/pnpm-lockfile-migrate.ts:58-322 | a second run without the backup option, with the same registry answers, returns 0 and leaves every file as the first run left it |
| Migrate.MigrationExample | lib/src/pnpm-lockfile-migrate.ts:126-321 | `@scope/a` in scope with a new integrity `Z` and `@other/b` out of scope: the count is 1, `a` gets `Z`, `b` is untouched and the lockfile is written |
| Migrate.UpdateRegistryInformation | lib/src/pnpm-lockfile-migrate.ts:58-322 | the imperative run returns and leaves the disk exactly as `Migration` says |

## Left out

- Path resolution with `isAbsolute`, `join` and `process.cwd` (lines 73-75) depends on the environment. The directory is taken as already absolute, and `join` is plain concatenation with `/`.
- Running `pnpm view ... dist --json` and `JSON.parse` (lines 12-21, 183-193) is child-process I/O. It is the `Lookup` parameter instead: `None` when the command fails or prints no JSON, otherwise the four fields. JSON values other than strings in those fields are not modelled. `Lookup` is a function of the `name@version` identifier, so keys that differ only in their peer suffix (`/foo/1.0.0(react@17)` and `/foo/1.0.0(react@18)`) always get the same answer, whereas the source runs one `pnpm view` per key (line 183) and those runs could answer differently or fail independently.
- Reading and writing YAML (`existsNonEmptyWantedLockfile`, `readWantedLockfile`, `writeWantedLockfile`) is library I/O. A lockfile is `Empty`, `Unreadable` or a `Readable` document, and a write stores the in-memory document. Formatting and byte identity are not modelled.
- `existsSync` followed by `copyFileSync` (lines 85-86) is an atomic copy of whatever is at the path. A copy that fails is not modelled.
- Console logging and the `out` debug buffer (lines 87-121, 149-208, 281-317) are output only and are left out. Line 281's `out.join(...)` is a no-op.
- `Promise.all` (line 152) is a sequential loop in matched order. Each step reads and writes only its own entry, and its patch runs after its lookup without a suspension point, so `AppliedMatched` makes the order irrelevant.
- When a lookup fails, the model still patches the packages whose lookups answered. This matches the in-memory state once all steps have finished; the rejected run writes nothing either way.
- The spread `[...scopes]` (line 68) turns a single string into one-character scopes. This is a JavaScript coercion, and scopes are a `seq<string>` instead.
- `lockFile['packages'] ?? {}` (line 126): a lockfile without a packages table is a document with no keys.
- Lockfile.Lockfile.UpdatePackage: the three rules update a local copy of the resolution, which is stored into the entry once at the end, rather than three in-place writes through the table. Nothing reads the entry between the rules, so this does not change behaviour.
- The scope filter and the backup path of the run are the corrected ones (`PackageKey.Matches`, `Backup.BackupPath`). The forms as written are modelled beside them; see Findings.
- `type` suppression follows the code. It tests the registry result's `resolution` field (line 262), not the lockfile's own `type` (`Resolutions.ExistingDirectoryTypeNotProtected`). The comment at line 261 reads as if existing git or directory resolutions were protected, but no such test is made.

## Findings

| source | as written | input that shows it | evidently intended | confidence | as-written member | corrected member |
|---|---|---|---|---|---|---|
| lib/src/pnpm-lockfile-migrate.ts:144 | `!!packageScopes.find(...)` tests the truthiness of the scope found, so an empty scope found first drops the package | scopes `["", "@foo"]`, identifier `@foo/bar@1` | keep a package when some scope is a prefix of it (`some`) | not executed | PackageKey.EmptyScopeHidesLaterScope | PackageKey.MatchesSomeScope |
| lib/src/pnpm-lockfile-migrate.ts:86 | `filePath.replace('.yaml', '.bck.yaml')` replaces the first `.yaml` anywhere in the path | project directory `/srv/app.yaml` gives backup `/srv/app.bck.yaml/pnpm-lock.yaml` | `pnpm-lock.bck.yaml` next to the lockfile | not executed | Backup.BackupPathAsWrittenLeavesDirectory | Backup.BackupStaysInDirectory |
