/** The in-memory lockfile and the refresh of its matched packages
    (lib/src/pnpm-lockfile-migrate.ts:152-289). */
module Lockfile {
  import opened Wrappers
  import opened PackageKey
  import opened Resolutions

  /** A `packages` entry: its resolution, if it has one, and every other field
      (version, dependencies, ...), held opaque. */
  datatype Entry = Entry(resolution: Option<Resolution>, other: map<string, string>)

  /** The document the lockfile reader returns: the package keys in `Object.keys`
      order, the entries they name, and the rest of the document, held opaque. */
  datatype Document = Document(keys: seq<string>, packages: map<string, Entry>, rest: map<string, string>)

  /** What the reader guarantees: every key names an entry, once. */
  predicate WellFormed(d: Document)
  {
    && Distinct(d.keys)
    && (forall k :: k in d.keys ==> k in d.packages)
    && (forall k :: k in d.packages ==> k in d.keys)
  }

  /** The registry query for one `name@version`: its metadata, or `None` when the
      command fails or its output is not JSON. */
  type Lookup = string -> Option<Metadata>

  /** Lines 210-283 for one entry: the patched resolution, or the entry as it is when
      it has no resolution. */
  function PatchEntry(e: Entry, m: Metadata): (r: Entry)
    ensures r.other == e.other
    ensures e.resolution.None? <==> r.resolution.None?
    ensures e.resolution.Some? ==> r.resolution.value == Patched(e.resolution.value, m)
  {
    match e.resolution
    case None => e
    case Some(res) => e.(resolution := Some(Patched(res, m)))
  }

  /** The entry counts as updated: it has a resolution and some rule fired. */
  predicate EntryChanged(e: Entry, m: Metadata)
  {
    e.resolution.Some? && Changed(e.resolution.value, m)
  }

  /** The step of one matched package applied to the packages map: a successful
      lookup patches that package's entry. */
  function Step(p: map<string, Entry>, info: PackageInfo, lookup: Lookup): map<string, Entry>
  {
    if info.key in p && lookup(info.packageWithVersion).Some? then
      p[info.key := PatchEntry(p[info.key], lookup(info.packageWithVersion).value)]
    else p
  }

  /** The step of one matched package raises `count`. */
  predicate StepCounts(p: map<string, Entry>, info: PackageInfo, lookup: Lookup)
  {
    info.key in p && lookup(info.packageWithVersion).Some?
    && EntryChanged(p[info.key], lookup(info.packageWithVersion).value)
  }

  /** The packages map after the steps of `ms`, one after the other. */
  function Applied(p: map<string, Entry>, ms: seq<PackageInfo>, lookup: Lookup): map<string, Entry>
  {
    if ms == [] then p
    else Step(Applied(p, ms[..|ms| - 1], lookup), ms[|ms| - 1], lookup)
  }

  /** `count` after the steps of `ms`, one after the other. */
  function ChangedCount(p: map<string, Entry>, ms: seq<PackageInfo>, lookup: Lookup): nat
  {
    if ms == [] then 0
    else
      var before := Applied(p, ms[..|ms| - 1], lookup);
      ChangedCount(p, ms[..|ms| - 1], lookup) + (if StepCounts(before, ms[|ms| - 1], lookup) then 1 else 0)
  }

  /** Some lookup of `ms` failed. */
  predicate AnyLookupFailed(ms: seq<PackageInfo>, lookup: Lookup)
  {
    exists i :: 0 <= i < |ms| && lookup(ms[i].packageWithVersion).None?
  }

  /** A step whose lookup answered: the entry is patched, `count` rises exactly when
      the patch changes something, and no failure is recorded. */
  lemma AnsweredSnoc(p: map<string, Entry>, ms: seq<PackageInfo>, info: PackageInfo, lookup: Lookup, m: Metadata)
    requires info.key in p && lookup(info.packageWithVersion) == Some(m)
    ensures var q := Applied(p, ms, lookup);
            && info.key in q
            && Applied(p, ms + [info], lookup) == q[info.key := PatchEntry(q[info.key], m)]
            && ChangedCount(p, ms + [info], lookup)
               == ChangedCount(p, ms, lookup) + (if EntryChanged(q[info.key], m) then 1 else 0)
            && (AnyLookupFailed(ms + [info], lookup) <==> AnyLookupFailed(ms, lookup))
  {
    AppliedSnoc(p, ms, info, lookup);
    AppliedKeys(p, ms, lookup);
  }

  /** A step whose lookup failed: nothing changes but the failure flag. */
  lemma UnansweredSnoc(p: map<string, Entry>, ms: seq<PackageInfo>, info: PackageInfo, lookup: Lookup)
    requires lookup(info.packageWithVersion).None?
    ensures Applied(p, ms + [info], lookup) == Applied(p, ms, lookup)
    ensures ChangedCount(p, ms + [info], lookup) == ChangedCount(p, ms, lookup)
    ensures AnyLookupFailed(ms + [info], lookup)
  {
    AppliedSnoc(p, ms, info, lookup);
  }

  /** The first `i + 1` steps are the first `i` and then step `i`. */
  lemma PrefixSnoc(ms: seq<PackageInfo>, i: nat)
    requires i < |ms|
    ensures ms[..i + 1] == ms[..i] + [ms[i]]
  {
  }

  /** One more step: how the packages, `count` and the failure flag move on. */
  lemma AppliedSnoc(p: map<string, Entry>, ms: seq<PackageInfo>, info: PackageInfo, lookup: Lookup)
    ensures Applied(p, ms + [info], lookup) == Step(Applied(p, ms, lookup), info, lookup)
    ensures ChangedCount(p, ms + [info], lookup)
            == ChangedCount(p, ms, lookup) + (if StepCounts(Applied(p, ms, lookup), info, lookup) then 1 else 0)
    ensures AnyLookupFailed(ms + [info], lookup)
            <==> AnyLookupFailed(ms, lookup) || lookup(info.packageWithVersion).None?
  {
    assert (ms + [info])[..|ms|] == ms;
    assert (ms + [info])[|ms|] == info;
    if AnyLookupFailed(ms, lookup) {
      var i :| 0 <= i < |ms| && lookup(ms[i].packageWithVersion).None?;
      assert (ms + [info])[i] == ms[i];
    }
  }

  /** The entry a step leaves behind: patched after a successful lookup, kept after a
      failed one. */
  function Outcome(e: Entry, answer: Option<Metadata>): (r: Entry)
    ensures answer.None? ==> r == e
  {
    match answer
    case None => e
    case Some(m) => PatchEntry(e, m)
  }

  /** The first `n` steps name the first `n` keys. */
  lemma KeysOfPrefix(ms: seq<PackageInfo>, n: nat)
    requires n <= |ms|
    ensures KeysOf(ms[..n]) == KeysOf(ms)[..n]
    ensures Distinct(KeysOf(ms)) ==> Distinct(KeysOf(ms[..n]))
  {
    var front, whole := KeysOf(ms[..n]), KeysOf(ms);
    forall i | 0 <= i < n ensures front[i] == whole[i] {
      assert ms[..n][i] == ms[i];
    }
    assert front == whole[..n];
    if Distinct(whole) {
      DistinctPrefix(whole, n);
    }
  }

  /** Without repeated keys, the last step names a key no earlier step names. */
  lemma LastKeyIsNew(ms: seq<PackageInfo>)
    requires ms != [] && Distinct(KeysOf(ms))
    ensures ms[|ms| - 1].key !in KeysOf(ms[..|ms| - 1])
  {
    var n := |ms| - 1;
    KeysOfPrefix(ms, n);
    var whole := KeysOf(ms);
    assert whole[n] == ms[n].key;
    forall j | 0 <= j < n ensures whole[..n][j] != ms[n].key {
      assert whole[..n][j] == whole[j];
    }
  }

  /** A prefix of a list without repeats has none either. */
  lemma DistinctPrefix(ks: seq<string>, n: nat)
    requires Distinct(ks) && n <= |ks|
    ensures Distinct(ks[..n])
  {
  }

  /** The steps never add or remove a package. */
  lemma {:induction false} AppliedKeys(p: map<string, Entry>, ms: seq<PackageInfo>, lookup: Lookup)
    ensures Applied(p, ms, lookup).Keys == p.Keys
  {
    if ms != [] {
      AppliedKeys(p, ms[..|ms| - 1], lookup);
    }
  }

  /** An entry no step names is left as it was. */
  lemma {:induction false} AppliedUntouched(p: map<string, Entry>, ms: seq<PackageInfo>, lookup: Lookup, k: string)
    requires k in p && k !in KeysOf(ms)
    ensures k in Applied(p, ms, lookup) && Applied(p, ms, lookup)[k] == p[k]
  {
    if ms != [] {
      var n := |ms| - 1;
      KeysOfPrefix(ms, n);
      assert KeysOf(ms)[n] == ms[n].key;
      AppliedUntouched(p, ms[..n], lookup, k);
    }
  }

  /** Steps of distinct packages do not interfere: the entry of each matched package
      ends up as its step leaves its ORIGINAL value. */
  lemma {:induction false} AppliedMatched(p: map<string, Entry>, ms: seq<PackageInfo>, lookup: Lookup, i: nat)
    requires Distinct(KeysOf(ms))
    requires i < |ms| && ms[i].key in p
    ensures ms[i].key in Applied(p, ms, lookup)
    ensures Applied(p, ms, lookup)[ms[i].key] == Outcome(p[ms[i].key], lookup(ms[i].packageWithVersion))
  {
    var n := |ms| - 1;
    var q := Applied(p, ms[..n], lookup);
    assert Applied(p, ms, lookup) == Step(q, ms[n], lookup);
    KeysOfPrefix(ms, n);
    AppliedKeys(p, ms[..n], lookup);
    StepAt(q, ms[n], lookup, ms[i].key);
    if i == n {
      LastKeyIsNew(ms);
      AppliedUntouched(p, ms[..n], lookup, ms[n].key);
    } else {
      assert KeysOf(ms)[i] != KeysOf(ms)[n];
      assert ms[..n][i] == ms[i];
      AppliedMatched(p, ms[..n], lookup, i);
    }
  }

  /** A step leaves every entry but its own as it was, and its own as `Outcome` says. */
  lemma StepAt(q: map<string, Entry>, info: PackageInfo, lookup: Lookup, k: string)
    requires k in q
    ensures k in Step(q, info, lookup)
    ensures Step(q, info, lookup)[k]
            == if k == info.key then Outcome(q[k], lookup(info.packageWithVersion)) else q[k]
  {
  }

  /** The indices of the steps that count, judged against the ORIGINAL packages. */
  function CountedSteps(p: map<string, Entry>, ms: seq<PackageInfo>, lookup: Lookup): set<int>
  {
    set i | 0 <= i < |ms| && StepCounts(p, ms[i], lookup)
  }

  /** The counting steps of a longer list: those of its prefix and maybe the last one. */
  lemma CountedStepsSnoc(p: map<string, Entry>, ms: seq<PackageInfo>, lookup: Lookup)
    requires ms != []
    ensures var n := |ms| - 1;
            CountedSteps(p, ms, lookup)
            == CountedSteps(p, ms[..n], lookup) + (if StepCounts(p, ms[n], lookup) then {n} else {})
  {
    var n := |ms| - 1;
    var later := if StepCounts(p, ms[n], lookup) then {n} else {};
    forall i ensures i in CountedSteps(p, ms, lookup) <==> i in CountedSteps(p, ms[..n], lookup) + later {
      if 0 <= i < n {
        assert ms[..n][i] == ms[i];
      }
    }
  }

  /** Without repeated keys, the last step finds its entry as the ORIGINAL packages
      hold it, so it counts exactly when it would count there. */
  lemma LastStepSeesOriginal(p: map<string, Entry>, ms: seq<PackageInfo>, lookup: Lookup)
    requires ms != [] && Distinct(KeysOf(ms))
    ensures var n := |ms| - 1;
            StepCounts(Applied(p, ms[..n], lookup), ms[n], lookup) == StepCounts(p, ms[n], lookup)
  {
    var n := |ms| - 1;
    if ms[n].key in p {
      LastKeyIsNew(ms);
      AppliedUntouched(p, ms[..n], lookup, ms[n].key);
    } else {
      AppliedKeys(p, ms[..n], lookup);
    }
  }

  /** `count` is the number of matched packages whose ORIGINAL entry some rule
      changes: one per package, however many of its fields changed. */
  lemma {:induction false} ChangedCountIsCounted(p: map<string, Entry>, ms: seq<PackageInfo>, lookup: Lookup)
    requires Distinct(KeysOf(ms))
    ensures ChangedCount(p, ms, lookup) == |CountedSteps(p, ms, lookup)|
  {
    if ms != [] {
      var n := |ms| - 1;
      KeysOfPrefix(ms, n);
      ChangedCountIsCounted(p, ms[..n], lookup);
      LastStepSeesOriginal(p, ms, lookup);
      CountedStepsSnoc(p, ms, lookup);
      assert n !in CountedSteps(p, ms[..n], lookup);
    }
  }

  /** A step's outcome differs from its entry exactly when the lookup answered and
      some rule fired. */
  lemma OutcomeDiffersIffChanged(e: Entry, answer: Option<Metadata>)
    ensures Outcome(e, answer) != e <==> answer.Some? && EntryChanged(e, answer.value)
  {
    if answer.Some? && e.resolution.Some? {
      ChangedIffPatchDiffers(e.resolution.value, answer.value);
      assert Outcome(e, answer).resolution == Some(Patched(e.resolution.value, answer.value));
    }
  }

  /** Without repeated keys, a matched entry ends up different from its original
      exactly when its step counts. */
  lemma MatchedEntryChangedIffCounts(p: map<string, Entry>, ms: seq<PackageInfo>, lookup: Lookup, i: nat)
    requires Distinct(KeysOf(ms))
    requires i < |ms| && ms[i].key in p
    ensures ms[i].key in Applied(p, ms, lookup)
    ensures Applied(p, ms, lookup)[ms[i].key] != p[ms[i].key] <==> StepCounts(p, ms[i], lookup)
  {
    AppliedMatched(p, ms, lookup, i);
    OutcomeDiffersIffChanged(p[ms[i].key], lookup(ms[i].packageWithVersion));
  }

  /** The document needs writing back exactly when `count > 0`: `count` is positive if
      and only if some entry differs afterwards. */
  lemma ChangedCountPositiveIffModified(p: map<string, Entry>, ms: seq<PackageInfo>, lookup: Lookup)
    requires Distinct(KeysOf(ms))
    ensures ChangedCount(p, ms, lookup) > 0 <==> Applied(p, ms, lookup) != p
  {
    ChangedCountIsCounted(p, ms, lookup);
    AppliedKeys(p, ms, lookup);
    var q := Applied(p, ms, lookup);
    if CountedSteps(p, ms, lookup) != {} {
      var i :| i in CountedSteps(p, ms, lookup);
      MatchedEntryChangedIffCounts(p, ms, lookup, i);
    } else {
      forall k | k in p ensures q[k] == p[k] {
        if k in KeysOf(ms) {
          var i :| 0 <= i < |ms| && KeysOf(ms)[i] == k;
          MatchedEntryChangedIffCounts(p, ms, lookup, i);
          assert i !in CountedSteps(p, ms, lookup);
        } else {
          AppliedUntouched(p, ms, lookup, k);
        }
      }
      assert q == p;
    }
  }

  /** Running the refresh a second time with the same registry answers reports no
      change and leaves the packages as the first run left them. */
  lemma RefreshIdempotent(p: map<string, Entry>, ms: seq<PackageInfo>, lookup: Lookup)
    requires Distinct(KeysOf(ms))
    ensures Applied(Applied(p, ms, lookup), ms, lookup) == Applied(p, ms, lookup)
    ensures ChangedCount(Applied(p, ms, lookup), ms, lookup) == 0
  {
    var q := Applied(p, ms, lookup);
    AppliedKeys(p, ms, lookup);
    AppliedKeys(q, ms, lookup);
    forall k | k in q ensures Applied(q, ms, lookup)[k] == q[k] {
      if k in KeysOf(ms) {
        var i :| 0 <= i < |ms| && KeysOf(ms)[i] == k;
        AppliedMatched(p, ms, lookup, i);
        AppliedMatched(q, ms, lookup, i);
        match lookup(ms[i].packageWithVersion)
        case None =>
        case Some(m) =>
          if p[k].resolution.Some? {
            PatchIdempotent(p[k].resolution.value, m);
          }
      } else {
        AppliedUntouched(q, ms, lookup, k);
      }
    }
    ChangedCountPositiveIffModified(q, ms, lookup);
  }

  /** An entry whose resolution carries only an integrity hash. */
  function IntegrityEntry(integrity: string): Entry
  {
    Entry(Some(Resolution(Some(integrity), None, None, map[])), map[])
  }

  /** One matched package whose entry carries only an integrity hash `x`, and a
      registry that answers with another, non-empty hash `z`: the step counts once
      and leaves the entry carrying `z` alone. */
  lemma OneIntegrityRefreshed(p: map<string, Entry>, info: PackageInfo, lookup: Lookup, x: string, z: string)
    requires info.key in p && p[info.key] == IntegrityEntry(x)
    requires z != "" && x != z
    requires lookup(info.packageWithVersion) == Some(Metadata(Some(z), None, None, None))
    ensures ChangedCount(p, [info], lookup) == 1
    ensures Applied(p, [info], lookup) == p[info.key := IntegrityEntry(z)]
    ensures !AnyLookupFailed([info], lookup)
  {
    AppliedSnoc(p, [], info, lookup);
    assert [] + [info] == [info];
    IntegrityOnlyRefreshed(x, z, map[]);
    assert StepCounts(p, info, lookup);
    assert PatchEntry(p[info.key], lookup(info.packageWithVersion).value) == IntegrityEntry(z);
  }

  /** The lockfile as the migration holds it in memory. */
  class Lockfile {
    var keys: seq<string>
    var packages: map<string, Entry>
    var rest: map<string, string>

    ghost predicate Valid()
      reads this
    {
      WellFormed(Document(keys, packages, rest))
    }

    /** The document as it would be written back. */
    function Contents(): Document
      reads this
    {
      Document(keys, packages, rest)
    }

    /** The result of `readWantedLockfile`. */
    constructor Read(d: Document)
      requires WellFormed(d)
      ensures Valid() && Contents() == d
    {
      keys, packages, rest := d.keys, d.packages, d.rest;
    }

    /** The diff and patch of one package after its lookup (lines 210-283): each rule
        assigns or deletes one field of the entry's resolution, and the resolution is
        stored back into the entry; nothing reads the entry between the rules. */
    method UpdatePackage(key: string, m: Metadata) returns (updated: bool)
      requires Valid() && key in packages
      modifies this
      ensures Valid() && keys == old(keys) && rest == old(rest)
      ensures packages == old(packages)[key := PatchEntry(old(packages)[key], m)]
      ensures updated == EntryChanged(old(packages)[key], m)
    {
      updated := false;
      var entry := packages[key];
      if entry.resolution.Some? {
        var res := entry.resolution.value;
        ghost var original := res;
        if HasIntegrity(res) && res.integrity != m.integrity {
          if Truthy(m.integrity) {
            res := res.(integrity := m.integrity);
          } else {
            res := res.(integrity := None);
          }
          updated := true;
        }
        assert res == original.(integrity := Refreshed(original.integrity, m.integrity));
        assert updated == IntegrityDiffers(original, m);
        if HasTarball(res) && res.tarball != m.tarball {
          if Truthy(m.tarball) {
            res := res.(tarball := m.tarball);
          } else {
            res := res.(tarball := None);
          }
          updated := true;
        }
        assert res == original.(integrity := Refreshed(original.integrity, m.integrity),
                                tarball := Refreshed(original.tarball, m.tarball));
        assert updated == (IntegrityDiffers(original, m) || TarballDiffers(original, m));
        if HasType(res) && res.kind != m.kind && TypeRewritable(m) {
          if Truthy(m.kind) {
            res := res.(kind := m.kind);
          } else {
            res := res.(kind := None);
          }
          updated := true;
        }
        assert res == Patched(original, m);
        assert entry.(resolution := Some(res)) == PatchEntry(entry, m);
        packages := packages[key := entry.(resolution := Some(res))];
      } else {
        assert packages == packages[key := PatchEntry(entry, m)];
      }
    }

    /** The `Promise.all` over the matched packages (lines 152-289), one step after the
        other: look the package up, patch its entry, count it if it changed. */
    method RefreshAll(matched: seq<PackageInfo>, lookup: Lookup) returns (count: nat, failed: bool)
      requires Valid()
      requires forall i :: 0 <= i < |matched| ==> matched[i].key in keys
      modifies this
      ensures Valid() && keys == old(keys) && rest == old(rest)
      ensures packages == Applied(old(packages), matched, lookup)
      ensures count == ChangedCount(old(packages), matched, lookup)
      ensures failed == AnyLookupFailed(matched, lookup)
    {
      count, failed := 0, false;
      ghost var done: seq<PackageInfo> := [];
      var i := 0;
      while i < |matched|
        invariant 0 <= i <= |matched| && done == matched[..i]
        invariant Valid() && keys == old(keys) && rest == old(rest)
        invariant packages == Applied(old(packages), done, lookup)
        invariant count == ChangedCount(old(packages), done, lookup)
        invariant failed == AnyLookupFailed(done, lookup)
      {
        var info := matched[i];
        var answer := lookup(info.packageWithVersion);
        if answer.None? {
          UnansweredSnoc(old(packages), done, info, lookup);
          failed := true;
        } else {
          AnsweredSnoc(old(packages), done, info, lookup, answer.value);
          var updated := UpdatePackage(info.key, answer.value);
          if updated {
            count := count + 1;
          }
        }
        PrefixSnoc(matched, i);
        done := done + [info];
        i := i + 1;
      }
      assert done == matched;
    }
  }
}
