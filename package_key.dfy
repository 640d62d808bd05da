/** Turning lockfile package keys into `name@version` identifiers and selecting the
    ones that belong to the requested scopes (lib/src/pnpm-lockfile-migrate.ts:126-147). */
module PackageKey {
  import opened Wrappers
  import opened Strings

  /** A package key of the lockfile together with its `name@version` identifier. */
  datatype PackageInfo = PackageInfo(key: string, packageWithVersion: string)

  /** The identifier of a key: drop the leading `/`, cut at the first `(` (the peer
      suffix), then put `@` in place of the last `/`. When the rest holds no `/`,
      JavaScript's `substring(0, -1)` is "" and `substring(0)` the whole rest. */
  function Identifier(key: string): string
  {
    var base := TakeUntil(DropFirst(key), '(');
    var pos := LastIndexOf(base, '/');
    (if pos < 0 then "" else base[..pos]) + "@" + base[pos + 1..]
  }

  /** A key built as separator, name, `/`, version and an optional peer suffix gives
      exactly `name@version`; the name may itself contain `/`. */
  lemma IdentifierOfKey(lead: char, name: string, version: string, peers: string)
    requires '(' !in name && '(' !in version && '/' !in version
    requires peers == [] || peers[0] == '('
    ensures Identifier([lead] + name + "/" + version + peers) == name + "@" + version
  {
    var key := [lead] + name + "/" + version + peers;
    var base := name + "/" + version;
    assert DropFirst(key) == base + peers;
    TakeUntilPrefix(base, peers, '(');
    var pos := LastIndexOf(base, '/');
    assert base[|name|] == '/';
    assert pos == |name|;
    assert base[..pos] == name;
    assert base[pos + 1..] == version;
  }

  /** `TakeUntil` stops exactly where the text free of `c` ends. */
  lemma {:induction false} TakeUntilPrefix(a: string, b: string, c: char)
    requires c !in a
    requires b == [] || b[0] == c
    ensures TakeUntil(a + b, c) == a
  {
    if a != [] {
      assert (a + b)[1..] == a[1..] + b;
      TakeUntilPrefix(a[1..], b, c);
    }
  }

  /** A key whose rest holds no `/` becomes `@` followed by that rest. */
  lemma IdentifierWithoutSlash(lead: char, base: string)
    requires '(' !in base && '/' !in base
    ensures Identifier([lead] + base) == "@" + base
  {
    assert DropFirst([lead] + base) == base + [];
    TakeUntilPrefix(base, [], '(');
  }

  /** The worked example: a scoped package with a peer suffix. */
  lemma IdentifierExample(key: string)
    requires key == "/@scope/pkg/1.2.3(react@18)"
    ensures Identifier(key) == "@scope/pkg@1.2.3"
  {
    assert key == ['/'] + "@scope/pkg" + "/" + "1.2.3" + "(react@18)";
    assert "@scope/pkg" + "@" + "1.2.3" == "@scope/pkg@1.2.3";
    assert Identifier(['/'] + "@scope/pkg" + "/" + "1.2.3" + "(react@18)") == "@scope/pkg" + "@" + "1.2.3" by {
      IdentifierOfKey('/', "@scope/pkg", "1.2.3", "(react@18)");
    }
  }

  /** Of two keys, one in scope and one out of it, only the first is matched. */
  lemma MatchedPackagesPair(ka: string, kb: string, scopes: seq<string>)
    requires Matches(Identifier(ka), scopes) && !Matches(Identifier(kb), scopes)
    ensures MatchedPackages([ka, kb], scopes) == [PackageInfo(ka, Identifier(ka))]
  {
    assert [ka, kb][1..] == [kb];
    assert [kb][1..] == [];
  }

  /** `scopes.find(scope => id.startsWith(scope))`: the first scope that is a prefix
      of `id`, or none. */
  function FindScope(id: string, scopes: seq<string>): (r: Option<string>)
    ensures r.None? <==> forall i :: 0 <= i < |scopes| ==> !StartsWith(id, scopes[i])
    ensures r.Some? ==> exists i :: 0 <= i < |scopes| && scopes[i] == r.value
                          && StartsWith(id, scopes[i])
                          && forall j :: 0 <= j < i ==> !StartsWith(id, scopes[j])
  {
    if scopes == [] then None
    else if StartsWith(id, scopes[0]) then Some(scopes[0])
    else
      var r := FindScope(id, scopes[1..]);
      assert forall i :: 1 <= i < |scopes| ==> scopes[i] == scopes[1..][i - 1];
      if r.Some? then
        var i :| 0 <= i < |scopes[1..]| && scopes[1..][i] == r.value
                 && StartsWith(id, scopes[1..][i])
                 && forall j :: 0 <= j < i ==> !StartsWith(id, scopes[1..][j]);
        assert scopes[i + 1] == r.value;
        r
      else r
  }

  /** The filter as written: `!!scopes.find(...)` tests the TRUTHINESS of the scope it
      found, so an empty-string scope that is found first rejects the package. */
  predicate MatchesAsWritten(id: string, scopes: seq<string>)
  {
    var found := FindScope(id, scopes);
    found.Some? && found.value != ""
  }

  /** The intended filter, `scopes.some(scope => id.startsWith(scope))`: some scope is a
      string prefix of the identifier. */
  predicate Matches(id: string, scopes: seq<string>)
  {
    scopes != [] && (StartsWith(id, scopes[0]) || Matches(id, scopes[1..]))
  }

  /** `Matches` holds exactly when some listed scope is a prefix of the identifier. */
  lemma {:induction false} MatchesSomeScope(id: string, scopes: seq<string>)
    ensures Matches(id, scopes) <==> exists i :: 0 <= i < |scopes| && StartsWith(id, scopes[i])
  {
    if scopes != [] {
      MatchesSomeScope(id, scopes[1..]);
      if !StartsWith(id, scopes[0]) && exists i :: 0 <= i < |scopes| && StartsWith(id, scopes[i]) {
        var i :| 0 <= i < |scopes| && StartsWith(id, scopes[i]);
        assert scopes[1..][i - 1] == scopes[i];
      }
    }
  }

  /** Without an empty scope the filter as written and the intended one agree. */
  lemma MatchesAsWrittenAgrees(id: string, scopes: seq<string>)
    requires forall i :: 0 <= i < |scopes| ==> scopes[i] != ""
    ensures MatchesAsWritten(id, scopes) <==> Matches(id, scopes)
  {
    MatchesSomeScope(id, scopes);
    var found := FindScope(id, scopes);
    if found.Some? {
      var i :| 0 <= i < |scopes| && scopes[i] == found.value && StartsWith(id, scopes[i]);
    }
  }

  /** With an empty scope listed before `@foo`, the filter as written drops `@foo/bar@1`
      although `@foo` is one of its scopes. */
  lemma EmptyScopeHidesLaterScope()
    ensures Matches("@foo/bar@1", ["", "@foo"])
    ensures !MatchesAsWritten("@foo/bar@1", ["", "@foo"])
  {
    assert StartsWith("@foo/bar@1", ["", "@foo"][1]);
    assert StartsWith("@foo/bar@1", ["", "@foo"][0]);
  }

  /** Matching is a plain prefix test: `@foo/bar@1.0.0` is in scope `@foo`, not in `@foobar`. */
  lemma MatchesIsPrefixTest()
    ensures Matches("@foo/bar@1.0.0", ["@foo"])
    ensures !Matches("@foo/bar@1.0.0", ["@foobar"])
  {
    assert StartsWith("@foo/bar@1.0.0", ["@foo"][0]);
    assert "@foo/bar@1.0.0"[..7][4] != "@foobar"[4];
  }

  /** The keys, in order, of a list of package infos. */
  function KeysOf(infos: seq<PackageInfo>): (ks: seq<string>)
    ensures |ks| == |infos|
    ensures forall i :: 0 <= i < |infos| ==> ks[i] == infos[i].key
  {
    if infos == [] then [] else [infos[0].key] + KeysOf(infos[1..])
  }

  /** No key occurs twice. */
  predicate Distinct(ks: seq<string>)
  {
    forall i, j :: 0 <= i < j < |ks| ==> ks[i] != ks[j]
  }

  /** `Object.keys(packages).map(...)` (lines 126-141): every key with its identifier. */
  function Parsed(keys: seq<string>): (infos: seq<PackageInfo>)
    ensures |infos| == |keys|
    ensures forall i :: 0 <= i < |keys| ==> infos[i] == PackageInfo(keys[i], Identifier(keys[i]))
  {
    if keys == [] then [] else [PackageInfo(keys[0], Identifier(keys[0]))] + Parsed(keys[1..])
  }

  /** `.filter(...)` (lines 142-147): the packages whose identifier is in scope. */
  function InScope(infos: seq<PackageInfo>, scopes: seq<string>): (r: seq<PackageInfo>)
    ensures |r| <= |infos|
  {
    if infos == [] then []
    else (if Matches(infos[0].packageWithVersion, scopes) then [infos[0]] else []) + InScope(infos[1..], scopes)
  }

  /** `Object.keys(packages).map(parse).filter(matches)` (lines 126-147). */
  function MatchedPackages(keys: seq<string>, scopes: seq<string>): (r: seq<PackageInfo>)
    ensures |r| <= |keys|
  {
    if keys == [] then []
    else
      var info := PackageInfo(keys[0], Identifier(keys[0]));
      (if Matches(info.packageWithVersion, scopes) then [info] else [])
        + MatchedPackages(keys[1..], scopes)
  }

  /** Each matched package names a lockfile key, carries that key's identifier and
      is in scope. */
  lemma MatchedPackagesSound(keys: seq<string>, scopes: seq<string>, i: nat)
    requires i < |MatchedPackages(keys, scopes)|
    ensures var r := MatchedPackages(keys, scopes);
            && r[i].key in keys && r[i].packageWithVersion == Identifier(r[i].key)
            && Matches(r[i].packageWithVersion, scopes)
  {
    var infos := Parsed(keys);
    MatchedPackagesIsParsedInScope(keys, scopes);
    var r := InScope(infos, scopes);
    InScopeSound(infos, scopes, i);
    var j :| 0 <= j < |infos| && infos[j] == r[i];
  }

  /** Every package the filter keeps was there before and is in scope. */
  lemma {:induction false} InScopeSound(infos: seq<PackageInfo>, scopes: seq<string>, i: nat)
    requires i < |InScope(infos, scopes)|
    ensures var r := InScope(infos, scopes);
            r[i] in infos && Matches(r[i].packageWithVersion, scopes)
  {
    var head := if Matches(infos[0].packageWithVersion, scopes) then [infos[0]] else [];
    assert InScope(infos, scopes) == head + InScope(infos[1..], scopes);
    if i >= |head| {
      InScopeSound(infos[1..], scopes, i - |head|);
      var x := InScope(infos[1..], scopes)[i - |head|];
      assert x in infos[1..];
      var k :| 0 <= k < |infos[1..]| && infos[1..][k] == x;
      assert infos[k + 1] == x;
    }
  }

  /** Every key whose identifier is in scope is among the matched packages: together
      with the contract of `MatchedPackages`, the matched keys are exactly the keys
      in scope. */
  lemma MatchedPackagesComplete(keys: seq<string>, scopes: seq<string>, k: string)
    requires k in keys && Matches(Identifier(k), scopes)
    ensures exists i :: 0 <= i < |MatchedPackages(keys, scopes)| && MatchedPackages(keys, scopes)[i].key == k
  {
    var infos := Parsed(keys);
    var j :| 0 <= j < |keys| && keys[j] == k;
    InScopeComplete(infos, scopes, j);
    MatchedPackagesIsParsedInScope(keys, scopes);
    var r := InScope(infos, scopes);
    var i :| 0 <= i < |r| && r[i] == infos[j];
  }

  /** Every package in scope survives the filter. */
  lemma {:induction false} InScopeComplete(infos: seq<PackageInfo>, scopes: seq<string>, j: nat)
    requires j < |infos| && Matches(infos[j].packageWithVersion, scopes)
    ensures infos[j] in InScope(infos, scopes)
  {
    if j > 0 {
      assert infos[1..][j - 1] == infos[j];
      InScopeComplete(infos[1..], scopes, j - 1);
    }
  }

  /** The matched packages are the keys parsed and then filtered, as in the source. */
  lemma {:induction false} MatchedPackagesIsParsedInScope(keys: seq<string>, scopes: seq<string>)
    ensures MatchedPackages(keys, scopes) == InScope(Parsed(keys), scopes)
  {
    if keys != [] {
      assert Parsed(keys)[1..] == Parsed(keys[1..]);
      MatchedPackagesIsParsedInScope(keys[1..], scopes);
    }
  }

  /** Parsing works key by key. */
  lemma {:induction false} ParsedAppend(a: seq<string>, b: seq<string>)
    ensures Parsed(a + b) == Parsed(a) + Parsed(b)
  {
    if a == [] {
      assert a + b == b;
    } else {
      assert (a + b)[0] == a[0];
      assert (a + b)[1..] == a[1..] + b;
      ParsedAppend(a[1..], b);
    }
  }

  /** The filter distributes over concatenation. */
  lemma {:induction false} InScopeAppend(x: seq<PackageInfo>, y: seq<PackageInfo>, scopes: seq<string>)
    ensures InScope(x + y, scopes) == InScope(x, scopes) + InScope(y, scopes)
  {
    if x == [] {
      assert x + y == y;
    } else {
      var head := if Matches(x[0].packageWithVersion, scopes) then [x[0]] else [];
      assert (x + y)[0] == x[0];
      assert (x + y)[1..] == x[1..] + y;
      assert InScope(x + y, scopes) == head + InScope(x[1..] + y, scopes);
      InScopeAppend(x[1..], y, scopes);
    }
  }

  /** Filtering keeps the order of the lockfile's keys: the matched packages of two
      runs of keys are those of the first followed by those of the second. */
  lemma MatchedPackagesAppend(a: seq<string>, b: seq<string>, scopes: seq<string>)
    ensures MatchedPackages(a + b, scopes) == MatchedPackages(a, scopes) + MatchedPackages(b, scopes)
  {
    MatchedPackagesIsParsedInScope(a + b, scopes);
    MatchedPackagesIsParsedInScope(a, scopes);
    MatchedPackagesIsParsedInScope(b, scopes);
    ParsedAppend(a, b);
    InScopeAppend(Parsed(a), Parsed(b), scopes);
  }

  /** The matched keys of distinct lockfile keys are distinct. */
  lemma {:induction false} MatchedPackagesDistinct(keys: seq<string>, scopes: seq<string>)
    requires Distinct(keys)
    ensures Distinct(KeysOf(MatchedPackages(keys, scopes)))
  {
    if keys != [] {
      var rest := MatchedPackages(keys[1..], scopes);
      MatchedPackagesDistinct(keys[1..], scopes);
      assert keys[0] !in keys[1..];
      forall i | 0 <= i < |rest| ensures rest[i].key != keys[0] {
        MatchedPackagesSound(keys[1..], scopes, i);
      }
    }
  }
}
