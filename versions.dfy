/**
 * Resolving add-on version tokens against a catalog: `"latest"`, a floating `"X.Y.x"` token,
 * or an exact pin; the substitution table that makes a few versions sort correctly against
 * their own pre-release builds; the latest version of every minor; and the `X.Y.x` form of a
 * version.
 */
module Versions {
  import opened Wrappers
  import opened Text
  import SemVer

  /** `IInstallerVersions`: each add-on's published versions, newest first. */
  type Catalog = map<string, seq<string>>

  // ---------------------------------------------------------------- the substitution table

  type Table = seq<(string, string)>

  /**
   * `Installer.replaceVersions`: versions that must compare below their pre-release builds,
   * each with the surrogate they are compared as, in declaration order.
   */
  function Surrogates(addon: string): Table
  {
    if addon == "rook" then [("1.0.4", "1.0.4-0.0.0")]
    else if addon == "weave" then [("2.6.5", "2.6.5-0.0.0"), ("2.8.1", "2.8.1-0.0.0")]
    else if addon == "prometheus" then [("0.46.0", "0.46.0-0.0.0")]
    else []
  }

  predicate IsKey(table: Table, v: string)
  {
    exists i :: 0 <= i < |table| && table[i].0 == v
  }

  predicate IsSurrogate(table: Table, v: string)
  {
    exists i :: 0 <= i < |table| && table[i].1 == v
  }

  /** Keys and surrogates are distinct, and no surrogate is itself a key. */
  predicate TableWellFormed(table: Table)
  {
    (forall i, j :: 0 <= i < |table| && 0 <= j < |table| ==> table[i].1 != table[j].0)
    && (forall i, j :: 0 <= i < j < |table| ==> table[i].0 != table[j].0 && table[i].1 != table[j].1)
  }

  lemma SurrogatesWellFormed(addon: string)
    ensures TableWellFormed(Surrogates(addon))
  {
  }

  /** `_.get(replaceVersions, [addon, v], v)`: the surrogate of `v`, or `v` itself. */
  function SurrogateIn(table: Table, v: string): (r: string)
    ensures IsKey(table, v) ==> IsSurrogate(table, r)
    ensures !IsKey(table, v) ==> r == v
  {
    if |table| == 0 then v
    else if table[0].0 == v then table[0].1
    else SurrogateIn(table[1..], v)
  }

  /** The `.some(...)` step of `resolveVersion`: the first key whose surrogate is `m`, or `m` itself. */
  function OriginalIn(table: Table, m: string): (r: string)
    ensures r == m || IsKey(table, r)
    ensures IsSurrogate(table, m) ==> IsKey(table, r)
  {
    if |table| == 0 then m
    else if table[0].1 == m then table[0].0
    else OriginalIn(table[1..], m)
  }

  /** Mapping back never yields a surrogate. */
  lemma OriginalInNotSurrogate(table: Table, m: string)
    requires TableWellFormed(table)
    ensures !IsSurrogate(table, OriginalIn(table, m))
  {
    var r := OriginalIn(table, m);
    if IsSurrogate(table, m) {
      var i :| 0 <= i < |table| && table[i].0 == r;
      assert forall j :: 0 <= j < |table| ==> table[j].1 != table[i].0;
    } else if r != m {
      var i :| 0 <= i < |table| && table[i].0 == r;
      assert forall j :: 0 <= j < |table| ==> table[j].1 != table[i].0;
    }
  }

  /** Mapping back undoes the substitution for every version that is not itself a surrogate. */
  lemma {:induction false} OriginalOfSurrogate(table: Table, v: string)
    requires TableWellFormed(table)
    requires !IsSurrogate(table, v)
    ensures OriginalIn(table, SurrogateIn(table, v)) == v
  {
    if |table| > 0 && table[0].0 != v {
      var rest := table[1..];
      assert TableWellFormed(rest);
      forall i | 0 <= i < |rest|
        ensures rest[i].1 != v
      {
        assert rest[i] == table[i + 1];
      }
      OriginalOfSurrogate(rest, v);
      var s := SurrogateIn(rest, v);
      if IsKey(rest, v) {
        var i :| 0 <= i < |rest| && rest[i].1 == s;
        assert rest[i] == table[i + 1];
      }
      assert table[0].1 != s;
    }
  }

  /** One `next = next.map(...)` pass of `replaceAddonVersions`. */
  function MapVersion(versions: seq<string>, k: string, s: string): (r: seq<string>)
    ensures |r| == |versions|
    ensures forall i :: 0 <= i < |versions| ==> r[i] == (if versions[i] == k then s else versions[i])
  {
    seq(|versions|, i requires 0 <= i < |versions| => if versions[i] == k then s else versions[i])
  }

  /** The `forEach` of `replaceAddonVersions`: one pass per table entry, in order. */
  function ApplyTable(table: Table, versions: seq<string>): seq<string>
  {
    if |table| == 0 then versions
    else ApplyTable(table[1..], MapVersion(versions, table[0].0, table[0].1))
  }

  /** `Installer.replaceAddonVersions(addon, versions)`. */
  function ReplaceAddonVersions(addon: string, versions: seq<string>): seq<string>
  {
    ApplyTable(Surrogates(addon), versions)
  }

  /** The passes amount to replacing each version by its surrogate, position by position. */
  lemma {:induction false} ApplyTableElementwise(table: Table, versions: seq<string>)
    requires TableWellFormed(table)
    ensures |ApplyTable(table, versions)| == |versions|
    ensures forall i :: 0 <= i < |versions| ==> ApplyTable(table, versions)[i] == SurrogateIn(table, versions[i])
  {
    if |table| > 0 {
      var rest := table[1..];
      var next := MapVersion(versions, table[0].0, table[0].1);
      assert TableWellFormed(rest);
      ApplyTableElementwise(rest, next);
      forall i | 0 <= i < |rest|
        ensures rest[i].0 != table[0].1
      {
        assert rest[i] == table[i + 1];
      }
    }
  }

  lemma ReplaceAddonVersionsElementwise(addon: string, versions: seq<string>)
    ensures |ReplaceAddonVersions(addon, versions)| == |versions|
    ensures forall i :: 0 <= i < |versions| ==>
      ReplaceAddonVersions(addon, versions)[i] == SurrogateIn(Surrogates(addon), versions[i])
  {
    SurrogatesWellFormed(addon);
    ApplyTableElementwise(Surrogates(addon), versions);
  }

  // ---------------------------------------------------------------- the latest patch of a minor

  /** `/\.0(\d)\./` matches at `i`. */
  predicate ZeroPadAt(s: string, i: int)
  {
    0 <= i && i + 4 <= |s| && s[i] == '.' && s[i + 1] == '0' && IsDigit(s[i + 2]) && s[i + 3] == '.'
  }

  /** `s.replace(/\.0(\d)\./, ".$1.")`: drops the zero of the first zero-padded number, as in `19.03.15`. */
  function CleanZeroPad(s: string): (r: string)
    decreases |s|
  {
    if |s| < 4 then s
    else if ZeroPadAt(s, 0) then s[..1] + s[2..]
    else [s[0]] + CleanZeroPad(s[1..])
  }

  /** Only the first match is rewritten, and without a match the text is unchanged. */
  lemma {:induction false} CleanZeroPadFirstMatch(s: string)
    ensures (forall i :: !ZeroPadAt(s, i)) ==> CleanZeroPad(s) == s
    ensures forall i :: ZeroPadAt(s, i) && (forall j :: 0 <= j < i ==> !ZeroPadAt(s, j)) ==>
      CleanZeroPad(s) == s[..i + 1] + s[i + 2..]
    decreases |s|
  {
    if |s| >= 4 && !ZeroPadAt(s, 0) {
      CleanZeroPadFirstMatch(s[1..]);
      assert forall i :: ZeroPadAt(s[1..], i) <==> ZeroPadAt(s, i + 1);
      forall i | ZeroPadAt(s, i) && (forall j :: 0 <= j < i ==> !ZeroPadAt(s, j))
        ensures CleanZeroPad(s) == s[..i + 1] + s[i + 2..]
      {
        assert ZeroPadAt(s[1..], i - 1);
        assert forall j :: 0 <= j < i - 1 ==> !ZeroPadAt(s[1..], j);
        assert s[..i + 1] + s[i + 2..] == [s[0]] + (s[1..][..i] + s[1..][i + 1..]);
      }
    }
  }

  /** The token `resolveLatestPatchVersion` parses: cleaned, with its first `.x` read as `.0`. */
  function TokenVersion(xVersion: string): string
  {
    ReplaceFirst(CleanZeroPad(xVersion), ".x", ".0")
  }

  /** What a catalog entry is compared as: its cleaned form, when that parses on the given major and minor. */
  function CandidateKey(v: string, major: nat, minor: nat): (k: Option<SemVer.Version>)
    ensures k.Some? ==> SemVer.Parse(CleanZeroPad(v), false) == Success(k.value)
    ensures k.Some? ==> k.value.major == major && k.value.minor == minor
  {
    match SemVer.Parse(CleanZeroPad(v), false)
    case Failure(_) => None
    case Success(p) => if p.major == major && p.minor == minor then Some(p) else None
  }

  function CandidateKeys(versions: seq<string>, major: nat, minor: nat): (ks: seq<Option<SemVer.Version>>)
    ensures |ks| == |versions|
    ensures forall i :: 0 <= i < |versions| ==> ks[i] == CandidateKey(versions[i], major, minor)
  {
    seq(|versions|, i requires 0 <= i < |versions| => CandidateKey(versions[i], major, minor))
  }

  /** The index the `forEach` holds after `keys[..n]`: a later candidate replaces it only when strictly greater. */
  function Best(keys: seq<Option<SemVer.Version>>, n: nat): (b: Option<nat>)
    requires n <= |keys|
    ensures b.Some? ==> b.value < n && keys[b.value].Some?
  {
    if n == 0 then None
    else
      var prev := Best(keys, n - 1);
      if keys[n - 1].None? then prev
      else if prev.None? || SemVer.Compare(keys[n - 1].value, keys[prev.value].value) > 0 then Some(n - 1)
      else prev
  }

  /** One more entry of the `forEach`: the entry is taken exactly when it is a candidate above the held one. */
  lemma BestStep(keys: seq<Option<SemVer.Version>>, i: nat, best: Option<nat>, take: bool)
    requires i < |keys| && best == Best(keys, i)
    requires take <==> keys[i].Some? && (best.None? || SemVer.Compare(keys[i].value, keys[best.value].value) > 0)
    ensures Best(keys, i + 1) == if take then Some(i) else best
  {
  }

  /** The held index is the first candidate of greatest precedence, and there is one exactly when some entry is a candidate. */
  lemma {:induction false} BestIsFirstGreatest(keys: seq<Option<SemVer.Version>>, n: nat)
    requires n <= |keys|
    ensures Best(keys, n).None? <==> forall j :: 0 <= j < n ==> keys[j].None?
    ensures Best(keys, n).Some? ==>
      var b := Best(keys, n).value;
      (forall j :: 0 <= j < n && keys[j].Some? ==> SemVer.Compare(keys[j].value, keys[b].value) <= 0)
      && (forall j :: 0 <= j < b && keys[j].Some? ==> SemVer.Compare(keys[j].value, keys[b].value) < 0)
  {
    if n > 0 {
      BestIsFirstGreatest(keys, n - 1);
      var prev := Best(keys, n - 1);
      if keys[n - 1].Some? {
        var k := keys[n - 1].value;
        SemVer.CompareAntisymmetric(k, k);
        if prev.Some? {
          var p := keys[prev.value].value;
          SemVer.CompareAntisymmetric(k, p);
          if SemVer.Compare(k, p) > 0 {
            forall j | 0 <= j < n - 1 && keys[j].Some?
              ensures SemVer.Compare(keys[j].value, k) < 0
            {
              SemVer.CompareLeTransitive(keys[j].value, p, k);
            }
          }
        }
      }
    }
  }

  /** `Installer.resolveLatestPatchVersion(xVersion, versions)`, with a thrown exception as `Failure`. */
  function LatestPatch(xVersion: string, versions: seq<string>): Result<string>
  {
    match SemVer.Parse(TokenVersion(xVersion), false)
    case Failure(e) => Failure(e)
    case Success(t) =>
      match Best(CandidateKeys(versions, t.major, t.minor), |versions|)
      case None => Failure("latest patch version not found for " + xVersion)
      case Some(b) => Success(versions[b])
  }

  /**
   * The outcome of `resolveLatestPatchVersion`: a token that does not parse throws its parse
   * error; otherwise the result is a catalog entry on the token's major and minor that no
   * candidate exceeds, and the "not found" exception is thrown exactly when there is none.
   */
  lemma LatestPatchOutcome(xVersion: string, versions: seq<string>)
    ensures SemVer.Parse(TokenVersion(xVersion), false).Failure? ==>
      LatestPatch(xVersion, versions) == Failure(SemVer.Parse(TokenVersion(xVersion), false).error)
    ensures SemVer.Parse(TokenVersion(xVersion), false).Success? ==>
      var t := SemVer.Parse(TokenVersion(xVersion), false).value;
      var r := LatestPatch(xVersion, versions);
      (r.Failure? <==> forall j :: 0 <= j < |versions| ==> CandidateKey(versions[j], t.major, t.minor).None?)
      && (r.Failure? ==> r.error == "latest patch version not found for " + xVersion)
      && (r.Success? ==>
            r.value in versions
            && CandidateKey(r.value, t.major, t.minor).Some?
            && (forall j :: 0 <= j < |versions| && CandidateKey(versions[j], t.major, t.minor).Some? ==>
                  SemVer.Compare(CandidateKey(versions[j], t.major, t.minor).value, CandidateKey(r.value, t.major, t.minor).value) <= 0))
  {
    if SemVer.Parse(TokenVersion(xVersion), false).Success? {
      var t := SemVer.Parse(TokenVersion(xVersion), false).value;
      BestIsFirstGreatest(CandidateKeys(versions, t.major, t.minor), |versions|);
    }
  }

  lemma EmptyIsNotCandidate(major: nat, minor: nat)
    ensures CandidateKey("", major, minor).None?
  {
    assert CleanZeroPad("") == "";
    assert SemVer.Body("", false) == "";
    assert Split("", '.') == [""];
  }

  /**
   * What `ret` and `retClean` hold after the `forEach` has seen `versions[..n]`: nothing when
   * no entry was a candidate, otherwise the entry at `Best` and its cleaned form.
   */
  ghost predicate ScanState(versions: seq<string>, major: nat, minor: nat, n: nat,
                            best: Option<nat>, ret: string, retClean: string)
  {
    n <= |versions|
    && best == Best(CandidateKeys(versions, major, minor), n)
    && (best.None? ==> ret == "")
    && (best.Some? ==> ret == versions[best.value] && retClean == CleanZeroPad(ret) && ret != "")
  }

  /**
   * One call of the `forEach` callback on `versions[i]`: the entry replaces the held one
   * exactly when it is a candidate above it, so the state after it is the state of `versions[..i + 1]`.
   */
  method Consider(versions: seq<string>, i: nat, major: nat, minor: nat, ret: string, retClean: string,
                  ghost best: Option<nat>) returns (ret': string, retClean': string, ghost best': Option<nat>)
    requires i < |versions| && ScanState(versions, major, minor, i, best, ret, retClean)
    ensures ScanState(versions, major, minor, i + 1, best', ret', retClean')
    ensures ret' == ret || ret' == versions[i]
  {
    ghost var keys := CandidateKeys(versions, major, minor);
    EmptyIsNotCandidate(major, minor);
    var v := versions[i];
    var clean := CleanZeroPad(v);
    var take := false;
    if SemVer.Valid(clean) && SemVer.Major(clean).value == major && SemVer.Minor(clean).value == minor {
      take := ret == "" || SemVer.Gt(clean, retClean, false).value;
    }
    BestStep(keys, i, best, take);
    ret', retClean', best' := ret, retClean, best;
    if take {
      ret', retClean', best' := v, clean, Some(i);
    }
  }

  /** The `forEach` of `resolveLatestPatchVersion`: the held entry, or `""` when no entry is a candidate. */
  method ScanCandidates(versions: seq<string>, major: nat, minor: nat) returns (ret: string)
    ensures Best(CandidateKeys(versions, major, minor), |versions|).None? ==> ret == ""
    ensures Best(CandidateKeys(versions, major, minor), |versions|).Some? ==>
      ret == versions[Best(CandidateKeys(versions, major, minor), |versions|).value] && ret != ""
  {
    ret := "";
    var retClean := "";
    ghost var best: Option<nat> := None;
    for i := 0 to |versions|
      invariant ScanState(versions, major, minor, i, best, ret, retClean)
    {
      ret, retClean, best := Consider(versions, i, major, minor, ret, retClean, best);
    }
  }

  /** The imperative `resolveLatestPatchVersion`: parse the token, scan the entries, throw when nothing matched. */
  method ResolveLatestPatchVersion(xVersion: string, versions: seq<string>) returns (r: Result<string>)
    ensures r == LatestPatch(xVersion, versions)
  {
    var version := ReplaceFirst(CleanZeroPad(xVersion), ".x", ".0");
    var major := SemVer.Major(version);
    if major.Failure? {
      return Failure(major.error);
    }
    var minor := SemVer.Minor(version);
    var ret := ScanCandidates(versions, major.value, minor.value);
    if ret == "" {
      return Failure("latest patch version not found for " + xVersion);
    }
    return Success(ret);
  }

  // ---------------------------------------------------------------- resolveVersion and hasVersion

  /** `Installer.resolveVersion(catalog, addon, version)`, with a thrown exception as `Failure`. */
  function ResolveVersion(catalog: Catalog, addon: string, version: string): (r: Result<string>)
    ensures version == "latest" ==> r.Success?
    ensures version == "latest" && addon in catalog && |catalog[addon]| > 0 && catalog[addon][0] != "" ==> r.value == catalog[addon][0]
    ensures version == "latest" && (addon !in catalog || |catalog[addon]| == 0) ==> r.value == "latest"
    ensures version != "latest" && !EndsWith(version, ".x") ==> r == Success(version)
  {
    if version == "latest" then
      Success(if addon in catalog && |catalog[addon]| > 0 && catalog[addon][0] != "" then catalog[addon][0] else "latest")
    else if !EndsWith(version, ".x") then Success(version)
    else
      var list := if addon in catalog then catalog[addon] else [];
      match LatestPatch(version, ReplaceAddonVersions(addon, list))
      case Failure(e) => Failure(e)
      case Success(m) => Success(OriginalIn(Surrogates(addon), m))
  }

  /** A floating token never resolves to a surrogate: the winner is mapped back to the version it stands for. */
  lemma ResolveNeverSurrogate(catalog: Catalog, addon: string, version: string)
    requires EndsWith(version, ".x")
    requires ResolveVersion(catalog, addon, version).Success?
    ensures !IsSurrogate(Surrogates(addon), ResolveVersion(catalog, addon, version).value)
  {
    SurrogatesWellFormed(addon);
    var list := if addon in catalog then catalog[addon] else [];
    OriginalInNotSurrogate(Surrogates(addon), LatestPatch(version, ReplaceAddonVersions(addon, list)).value);
  }

  /** A floating token resolves to a catalog entry, or to the version a surrogate in the catalog stands for. */
  lemma ResolveFromCatalog(catalog: Catalog, addon: string, version: string)
    requires EndsWith(version, ".x") && addon in catalog
    requires ResolveVersion(catalog, addon, version).Success?
    ensures var r := ResolveVersion(catalog, addon, version).value;
      r in catalog[addon] || IsKey(Surrogates(addon), r)
  {
    var list := catalog[addon];
    var table := Surrogates(addon);
    ReplaceAddonVersionsElementwise(addon, list);
    LatestPatchOutcome(version, ReplaceAddonVersions(addon, list));
    var m := LatestPatch(version, ReplaceAddonVersions(addon, list)).value;
    var i :| 0 <= i < |list| && ReplaceAddonVersions(addon, list)[i] == m;
    SurrogatesWellFormed(addon);
    if IsKey(table, list[i]) {
      assert IsSurrogate(table, m);
    } else {
      assert m == list[i];
    }
  }

  /** `Installer.hasVersion(catalog, config, version)`, with a thrown exception as `Failure`. */
  function HasVersion(catalog: Catalog, config: string, version: string): (r: Result<bool>)
    ensures version == "latest" ==> r == Success(true)
    ensures version != "latest" && !EndsWith(version, ".x") ==>
      r == Success(config in catalog && version in catalog[config])
    ensures EndsWith(version, ".x") ==> (r.Failure? <==> ResolveVersion(catalog, config, version).Failure?)
  {
    if version == "latest" then Success(true)
    else match ResolveVersion(catalog, config, version)
      case Failure(e) => Failure(e)
      case Success(v) => Success(config in catalog && v in catalog[config])
  }

  /** Substituting again after mapping back gives the entry of the replaced list it started from. */
  lemma {:induction false} SurrogateOfOriginal(table: Table, m: string)
    requires TableWellFormed(table)
    requires IsSurrogate(table, m) || !IsKey(table, m)
    ensures SurrogateIn(table, OriginalIn(table, m)) == m
  {
    if |table| > 0 && table[0].1 != m {
      var rest := table[1..];
      assert TableWellFormed(rest);
      if IsSurrogate(table, m) {
        var k :| 0 <= k < |table| && table[k].1 == m;
        assert rest[k - 1] == table[k];
      } else {
        assert forall k :: 0 <= k < |rest| ==> rest[k] == table[k + 1];
      }
      SurrogateOfOriginal(rest, m);
      var r := OriginalIn(rest, m);
      if r != m {
        var i :| 0 <= i < |rest| && rest[i].0 == r;
        assert rest[i] == table[i + 1];
      }
    }
  }

  /**
   * The end-to-end outcome of a floating token: substituted again, the resolved version is a
   * candidate of the replaced list that no candidate of it exceeds.
   */
  lemma ResolveVersionOutcome(catalog: Catalog, addon: string, version: string)
    requires EndsWith(version, ".x")
    requires ResolveVersion(catalog, addon, version).Success?
    ensures SemVer.Parse(TokenVersion(version), false).Success?
    ensures
      var t := SemVer.Parse(TokenVersion(version), false).value;
      var replaced := ReplaceAddonVersions(addon, if addon in catalog then catalog[addon] else []);
      var s := SurrogateIn(Surrogates(addon), ResolveVersion(catalog, addon, version).value);
      s in replaced
      && CandidateKey(s, t.major, t.minor).Some?
      && (forall j :: 0 <= j < |replaced| && CandidateKey(replaced[j], t.major, t.minor).Some? ==>
            SemVer.Compare(CandidateKey(replaced[j], t.major, t.minor).value, CandidateKey(s, t.major, t.minor).value) <= 0)
  {
    var list := if addon in catalog then catalog[addon] else [];
    var table := Surrogates(addon);
    var replaced := ReplaceAddonVersions(addon, list);
    LatestPatchOutcome(version, replaced);
    var m := LatestPatch(version, replaced).value;
    ReplaceAddonVersionsElementwise(addon, list);
    SurrogatesWellFormed(addon);
    var i :| 0 <= i < |replaced| && replaced[i] == m;
    assert IsSurrogate(table, m) || !IsKey(table, m);
    SurrogateOfOriginal(table, m);
  }

  /**
   * A floating token that resolves is a version the catalog holds, so `hasVersion` accepts it,
   * provided no catalog entry is itself a surrogate.
   */
  lemma HasVersionOfFloating(catalog: Catalog, config: string, version: string)
    requires EndsWith(version, ".x")
    requires ResolveVersion(catalog, config, version).Success?
    requires config in catalog ==> forall j :: 0 <= j < |catalog[config]| ==> !IsSurrogate(Surrogates(config), catalog[config][j])
    ensures config in catalog
    ensures ResolveVersion(catalog, config, version).value in catalog[config]
    ensures HasVersion(catalog, config, version) == Success(true)
  {
    var list := if config in catalog then catalog[config] else [];
    var table := Surrogates(config);
    var replaced := ReplaceAddonVersions(config, list);
    LatestPatchOutcome(version, replaced);
    var m := LatestPatch(version, replaced).value;
    ReplaceAddonVersionsElementwise(config, list);
    SurrogatesWellFormed(config);
    var i :| 0 <= i < |replaced| && replaced[i] == m;
    OriginalOfSurrogate(table, list[i]);
  }

  // ---------------------------------------------------------------- latest of every minor

  /** `minorOf` (`semver.minor`) of every version, in order. */
  function MinorResults(versions: seq<string>, minorOf: string -> Result<nat>): (rs: seq<Result<nat>>)
    ensures |rs| == |versions|
    ensures forall j :: 0 <= j < |versions| ==> rs[j] == minorOf(versions[j])
  {
    seq(|versions|, j requires 0 <= j < |versions| => minorOf(versions[j]))
  }

  /** The values of `rs[..n]`, or the first failure among them: a `forEach` that throws at the first bad entry. */
  function AllValues(rs: seq<Result<nat>>, n: nat): (r: Result<seq<nat>>)
    requires n <= |rs|
    ensures r.Success? ==> |r.value| == n && forall j :: 0 <= j < n ==> rs[j] == Success(r.value[j])
    ensures r.Failure? ==> exists j :: 0 <= j < n && rs[j] == Failure(r.error) && forall k :: 0 <= k < j ==> rs[k].Success?
  {
    if n == 0 then Success([])
    else match AllValues(rs, n - 1)
      case Failure(e) => Failure(e)
      case Success(ms) =>
        match rs[n - 1]
        case Failure(e) => Failure(e)
        case Success(m) => Success(ms + [m])
  }

  /** The greatest of the minors, `0` for none. */
  function MaxOf(ms: seq<nat>): (g: nat)
    ensures forall j :: 0 <= j < |ms| ==> ms[j] <= g
    ensures g == 0 || g in ms
  {
    if |ms| == 0 then 0
    else
      var g := MaxOf(ms[..|ms| - 1]);
      assert ms == ms[..|ms| - 1] + [ms[|ms| - 1]];
      if ms[|ms| - 1] > g then ms[|ms| - 1] else g
  }

  /** `semver.gt` after reading both sides through the add-on's surrogates. */
  function SurrogateGt(addon: string): (gt: (string, string) -> Result<bool>)
  {
    (a: string, b: string) => SemVer.Gt(SurrogateIn(Surrogates(addon), a), SurrogateIn(Surrogates(addon), b), false)
  }

  /** The second `forEach` over `versions[..n]`: a version takes its minor's slot when `gt` puts it above the slot's version. */
  function Slots(versions: seq<string>, minors: seq<nat>, gt: (string, string) -> Result<bool>, greatest: nat, n: nat): (r: Result<seq<string>>)
    requires n <= |versions| == |minors|
    requires forall j :: 0 <= j < |minors| ==> minors[j] <= greatest
    ensures r.Success? ==> |r.value| == greatest + 1
  {
    if n == 0 then Success(seq(greatest + 1, _ => "0.0.0"))
    else match Slots(versions, minors, gt, greatest, n - 1)
      case Failure(e) => Failure(e)
      case Success(ret) =>
        var m := minors[n - 1];
        match gt(versions[n - 1], ret[m])
        case Failure(e) => Failure(e)
        case Success(greater) => Success(if greater then ret[m := versions[n - 1]] else ret)
  }

  /** `Installer.latestMinors(versions, addon)`; `None` stands for a missing list. */
  function LatestMinors(versions: Option<seq<string>>, addon: string): Result<seq<string>>
  {
    if versions.None? then Success([])
    else match AllValues(MinorResults(versions.value, SemVer.Minor), |versions.value|)
      case Failure(e) => Failure(e)
      case Success(ms) => Slots(versions.value, ms, SurrogateGt(addon), MaxOf(ms), |versions.value|)
  }

  /** `gt` behaves as "strictly above" in a total preorder on the strings it accepts. */
  ghost predicate GtPreorder(gt: (string, string) -> Result<bool>)
  {
    (forall a, b :: gt(a, b).Success? ==> gt(a, a) == Success(false))
    && (forall a, b, c :: gt(a, b) == Success(false) && gt(c, b) == Success(true) ==> gt(a, c) == Success(false))
  }

  /** `semver.gt` through the surrogates is such a comparison. */
  lemma SurrogateGtPreorder(addon: string)
    ensures GtPreorder(SurrogateGt(addon))
  {
    var gt := SurrogateGt(addon);
    var table := Surrogates(addon);
    forall a, b | gt(a, b).Success?
      ensures gt(a, a) == Success(false)
    {
      SemVer.GtIrreflexive(SurrogateIn(table, a), SurrogateIn(table, b));
    }
    forall a, b, c | gt(a, b) == Success(false) && gt(c, b) == Success(true)
      ensures gt(a, c) == Success(false)
    {
      SemVer.GtChain(SurrogateIn(table, a), SurrogateIn(table, b), SurrogateIn(table, c));
    }
  }

  /**
   * After `versions[..n]`, each slot holds `"0.0.0"` or a version of that minor from the
   * list, and no version seen so far is above the slot of its minor.
   */
  lemma {:induction false} SlotsHoldGreatest(versions: seq<string>, minors: seq<nat>, gt: (string, string) -> Result<bool>, greatest: nat, n: nat)
    requires n <= |versions| == |minors|
    requires forall j :: 0 <= j < |minors| ==> minors[j] <= greatest
    requires GtPreorder(gt)
    requires Slots(versions, minors, gt, greatest, n).Success?
    ensures var ret := Slots(versions, minors, gt, greatest, n).value;
      (forall m :: 0 <= m < |ret| ==> ret[m] == "0.0.0" || exists j :: 0 <= j < n && minors[j] == m && versions[j] == ret[m])
      && (forall j :: 0 <= j < n ==> gt(versions[j], ret[minors[j]]) == Success(false))
  {
    if n > 0 {
      SlotsHoldGreatest(versions, minors, gt, greatest, n - 1);
      var prev := Slots(versions, minors, gt, greatest, n - 1).value;
      var ret := Slots(versions, minors, gt, greatest, n).value;
      var v := versions[n - 1];
      var m := minors[n - 1];
      assert gt(v, prev[m]).Success?;
      if gt(v, prev[m]).value {
        assert ret == prev[m := v];
      } else {
        assert ret == prev;
      }
    }
  }

  /**
   * What `latestMinors` returns for a list: one slot per minor up to the greatest, each
   * `"0.0.0"` or a listed version of that minor, and no listed version above the slot of its
   * minor once both are read through the surrogates.
   */
  lemma LatestMinorsSlots(versions: seq<string>, addon: string)
    requires LatestMinors(Some(versions), addon).Success?
    ensures var ret := LatestMinors(Some(versions), addon).value;
      (forall j :: 0 <= j < |versions| ==> SemVer.Minor(versions[j]).Success? && SemVer.Minor(versions[j]).value < |ret|)
      && (|ret| == 1 || exists j :: 0 <= j < |versions| && SemVer.Minor(versions[j]) == Success(|ret| - 1))
      && (forall m :: 0 <= m < |ret| ==> ret[m] == "0.0.0" || exists j :: 0 <= j < |versions| && SemVer.Minor(versions[j]) == Success(m) && versions[j] == ret[m])
      && (forall j :: 0 <= j < |versions| ==> SurrogateGt(addon)(versions[j], ret[SemVer.Minor(versions[j]).value]) == Success(false))
  {
    var ms := AllValues(MinorResults(versions, SemVer.Minor), |versions|).value;
    assert LatestMinors(Some(versions), addon) == Slots(versions, ms, SurrogateGt(addon), MaxOf(ms), |versions|);
    SurrogateGtPreorder(addon);
    SlotsOfMinors(versions, SemVer.Minor, SurrogateGt(addon));
  }

  /** `LatestMinorsSlots` for any minor-number reader and any such comparison. */
  lemma SlotsOfMinors(versions: seq<string>, minorOf: string -> Result<nat>, gt: (string, string) -> Result<bool>)
    requires GtPreorder(gt)
    requires AllValues(MinorResults(versions, minorOf), |versions|).Success?
    requires var ms := AllValues(MinorResults(versions, minorOf), |versions|).value;
      Slots(versions, ms, gt, MaxOf(ms), |versions|).Success?
    ensures var ms := AllValues(MinorResults(versions, minorOf), |versions|).value;
      var ret := Slots(versions, ms, gt, MaxOf(ms), |versions|).value;
      (forall j :: 0 <= j < |versions| ==> minorOf(versions[j]).Success? && minorOf(versions[j]).value < |ret|)
      && (|ret| == 1 || exists j :: 0 <= j < |versions| && minorOf(versions[j]) == Success(|ret| - 1))
      && (forall m :: 0 <= m < |ret| ==> ret[m] == "0.0.0" || exists j :: 0 <= j < |versions| && minorOf(versions[j]) == Success(m) && versions[j] == ret[m])
      && (forall j :: 0 <= j < |versions| ==> gt(versions[j], ret[minorOf(versions[j]).value]) == Success(false))
  {
    var rs := MinorResults(versions, minorOf);
    var ms := AllValues(rs, |versions|).value;
    var ret := Slots(versions, ms, gt, MaxOf(ms), |versions|).value;
    forall j | 0 <= j < |versions|
      ensures minorOf(versions[j]) == Success(ms[j])
    {
      assert rs[j] == Success(ms[j]);
    }
    SlotsHoldGreatest(versions, ms, gt, MaxOf(ms), |versions|);
    assert |ret| == MaxOf(ms) + 1;
    if MaxOf(ms) != 0 {
      var j :| 0 <= j < |ms| && ms[j] == MaxOf(ms);
      assert 0 <= j < |versions| && minorOf(versions[j]) == Success(|ret| - 1);
    }
  }

  /** One more entry: its failure ends the collection, its value is appended. */
  lemma AllValuesStep(rs: seq<Result<nat>>, i: nat, ms: seq<nat>)
    requires i < |rs| && AllValues(rs, i) == Success(ms)
    ensures AllValues(rs, i + 1) == match rs[i] case Failure(e) => Failure(e) case Success(m) => Success(ms + [m])
  {
  }

  /** Once an entry fails, later entries do not change the outcome. */
  lemma {:induction false} AllValuesFailureStays(rs: seq<Result<nat>>, n: nat, m: nat)
    requires n <= m <= |rs| && AllValues(rs, n).Failure?
    ensures AllValues(rs, m) == AllValues(rs, n)
    decreases m
  {
    if m > n {
      AllValuesFailureStays(rs, n, m - 1);
    }
  }

  /** The greatest after one more value. */
  lemma MaxOfSnoc(ms: seq<nat>, x: nat)
    ensures MaxOf(ms + [x]) == if x > MaxOf(ms) then x else MaxOf(ms)
  {
    assert (ms + [x])[..|ms|] == ms;
  }

  /**
   * The first `forEach` of `latestMinors`: the greatest minor, throwing at the first version
   * that does not parse; `ms` keeps the minors read, and `minorOf` is `semver.minor`.
   */
  method GreatestMinor(vs: seq<string>, minorOf: string -> Result<nat>) returns (r: Result<nat>, ms: seq<nat>)
    ensures AllValues(MinorResults(vs, minorOf), |vs|).Failure? ==> r == Failure(AllValues(MinorResults(vs, minorOf), |vs|).error)
    ensures AllValues(MinorResults(vs, minorOf), |vs|).Success? ==>
      ms == AllValues(MinorResults(vs, minorOf), |vs|).value && r == Success(MaxOf(ms))
  {
    var greatest := 0;
    ghost var rs := MinorResults(vs, minorOf);
    ms := [];
    for i := 0 to |vs|
      invariant AllValues(rs, i) == Success(ms) && greatest == MaxOf(ms)
    {
      var minor := minorOf(vs[i]);
      assert minor == rs[i];
      AllValuesStep(rs, i, ms);
      if minor.Failure? {
        AllValuesFailureStays(rs, i + 1, |vs|);
        return Failure(minor.error), ms;
      }
      MaxOfSnoc(ms, minor.value);
      ms := ms + [minor.value];
      if minor.value > greatest {
        greatest := minor.value;
      }
    }
    return Success(greatest), ms;
  }

  /** Once a comparison throws, the rest of the loop is never reached. */
  lemma {:induction false} SlotsFailureStays(vs: seq<string>, ms: seq<nat>, gt: (string, string) -> Result<bool>, greatest: nat, n: nat, m: nat)
    requires n <= m <= |vs| == |ms|
    requires forall j :: 0 <= j < |ms| ==> ms[j] <= greatest
    requires Slots(vs, ms, gt, greatest, n).Failure?
    ensures Slots(vs, ms, gt, greatest, m) == Slots(vs, ms, gt, greatest, n)
    decreases m
  {
    if m > n {
      SlotsFailureStays(vs, ms, gt, greatest, n, m - 1);
    }
  }

  /**
   * The second `forEach` of `latestMinors`, over an array of `greatest + 1` slots; `gt` is the
   * comparison through the surrogates, and `ms` the minors the first pass read.
   */
  method FillSlots(vs: seq<string>, ms: seq<nat>, gt: (string, string) -> Result<bool>, greatest: nat) returns (r: Result<seq<string>>)
    requires |vs| == |ms|
    requires forall j :: 0 <= j < |ms| ==> ms[j] <= greatest
    ensures r == Slots(vs, ms, gt, greatest, |vs|)
  {
    var ret := new string[greatest + 1](_ => "0.0.0");
    assert ret[..] == seq(greatest + 1, _ => "0.0.0");
    for i := 0 to |vs|
      invariant Slots(vs, ms, gt, greatest, i) == Success(ret[..])
    {
      var minor := ms[i];
      var greater := gt(vs[i], ret[minor]);
      if greater.Failure? {
        SlotsFailureStays(vs, ms, gt, greatest, i + 1, |vs|);
        return Failure(greater.error);
      }
      if greater.value {
        ret[minor] := vs[i];
      }
    }
    return Success(ret[..]);
  }

  /** The imperative `latestMinors`: the greatest minor in one pass, then the slots in a second. */
  method LatestMinorsInPlace(versions: Option<seq<string>>, addon: string) returns (r: Result<seq<string>>)
    ensures r == LatestMinors(versions, addon)
  {
    if versions.None? {
      return Success([]);
    }
    var vs := versions.value;
    var greatest, ms := GreatestMinor(vs, SemVer.Minor);
    if greatest.Failure? {
      return Failure(greatest.error);
    }
    r := FillSlots(vs, ms, SurrogateGt(addon), greatest.value);
  }

  // ---------------------------------------------------------------- toDotXVersion

  /** The number of leading decimal digits. */
  function LeadingDigits(s: string): (n: nat)
    ensures n <= |s|
    ensures forall i :: 0 <= i < n ==> IsDigit(s[i])
    ensures n < |s| ==> !IsDigit(s[n])
  {
    if |s| > 0 && IsDigit(s[0]) then 1 + LeadingDigits(s[1..]) else 0
  }

  /** A character `.` does not match in a JavaScript regular expression. */
  predicate IsLineTerminator(c: char)
  {
    c == '\n' || c == '\r' || c == '\U{2028}' || c == '\U{2029}'
  }

  /** The length of the `\d+\.\d+\.` prefix when the string starts with `\d+\.\d+\.\d+`. */
  function DotXPrefix(s: string): (p: Option<nat>)
    ensures p.Some? ==> 4 <= p.value < |s| && s[p.value - 1] == '.' && IsDigit(s[p.value]) && IsDigit(s[0])
  {
    DotXFrom(s, LeadingDigits(s))
  }

  /** `DotXPrefix` once the major version's digits `s[..a]` are known. */
  function DotXFrom(s: string, a: nat): (p: Option<nat>)
    requires a <= |s|
    ensures p.Some? ==> 0 < a && a + 2 < p.value < |s| && s[p.value - 1] == '.' && IsDigit(s[p.value])
  {
    if a == 0 || a == |s| || s[a] != '.' then None
    else DotXAfter(s, a, LeadingDigits(s[a + 1..]))
  }

  /** `DotXPrefix` once the minor version's digits `s[a + 1..][..b]` are known too. */
  function DotXAfter(s: string, a: nat, b: nat): (p: Option<nat>)
    requires a < |s| && a + 1 + b <= |s|
    ensures p.Some? ==> p.value == a + 2 + b && 0 < b && p.value < |s| && s[p.value - 1] == '.' && IsDigit(s[p.value])
  {
    if b == 0 || a + 1 + b == |s| || s[a + 1 + b] != '.' then None
    else if a + 2 + b == |s| || !IsDigit(s[a + 2 + b]) then None
    else Some(a + 2 + b)
  }

  /** `Installer.toDotXVersion(version)`: `X.Y.<anything>` becomes `X.Y.x`; anything else is returned as is. */
  function ToDotXVersion(version: string): (r: string)
    ensures DotXPrefix(version).None? ==> r == version
  {
    match DotXPrefix(version)
    case None => version
    case Some(p) =>
      if exists i :: p <= i < |version| && IsLineTerminator(version[i]) then version
      else version[..p] + "x"
  }

  /** A version `X.Y.Z…` whose patch part starts with a digit becomes `X.Y.x`. */
  lemma ToDotXVersionOfTriple(a: string, b: string, c: string)
    requires |a| > 0 && AllDigits(a) && |b| > 0 && AllDigits(b)
    requires |c| > 0 && IsDigit(c[0])
    requires forall i :: 0 <= i < |c| ==> !IsLineTerminator(c[i])
    ensures ToDotXVersion(a + "." + b + "." + c) == a + "." + b + ".x"
  {
    var s := a + "." + b + "." + c;
    var p := |a| + 2 + |b|;
    DotXPrefixOfTriple(a, b, c);
    assert s[p..] == c;
    TailFreeOfTerminators(s, p);
    assert s[..p] == a + "." + b + ".";
  }

  /** A suffix without line terminators leaves none from its start on. */
  lemma TailFreeOfTerminators(s: string, p: nat)
    requires p <= |s|
    requires forall i :: 0 <= i < |s[p..]| ==> !IsLineTerminator(s[p..][i])
    ensures !exists i :: p <= i < |s| && IsLineTerminator(s[i])
  {
    forall i | p <= i < |s|
      ensures !IsLineTerminator(s[i])
    {
      assert s[i] == s[p..][i - p];
    }
  }

  /** The `X.Y.` prefix of `X.Y.Z…` ends right before the patch part. */
  lemma DotXPrefixOfTriple(a: string, b: string, c: string)
    requires |a| > 0 && AllDigits(a) && |b| > 0 && AllDigits(b)
    requires |c| > 0 && IsDigit(c[0])
    ensures DotXPrefix(a + "." + b + "." + c) == Some(|a| + 2 + |b|)
  {
    var s := a + "." + b + "." + c;
    var n := |a|;
    var m := |b|;
    assert forall i :: 0 <= i < n ==> s[i] == a[i];
    assert s[n] == '.';
    LeadingDigitsUpTo(s, n);
    var t := s[n + 1..];
    assert forall i :: 0 <= i < m ==> t[i] == b[i];
    assert t[m] == '.';
    LeadingDigitsUpTo(t, m);
    assert s[n + 2 + m] == c[0];
    DotXPrefixAt(s, n, m);
  }

  /** The digit runs and dots `DotXPrefix` looks for give its prefix length. */
  lemma DotXPrefixAt(s: string, a: nat, b: nat)
    requires a + 2 + b < |s|
    requires 0 < a && LeadingDigits(s) == a && s[a] == '.'
    requires 0 < b && LeadingDigits(s[a + 1..]) == b && s[a + 1..][b] == '.'
    requires IsDigit(s[a + 2 + b])
    ensures DotXPrefix(s) == Some(a + 2 + b)
  {
    assert DotXFrom(s, a) == DotXAfter(s, a, b);
  }

  /** Digits up to a non-digit at position `n` make `n` the leading digit count. */
  lemma LeadingDigitsUpTo(s: string, n: nat)
    requires n < |s| && !IsDigit(s[n])
    requires forall i :: 0 <= i < n ==> IsDigit(s[i])
    ensures LeadingDigits(s) == n
  {
  }

  /** A changed version keeps its `X.Y.` prefix and ends in `.x`, and converting twice changes nothing more. */
  lemma ToDotXVersionIdempotent(version: string)
    ensures ToDotXVersion(version) != version ==> StartsWith(version, ToDotXVersion(version)[..|ToDotXVersion(version)| - 1])
    ensures ToDotXVersion(version) != version ==> EndsWith(ToDotXVersion(version), ".x")
    ensures ToDotXVersion(ToDotXVersion(version)) == ToDotXVersion(version)
  {
    var r := ToDotXVersion(version);
    if r != version {
      var p := DotXPrefix(version).value;
      assert r == version[..p] + "x";
      assert r[p - 1..] == ".x";
      assert r[..|r| - 1] == version[..p];
      ConvertedIsFinal(version, p);
    }
  }

  /** Cutting after the `X.Y.` prefix and appending `x` leaves no `X.Y.Z` prefix to convert. */
  lemma ConvertedIsFinal(version: string, p: nat)
    requires DotXPrefix(version) == Some(p)
    ensures DotXPrefix(version[..p] + "x").None?
  {
    var r := version[..p] + "x";
    var a := LeadingDigits(version);
    var b := LeadingDigits(version[a + 1..]);
    assert p == a + 2 + b;
    assert forall i :: 0 <= i < p ==> r[i] == version[i];
    DigitRunsKept(version, r, a, b);
    assert r[a + 2 + b] == 'x';
  }

  /** A string that agrees with `s` up to the end of its second digit run has the same two runs. */
  lemma DigitRunsKept(s: string, t: string, a: nat, b: nat)
    requires a + 2 + b < |s| && a + 2 + b < |t|
    requires forall i :: 0 <= i < a + 2 + b ==> t[i] == s[i]
    requires LeadingDigits(s) == a && LeadingDigits(s[a + 1..]) == b
    ensures LeadingDigits(t) == a && LeadingDigits(t[a + 1..]) == b
  {
    LeadingDigitsAgree(s, t, a);
    var s', t' := s[a + 1..], t[a + 1..];
    forall i | 0 <= i <= b
      ensures s'[i] == t'[i]
    {
      assert s'[i] == s[a + 1 + i] && t'[i] == t[a + 1 + i];
    }
    LeadingDigitsAgree(s', t', b);
  }

  /** Two strings that agree on their first `n + 1` characters have the same leading digit count up to `n`. */
  lemma LeadingDigitsAgree(s: string, t: string, n: nat)
    requires n < |s| && n < |t| && forall i :: 0 <= i <= n ==> s[i] == t[i]
    requires LeadingDigits(s) == n
    ensures LeadingDigits(t) == n
  {
    assert s[..n + 1] == t[..n + 1];
    LeadingDigitsPrefix(s, t, n);
  }

  /** Two strings that agree on their first `n + 1` characters have the same leading digit count up to `n`. */
  lemma {:induction false} LeadingDigitsPrefix(s: string, t: string, n: nat)
    requires n < |s| && n < |t| && s[..n + 1] == t[..n + 1]
    requires LeadingDigits(s) == n
    ensures LeadingDigits(t) == n
  {
    if n > 0 {
      assert s[1..][..n] == s[..n + 1][1..];
      assert t[1..][..n] == t[..n + 1][1..];
      LeadingDigitsPrefix(s[1..], t[1..], n - 1);
    } else {
      assert s[0] == t[0];
    }
  }
}
