/**
 * The add-on version catalog served to the installer logic
 * (`src/installers/installer-versions.ts`): the internal catalog fetched from the dist
 * bucket and cached per URL, the external add-on registry refreshed by a poller, and the
 * merge of the two.  The module-level state of the source (the cache, the registry and
 * the timer) is the state of one `CatalogStore` object; each HTTP response is an input.
 */
module InstallerVersions {
  import opened Wrappers
  import opened Text
  import SemVer
  import PackageUrls
  import opened Versions

  // ------------------------------------------------------------- merging

  /** The registry key without its `.tar.gz` suffix, as `key.slice(0, key.length - 7)` cuts it. */
  function FileName(key: string): (f: string)
    ensures |key| >= 7 ==> f + key[|key| - 7..] == key
    ensures |key| < 7 ==> |f| == if 2 * |key| >= 7 then 2 * |key| - 7 else 0
  {
    var end := if |key| >= 7 then |key| - 7 else if 2 * |key| >= 7 then 2 * |key| - 7 else 0;
    key[..end]
  }

  /**
   * `[name, version] = fileName.split("-")`: the text before the first dash and the text
   * between the first and the second; a key with no dash reads its version as `undefined`.
   */
  function Registration(key: string): (nv: (string, string))
    ensures '-' !in nv.0 && '-' !in nv.1
  {
    var parts := Split(FileName(key), '-');
    (parts[0], if |parts| > 1 then parts[1] else "undefined")
  }

  /** The filter on registry entries: everything without a pinned kURL version, else `semver.gte(version, kurlVersion, true)`. */
  function Keep(kurlVersion: string): string -> Result<bool>
  {
    v => if kurlVersion == "" then Success(true) else SemVer.Gte(v, kurlVersion, true)
  }

  /** Every registry key read as `(name, version)`. */
  function Registrations(keys: seq<string>): (regs: seq<(string, string)>)
    ensures |regs| == |keys|
    ensures forall i :: 0 <= i < |keys| ==> regs[i] == Registration(keys[i])
  {
    seq(|keys|, i requires 0 <= i < |keys| => Registration(keys[i]))
  }

  /** The versions registered for `name` that the filter keeps, in registry order. */
  function VersionsOf(keep: string -> Result<bool>, regs: seq<(string, string)>, name: string): seq<string>
  {
    if |regs| == 0 then []
    else
      var nv := regs[|regs| - 1];
      VersionsOf(keep, regs[..|regs| - 1], name)
        + (if nv.0 == name && keep(nv.1) == Success(true) then [nv.1] else [])
  }

  function Reverse(s: seq<string>): (r: seq<string>)
    ensures |r| == |s|
  {
    if |s| == 0 then [] else Reverse(s[1..]) + [s[0]]
  }

  lemma {:induction false} ReverseSnoc(s: seq<string>, x: string)
    ensures Reverse(s + [x]) == [x] + Reverse(s)
    decreases |s|
  {
    if |s| > 0 {
      assert (s + [x])[1..] == s[1..] + [x];
      ReverseSnoc(s[1..], x);
    } else {
      assert s + [x] == [x];
    }
  }

  /** The first loop of `mergeAddonVersions`, over a prefix of the registry: each kept version is put in front of its add-on's list. */
  function ExternalCatalog(keep: string -> Result<bool>, regs: seq<(string, string)>): Result<Catalog>
  {
    if |regs| == 0 then Success(map[])
    else match ExternalCatalog(keep, regs[..|regs| - 1])
      case Failure(e) => Failure(e)
      case Success(c) => AddExternal(keep, c, regs[|regs| - 1])
  }

  /** One step of the first loop: a kept version goes in front of its add-on's list; a throwing comparison fails. */
  function AddExternal(keep: string -> Result<bool>, c: Catalog, nv: (string, string)): Result<Catalog>
  {
    match keep(nv.1)
    case Failure(e) => Failure(e)
    case Success(ok) =>
      if !ok then Success(c)
      else Success(c[nv.0 := [nv.1] + (if nv.0 in c then c[nv.0] else [])])
  }

  /** A catalog's list for `name`, empty when the catalog has none. */
  function ListOf(c: Catalog, name: string): seq<string>
  {
    if name in c then c[name] else []
  }

  /** The second loop of `mergeAddonVersions`: every internal list is appended behind the external one of the same add-on. */
  function Combine(external: Catalog, internal: Catalog): Catalog
  {
    map k | k in external.Keys + internal.Keys :: ListOf(external, k) + ListOf(internal, k)
  }

  /** `mergeAddonVersions`: a failing version comparison is the exception the merge throws. */
  function Merge(keep: string -> Result<bool>, keys: seq<string>, internal: Catalog): Result<Catalog>
  {
    match ExternalCatalog(keep, Registrations(keys))
    case Failure(e) => Failure(e)
    case Success(external) => Success(Combine(external, internal))
  }

  /** The comparison for one registration did not throw. */
  predicate Compares(keep: string -> Result<bool>, nv: (string, string))
  {
    keep(nv.1).Success?
  }

  /** The external lists hold the kept versions of each add-on in reverse registry order, and only non-empty lists exist. */
  lemma {:induction false} ExternalCatalogReads(keep: string -> Result<bool>, regs: seq<(string, string)>, name: string)
    requires ExternalCatalog(keep, regs).Success?
    ensures name in ExternalCatalog(keep, regs).value <==> VersionsOf(keep, regs, name) != []
    ensures ListOf(ExternalCatalog(keep, regs).value, name) == Reverse(VersionsOf(keep, regs, name))
    decreases |regs|
  {
    if |regs| > 0 {
      var init := regs[..|regs| - 1];
      var nv := regs[|regs| - 1];
      ExternalCatalogReads(keep, init, name);
      var before := VersionsOf(keep, init, name);
      if nv.0 == name && keep(nv.1) == Success(true) {
        ReverseSnoc(before, nv.1);
      } else {
        assert VersionsOf(keep, regs, name) == before + [] == before;
      }
    }
  }

  /** The first loop throws exactly when the comparison throws for some registration. */
  lemma {:induction false} ExternalCatalogSucceeds(keep: string -> Result<bool>, regs: seq<(string, string)>)
    ensures ExternalCatalog(keep, regs).Success? <==> forall i :: 0 <= i < |regs| ==> Compares(keep, regs[i])
    decreases |regs|
  {
    if |regs| > 0 {
      var init := regs[..|regs| - 1];
      ExternalCatalogSucceeds(keep, init);
      assert forall i :: 0 <= i < |init| ==> init[i] == regs[i];
    }
  }

  /** Each add-on of the merge lists its kept external versions newest-registered first, then its internal versions. */
  lemma MergeReads(keep: string -> Result<bool>, keys: seq<string>, internal: Catalog, name: string)
    requires Merge(keep, keys, internal).Success?
    ensures name in Merge(keep, keys, internal).value <==> name in internal || VersionsOf(keep, Registrations(keys), name) != []
    ensures ListOf(Merge(keep, keys, internal).value, name) ==
      Reverse(VersionsOf(keep, Registrations(keys), name)) + ListOf(internal, name)
  {
    ExternalCatalogReads(keep, Registrations(keys), name);
  }

  /** The merge throws exactly when the comparison throws for some registry key. */
  lemma MergeThrows(keep: string -> Result<bool>, keys: seq<string>, internal: Catalog)
    ensures Merge(keep, keys, internal).Failure? <==> exists i :: 0 <= i < |keys| && keep(Registration(keys[i]).1).Failure?
  {
    ExternalCatalogSucceeds(keep, Registrations(keys));
    if Merge(keep, keys, internal).Failure? {
      var i :| 0 <= i < |keys| && !Compares(keep, Registrations(keys)[i]);
      assert keep(Registration(keys[i]).1).Failure?;
    }
  }

  /** Without a pinned kURL version nothing is compared, so nothing throws and every registry key is listed. */
  lemma MergeUnpinned(keys: seq<string>, internal: Catalog)
    ensures Merge(Keep(""), keys, internal).Success?
    ensures forall i :: 0 <= i < |keys| ==> Registration(keys[i]).0 in Merge(Keep(""), keys, internal).value
  {
    var regs := Registrations(keys);
    ExternalCatalogSucceeds(Keep(""), regs);
    forall i | 0 <= i < |keys|
      ensures Registration(keys[i]).0 in Merge(Keep(""), keys, internal).value
    {
      VersionsOfListsKey(Keep(""), regs, i);
      MergeReads(Keep(""), keys, internal, Registration(keys[i]).0);
    }
  }

  /** A registration whose version is kept shows up in its add-on's versions. */
  lemma {:induction false} VersionsOfListsKey(keep: string -> Result<bool>, regs: seq<(string, string)>, i: nat)
    requires i < |regs| && keep(regs[i].1) == Success(true)
    ensures regs[i].1 in VersionsOf(keep, regs, regs[i].0)
    decreases |regs|
  {
    if i < |regs| - 1 {
      var init := regs[..|regs| - 1];
      assert init[i] == regs[i];
      VersionsOfListsKey(keep, init, i);
    }
  }

  /** The internal lists of the add-ons not in the registry pass through unchanged. */
  lemma MergeKeepsInternal(keep: string -> Result<bool>, keys: seq<string>, internal: Catalog, name: string)
    requires Merge(keep, keys, internal).Success?
    requires name in internal
    requires forall i :: 0 <= i < |keys| ==> Registration(keys[i]).0 != name
    ensures Merge(keep, keys, internal).value[name] == internal[name]
  {
    MergeReads(keep, keys, internal, name);
    VersionsOfOtherNames(keep, Registrations(keys), name);
  }

  lemma {:induction false} VersionsOfOtherNames(keep: string -> Result<bool>, regs: seq<(string, string)>, name: string)
    requires forall i :: 0 <= i < |regs| ==> regs[i].0 != name
    ensures VersionsOf(keep, regs, name) == []
    decreases |regs|
  {
    if |regs| > 0 {
      var init := regs[..|regs| - 1];
      assert forall i :: 0 <= i < |init| ==> init[i] == regs[i];
      VersionsOfOtherNames(keep, init, name);
    }
  }

  // ------------------------------------------------------------- fetching

  /** What `fetch` gives back for the supported-versions file: the status and, on success, `body.supportedVersions`. */
  datatype Response = Response(status: int, statusText: string, supportedVersions: Catalog)

  /** A catalog, an `HTTPError` with its status code, or another exception. */
  datatype Outcome = Ok(versions: Catalog) | HttpError(code: int, message: string) | Thrown(error: string)

  const VersionsFile := "supported-versions-gen.json"

  /** A version list without the `latest` placeholder. */
  function WithoutLatest(vs: seq<string>): (r: seq<string>)
    ensures forall v :: v in r <==> v in vs && v != "latest"
    ensures |r| <= |vs|
  {
    if |vs| == 0 then []
    else WithoutLatest(vs[..|vs| - 1]) + (if vs[|vs| - 1] == "latest" then [] else [vs[|vs| - 1]])
  }

  /** Filtering keeps the relative order: it distributes over concatenation. */
  lemma {:induction false} WithoutLatestConcat(a: seq<string>, b: seq<string>)
    ensures WithoutLatest(a + b) == WithoutLatest(a) + WithoutLatest(b)
    decreases |b|
  {
    if |b| > 0 {
      var init := b[..|b| - 1];
      assert a + b == (a + init) + [b[|b| - 1]];
      assert (a + b)[..|a + b| - 1] == a + init;
      WithoutLatestConcat(a, init);
    } else {
      assert a + b == a;
    }
  }

  /** Every list of the fetched catalog without `latest`. */
  function DropLatest(c: Catalog): Catalog
  {
    map k | k in c :: WithoutLatest(c[k])
  }

  /** `getInternalAddonVersions` given the cache and the response the fetch would give. */
  function InternalVersions(cache: map<string, Catalog>, url: string, response: Response): Outcome
  {
    if url in cache then Ok(cache[url])
    else if response.status == 404 || response.status == 403 then
      HttpError(404, "supported versions file not found for " + url)
    else if response.status != 200 then
      HttpError(500, "unexpected addon supported versions http status " + response.statusText + " from url " + url)
    else Ok(DropLatest(response.supportedVersions))
  }

  /** The cache after `getInternalAddonVersions`: only a fresh successful fetch is stored. */
  function CacheAfter(cache: map<string, Catalog>, url: string, response: Response): map<string, Catalog>
  {
    var r := InternalVersions(cache, url, response);
    if url !in cache && r.Ok? then cache[url := r.versions] else cache
  }

  /** After one successful fetch the catalog for that URL is served from the cache, whatever a later fetch would return. */
  lemma CachedAfterSuccess(cache: map<string, Catalog>, url: string, first: Response, later: Response)
    requires InternalVersions(cache, url, first).Ok?
    ensures InternalVersions(CacheAfter(cache, url, first), url, later) == InternalVersions(cache, url, first)
  {
  }

  /** A fresh catalog never lists `latest`, and the statuses map to the two HTTP errors. */
  lemma InternalVersionsOutcome(cache: map<string, Catalog>, url: string, response: Response)
    requires url !in cache
    ensures InternalVersions(cache, url, response).Ok? <==> response.status == 200
    ensures InternalVersions(cache, url, response).HttpError? ==>
      InternalVersions(cache, url, response).code == (if response.status == 404 || response.status == 403 then 404 else 500)
    ensures InternalVersions(cache, url, response).Ok? ==>
      forall k :: k in InternalVersions(cache, url, response).versions ==> "latest" !in InternalVersions(cache, url, response).versions[k]
  {
  }

  /** `getInstallerVersions`: the internal catalog, merged with the registry. */
  function InstallerVersions(cache: map<string, Catalog>, registry: seq<string>, url: string, kurlVersion: string, response: Response): Outcome
  {
    match InternalVersions(cache, url, response)
    case Ok(internal) =>
      (match Merge(Keep(kurlVersion), registry, internal)
       case Success(c) => Ok(c)
       case Failure(e) => Thrown(e))
    case other => other
  }

  // ------------------------------------------------------------- the store

  /** The module-level state of `installer-versions.ts`. */
  class CatalogStore {
    /** `installerVersionsCache`: internal catalogs by URL. */
    var cache: map<string, Catalog>
    /** `Object.keys(externalAddons)`: the registry's package file names, in registry order. */
    var externalAddons: seq<string>
    /** `externalAddonTimer` has been set. */
    var timerStarted: bool

    constructor()
      ensures cache == map[] && externalAddons == [] && !timerStarted
    {
      cache := map[];
      externalAddons := [];
      timerStarted := false;
    }

    /** `mergeAddonVersions`: the loop over the registry, then the loop over the internal catalog. */
    method MergeAddonVersions(internal: Catalog, kurlVersion: string) returns (r: Result<Catalog>)
      ensures r == Merge(Keep(kurlVersion), externalAddons, internal)
    {
      var external := AddExternals(Keep(kurlVersion), Registrations(externalAddons));
      if external.Failure? {
        return Failure(external.error);
      }
      var addons := AppendInternal(external.value, internal);
      return Success(addons);
    }

    /** `getInternalAddonVersions`: a cache hit, else the checked response with `latest` dropped, cached on success. */
    method GetInternalAddonVersions(distUrl: string, kurlVersion: string, response: Response) returns (r: Outcome)
      modifies this
      ensures r == InternalVersions(old(cache), PackageUrls.PackageUrl(distUrl, kurlVersion, VersionsFile), response)
      ensures cache == CacheAfter(old(cache), PackageUrls.PackageUrl(distUrl, kurlVersion, VersionsFile), response)
      ensures externalAddons == old(externalAddons) && timerStarted == old(timerStarted)
    {
      var url := PackageUrls.PackageUrl(distUrl, kurlVersion, VersionsFile);
      if url in cache {
        return Ok(cache[url]);
      }
      if response.status == 404 || response.status == 403 {
        return HttpError(404, "supported versions file not found for " + url);
      } else if response.status != 200 {
        return HttpError(500, "unexpected addon supported versions http status " + response.statusText + " from url " + url);
      }
      var installerVersions := DropLatestEach(response.supportedVersions);
      cache := cache[url := installerVersions];
      return Ok(installerVersions);
    }

    /** `externalAddonHandler`: a registry that was fetched and parsed replaces the old one; a failure keeps it. */
    method ExternalAddonHandler(fetched: Option<seq<string>>)
      modifies this
      ensures externalAddons == if fetched.Some? then fetched.value else old(externalAddons)
      ensures cache == old(cache) && timerStarted == old(timerStarted)
    {
      if fetched.Some? {
        externalAddons := fetched.value;
      }
    }

    /** `startExternalAddonPolling`: the first call loads the registry and starts the timer; later calls do nothing. */
    method StartExternalAddonPolling(fetched: Option<seq<string>>)
      modifies this
      ensures timerStarted
      ensures old(timerStarted) ==> externalAddons == old(externalAddons)
      ensures !old(timerStarted) ==> externalAddons == if fetched.Some? then fetched.value else old(externalAddons)
      ensures cache == old(cache)
    {
      if !timerStarted {
        ExternalAddonHandler(fetched);
        timerStarted := true;
      }
    }

    /** `getInstallerVersions`: the internal catalog for the dist URL and version, merged with the current registry. */
    method GetInstallerVersions(distUrl: string, kurlVersion: string, response: Response) returns (r: Outcome)
      modifies this
      ensures r == InstallerVersions(old(cache), externalAddons, PackageUrls.PackageUrl(distUrl, kurlVersion, VersionsFile), kurlVersion, response)
      ensures cache == CacheAfter(old(cache), PackageUrls.PackageUrl(distUrl, kurlVersion, VersionsFile), response)
      ensures externalAddons == old(externalAddons) && timerStarted == old(timerStarted)
    {
      var internal := GetInternalAddonVersions(distUrl, kurlVersion, response);
      if !internal.Ok? {
        return internal;
      }
      var merged := MergeAddonVersions(internal.versions, kurlVersion);
      if merged.Failure? {
        return Thrown(merged.error);
      }
      return Ok(merged.value);
    }
  }

  /** The first loop of `mergeAddonVersions`: the registrations in order, each kept version put in front of its add-on's list. */
  method AddExternals(keep: string -> Result<bool>, regs: seq<(string, string)>) returns (r: Result<Catalog>)
    ensures r == ExternalCatalog(keep, regs)
  {
    var addons: Catalog := map[];
    var i := 0;
    while i < |regs|
      invariant 0 <= i <= |regs|
      invariant ExternalCatalog(keep, regs[..i]) == Success(addons)
    {
      assert regs[..i + 1][..i] == regs[..i];
      var nv := regs[i];
      assert ExternalCatalog(keep, regs[..i + 1]) == AddExternal(keep, addons, nv);
      var ok := keep(nv.1);
      if ok.Failure? {
        ExternalCatalogFails(keep, regs, i + 1);
        return Failure(ok.error);
      }
      if ok.value {
        if nv.0 !in addons {
          assert [nv.1] + [] == [nv.1];
          addons := addons[nv.0 := [nv.1]];
        } else {
          addons := addons[nv.0 := [nv.1] + addons[nv.0]];
        }
      }
      i := i + 1;
    }
    assert regs[..i] == regs;
    return Success(addons);
  }

  /** Once a prefix of the registry throws, the whole first loop throws with the same error. */
  lemma {:induction false} ExternalCatalogFails(keep: string -> Result<bool>, regs: seq<(string, string)>, n: nat)
    requires n <= |regs| && ExternalCatalog(keep, regs[..n]).Failure?
    ensures ExternalCatalog(keep, regs) == ExternalCatalog(keep, regs[..n])
    decreases |regs| - n
  {
    if n < |regs| {
      assert regs[..n + 1][..n] == regs[..n];
      ExternalCatalogFails(keep, regs, n + 1);
    } else {
      assert regs[..n] == regs;
    }
  }

  /** The second loop of `mergeAddonVersions`: each internal list is pushed behind the add-on's external list, or taken as it is. */
  method AppendInternal(external: Catalog, internal: Catalog) returns (addons: Catalog)
    ensures addons == Combine(external, internal)
  {
    addons := external;
    var rest := internal.Keys;
    while rest != {}
      invariant rest <= internal.Keys
      invariant addons.Keys == external.Keys + (internal.Keys - rest)
      invariant forall k :: k in addons ==> addons[k] == ListOf(external, k) + (if k in rest then [] else ListOf(internal, k))
      decreases rest
    {
      var k :| k in rest;
      if k !in addons {
        addons := addons[k := internal[k]];
      } else {
        addons := addons[k := addons[k] + internal[k]];
      }
      rest := rest - {k};
    }
  }

  /** Drops `latest` from every list, one add-on at a time, as the `map` over `Object.keys` does in place. */
  method DropLatestEach(versions: Catalog) returns (r: Catalog)
    ensures r == DropLatest(versions)
  {
    r := versions;
    var addons := versions.Keys;
    while addons != {}
      invariant addons <= r.Keys == versions.Keys
      invariant forall k :: k in r ==> r[k] == if k in addons then versions[k] else WithoutLatest(versions[k])
      decreases addons
    {
      var addon :| addon in addons;
      var filtered := FilterLatest(r[addon]);
      r := r[addon := filtered];
      addons := addons - {addon};
    }
  }

  /** `versions.filter(version => version !== "latest")`, one element at a time. */
  method FilterLatest(vs: seq<string>) returns (r: seq<string>)
    ensures r == WithoutLatest(vs)
  {
    r := [];
    var i := 0;
    while i < |vs|
      invariant 0 <= i <= |vs|
      invariant r == WithoutLatest(vs[..i])
    {
      assert vs[..i + 1][..i] == vs[..i];
      if vs[i] != "latest" {
        r := r + [vs[i]];
      }
      i := i + 1;
    }
    assert vs[..i] == vs;
  }
}
