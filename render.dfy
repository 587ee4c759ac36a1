/**
 * What the installer renders for the install scripts: package names, the package list with
 * the extra Kubernetes upgrade step and the conformance package, `resolve` with the
 * external add-on override locations, the object `toYAML` dumps, and the reserved slugs.
 */
module Render {
  import opened Wrappers
  import opened Text
  import opened Json
  import SemVer
  import Versions
  import Validation

  // ---------------------------------------------------------------- generatePackageName

  /** `version.replace(/[+]/g, "-")`. */
  function PlusToDash(s: string): (r: string)
    ensures |r| == |s|
    ensures forall i :: 0 <= i < |s| ==> r[i] == (if s[i] == '+' then '-' else s[i])
  {
    if |s| == 0 then ""
    else PlusToDash(s[..|s| - 1]) + [if s[|s| - 1] == '+' then '-' else s[|s| - 1]]
  }

  /** `Installer.generatePackageName(config, version)`: the kebab-case add-on name, a hyphen, and the version with every `+` made a `-`. */
  function GeneratePackageName(config: string, version: string): (name: string)
    ensures StartsWith(name, KebabCase(config) + "-")
    ensures |name| == |KebabCase(config)| + 1 + |version|
    ensures forall i :: |KebabCase(config)| < i < |name| ==> name[i] != '+'
    ensures forall i :: 0 <= i < |version| && version[i] != '+' ==> name[|KebabCase(config)| + 1 + i] == version[i]
  {
    KebabCase(config) + "-" + PlusToDash(version)
  }

  /** A version without `+` is kept verbatim after the add-on name. */
  lemma PackageNameVerbatim(config: string, version: string)
    requires forall i :: 0 <= i < |version| ==> version[i] != '+'
    ensures GeneratePackageName(config, version) == KebabCase(config) + "-" + version
  {
    var name := GeneratePackageName(config, version);
    var prefix := KebabCase(config) + "-";
    assert name[..|prefix|] == prefix;
    assert name[|prefix|..] == version;
    assert name == name[..|prefix|] + name[|prefix|..];
  }

  /** Build metadata is not kept apart from a pre-release: `1.2.3+1` and `1.2.3-1` name the same package. */
  lemma PackageNamesOfBuildAndPreRelease(config: string, a: string, b: string)
    requires |a| == |b|
    requires forall i :: 0 <= i < |a| ==> (a[i] == b[i] || (a[i] == '+' && b[i] == '-'))
    ensures GeneratePackageName(config, a) == GeneratePackageName(config, b)
  {
    assert PlusToDash(a) == PlusToDash(b);
  }

  // ---------------------------------------------------------------- packages

  /** What the walk over the spec's keys has produced: the packages pushed and the Kubernetes version it saw. */
  datatype Walk = Walk(pkgs: seq<string>, kubernetes: Option<string>)

  /** `minors[index]`, or `undefined` (as it reads in a template literal) outside the array. */
  function StepAt(minors: seq<string>, index: int): (step: string)
    ensures 0 <= index < |minors| ==> step == minors[index]
  {
    if 0 <= index < |minors| then minors[index] else "undefined"
  }

  /**
   * The extra Kubernetes package that lets a cluster upgrade two minors, from `semver.minor`
   * of the version and the catalog's `latestMinors`: the latest release of the previous minor,
   * `kubernetes-undefined` when there is no such slot, and nothing when the slot is empty
   * (`0.0.0`). A version or catalog that `semver` rejects ends the callback here.
   */
  function StepFor(minor: Result<nat>, minors: Result<seq<string>>): (step: seq<string>)
    ensures |step| <= 1
    ensures step != [] ==> StartsWith(step[0], "kubernetes-")
  {
    if minor.Failure? || minors.Failure? then []
    else
      var step := StepAt(minors.value, minor.value - 1);
      if step == "0.0.0" then [] else
        assert ("kubernetes-" + step)[..11] == "kubernetes-";
        ["kubernetes-" + step]
  }

  /** The step packages for a Kubernetes version against the catalog. */
  function KubernetesStep(catalog: Versions.Catalog, version: string): seq<string>
  {
    var list := if "kubernetes" in catalog then Some(catalog["kubernetes"]) else None;
    StepFor(SemVer.Minor(version), Versions.LatestMinors(list, "kubernetes"))
  }

  /**
   * What the callback for one key pushes. A `null` block makes the callback throw at once;
   * the throw is swallowed with the callback's promise, so nothing is pushed for that key.
   * A truthy `s3Override` is pushed instead of a package name. A truthy version that is not a
   * string throws inside `generatePackageName`.
   */
  function KeyPackages(step: string -> seq<string>, config: string, block: Value): (w: Walk)
    ensures w.kubernetes.Some? ==> config == "kubernetes" && w.kubernetes.value != ""
  {
    if block.Null? then Walk([], None)
    else
      var override := Get(block, "s3Override");
      var version := Get(block, "version");
      if TruthyOpt(override) then Walk([ToJsString(override.value)], None)
      else if !TruthyOpt(version) || !version.value.Str? then Walk([], None)
      else
        var v := version.value.s;
        var name := GeneratePackageName(config, v);
        if config != "kubernetes" then Walk([name], None)
        else Walk([name] + step(v), Some(v))
  }

  /** The step packages for a Kubernetes version, read from the catalog. */
  function Step(catalog: Versions.Catalog): string -> seq<string>
  {
    v => KubernetesStep(catalog, v)
  }

  /**
   * The walk over `_.keys(spec)` in order; a later Kubernetes version replaces an earlier one.
   * `step` gives the upgrade-step packages for a Kubernetes version (`Step(catalog)`).
   */
  function WalkSpec(step: string -> seq<string>, spec: Entries): Walk
  {
    if |spec| == 0 then Walk([], None)
    else
      var init := WalkSpec(step, spec[..|spec| - 1]);
      Extend(init, KeyPackages(step, spec[|spec| - 1].0, spec[|spec| - 1].1))
  }

  /** The walk over more keys: their packages appended, and a Kubernetes version among them replacing the earlier one. */
  function Extend(init: Walk, more: Walk): Walk
  {
    Walk(init.pkgs + more.pkgs, if more.kubernetes.Some? then more.kubernetes else init.kubernetes)
  }

  lemma ExtendAssociative(x: Walk, y: Walk, z: Walk)
    ensures Extend(Extend(x, y), z) == Extend(x, Extend(y, z))
  {
    assert (x.pkgs + y.pkgs) + z.pkgs == x.pkgs + (y.pkgs + z.pkgs);
  }

  /** `kurl-bin-utils-<kurlVersion>`, or `kurl-bin-utils-latest` without a kurl version. */
  function BinUtils(kurlVersion: string): string
  {
    "kurl-bin-utils-" + (if kurlVersion != "" then kurlVersion else "latest")
  }

  /** The packages every installer needs, with the Longhorn host package when Longhorn is on. */
  function BasePackages(spec: Entries, kurlVersion: string): (base: seq<string>)
    ensures |base| == (if TruthyOpt(Lookup(spec, "longhorn")) then 4 else 3)
    ensures base[..3] == ["common", BinUtils(kurlVersion), "host-openssl"]
  {
    ["common", BinUtils(kurlVersion), "host-openssl"] + (if TruthyOpt(Lookup(spec, "longhorn")) then ["host-longhorn"] else [])
  }

  /** Whether the spec sets `sonobuoy.version`, read as the nested field `spec.sonobuoy.version`. */
  predicate WantsConformance(spec: Entries)
  {
    TruthyOpt(GetPath(Obj(spec), ["sonobuoy", "version"]))
  }

  /**
   * `installer.packages(catalog, kurlVersion)`: the base packages, what every key adds, and
   * the conformance package for Kubernetes 1.17.0 and later with Sonobuoy. The comparison
   * runs outside the callbacks, so a Kubernetes version `semver` rejects makes the call throw.
   */
  function Packages(catalog: Versions.Catalog, spec: Entries, kurlVersion: string): Result<seq<string>>
  {
    var w := WalkSpec(Step(catalog), spec);
    var pkgs := BasePackages(spec, kurlVersion) + w.pkgs;
    match w.kubernetes
    case None => Success(pkgs)
    case Some(k) =>
      match Validation.AtLeast(k, Validation.Release(1, 17, 0))
      case Failure(e) => Failure(e)
      case Success(recent) =>
        if recent && WantsConformance(spec) then Success(pkgs + ["kubernetes-conformance-" + k]) else Success(pkgs)
  }

  /** The walk over a spec is the walk over its first part followed by the walk over the rest: keys contribute in order. */
  lemma {:induction false} WalkSpecAppend(step: string -> seq<string>, a: Entries, b: Entries)
    ensures WalkSpec(step, a + b) == Extend(WalkSpec(step, a), WalkSpec(step, b))
    decreases |b|
  {
    if |b| == 0 {
      assert a + b == a;
      assert WalkSpec(step, a).pkgs + [] == WalkSpec(step, a).pkgs;
    } else {
      var b' := b[..|b| - 1];
      assert (a + b)[..|a + b| - 1] == a + b';
      assert (a + b)[|a + b| - 1] == b[|b| - 1];
      WalkSpecAppend(step, a, b');
      ExtendAssociative(WalkSpec(step, a), WalkSpec(step, b'), KeyPackages(step, b[|b| - 1].0, b[|b| - 1].1));
    }
  }

  /** A block with a truthy `s3Override` contributes that location and no package name. */
  lemma OverrideReplacesPackage(step: string -> seq<string>, config: string, block: Value)
    requires block.Obj? && TruthyOpt(Get(block, "s3Override"))
    ensures KeyPackages(step, config, block).pkgs == [ToJsString(Get(block, "s3Override").value)]
  {
  }

  /** Any other add-on with a string version contributes exactly its package name. */
  lemma AddonPackage(step: string -> seq<string>, config: string, block: Value)
    requires config != "kubernetes" && !TruthyOpt(Get(block, "s3Override"))
    requires Get(block, "version").Some? && Get(block, "version").value.Str? && Get(block, "version").value.s != ""
    ensures KeyPackages(step, config, block).pkgs == [GeneratePackageName(config, Get(block, "version").value.s)]
  {
  }

  /** The Kubernetes block contributes its package name followed by its upgrade step, and records its version. */
  lemma KubernetesPackages(step: string -> seq<string>, block: Value)
    requires !TruthyOpt(Get(block, "s3Override"))
    requires Get(block, "version").Some? && Get(block, "version").value.Str? && Get(block, "version").value.s != ""
    ensures var v := Get(block, "version").value.s;
      KeyPackages(step, "kubernetes", block) == Walk([GeneratePackageName("kubernetes", v)] + step(v), Some(v))
  {
  }

  /**
   * For a Kubernetes version of minor `m` whose catalog list has a latest release of minor
   * `m - 1`, the step package names that release.
   */
  lemma StepIsPreviousMinor(m: nat, ms: seq<string>)
    requires 1 <= m <= |ms| && ms[m - 1] != "0.0.0"
    ensures StepFor(Success(m), Success(ms)) == ["kubernetes-" + ms[m - 1]]
  {
  }

  /** Without a slot for the previous minor, the step names the version `undefined`; an empty slot adds nothing; a failed read adds nothing. */
  lemma StepEdges(minor: Result<nat>, minors: Result<seq<string>>)
    ensures minor.Success? && minors.Success? && (minor.value == 0 || minor.value > |minors.value|) ==>
      StepFor(minor, minors) == ["kubernetes-undefined"]
    ensures minor.Success? && minors.Success? && 1 <= minor.value <= |minors.value| && minors.value[minor.value - 1] == "0.0.0" ==>
      StepFor(minor, minors) == []
    ensures minor.Failure? || minors.Failure? ==> StepFor(minor, minors) == []
  {
    assert "kubernetes-" + "undefined" == "kubernetes-undefined";
  }

  /** `packages` throws exactly when the spec's Kubernetes package was pushed for a version `semver` rejects. */
  lemma PackagesFailure(catalog: Versions.Catalog, spec: Entries, kurlVersion: string)
    ensures Packages(catalog, spec, kurlVersion).Failure? <==>
      (WalkSpec(Step(catalog), spec).kubernetes.Some? && !SemVer.Valid(WalkSpec(Step(catalog), spec).kubernetes.value))
  {
  }

  /**
   * The list starts with the base packages and then holds what each key contributed, in key
   * order; the conformance package comes last, exactly for Kubernetes 1.17.0 or later with
   * Sonobuoy.
   */
  lemma PackagesShape(catalog: Versions.Catalog, spec: Entries, kurlVersion: string)
    requires Packages(catalog, spec, kurlVersion).Success?
    ensures var r := Packages(catalog, spec, kurlVersion).value;
      var prefix := BasePackages(spec, kurlVersion) + WalkSpec(Step(catalog), spec).pkgs;
      var k := WalkSpec(Step(catalog), spec).kubernetes;
      && r[..|prefix|] == prefix
      && (|r| == |prefix| + 1 <==>
        k.Some? && Validation.AtLeast(k.value, Validation.Release(1, 17, 0)) == Success(true) && WantsConformance(spec))
      && (|r| == |prefix| + 1 ==> r[|prefix|] == "kubernetes-conformance-" + k.value)
      && |r| <= |prefix| + 1
  {
  }

  /** Keys whose value is `null` are skipped: removing them changes nothing in the package list. */
  lemma NullBlocksContributeNothing(step: string -> seq<string>, config: string)
    ensures KeyPackages(step, config, Null) == Walk([], None)
  {
  }

  /** With distinct keys, the Kubernetes version the walk sees is the one the `kubernetes` block contributes. */
  lemma {:induction false} WalkSpecKubernetes(step: string -> seq<string>, spec: Entries)
    requires DistinctKeys(spec)
    ensures WalkSpec(step, spec).kubernetes ==
      match Lookup(spec, "kubernetes")
      case Some(b) => KeyPackages(step, "kubernetes", b).kubernetes
      case None => None
    decreases |spec|
  {
    if |spec| > 0 {
      var init := spec[..|spec| - 1];
      var last := spec[|spec| - 1];
      assert spec == init + [last];
      assert DistinctKeys(init);
      WalkSpecKubernetes(step, init);
      LookupConcat(init, [last], "kubernetes");
      LookupKeys(init, "kubernetes");
    }
  }

  // ---------------------------------------------------------------- resolve

  /** The external add-on packages: add-on name to the versions of its packages, in registry order. */
  type Externals = map<string, seq<string>>

  /** The first position of `x` in `xs`. */
  function FirstIndex(xs: seq<string>, x: string): (r: Option<nat>)
    ensures r.Some? ==> r.value < |xs| && xs[r.value] == x && forall j :: 0 <= j < r.value ==> xs[j] != x
    ensures r.None? <==> x !in xs
  {
    if |xs| == 0 then None
    else if xs[0] == x then Some(0)
    else match FirstIndex(xs[1..], x)
      case None => None
      case Some(i) => Some(i + 1)
  }

  /** `getExternalAddonVersion(externals, addon, version)`: the position of the first external package of the add-on with that version. */
  function ExternalAddonVersion(externals: Externals, addon: string, version: string): (r: Option<nat>)
    ensures r.Some? ==> addon in externals && r.value < |externals[addon]| && externals[addon][r.value] == version
    ensures r.None? <==> addon !in externals || version !in externals[addon]
  {
    if addon !in externals then None else FirstIndex(externals[addon], version)
  }

  /** Where an external add-on package is downloaded from. */
  function ExternalLocation(externalUrl: string, config: string, version: string): string
  {
    externalUrl + "/" + GeneratePackageName(config, version) + ".tar.gz"
  }

  /** `i.spec[config].version = version` on a block; only object blocks reach an assignment. */
  function SetField(block: Value, field: string, v: Value): Value
  {
    if block.Obj? then Obj(Put(block.entries, field, v)) else block
  }

  /** `Installer.resolveVersion` against the catalog, as the resolver of `ResolveBlock`. */
  function Resolver(catalog: Versions.Catalog): (string, string) -> Result<string>
  {
    (config, version) => Versions.ResolveVersion(catalog, config, version)
  }

  /**
   * The callback of `resolve` for one key, `resolver` resolving an add-on's version
   * (`Resolver(catalog)`). A `null` block, a truthy version that is not a string, and a
   * version that does not resolve all throw before anything is written, so the block stays as
   * it was. Otherwise the version is resolved, and an add-on version that the external
   * registry holds gets its location as `s3Override`.
   */
  function ResolveBlock(resolver: (string, string) -> Result<string>, externals: Externals, externalUrl: string, config: string, block: Value): (r: Value)
    ensures block.Obj? <==> r.Obj?
    ensures !block.Obj? ==> r == block
  {
    if block.Null? then block
    else
      var version := Get(block, "version");
      if TruthyOpt(version) && !version.value.Str? then block
      else if TruthyOpt(version) && resolver(config, version.value.s).Failure? then block
      else
        var current := if TruthyOpt(version) then Some(Str(resolver(config, version.value.s).value)) else version;
        var b1 := if TruthyOpt(version) then SetField(block, "version", current.value) else block;
        if current.Some? && current.value.Str? && ExternalAddonVersion(externals, config, current.value.s).Some?
        then SetField(b1, "s3Override", Str(ExternalLocation(externalUrl, config, current.value.s)))
        else b1
  }

  /** `installer.resolve(catalog, externals)` on the spec of a clone: every key in order, through `ResolveBlock`. */
  function Resolve(resolver: (string, string) -> Result<string>, externals: Externals, externalUrl: string, spec: Entries): Entries
  {
    if |spec| == 0 then []
    else (Resolve(resolver, externals, externalUrl, spec[..|spec| - 1])
      + [(spec[|spec| - 1].0, ResolveBlock(resolver, externals, externalUrl, spec[|spec| - 1].0, spec[|spec| - 1].1))])
  }

  /** Resolving keeps the keys and their order. */
  lemma {:induction false} ResolveKeys(resolver: (string, string) -> Result<string>, externals: Externals, externalUrl: string, spec: Entries)
    ensures Keys(Resolve(resolver, externals, externalUrl, spec)) == Keys(spec)
    decreases |spec|
  {
    if |spec| > 0 {
      var init := spec[..|spec| - 1];
      var last := spec[|spec| - 1];
      var entry := (last.0, ResolveBlock(resolver, externals, externalUrl, last.0, last.1));
      ResolveKeys(resolver, externals, externalUrl, init);
      assert spec == init + [last];
      KeysConcat(init, [last]);
      KeysConcat(Resolve(resolver, externals, externalUrl, init), [entry]);
    }
  }

  /** Resolving reads each key as its resolved block, and misses exactly the keys the spec misses. */
  lemma {:induction false} ResolveReads(resolver: (string, string) -> Result<string>, externals: Externals, externalUrl: string, spec: Entries, k: string)
    ensures Lookup(Resolve(resolver, externals, externalUrl, spec), k) ==
      match Lookup(spec, k)
      case Some(b) => Some(ResolveBlock(resolver, externals, externalUrl, k, b))
      case None => None
    decreases |spec|
  {
    if |spec| > 0 {
      var init := spec[..|spec| - 1];
      var last := spec[|spec| - 1];
      var entry := (last.0, ResolveBlock(resolver, externals, externalUrl, last.0, last.1));
      ResolveReads(resolver, externals, externalUrl, init, k);
      ResolveKeys(resolver, externals, externalUrl, init);
      assert spec == init + [last];
      LookupConcat(init, [last], k);
      LookupConcat(Resolve(resolver, externals, externalUrl, init), [entry], k);
    }
  }

  /** Fields other than `version` and `s3Override` are never touched. */
  lemma ResolveBlockKeepsFields(resolver: (string, string) -> Result<string>, externals: Externals, externalUrl: string, config: string, block: Value, f: string)
    requires f != "version" && f != "s3Override"
    ensures Get(ResolveBlock(resolver, externals, externalUrl, config, block), f) == Get(block, f)
  {
    if block.Obj? {
      forall v: Value, e: Entries ensures Lookup(Put(e, "version", v), f) == Lookup(e, f) && Lookup(Put(e, "s3Override", v), f) == Lookup(e, f) {
        LookupPut(e, "version", v, f);
        LookupPut(e, "s3Override", v, f);
      }
    }
  }

  /** A string version that resolves is replaced by its resolution; one that does not leaves the whole block untouched. */
  lemma ResolveBlockVersion(resolver: (string, string) -> Result<string>, externals: Externals, externalUrl: string, config: string, entries: Entries, v: string)
    requires Lookup(entries, "version") == Some(Str(v)) && v != ""
    ensures var r := ResolveBlock(resolver, externals, externalUrl, config, Obj(entries));
      match resolver(config, v)
      case Success(x) => Get(r, "version") == Some(Str(x))
      case Failure(_) => r == Obj(entries)
  {
    var res := resolver(config, v);
    if res.Success? {
      var e1 := Put(entries, "version", Str(res.value));
      LookupPut(entries, "version", Str(res.value), "version");
      forall w: Value ensures Lookup(Put(e1, "s3Override", w), "version") == Some(Str(res.value)) {
        LookupPut(e1, "s3Override", w, "version");
      }
    }
  }

  /**
   * An object block gets an `s3Override` pointing at the external location exactly when its
   * version, once resolved, is one the external registry holds for the add-on; otherwise its
   * `s3Override` stays as it was.
   */
  lemma ResolveBlockOverride(resolver: (string, string) -> Result<string>, externals: Externals, externalUrl: string, config: string, entries: Entries, v: string)
    requires Lookup(entries, "version") == Some(Str(v)) && v != ""
    requires resolver(config, v).Success?
    ensures var x := resolver(config, v).value;
      var r := ResolveBlock(resolver, externals, externalUrl, config, Obj(entries));
      && (ExternalAddonVersion(externals, config, x).Some? ==> Get(r, "s3Override") == Some(Str(ExternalLocation(externalUrl, config, x))))
      && (ExternalAddonVersion(externals, config, x).None? ==> Get(r, "s3Override") == Lookup(entries, "s3Override"))
  {
    var x := resolver(config, v).value;
    var e1 := Put(entries, "version", Str(x));
    LookupPut(entries, "version", Str(x), "s3Override");
    LookupPut(e1, "s3Override", Str(ExternalLocation(externalUrl, config, x)), "s3Override");
  }

  /** Resolving against the catalog never leaves a floating token that resolves as a surrogate version. */
  lemma ResolvedNeverSurrogate(catalog: Versions.Catalog, externals: Externals, externalUrl: string, config: string, entries: Entries, v: string)
    requires Lookup(entries, "version") == Some(Str(v)) && EndsWith(v, ".x")
    requires Versions.ResolveVersion(catalog, config, v).Success?
    ensures var r := ResolveBlock(Resolver(catalog), externals, externalUrl, config, Obj(entries));
      Get(r, "version").Some? && Get(r, "version").value.Str?
      && !Versions.IsSurrogate(Versions.Surrogates(config), Get(r, "version").value.s)
  {
    ResolveBlockVersion(Resolver(catalog), externals, externalUrl, config, entries, v);
    Versions.ResolveNeverSurrogate(catalog, config, v);
  }

  // ---------------------------------------------------------------- toObject

  /** The blocks of `spec` that `toObject` copies: every truthy block of a schema add-on, in the schema's order. */
  function Ordered(names: seq<string>, spec: Entries): (r: Entries)
    ensures |r| <= |names|
    ensures forall i :: 0 <= i < |r| ==> r[i].0 in names && Lookup(spec, r[i].0) == Some(r[i].1) && Truthy(r[i].1)
  {
    if |names| == 0 then []
    else
      var init := Ordered(names[..|names| - 1], spec);
      var name := names[|names| - 1];
      if TruthyOpt(Lookup(spec, name)) then init + [(name, Lookup(spec, name).value)] else init
  }

  /** `installer.toObject()`, the object `toYAML` dumps: header, `metadata.name`, and the ordered spec. */
  function ToObject(names: seq<string>, id: string, spec: Entries): Value
  {
    Obj([("apiVersion", Str("cluster.kurl.sh/v1beta1")), ("kind", Str("Installer")),
         ("metadata", Obj([("name", Str(id))])), ("spec", Obj(Ordered(names, spec)))])
  }

  /** The object names the installer by its id and carries the ordered spec. */
  lemma ToObjectReads(names: seq<string>, id: string, spec: Entries)
    ensures ToObject(names, id, spec).Obj?
    ensures Lookup(ToObject(names, id, spec).entries, "spec") == Some(Obj(Ordered(names, spec)))
    ensures GetPath(ToObject(names, id, spec), ["metadata", "name"]) == Some(Str(id))
  {
    var o := ToObject(names, id, spec);
    var e := o.entries;
    assert e[0].0[0] == 'a' && e[1].0[0] == 'k' && e[2].0[0] == 'm' && e[3].0 == "spec";
    assert Lookup(e[3..], "spec") == Some(Obj(Ordered(names, spec)));
    assert Lookup(e[2..], "spec") == Lookup(e[2..][1..], "spec") by { assert e[2..][1..] == e[3..]; }
    assert Lookup(e[1..], "spec") == Lookup(e[1..][1..], "spec") by { assert e[1..][1..] == e[2..]; }
    assert Lookup(e[2..], "metadata") == Some(Obj([("name", Str(id))]));
    assert Lookup(e[1..], "metadata") == Lookup(e[1..][1..], "metadata") by { assert e[1..][1..] == e[2..]; }
    assert Get(o, "metadata") == Some(Obj([("name", Str(id))]));
    assert GetPath(Obj([("name", Str(id))]), ["name"]) == Some(Str(id)) by {
      assert ["name"][1..] == [];
    }
    assert ["metadata", "name"][1..] == ["name"];
  }

  /** A key reads in the ordered spec as in the spec when it is a schema add-on with a truthy block, and is absent otherwise. */
  lemma {:induction false} OrderedReads(names: seq<string>, spec: Entries, k: string)
    ensures Lookup(Ordered(names, spec), k) == if k in names && TruthyOpt(Lookup(spec, k)) then Lookup(spec, k) else None
    decreases |names|
  {
    if |names| > 0 {
      var init := names[..|names| - 1];
      var name := names[|names| - 1];
      assert names == init + [name];
      OrderedReads(init, spec, k);
      if TruthyOpt(Lookup(spec, name)) {
        LookupConcat(Ordered(init, spec), [(name, Lookup(spec, name).value)], k);
        LookupKeys(Ordered(init, spec), k);
      }
    }
  }

  /** The copied spec depends only on what each key reads as, never on the order of the spec's keys. */
  lemma {:induction false} OrderedIgnoresSpecOrder(names: seq<string>, a: Entries, b: Entries)
    requires forall k :: Lookup(a, k) == Lookup(b, k)
    ensures Ordered(names, a) == Ordered(names, b)
    decreases |names|
  {
    if |names| > 0 {
      OrderedIgnoresSpecOrder(names[..|names| - 1], a, b);
      assert Lookup(a, names[|names| - 1]) == Lookup(b, names[|names| - 1]);
    }
  }

  /** Ordering an ordered spec again changes nothing. */
  lemma OrderedIdempotent(names: seq<string>, spec: Entries)
    ensures Ordered(names, Ordered(names, spec)) == Ordered(names, spec)
  {
    forall k ensures Lookup(Ordered(names, spec), k) == (if k in names && TruthyOpt(Lookup(spec, k)) then Lookup(spec, k) else None) {
      OrderedReads(names, spec, k);
    }
    OrderedAgain(names, names, spec);
  }

  lemma {:induction false} OrderedAgain(all: seq<string>, names: seq<string>, spec: Entries)
    requires forall k :: Lookup(Ordered(all, spec), k) == (if k in all && TruthyOpt(Lookup(spec, k)) then Lookup(spec, k) else None)
    requires forall k :: k in names ==> k in all
    ensures Ordered(names, Ordered(all, spec)) == Ordered(names, spec)
    decreases |names|
  {
    if |names| > 0 {
      var init := names[..|names| - 1];
      OrderedAgain(all, init, spec);
      assert names[|names| - 1] in all;
    }
  }

  // ---------------------------------------------------------------- slugIsReserved

  /** The slugs that name routes of the service and can never be an installer id. */
  const ReservedSlugs: seq<string> := ["latest", "beta", "stable", "unstable", "healthz", "dist", "installer", "bundle", "versions"]

  /** `Installer.slugIsReserved(id)`; `lowerCase` is lodash's `_.lowerCase`. */
  function SlugIsReserved(id: string, lowerCase: string -> string): (r: bool)
    ensures r ==> |lowerCase(id)| >= 4
  {
    lowerCase(id) in ReservedSlugs
  }

  /** Case never matters: two ids that lodash reads as the same words are both reserved or both free. */
  lemma ReservedIgnoresCase(a: string, b: string, lowerCase: string -> string)
    requires lowerCase(a) == lowerCase(b)
    ensures SlugIsReserved(a, lowerCase) == SlugIsReserved(b, lowerCase)
  {
  }

  /** A lower-case hexadecimal digit, or the space lodash puts between words. */
  predicate IsHexOrSpace(c: char)
  {
    '0' <= c <= '9' || 'a' <= c <= 'f' || c == ' '
  }

  /**
   * An id minted by `hash` is never reserved: lodash turns its hexadecimal digits into
   * lower-case hex words separated by spaces, and every reserved word has a letter beyond `f`.
   */
  lemma HashIdsAreFree(id: string, lowerCase: string -> string)
    requires forall i :: 0 <= i < |lowerCase(id)| ==> IsHexOrSpace(lowerCase(id)[i])
    ensures !SlugIsReserved(id, lowerCase)
  {
    assert !IsHexOrSpace("latest"[0]) && !IsHexOrSpace("beta"[2]) && !IsHexOrSpace("stable"[0]);
    assert !IsHexOrSpace("unstable"[0]) && !IsHexOrSpace("healthz"[0]) && !IsHexOrSpace("dist"[1]);
    assert !IsHexOrSpace("installer"[0]) && !IsHexOrSpace("bundle"[1]) && !IsHexOrSpace("versions"[0]);
  }
}
