/**
 * The `Installer` class of `src/installers/index.ts`: an installer id and its spec, with
 * the methods that normalise, hash, render and resolve it.  Each method works on the object
 * step by step as the source does and is proved equal to the specification function of its
 * module (`Normalize`, `Hash`, `Schema`, `Render`), where the properties are proved.
 */
module Installers {
  import opened Wrappers
  import opened Json
  import Schema
  import Versions
  import Normalize
  import Hashing = Hash
  import Validation
  import Render

  class Installer {
    /** `metadata.name`, or the hash once the installer is stored. */
    var id: string
    /** The add-on blocks in the order `_.keys` gives them. */
    var spec: Entries
    /** The optional team the installer belongs to, fixed at construction. */
    const teamId: Option<string>

    /** `new Installer(teamID)`: an empty spec. */
    constructor(teamId: Option<string>)
      ensures this.teamId == teamId && id == "" && spec == []
    {
      this.teamId := teamId;
      id := "";
      spec := [];
    }

    /** `clone()`: a new installer with the same team, id and a deep copy of the spec. */
    method Clone() returns (i: Installer)
      ensures fresh(i) && i.teamId == teamId && i.id == id && i.spec == spec
    {
      i := new Installer(teamId);
      i.id := id;
      i.spec := spec;
    }

    /**
     * `Installer.parse(doc, teamID)` on the loaded document: the id, then the spec of an
     * object document, the legacy conversion, the collectd alias and, for `kurl.sh/v1beta1`,
     * the migration.
     */
    static method Parse(doc: Value, teamId: Option<string>) returns (r: Result<Installer>)
      ensures r.Success? <==> Normalize.ParseDocument(doc).Success?
      ensures r.Success? ==> fresh(r.value) && r.value.teamId == teamId
      ensures r.Success? ==> r.value.id == Normalize.ParseDocument(doc).value.id && r.value.spec == Normalize.ParseDocument(doc).value.spec
    {
      var i := new Installer(teamId);
      i.id := Normalize.ParsedId(doc);
      if !doc.Obj? {
        return Success(i);
      }
      var s := Lookup(doc.entries, "spec");
      if s.None? || !s.value.Obj? {
        return Success(i);
      }
      i.spec := s.value.entries;
      var converted := i.LegacyFieldConversion();
      if converted.Failure? {
        return Failure(converted.error);
      }
      var modified := converted.value;
      if Field(modified.spec, "collectd", "version") == Some(Str("0.0.1")) {
        var collectd := Lookup(modified.spec, "collectd").value.entries;
        modified.spec := Put(modified.spec, "collectd", Obj(Put(collectd, "version", Str("v5"))));
      }
      if Lookup(doc.entries, "apiVersion") == Some(Str("kurl.sh/v1beta1")) {
        var migrated := modified.MigrateV1Beta1();
        return Success(migrated);
      }
      return Success(modified);
    }

    /** `setKurlVersion(kurlVersion)`: a non-empty version is written into the kurl block with its defaults. */
    method SetKurlVersion(kurlVersion: string)
      modifies this
      ensures spec == Normalize.SetKurlVersion(old(spec), kurlVersion) && id == old(id)
    {
      if kurlVersion != "" {
        var current := match Lookup(spec, "kurl") case Some(v) => Members(v) case None => [];
        var kurl := Normalize.Defaults(Normalize.Defaults([("installerVersion", Str(kurlVersion))], current), [("additionalNoProxyAddresses", Arr([]))]);
        spec := Put(spec, "kurl", Obj(kurl));
      }
    }

    /** `legacyFieldConversion()`: on a clone, the weave rule and then the four renames, one statement each. */
    method LegacyFieldConversion() returns (r: Result<Installer>)
      ensures r.Success? <==> Normalize.LegacyFieldConversion(spec).Success?
      ensures r.Success? ==> fresh(r.value) && r.value.teamId == teamId && r.value.id == id
      ensures r.Success? ==> r.value.spec == Normalize.LegacyFieldConversion(spec).value
    {
      var i := Clone();
      var weave := Lookup(i.spec, "weave");
      if weave.Some? {
        if weave.value.Null? {
          return Failure(Normalize.NullWeaveError);
        }
        if weave.value.Obj? && Lookup(weave.value.entries, "encryptNetwork").Some? {
          i.spec := Put(i.spec, "weave", Obj(Normalize.WeaveBlock(weave.value.entries)));
        }
      }
      i.spec := Normalize.MoveLegacy(i.spec, "fluentd", "efkStack", "fullEFKStack");
      i.spec := Normalize.MoveLegacy(i.spec, "weave", "IPAllocRange", "podCidrRange");
      i.spec := Normalize.MoveLegacy(i.spec, "rook", "storageClass", "storageClassName");
      i.spec := Normalize.MoveLegacy(i.spec, "rook", "cephPoolReplicas", "cephReplicaCount");
      return Success(i);
    }

    /** `migrateV1Beta1()`: on a clone, each legacy add-on whose version is falsy is deleted, one after the other. */
    method MigrateV1Beta1() returns (i: Installer)
      ensures fresh(i) && i.teamId == teamId && i.id == id
      ensures i.spec == Normalize.MigrateV1Beta1(spec)
    {
      i := Clone();
      var names := Normalize.V1Beta1Addons;
      var k := 0;
      while k < |names|
        invariant 0 <= k <= |names|
        invariant i.teamId == teamId && i.id == id
        invariant Normalize.DropDisabled(i.spec, names[k..]) == Normalize.MigrateV1Beta1(spec)
      {
        assert names[k..][1..] == names[k + 1..];
        if !Normalize.FieldTruthy(i.spec, names[k], "version") {
          i.spec := Remove(i.spec, names[k]);
        }
        k := k + 1;
      }
    }

    /**
     * `hash()`: the legacy pairs in their fixed order, then every other field sorted, fed to
     * SHA-256 (`sha256Hex`, with `objectHash` for object and array values); the first seven
     * hex digits.
     */
    method Hash(sha256Hex: string -> string, objectHash: Value -> string) returns (hashId: string)
      ensures hashId == Hashing.HashId(spec, sha256Hex, objectHash)
    {
      var updates := LegacyUpdatesOf(Hashing.LegacyFields);
      var fields := SpecFieldsOf(objectHash);
      updates := updates + Text.Sort(fields);
      var digest := sha256Hex(Hashing.Concat(updates));
      hashId := if |digest| >= 7 then digest[..7] else digest;
    }

    /** The `if` statements of `hash()` over the legacy pairs: each truthy field is written as `config_field=value`. */
    method LegacyUpdatesOf(legacy: seq<(string, string)>) returns (updates: seq<string>)
      ensures updates == Hashing.LegacyUpdates(spec, legacy)
    {
      updates := [];
      var j := 0;
      while j < |legacy|
        invariant 0 <= j <= |legacy|
        invariant updates + Hashing.LegacyUpdates(spec, legacy[j..]) == Hashing.LegacyUpdates(spec, legacy)
      {
        assert legacy[j..][1..] == legacy[j + 1..];
        var config := legacy[j].0;
        var field := legacy[j].1;
        var v := Field(spec, config, field);
        if TruthyOpt(v) {
          updates := updates + [Hashing.FieldKey(config, field) + "=" + ToJsString(v.value)];
        }
        j := j + 1;
      }
      assert legacy[j..] == [];
    }

    /** The `fields` list of `hash()`: every field of every block, legacy keys skipped, in key order. */
    method SpecFieldsOf(objectHash: Value -> string) returns (fields: seq<string>)
      ensures fields == Hashing.SpecFields(spec, objectHash)
    {
      var blockF := (e: (string, Value)) => Hashing.BlockFields(e.0, e.1, objectHash);
      fields := [];
      var k := 0;
      while k < |spec|
        invariant 0 <= k <= |spec|
        invariant fields == Hashing.ConcatMap(blockF, spec[..k])
      {
        var config := spec[k].0;
        var members := Members(spec[k].1);
        var fieldF := (m: (string, Value)) => Hashing.FieldUpdate(config, m, objectHash);
        var here: seq<string> := [];
        var m := 0;
        while m < |members|
          invariant 0 <= m <= |members|
          invariant here == Hashing.ConcatMap(fieldF, members[..m])
        {
          Hashing.ConcatMapSnoc(fieldF, members, m);
          here := here + Hashing.FieldUpdate(config, members[m], objectHash);
          m := m + 1;
        }
        assert members[..m] == members;
        assert here == Hashing.BlockFields(config, spec[k].1, objectHash);
        Hashing.ConcatMapSnoc(blockF, spec, k);
        fields := fields + here;
        k := k + 1;
      }
      assert spec[..k] == spec;
    }

    /** `flags()`: the flags of every add-on in schema order, joined by spaces. */
    method Flags() returns (f: string)
      ensures f == Schema.Flags(spec)
    {
      var flags := FlagsOf(Schema.SpecSchema);
      f := Text.Join(flags, " ");
    }

    /** `getFlags` over a list of add-on schemas: each present add-on's properties in declaration order. */
    method FlagsOf(addons: seq<Schema.Addon>) returns (flags: seq<string>)
      ensures flags == Schema.FlagList(addons, spec)
    {
      flags := [];
      var i := 0;
      while i < |addons|
        invariant 0 <= i <= |addons|
        invariant flags == Schema.FlagList(addons[..i], spec)
      {
        Schema.FlagListSnoc(addons, i, spec);
        var here := AddonFlagsOf(addons[i]);
        flags := flags + here;
        i := i + 1;
      }
      assert addons[..i] == addons;
    }

    /** The body of `getFlags` for one add-on: nothing when the spec has no block of its name. */
    method AddonFlagsOf(addon: Schema.Addon) returns (here: seq<string>)
      ensures here == Schema.AddonFlags(addon, spec)
    {
      here := [];
      var block := Lookup(spec, addon.name);
      if block.Some? {
        here := BlockFlagsOf(addon.schema.props, block.value);
      }
    }

    /** `getFlags` over one add-on's properties: each present property's flag, in declaration order. */
    static method BlockFlagsOf(props: seq<Schema.Prop>, block: Value) returns (here: seq<string>)
      ensures here == Schema.BlockFlags(props, block)
    {
      here := [];
      var p := 0;
      while p < |props|
        invariant 0 <= p <= |props|
        invariant here == Schema.BlockFlags(props[..p], block)
      {
        Schema.BlockFlagsSnoc(props, p, block);
        here := here + Schema.PropFlags(props[p], block);
        p := p + 1;
      }
      assert props[..p] == props;
    }

    /**
     * `packages(catalog, kurlVersion)`: the base packages, then each key's packages in key
     * order, remembering the last Kubernetes version, then the conformance package.
     */
    method Packages(catalog: Versions.Catalog, kurlVersion: string) returns (r: Result<seq<string>>)
      ensures r == Render.Packages(catalog, spec, kurlVersion)
    {
      var binUtils := "kurl-bin-utils-latest";
      if kurlVersion != "" {
        binUtils := "kurl-bin-utils-" + kurlVersion;
      }
      var pkgs := ["common", binUtils, "host-openssl"];
      if TruthyOpt(Lookup(spec, "longhorn")) {
        pkgs := pkgs + ["host-longhorn"];
      }
      assert "kurl-bin-utils-" + "latest" == "kurl-bin-utils-latest";
      assert pkgs == Render.BasePackages(spec, kurlVersion);
      var walked, kubernetesVersion := WalkKeys(Render.Step(catalog));
      pkgs := pkgs + walked;
      if kubernetesVersion.Some? {
        var recent := Validation.AtLeast(kubernetesVersion.value, Validation.Release(1, 17, 0));
        if recent.Failure? {
          return Failure(recent.error);
        }
        if recent.value && Render.WantsConformance(spec) {
          pkgs := pkgs + ["kubernetes-conformance-" + kubernetesVersion.value];
        }
      }
      return Success(pkgs);
    }

    /** The `_.each` over the keys of `packages()`: each key's packages, and the last Kubernetes version seen. */
    method WalkKeys(step: string -> seq<string>) returns (pkgs: seq<string>, kubernetesVersion: Option<string>)
      ensures pkgs == Render.WalkSpec(step, spec).pkgs && kubernetesVersion == Render.WalkSpec(step, spec).kubernetes
    {
      pkgs := [];
      kubernetesVersion := None;
      var k := 0;
      while k < |spec|
        invariant 0 <= k <= |spec|
        invariant pkgs == Render.WalkSpec(step, spec[..k]).pkgs
        invariant kubernetesVersion == Render.WalkSpec(step, spec[..k]).kubernetes
      {
        assert spec[..k + 1][..k] == spec[..k];
        var w := Render.KeyPackages(step, spec[k].0, spec[k].1);
        pkgs := pkgs + w.pkgs;
        if w.kubernetes.Some? {
          kubernetesVersion := w.kubernetes;
        }
        k := k + 1;
      }
      assert spec[..k] == spec;
    }

    /**
     * `resolve(catalog, externals)`: on a clone, each key's block in key order gets its
     * version resolved and, for an external add-on version, its `s3Override` location.
     */
    method Resolve(catalog: Versions.Catalog, externals: Render.Externals, externalUrl: string) returns (i: Installer)
      ensures fresh(i) && i.teamId == teamId && i.id == id
      ensures i.spec == Render.Resolve(Render.Resolver(catalog), externals, externalUrl, spec)
    {
      i := Clone();
      i.ResolveKeys(Render.Resolver(catalog), externals, externalUrl);
    }

    /** The `_.each` over the keys of `resolve()`, on the clone: each block in turn is replaced by its resolved form. */
    method ResolveKeys(resolver: (string, string) -> Result<string>, externals: Render.Externals, externalUrl: string)
      modifies this
      ensures id == old(id)
      ensures spec == Render.Resolve(resolver, externals, externalUrl, old(spec))
    {
      var original := spec;
      var k := 0;
      while k < |original|
        invariant 0 <= k <= |original|
        invariant id == old(id)
        invariant |spec| == |original| && spec[k..] == original[k..]
        invariant spec[..k] == Render.Resolve(resolver, externals, externalUrl, original[..k])
      {
        assert original[..k + 1][..k] == original[..k];
        var block := ResolveKey(resolver, externals, externalUrl, original[k].0, spec[k].1);
        spec := spec[k := (original[k].0, block)];
        k := k + 1;
      }
      assert original[..k] == original;
    }

    /** `hasS3Override(config)`: the add-on's block has an `s3Override` field, whatever its value. */
    predicate HasS3Override(config: string)
      reads this
    {
      Validation.HasS3Override(spec, config)
    }

    /** The installer as a Kubernetes object, as `toObject()` returns it. */
    function Object(): Value
      reads this
    {
      Render.ToObject(Schema.SpecNames, id, spec)
    }

    /** `toObject()`: the header, `metadata.name`, and each add-on of the schema that is truthy in the spec, in schema order. */
    method ToObject() returns (o: Value)
      ensures o == Object()
    {
      var ordered := OrderedOf(Schema.SpecNames);
      o := Obj([("apiVersion", Str("cluster.kurl.sh/v1beta1")), ("kind", Str("Installer")),
                ("metadata", Obj([("name", Str(id))])), ("spec", Obj(ordered))]);
    }

    /** The loop of `toObject()` over the schema's add-on names: each truthy block is copied. */
    method OrderedOf(names: seq<string>) returns (ordered: Entries)
      ensures ordered == Render.Ordered(names, spec)
    {
      ordered := [];
      var k := 0;
      while k < |names|
        invariant 0 <= k <= |names|
        invariant ordered == Render.Ordered(names[..k], spec)
      {
        assert names[..k + 1][..k] == names[..k];
        var block := Lookup(spec, names[k]);
        if TruthyOpt(block) {
          ordered := ordered + [(names[k], block.value)];
        }
        k := k + 1;
      }
      assert names[..k] == names;
    }
  }

  /**
   * The callback of `resolve` for one key: a `null` block, a truthy version that is not a
   * string and a version that does not resolve each throw, which leaves the block as it is.
   */
  method ResolveKey(resolver: (string, string) -> Result<string>, externals: Render.Externals, externalUrl: string, config: string, block: Value)
    returns (b: Value)
    ensures b == Render.ResolveBlock(resolver, externals, externalUrl, config, block)
  {
    b := block;
    if block.Null? {
      return;
    }
    var version := Get(block, "version");
    var current := version;
    if TruthyOpt(version) {
      if !version.value.Str? {
        return;
      }
      var resolved := resolver(config, version.value.s);
      if resolved.Failure? {
        return;
      }
      current := Some(Str(resolved.value));
      b := Render.SetField(b, "version", current.value);
    }
    if current.Some? && current.value.Str? && Render.ExternalAddonVersion(externals, config, current.value.s).Some? {
      b := Render.SetField(b, "s3Override", Str(Render.ExternalLocation(externalUrl, config, current.value.s)));
    }
  }
}
