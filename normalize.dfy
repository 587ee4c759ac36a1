/**
 * What happens to a spec between the YAML loader and the rest of the engine
 * (src/installers/index.ts): legacy field names are converted to their current
 * names, collectd `0.0.1` becomes `v5`, and a `kurl.sh/v1beta1` document drops the
 * add-on blocks whose version is empty. Every step works on a copy; the spec is an
 * ordered object, so where a converted field lands is part of the result.
 */
module Normalize {
  import opened Wrappers
  import opened Json

  /** The TypeError raised when `weave: null` is read for `encryptNetwork`. */
  const NullWeaveError := "Cannot read properties of null (reading 'encryptNetwork')"

  /** The weave block once `encryptNetwork` has been turned into `isEncryptionDisabled`. */
  function WeaveBlock(w: Entries): (r: Entries)
    requires Lookup(w, "encryptNetwork").Some?
    ensures Lookup(r, "encryptNetwork").None?
    ensures Lookup(r, "isEncryptionDisabled") ==
      if Lookup(w, "isEncryptionDisabled").Some? then Lookup(w, "isEncryptionDisabled")
      else Some(Bool(Lookup(w, "encryptNetwork").value != Bool(true)))
  {
    var en := Lookup(w, "encryptNetwork").value;
    var w1 := if Lookup(w, "isEncryptionDisabled").None? then Put(w, "isEncryptionDisabled", Bool(en != Bool(true))) else w;
    LookupRemove(w1, "encryptNetwork", "encryptNetwork");
    LookupRemove(w1, "encryptNetwork", "isEncryptionDisabled");
    LookupPut(w, "isEncryptionDisabled", Bool(en != Bool(true)), "isEncryptionDisabled");
    Remove(w1, "encryptNetwork")
  }

  /** The weave rule touches no other weave field. */
  lemma WeaveBlockOther(w: Entries, f: string)
    requires Lookup(w, "encryptNetwork").Some?
    requires f != "encryptNetwork" && f != "isEncryptionDisabled"
    ensures Lookup(WeaveBlock(w), f) == Lookup(w, f)
  {
    var en := Lookup(w, "encryptNetwork").value;
    var w1 := if Lookup(w, "isEncryptionDisabled").None? then Put(w, "isEncryptionDisabled", Bool(en != Bool(true))) else w;
    LookupRemove(w1, "encryptNetwork", f);
    LookupPut(w, "isEncryptionDisabled", Bool(en != Bool(true)), f);
  }

  /**
   * `weave.encryptNetwork` is replaced by `weave.isEncryptionDisabled`: when the new
   * field is undefined it becomes `encryptNetwork !== true`; the old field is always deleted.
   * A `weave: null` block cannot be read and fails.
   */
  function WeaveEncryption(spec: Entries): (r: Result<Entries>)
    ensures r.Failure? <==> Lookup(spec, "weave") == Some(Null)
  {
    match Lookup(spec, "weave")
    case None => Success(spec)
    case Some(w) =>
      if w.Null? then Failure(NullWeaveError)
      else if w.Obj? && Lookup(w.entries, "encryptNetwork").Some? then
        Success(Put(spec, "weave", Obj(WeaveBlock(w.entries))))
      else Success(spec)
  }

  /** The weave rule leaves every block other than weave, and keeps weave an object. */
  lemma WeaveEncryptionBlocks(spec: Entries, k: string)
    requires WeaveEncryption(spec).Success?
    ensures var r := WeaveEncryption(spec).value;
      && (Lookup(r, k) == Some(Null) <==> Lookup(spec, k) == Some(Null))
      && (k != "weave" ==> Lookup(r, k) == Lookup(spec, k))
      && (Field(spec, "weave", "encryptNetwork").None? ==> r == spec)
  {
    var w := Lookup(spec, "weave");
    if w.Some? && w.value.Obj? && Lookup(w.value.entries, "encryptNetwork").Some? {
      LookupPut(spec, "weave", Obj(WeaveBlock(w.value.entries)), k);
    }
  }

  /** The weave rule clears `encryptNetwork`, sets `isEncryptionDisabled`, and touches no other field. */
  lemma WeaveEncryptionReads(spec: Entries, k: string, f: string)
    requires WeaveEncryption(spec).Success?
    ensures var r := WeaveEncryption(spec).value;
      && Field(r, "weave", "encryptNetwork").None?
      && (k != "weave" || (f != "encryptNetwork" && f != "isEncryptionDisabled") ==> Field(r, k, f) == Field(spec, k, f))
      && (Field(spec, "weave", "encryptNetwork").Some? ==>
            Field(r, "weave", "isEncryptionDisabled") ==
              if Field(spec, "weave", "isEncryptionDisabled").Some? then Field(spec, "weave", "isEncryptionDisabled")
              else Some(Bool(Field(spec, "weave", "encryptNetwork").value != Bool(true))))
  {
    var w := Lookup(spec, "weave");
    if w.Some? && w.value.Obj? && Lookup(w.value.entries, "encryptNetwork").Some? {
      LookupPut(spec, "weave", Obj(WeaveBlock(w.value.entries)), k);
      LookupPut(spec, "weave", Obj(WeaveBlock(w.value.entries)), "weave");
      if k == "weave" && f != "encryptNetwork" && f != "isEncryptionDisabled" {
        WeaveBlockOther(w.value.entries, f);
      }
    }
  }

  /**
   * One of the renames `fluentd.efkStack`, `weave.IPAllocRange`, `rook.storageClass`
   * and `rook.cephPoolReplicas`: a truthy old field is copied onto a falsy new field
   * and then deleted; a falsy old field is left alone.
   */
  function MoveLegacy(spec: Entries, block: string, from: string, to: string): Entries
  {
    match Lookup(spec, block)
    case Some(Obj(b)) =>
      if TruthyOpt(Lookup(b, from)) then
        var b1 := if !TruthyOpt(Lookup(b, to)) then Put(b, to, Lookup(b, from).value) else b;
        Put(spec, block, Obj(Remove(b1, from)))
      else spec
    case _ => spec
  }

  /** A rename keeps every block where it is and changes no block but its own. */
  lemma MoveLegacyBlocks(spec: Entries, block: string, from: string, to: string, k: string)
    ensures var r := MoveLegacy(spec, block, from, to);
      && (Lookup(r, k) == Some(Null) <==> Lookup(spec, k) == Some(Null))
      && (Lookup(r, k).None? <==> Lookup(spec, k).None?)
      && (k != block ==> Lookup(r, k) == Lookup(spec, k))
  {
    match Lookup(spec, block)
    case Some(Obj(b)) =>
      if TruthyOpt(Lookup(b, from)) {
        var b1 := if !TruthyOpt(Lookup(b, to)) then Put(b, to, Lookup(b, from).value) else b;
        LookupPut(spec, block, Obj(Remove(b1, from)), k);
      }
    case _ =>
  }

  /** What a rename does to each field: the old one goes if truthy, the new one takes its value if falsy. */
  lemma MoveLegacyReads(spec: Entries, block: string, from: string, to: string, k: string, f: string)
    requires from != to
    ensures Field(MoveLegacy(spec, block, from, to), k, f) ==
      if k == block && f == from && TruthyOpt(Field(spec, block, from)) then None
      else if k == block && f == to && TruthyOpt(Field(spec, block, from)) && !TruthyOpt(Field(spec, block, to))
      then Field(spec, block, from)
      else Field(spec, k, f)
  {
    match Lookup(spec, block)
    case Some(Obj(b)) =>
      if TruthyOpt(Lookup(b, from)) {
        var b1 := if !TruthyOpt(Lookup(b, to)) then Put(b, to, Lookup(b, from).value) else b;
        LookupPut(spec, block, Obj(Remove(b1, from)), k);
        LookupRemove(b1, from, f);
        if !TruthyOpt(Lookup(b, to)) { LookupPut(b, to, Lookup(b, from).value, f); }
      }
    case _ =>
  }

  /**
   * Whether `spec.block.field` is truthy: `_.get(spec, "block.field")` in a condition, read as
   * the nested field (the same read as lodash's when no top-level key holds a dot).
   */
  predicate FieldTruthy(spec: Entries, block: string, field: string)
  {
    TruthyOpt(Field(spec, block, field))
  }

  /**
   * The guards of the renames are lodash reads, which a top-level key named like the path
   * shadows: here the efkStack guard is false although `spec.fluentd.efkStack` is true.
   */
  lemma LegacyGuardShadowed(spec: Entries)
    requires spec == [("fluentd.efkStack", Bool(false)), ("fluentd", Obj([("efkStack", Bool(true))]))]
    ensures !TruthyOpt(DottedGet(Obj(spec), "fluentd", "efkStack"))
    ensures FieldTruthy(spec, "fluentd", "efkStack")
  {
    assert DottedKey("fluentd", "efkStack") == "fluentd.efkStack";
    assert Lookup(spec, "fluentd.efkStack") == Some(Bool(false));
    DottedKeyShadows(spec, "fluentd", "efkStack", Bool(false));
    assert spec[0].0 != "fluentd" by { assert |spec[0].0| != |"fluentd"|; }
    assert Lookup(spec, "fluentd") == Some(Obj([("efkStack", Bool(true))]));
  }

  /** The legacy conversion applied to a parsed spec: the weave rule, then the four renames in source order. */
  function LegacyFieldConversion(spec: Entries): (r: Result<Entries>)
    ensures r.Failure? <==> Lookup(spec, "weave") == Some(Null)
  {
    match WeaveEncryption(spec)
    case Failure(e) => Failure(e)
    case Success(s1) =>
      var s2 := MoveLegacy(s1, "fluentd", "efkStack", "fullEFKStack");
      var s3 := MoveLegacy(s2, "weave", "IPAllocRange", "podCidrRange");
      var s4 := MoveLegacy(s3, "rook", "storageClass", "storageClassName");
      Success(MoveLegacy(s4, "rook", "cephPoolReplicas", "cephReplicaCount"))
  }

  /** A spec in which no legacy field is left for the conversion to act on. */
  predicate Converted(spec: Entries)
  {
    && Lookup(spec, "weave") != Some(Null)
    && Field(spec, "weave", "encryptNetwork").None?
    && !FieldTruthy(spec, "fluentd", "efkStack")
    && !FieldTruthy(spec, "weave", "IPAllocRange")
    && !FieldTruthy(spec, "rook", "storageClass")
    && !FieldTruthy(spec, "rook", "cephPoolReplicas")
  }

  /** A rename with nothing to rename changes nothing. */
  lemma MoveLegacyNoop(spec: Entries, block: string, from: string, to: string)
    requires !FieldTruthy(spec, block, from)
    ensures MoveLegacy(spec, block, from, to) == spec
  {
  }

  /** The conversion leaves a converted spec as it is. */
  lemma ConvertedIsFixed(spec: Entries)
    requires Converted(spec)
    ensures LegacyFieldConversion(spec) == Success(spec)
  {
    WeaveEncryptionBlocks(spec, "weave");
    MoveLegacyNoop(spec, "fluentd", "efkStack", "fullEFKStack");
    MoveLegacyNoop(spec, "weave", "IPAllocRange", "podCidrRange");
    MoveLegacyNoop(spec, "rook", "storageClass", "storageClassName");
    MoveLegacyNoop(spec, "rook", "cephPoolReplicas", "cephReplicaCount");
  }

  /** The legacy fields a rename of `block.from` into `block.to` leaves as they were. */
  lemma MoveLegacyKeepsConverted(spec: Entries, block: string, from: string, to: string)
    requires from != to && from != "encryptNetwork"
    requires to !in {"encryptNetwork", "efkStack", "IPAllocRange", "storageClass", "cephPoolReplicas"}
    ensures var r := MoveLegacy(spec, block, from, to);
      && (Lookup(r, "weave") == Some(Null) <==> Lookup(spec, "weave") == Some(Null))
      && Field(r, "weave", "encryptNetwork") == Field(spec, "weave", "encryptNetwork")
      && !FieldTruthy(r, block, from)
      && (block != "fluentd" || from != "efkStack" ==> FieldTruthy(r, "fluentd", "efkStack") == FieldTruthy(spec, "fluentd", "efkStack"))
      && (block != "weave" || from != "IPAllocRange" ==> FieldTruthy(r, "weave", "IPAllocRange") == FieldTruthy(spec, "weave", "IPAllocRange"))
      && (block != "rook" || from != "storageClass" ==> FieldTruthy(r, "rook", "storageClass") == FieldTruthy(spec, "rook", "storageClass"))
      && (block != "rook" || from != "cephPoolReplicas" ==> FieldTruthy(r, "rook", "cephPoolReplicas") == FieldTruthy(spec, "rook", "cephPoolReplicas"))
  {
    MoveLegacyBlocks(spec, block, from, to, "weave");
    MoveLegacyReads(spec, block, from, to, "weave", "encryptNetwork");
    MoveLegacyReads(spec, block, from, to, block, from);
    MoveLegacyReads(spec, block, from, to, "fluentd", "efkStack");
    MoveLegacyReads(spec, block, from, to, "weave", "IPAllocRange");
    MoveLegacyReads(spec, block, from, to, "rook", "storageClass");
    MoveLegacyReads(spec, block, from, to, "rook", "cephPoolReplicas");
  }

  /** Whatever the conversion returns is converted. */
  lemma ConversionConverts(spec: Entries)
    requires LegacyFieldConversion(spec).Success?
    ensures Converted(LegacyFieldConversion(spec).value)
  {
    var s1 := WeaveEncryption(spec).value;
    WeaveEncryptionBlocks(spec, "weave");
    WeaveEncryptionReads(spec, "weave", "encryptNetwork");
    var s2 := MoveLegacy(s1, "fluentd", "efkStack", "fullEFKStack");
    MoveLegacyKeepsConverted(s1, "fluentd", "efkStack", "fullEFKStack");
    var s3 := MoveLegacy(s2, "weave", "IPAllocRange", "podCidrRange");
    MoveLegacyKeepsConverted(s2, "weave", "IPAllocRange", "podCidrRange");
    var s4 := MoveLegacy(s3, "rook", "storageClass", "storageClassName");
    MoveLegacyKeepsConverted(s3, "rook", "storageClass", "storageClassName");
    MoveLegacyKeepsConverted(s4, "rook", "cephPoolReplicas", "cephReplicaCount");
  }

  /** Converting twice gives the same spec as converting once. */
  lemma LegacyFieldConversionIdempotent(spec: Entries)
    requires LegacyFieldConversion(spec).Success?
    ensures LegacyFieldConversion(LegacyFieldConversion(spec).value) == LegacyFieldConversion(spec)
  {
    ConversionConverts(spec);
    ConvertedIsFixed(LegacyFieldConversion(spec).value);
  }

  /**
   * After the conversion `weave.encryptNetwork` is gone and `weave.isEncryptionDisabled`
   * is the value it had, or `encryptNetwork !== true` when it had none.
   */
  lemma EncryptNetworkRule(spec: Entries)
    requires LegacyFieldConversion(spec).Success?
    requires Field(spec, "weave", "encryptNetwork").Some?
    ensures var r := LegacyFieldConversion(spec).value;
      && Field(r, "weave", "encryptNetwork").None?
      && Field(r, "weave", "isEncryptionDisabled") ==
         if Field(spec, "weave", "isEncryptionDisabled").Some? then Field(spec, "weave", "isEncryptionDisabled")
         else Some(Bool(Field(spec, "weave", "encryptNetwork").value != Bool(true)))
  {
    var s1 := WeaveEncryption(spec).value;
    WeaveEncryptionReads(spec, "weave", "isEncryptionDisabled");
    var s2 := MoveLegacy(s1, "fluentd", "efkStack", "fullEFKStack");
    MoveLegacyReads(s1, "fluentd", "efkStack", "fullEFKStack", "weave", "isEncryptionDisabled");
    var s3 := MoveLegacy(s2, "weave", "IPAllocRange", "podCidrRange");
    MoveLegacyReads(s2, "weave", "IPAllocRange", "podCidrRange", "weave", "isEncryptionDisabled");
    var s4 := MoveLegacy(s3, "rook", "storageClass", "storageClassName");
    MoveLegacyReads(s3, "rook", "storageClass", "storageClassName", "weave", "isEncryptionDisabled");
    MoveLegacyReads(s4, "rook", "cephPoolReplicas", "cephReplicaCount", "weave", "isEncryptionDisabled");
    ConversionConverts(spec);
  }

  /** collectd `0.0.1` is an alias of `v5`. */
  function CollectdAlias(spec: Entries): (r: Entries)
    ensures Field(spec, "collectd", "version") == Some(Str("0.0.1")) ==> Field(r, "collectd", "version") == Some(Str("v5"))
    ensures Field(spec, "collectd", "version") != Some(Str("0.0.1")) ==> r == spec
    ensures forall k :: k != "collectd" ==> Lookup(r, k) == Lookup(spec, k)
    ensures forall f :: f != "version" ==> Field(r, "collectd", f) == Field(spec, "collectd", f)
  {
    if Field(spec, "collectd", "version") == Some(Str("0.0.1")) then
      var c := Lookup(spec, "collectd").value.entries;
      var r := Put(spec, "collectd", Obj(Put(c, "version", Str("v5"))));
      LookupPutAll(spec, "collectd", Obj(Put(c, "version", Str("v5"))));
      LookupPutAll(c, "version", Str("v5"));
      r
    else spec
  }

  /** The add-ons that a `kurl.sh/v1beta1` document disables by leaving their version empty. */
  const V1Beta1Addons: seq<string> := ["docker", "weave", "rook", "contour", "registry", "prometheus", "kotsadm"]

  /** Deletes each named block whose `version` is falsy (missing, empty, or a block that is not an object). */
  function DropDisabled(spec: Entries, names: seq<string>): Entries
    decreases |names|
  {
    if |names| == 0 then spec
    else
      var s1 := if !FieldTruthy(spec, names[0], "version") then Remove(spec, names[0]) else spec;
      DropDisabled(s1, names[1..])
  }

  /** `migrateV1Beta1`: the disabled legacy add-on blocks are deleted. */
  function MigrateV1Beta1(spec: Entries): Entries
  {
    DropDisabled(spec, V1Beta1Addons)
  }

  /** Exactly the named blocks with a falsy version go; every other block keeps its value. */
  lemma {:induction false} DropDisabledReads(spec: Entries, names: seq<string>, k: string)
    ensures Lookup(DropDisabled(spec, names), k) ==
      if k in names && !FieldTruthy(spec, k, "version") then None else Lookup(spec, k)
    decreases |names|
  {
    if |names| > 0 {
      var n := names[0];
      var s1 := if !FieldTruthy(spec, n, "version") then Remove(spec, n) else spec;
      DropDisabledReads(s1, names[1..], k);
      LookupRemove(spec, n, k);
      if k != n && !FieldTruthy(spec, n, "version") {
        assert Field(s1, k, "version") == Field(spec, k, "version");
      }
    }
  }

  /** The v1beta1 migration deletes exactly the disabled legacy add-ons and nothing else. */
  lemma MigrateV1Beta1Reads(spec: Entries, k: string)
    ensures Lookup(MigrateV1Beta1(spec), k) ==
      if k in V1Beta1Addons && !FieldTruthy(spec, k, "version") then None else Lookup(spec, k)
  {
    DropDisabledReads(spec, V1Beta1Addons, k);
  }

  /** The installer id and spec that `Installer.parse` builds from a loaded document. */
  datatype Parsed = Parsed(id: string, spec: Entries)

  /** `_.get(doc, "metadata.name", "")` read as the nested name, as it reads inside a template literal. */
  function ParsedId(doc: Value): (id: string)
    ensures GetPath(doc, ["metadata", "name"]).None? ==> id == ""
    ensures GetPath(doc, ["metadata", "name"]).Some? && GetPath(doc, ["metadata", "name"]).value.Str? ==>
      id == GetPath(doc, ["metadata", "name"]).value.s
  {
    match GetPath(doc, ["metadata", "name"])
    case None => ""
    case Some(v) => ToJsString(v)
  }

  /**
   * `Installer.parse` after the YAML loader: a document that is not an object, or whose
   * `spec` is not an object, gives an empty spec; otherwise the spec is converted, collectd
   * is aliased, and a `kurl.sh/v1beta1` document is migrated.
   */
  function ParseDocument(doc: Value): Result<Parsed>
  {
    var id := ParsedId(doc);
    if !doc.Obj? then Success(Parsed(id, []))
    else match Lookup(doc.entries, "spec")
      case Some(Obj(spec)) =>
        (match LegacyFieldConversion(spec)
         case Failure(e) => Failure(e)
         case Success(converted) =>
           var aliased := CollectdAlias(converted);
           if Lookup(doc.entries, "apiVersion") == Some(Str("kurl.sh/v1beta1"))
           then Success(Parsed(id, MigrateV1Beta1(aliased)))
           else Success(Parsed(id, aliased)))
      case _ => Success(Parsed(id, []))
  }

  /** A document without an object `spec` parses to an empty spec. */
  lemma ParseDocumentEmpty(doc: Value)
    requires !doc.Obj? || Get(doc, "spec").None? || !Get(doc, "spec").value.Obj?
    ensures ParseDocument(doc) == Success(Parsed(ParsedId(doc), []))
  {
    if doc.Obj? {
      var s := Lookup(doc.entries, "spec");
      assert s == Get(doc, "spec");
      assert s.None? || !s.value.Obj?;
    }
  }

  /** Parsing fails only where the legacy conversion reads `weave: null`. */
  lemma ParseDocumentFails(doc: Value)
    requires doc.Obj? && Get(doc, "spec").Some? && Get(doc, "spec").value.Obj?
    ensures ParseDocument(doc).Failure? <==> Lookup(Get(doc, "spec").value.entries, "weave") == Some(Null)
  {
  }

  /** Deleting blocks, or rewriting blocks other than weave, fluentd and rook, cannot bring a legacy field back. */
  lemma ConvertedKept(a: Entries, b: Entries)
    requires Converted(a)
    requires forall k :: k in ["weave", "fluentd", "rook"] ==> Lookup(b, k) == Lookup(a, k) || Lookup(b, k).None?
    ensures Converted(b)
  {
    assert "weave" in ["weave", "fluentd", "rook"];
    assert "fluentd" in ["weave", "fluentd", "rook"];
    assert "rook" in ["weave", "fluentd", "rook"];
  }

  /** A parsed spec never keeps a legacy field, whatever its api version. */
  lemma ParseDocumentConverted(doc: Value)
    requires ParseDocument(doc).Success?
    ensures Converted(ParseDocument(doc).value.spec)
  {
    if doc.Obj? && Get(doc, "spec").Some? && Get(doc, "spec").value.Obj? {
      var spec := Get(doc, "spec").value.entries;
      ConversionConverts(spec);
      var converted := LegacyFieldConversion(spec).value;
      var aliased := CollectdAlias(converted);
      ConvertedKept(converted, aliased);
      forall k | k in ["weave", "fluentd", "rook"]
        ensures Lookup(MigrateV1Beta1(aliased), k) == Lookup(aliased, k) || Lookup(MigrateV1Beta1(aliased), k).None?
      {
        MigrateV1Beta1Reads(aliased, k);
      }
      ConvertedKept(aliased, MigrateV1Beta1(aliased));
    }
  }

  /**
   * `_.defaults(dest, src)`: each key of `src`, in order, is added to `dest` unless
   * `dest` already has it.
   */
  function Defaults(dest: Entries, src: Entries): Entries
    decreases |src|
  {
    if |src| == 0 then dest
    else if src[0].0 in Keys(dest) then Defaults(dest, src[1..])
    else Defaults(dest + [src[0]], src[1..])
  }

  /** A key keeps its value from `dest` if it had one there, and otherwise takes its first value in `src`. */
  lemma {:induction false} DefaultsReads(dest: Entries, src: Entries, k: string)
    ensures Lookup(Defaults(dest, src), k) == if k in Keys(dest) then Lookup(dest, k) else Lookup(src, k)
    decreases |src|
  {
    LookupKeys(dest, k);
    if |src| > 0 {
      if src[0].0 in Keys(dest) {
        DefaultsReads(dest, src[1..], k);
      } else {
        var d1 := dest + [src[0]];
        DefaultsReads(d1, src[1..], k);
        LookupConcat(dest, [src[0]], k);
        assert Keys(d1) == Keys(dest) + [src[0].0];
        assert k in Keys(d1) <==> k in Keys(dest) || k == src[0].0;
      }
    }
  }

  /**
   * `setKurlVersion`: a non-empty kurl version becomes `kurl.installerVersion`; the other
   * kurl fields stay, and `additionalNoProxyAddresses` defaults to `[]`.
   */
  function SetKurlVersion(spec: Entries, kurlVersion: string): Entries
  {
    if kurlVersion == "" then spec
    else
      var current := match Lookup(spec, "kurl") case Some(v) => Members(v) case None => [];
      var kurl := Defaults(Defaults([("installerVersion", Str(kurlVersion))], current), [("additionalNoProxyAddresses", Arr([]))]);
      Put(spec, "kurl", Obj(kurl))
  }

  /** What `setKurlVersion` does to the kurl block and to the rest of the spec. */
  lemma SetKurlVersionReads(spec: Entries, kurlVersion: string, k: string, f: string)
    requires kurlVersion != ""
    requires Lookup(spec, "kurl").None? || Lookup(spec, "kurl").value.Obj?
    ensures k != "kurl" ==> Lookup(SetKurlVersion(spec, kurlVersion), k) == Lookup(spec, k)
    ensures Field(SetKurlVersion(spec, kurlVersion), "kurl", f) ==
      if f == "installerVersion" then Some(Str(kurlVersion))
      else if Field(spec, "kurl", f).None? && f == "additionalNoProxyAddresses" then Some(Arr([]))
      else Field(spec, "kurl", f)
  {
    var current := match Lookup(spec, "kurl") case Some(v) => Members(v) case None => [];
    var d1 := Defaults([("installerVersion", Str(kurlVersion))], current);
    var kurl := Defaults(d1, [("additionalNoProxyAddresses", Arr([]))]);
    LookupPut(spec, "kurl", Obj(kurl), k);
    LookupPut(spec, "kurl", Obj(kurl), "kurl");
    DefaultsReads(d1, [("additionalNoProxyAddresses", Arr([]))], f);
    DefaultsReads([("installerVersion", Str(kurlVersion))], current, f);
    DefaultsReads([("installerVersion", Str(kurlVersion))], current, "additionalNoProxyAddresses");
    assert Keys([("installerVersion", Str(kurlVersion))]) == ["installerVersion"];
    LookupKeys(d1, f);
    LookupKeys([("installerVersion", Str(kurlVersion))], f);
    assert Field(spec, "kurl", f) == Lookup(current, f);
  }
}
