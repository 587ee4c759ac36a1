/**
 * The add-on schema tables as data, the subset of JSON-schema validation the engine relies
 * on (type, required, additionalProperties, array items), reported the way the validator
 * reports its first error, and the walk that turns a spec into command-line flags.
 *
 * Several schemas spell `additionalProperites`, which the validator ignores, so those blocks
 * and the top level accept unknown fields; such schemas have `closed == false` here. The
 * iptables schema puts `additionalProperties: false` among its properties, which makes a
 * property named `additionalProperties` whose schema rejects every value.
 */
module Schema {
  import opened Wrappers
  import opened Text
  import opened Json

  /** The JSON-schema `type` of a property; arrays carry the schema of their items. */
  datatype Type = StringT | BooleanT | NumberT | ObjectT | ArrayT(items: Type)

  /** The schema of one property: the boolean schema `false`, or a typed one with an optional CLI flag. */
  datatype PropSchema =
    | Never
    | Typed(ty: Type, flag: Option<string>, falseOnlyNoArg: bool)

  datatype Prop = Prop(name: string, schema: PropSchema)

  /** An add-on block: its properties in declaration order, its required names, and whether unknown fields are refused. */
  datatype AddonSchema = AddonSchema(props: seq<Prop>, required: seq<string>, closed: bool)

  datatype Addon = Addon(name: string, schema: AddonSchema)

  // Shorthands for the tables.
  function Str(name: string, flag: string): Prop { Prop(name, Typed(StringT, Some(flag), false)) }
  function StrNoFlag(name: string): Prop { Prop(name, Typed(StringT, None, false)) }
  function Boolean(name: string, flag: string): Prop { Prop(name, Typed(BooleanT, Some(flag), false)) }
  function BooleanNoFlag(name: string): Prop { Prop(name, Typed(BooleanT, None, false)) }
  function Number(name: string, flag: string): Prop { Prop(name, Typed(NumberT, Some(flag), false)) }
  function Strings(name: string, flag: Option<string>): Prop { Prop(name, Typed(ArrayT(StringT), flag, false)) }
  function Commands(name: string): Prop { Prop(name, Typed(ArrayT(ArrayT(StringT)), None, false)) }

  const Version := StrNoFlag("version")
  const S3Override := Str("s3Override", "s3-override")

  /** An add-on that has nothing but a version and an override location. */
  function VersionOnly(): AddonSchema
  {
    AddonSchema([Version, S3Override], ["version"], true)
  }

  const KubernetesSchema := AddonSchema([
    Version, S3Override,
    Str("serviceCidrRange", "service-cidr-range"),
    Str("serviceCIDR", "service-cidr"),
    Boolean("HACluster", "ha"),
    Str("masterAddress", "kuberenetes-master-address"),
    Str("clusterName", "kubernetes-cluster-name"),
    Str("loadBalancerAddress", "load-balancer-address"),
    Boolean("loadBalancerUseFirstPrimary", "kubernetes-load-balancer-use-first-primary"),
    Str("containerLogMaxSize", "container-log-max-size"),
    Number("containerLogMaxFiles", "container-log-max-files"),
    Str("bootstrapToken", "bootstrap-token"),
    Str("bootstrapTokenTTL", "bootstrap-token-ttl"),
    Str("kubeadmTokenCAHash", "kubeadm-token-ca-hash"),
    BooleanNoFlag("useStandardNodePortRange"),
    Boolean("controlPlane", "control-plane"),
    Str("certKey", "cert-key"),
    Boolean("cisCompliance", "kubernetes-cis-compliance"),
    Boolean("kubeReserved", "kubernetes-reserved"),
    Str("evictionThresholdResources", "eviction-threshold"),
    Str("systemReservedResources", "system-reserved-resources")
  ], ["version"], true)

  const DockerSchema := AddonSchema([
    Version, S3Override,
    Boolean("bypassStorageDriverWarnings", "bypass-storagedriver-warnings"),
    Boolean("hardFailOnLoopback", "hard-fail-on-loopback"),
    Boolean("noCEOnEE", "no-ce-on-ee"),
    Str("dockerRegistryIP", "docker-registry-ip"),
    Str("additionalNoProxy", "additional-no-proxy"),
    Boolean("noDocker", "no-docker")
  ], ["version"], false)

  const WeaveSchema := AddonSchema([
    Version, S3Override,
    Str("podCIDR", "pod-cidr"),
    Str("podCidrRange", "pod-cidr-range"),
    Boolean("isEncryptionDisabled", "disable-weave-encryption")
  ], ["version"], false)

  const FlannelSchema := AddonSchema([
    Version, StrNoFlag("s3Override"), StrNoFlag("podCIDR"), StrNoFlag("podCIDRRange")
  ], ["version"], false)

  const AntreaSchema := AddonSchema([
    Version, StrNoFlag("s3Override"), StrNoFlag("podCIDR"), StrNoFlag("podCidrRange"),
    BooleanNoFlag("isEncryptionDisabled")
  ], ["version"], false)

  const RookSchema := AddonSchema([
    Version, S3Override,
    Str("storageClassName", "storage-class-name"),
    Number("cephReplicaCount", "ceph-replica-count"),
    Boolean("isBlockStorageEnabled", "rook-block-storage-enabled"),
    Boolean("isSharedFilesystemDisabled", "rook-shared-filesystem-disabled"),
    Str("blockDeviceFilter", "rook-block-device-filter"),
    Boolean("bypassUpgradeWarning", "rook-bypass-upgrade-warning"),
    Boolean("hostpathRequiresPrivileged", "rook-hostpath-requires-privileged")
  ], ["version"], false)

  const OpenEbsSchema := AddonSchema([
    Version, S3Override,
    Str("namespace", "openebs-namespace"),
    Boolean("isLocalPVEnabled", "openebs-localpv-enabled"),
    Str("localPVStorageClassName", "openebs-localpv-storage-class-name"),
    Boolean("isCstorEnabled", "openebs-cstor-enabled"),
    Str("cstorStorageClassName", "openebs-cstor-storage-class-name")
  ], ["version"], true)

  const MinioSchema := AddonSchema([
    Version, S3Override,
    Str("namespace", "minio-namespace"),
    Str("hostPath", "minio-hostpath"),
    Str("claimSize", "claim-size")
  ], ["version"], true)

  const ContourSchema := AddonSchema([
    Version, S3Override,
    Str("tlsMinimumProtocolVersion", "contour-tls-minimum-protocol-version"),
    Number("httpPort", "contour-http-port"),
    Number("httpsPort", "contour-https-port")
  ], ["version"], true)

  const RegistrySchema := AddonSchema([
    Version, S3Override, Number("publishPort", "registry-publish-port")
  ], ["version"], true)

  const PrometheusSchema := AddonSchema([
    Version, S3Override, Str("serviceType", "service-type")
  ], ["version"], true)

  const FluentdSchema := AddonSchema([
    Version, S3Override, Boolean("fullEFKStack", "fluentd-full-efk-stack")
  ], ["version"], true)

  const KotsadmSchema := AddonSchema([
    Version, S3Override,
    Boolean("disableS3", "disable-s3"),
    Number("uiBindPort", "kotsadm-ui-bind-port"),
    Str("hostname", "kotsadm-hostname"),
    Str("applicationSlug", "app-slug"),
    Str("applicationNamespace", "app-namespace"),
    Str("applicationVersionLabel", "app-version-label")
  ], ["version"], true)

  const VeleroSchema := AddonSchema([
    Version, S3Override,
    Str("namespace", "velero-namespace"),
    Boolean("disableCLI", "velero-disable-cli"),
    Boolean("disableRestic", "velero-disable-restic"),
    Str("localBucket", "velero-local-bucket"),
    Boolean("resticRequiresPrivileged", "velero-restic-requires-privileged"),
    Str("resticTimeout", "velero-restic-timeout")
  ], ["version"], true)

  const EkcoSchema := AddonSchema([
    Version, S3Override,
    Str("nodeUnreachableToleration", "ekco-node-unreachable-toleration-duration"),
    Number("minReadyMasterNodeCount", "ekco-min-ready-master-node-count"),
    Number("minReadyWorkerNodeCount", "ekco-min-ready-worker-node-count"),
    Boolean("shouldDisableRebootService", "ekco-should-disable-reboot-service"),
    BooleanNoFlag("shouldDisableClearNodes"),
    BooleanNoFlag("shouldEnablePurgeNodes"),
    Boolean("rookShouldUseAllNodes", "ekco-rook-should-use-all-nodes"),
    Boolean("rookShouldDisableReconcileMDSPlacement", "ekco-rook-should-disable-reconcile-mds-placement"),
    Boolean("rookShouldDisableReconcileCephCSIResources", "ekco-rook-should-disable-reconcile-ceph-csi-resources"),
    Strings("podImageOverrides", Some("pod-image-overrides")),
    Boolean("enableInternalLoadBalancer", "ekco-enable-internal-load-balancer"),
    Boolean("shouldDisableRestartFailedEnvoyPods", "ekco-should-disable-restart-failed-envoy-pods"),
    Str("envoyPodsNotReadyDuration", "ekco-envoy-pods-not-ready-duration")
  ], ["version"], false)

  const KurlSchema := AddonSchema([
    Strings("additionalNoProxyAddresses", None),
    Boolean("airgap", "airgap"),
    Boolean("excludeBuiltinHostPreflights", "exclude-builtin-host-preflights"),
    Str("hostnameCheck", "hostname-check"),
    Prop("hostPreflights", Typed(ObjectT, None, false)),
    Boolean("hostPreflightIgnore", "host-preflight-ignore"),
    Boolean("hostPreflightEnforceWarnings", "host-preflight-enforce-warnings"),
    Boolean("ignoreRemoteLoadImagesPrompt", "ignore-remote-load-images-prompt"),
    Boolean("ignoreRemoteUpgradePrompt", "ignore-remote-upgrade-prompt"),
    BooleanNoFlag("ipv6"),
    StrNoFlag("licenseURL"),
    StrNoFlag("nameserver"),
    Boolean("noProxy", "no-proxy"),
    Boolean("preflightIgnore", "preflight-ignore"),
    Boolean("preflightIgnoreWarnings", "preflight-ignore-warnings"),
    Str("privateAddress", "private-address"),
    Str("proxyAddress", "http-proxy"),
    Str("publicAddress", "public-address"),
    Boolean("skipSystemPackageInstall", "skip-system-package-install"),
    Boolean("excludeBuiltinPreflights", "exclude-builtin-preflights"),
    Boolean("bypassFirewalldWarning", "bypass-firewalld-warning"),
    Boolean("hardFailOnFirewalld", "hard-fail-on-firewalld"),
    StrNoFlag("installerVersion")
  ], [], true)

  const ContainerdSchema := AddonSchema([
    Version, StrNoFlag("tomlConfig"), BooleanNoFlag("preserveConfig"), S3Override
  ], ["version"], true)

  const FirewalldSchema := AddonSchema([
    BooleanNoFlag("bypassFirewalldWarning"),
    BooleanNoFlag("disableFirewalld"),
    StrNoFlag("firewalld"),
    Commands("firewalldCmds"),
    BooleanNoFlag("hardFailOnFirewalld"),
    BooleanNoFlag("preserveConfig")
  ], [], false)

  const IptablesSchema := AddonSchema([
    Commands("iptablesCmds"),
    BooleanNoFlag("preserveConfig"),
    Prop("additionalProperties", Never)
  ], [], false)

  const SelinuxSchema := AddonSchema([
    Commands("chconCmds"),
    BooleanNoFlag("disableSelinux"),
    BooleanNoFlag("preserveConfig"),
    StrNoFlag("selinux"),
    Commands("semanageCmds")
  ], [], false)

  const HelmSchema := AddonSchema([
    Str("helmfileSpec", "helmfile-spec"),
    Strings("additionalImages", None)
  ], ["helmfileSpec"], true)

  const LonghornSchema := AddonSchema([
    S3Override,
    Number("storageOverProvisioningPercentage", "longhorn-storage-over-provisioning-percentage"),
    Number("uiBindPort", "longhorn-ui-bind-port"),
    Number("uiReplicaCount", "longhorn-ui-replica-count"),
    Version
  ], ["version"], true)

  const UfwSchema := AddonSchema([
    BooleanNoFlag("bypassUFWWarning"),
    BooleanNoFlag("disableUFW"),
    BooleanNoFlag("hardFailOnUFW")
  ], [], false)

  const AwsSchema := AddonSchema([
    Version,
    Boolean("excludeStorageClass", "aws-exclude-storage-class"),
    S3Override
  ], ["version"], false)

  /** The names of the spec's properties in declaration order, which is also the order of the rendered YAML. */
  const SpecNames: seq<string> := ["kubernetes", "docker", "weave", "flannel", "antrea", "calico", "rook", "openebs", "minio", "contour", "registry", "prometheus", "fluentd", "kotsadm", "velero", "ekco", "kurl", "containerd", "collectd", "certManager", "metricsServer", "firewalldConfig", "iptablesConfig", "selinuxConfig", "helm", "longhorn", "sonobuoy", "ufw", "goldpinger", "aws"]

  /** The schema of each of those properties, in the same order. */
  const SpecSchemas: seq<AddonSchema> := [KubernetesSchema, DockerSchema, WeaveSchema, FlannelSchema, AntreaSchema, VersionOnly(), RookSchema, OpenEbsSchema, MinioSchema, ContourSchema, RegistrySchema, PrometheusSchema, FluentdSchema, KotsadmSchema, VeleroSchema, EkcoSchema, KurlSchema, ContainerdSchema, VersionOnly(), VersionOnly(), VersionOnly(), FirewalldSchema, IptablesSchema, SelinuxSchema, HelmSchema, LonghornSchema, VersionOnly(), UfwSchema, VersionOnly(), AwsSchema]

  /** The spec's properties: each name with its schema. */
  const SpecSchema: seq<Addon> := Attach(SpecNames, SpecSchemas)

  /** Pairs each add-on name with the schema at the same position. */
  function Attach(names: seq<string>, schemas: seq<AddonSchema>): (addons: seq<Addon>)
    requires |names| == |schemas|
    ensures |addons| == |names|
    ensures forall i :: 0 <= i < |names| ==> addons[i] == Addon(names[i], schemas[i])
  {
    seq(|names|, i requires 0 <= i < |names| => Addon(names[i], schemas[i]))
  }

  /** `toObject` walks the same names, in the same order, as the schema declares. */
  lemma SpecNamesOfSchema()
    ensures AddonNames(SpecSchema) == SpecNames
  {
  }

  function AddonNames(addons: seq<Addon>): (names: seq<string>)
    ensures |names| == |addons|
    ensures forall i :: 0 <= i < |addons| ==> names[i] == addons[i].name
  {
    if |addons| == 0 then [] else [addons[0].name] + AddonNames(addons[1..])
  }

  function PropNames(props: seq<Prop>): (names: seq<string>)
    ensures |names| == |props|
    ensures forall i :: 0 <= i < |props| ==> names[i] == props[i].name
  {
    if |props| == 0 then [] else [props[0].name] + PropNames(props[1..])
  }

  // ---------------------------------------------------------------- the schema check

  function TypeName(t: Type): string
  {
    match t
    case StringT => "string"
    case BooleanT => "boolean"
    case NumberT => "number"
    case ObjectT => "object"
    case ArrayT(_) => "array"
  }

  predicate HasType(t: Type, v: Value)
  {
    match t
    case StringT => v.Str?
    case BooleanT => v.Bool?
    case NumberT => v.Num?
    case ObjectT => v.Obj?
    case ArrayT(_) => v.Arr?
  }

  /** The value conforms to the type, items included. */
  predicate Conforms(t: Type, v: Value)
    decreases t
  {
    HasType(t, v) && (t.ArrayT? ==> forall i :: 0 <= i < |v.items| ==> Conforms(t.items, v.items[i]))
  }

  /** The first error for a value at `path`: its type, then its items in order. */
  function ValueError(t: Type, v: Value, path: string): (r: Option<string>)
    ensures r.None? <==> Conforms(t, v)
    decreases t, 0, 0
  {
    if !HasType(t, v) then Some(path + " must be " + TypeName(t))
    else if t.ArrayT? then ItemsError(t.items, v.items, path, 0)
    else None
  }

  /** The first error among `items`, which sit at indexes `offset`, `offset + 1`, ... */
  function ItemsError(t: Type, items: seq<Value>, path: string, offset: nat): (r: Option<string>)
    ensures r.None? <==> forall i :: 0 <= i < |items| ==> Conforms(t, items[i])
    decreases t, 1, |items|
  {
    if |items| == 0 then None
    else match ValueError(t, items[0], path + "/" + NatToString(offset))
      case Some(e) => Some(e)
      case None => ItemsError(t, items[1..], path, offset + 1)
  }

  /** The first required name the block lacks. */
  function MissingRequired(required: seq<string>, e: Entries): (r: Option<string>)
    ensures r.None? <==> forall i :: 0 <= i < |required| ==> required[i] in Keys(e)
    ensures r.Some? ==> r.value in required && r.value !in Keys(e)
  {
    if |required| == 0 then None
    else if required[0] !in Keys(e) then Some(required[0])
    else MissingRequired(required[1..], e)
  }

  /** The first key of the block, in the block's own order, that the schema does not declare. */
  function FirstUnknown(e: Entries, known: seq<string>): (r: Option<string>)
    ensures r.None? <==> forall i :: 0 <= i < |e| ==> e[i].0 in known
    ensures r.Some? ==> r.value in Keys(e) && r.value !in known
  {
    if |e| == 0 then None
    else if e[0].0 !in known then Some(e[0].0)
    else FirstUnknown(e[1..], known)
  }

  /** The first error among the declared properties the block holds, in declaration order. */
  function PropsError(props: seq<Prop>, e: Entries, path: string): (r: Option<string>)
    ensures r.None? <==> forall i :: 0 <= i < |props| ==> PropOk(props[i], e)
  {
    if |props| == 0 then None
    else match PropError(props[0], e, path)
      case Some(err) => Some(err)
      case None => PropsError(props[1..], e, path)
  }

  predicate PropOk(p: Prop, e: Entries)
  {
    match Lookup(e, p.name)
    case None => true
    case Some(v) => p.schema.Typed? && Conforms(p.schema.ty, v)
  }

  function PropError(p: Prop, e: Entries, path: string): (r: Option<string>)
    ensures r.None? <==> PropOk(p, e)
  {
    match Lookup(e, p.name)
    case None => None
    case Some(v) =>
      match p.schema
      case Never => Some(path + "/" + p.name + " boolean schema is false")
      case Typed(t, _, _) => ValueError(t, v, path + "/" + p.name)
  }

  /** An add-on block conforms: it is an object, has every required name, no unknown key when closed, and well-typed properties. */
  predicate BlockOk(s: AddonSchema, v: Value)
  {
    v.Obj?
    && (forall i :: 0 <= i < |s.required| ==> s.required[i] in Keys(v.entries))
    && (s.closed ==> forall i :: 0 <= i < |v.entries| ==> v.entries[i].0 in PropNames(s.props))
    && (forall i :: 0 <= i < |s.props| ==> PropOk(s.props[i], v.entries))
  }

  /**
   * The validator's first error for a block, in its keyword order: the type, then the
   * required names in listed order, then the first unknown key, then the properties in
   * declaration order.
   */
  function BlockError(s: AddonSchema, v: Value, path: string): (r: Option<string>)
    ensures r.None? <==> BlockOk(s, v)
  {
    if !v.Obj? then Some(path + " must be object")
    else match MissingRequired(s.required, v.entries)
      case Some(name) => Some(path + " must have required property '" + name + "'")
      case None =>
        if s.closed && FirstUnknown(v.entries, PropNames(s.props)).Some? then Some(path + " must NOT have additional properties")
        else PropsError(s.props, v.entries, path)
  }

  /** The first error for the spec: the add-ons it holds, in declaration order. Unknown top-level keys are accepted. */
  function SpecErrorIn(addons: seq<Addon>, spec: Entries): (r: Option<string>)
    ensures r.None? <==> forall i :: 0 <= i < |addons| ==> AddonOk(addons[i], spec)
  {
    if |addons| == 0 then None
    else
      var here := match Lookup(spec, addons[0].name)
        case None => None
        case Some(v) => BlockError(addons[0].schema, v, "/" + addons[0].name);
      if here.Some? then here else SpecErrorIn(addons[1..], spec)
  }

  predicate AddonOk(a: Addon, spec: Entries)
  {
    Lookup(spec, a.name).Some? ==> BlockOk(a.schema, Lookup(spec, a.name).value)
  }

  /** The path and message of the validator's first error for the spec, if any. */
  function SchemaError(spec: Entries): Option<string>
  {
    SpecErrorIn(SpecSchema, spec)
  }

  /** When the schema check passes, every declared add-on the spec holds is an object with its required names and well-typed properties. */
  lemma SchemaPassedBlock(spec: Entries, i: nat, name: string)
    requires SchemaError(spec).None?
    requires i < |SpecSchema| && SpecSchema[i].name == name
    requires Lookup(spec, name).Some?
    ensures BlockOk(SpecSchema[i].schema, Lookup(spec, name).value)
  {
    assert AddonOk(SpecSchema[i], spec);
  }

  // ---------------------------------------------------------------- flags

  /** `_.has(v, k)` for a property name: only objects hold named properties. */
  predicate Has(v: Value, k: string)
  {
    v.Obj? && k in Keys(v.entries)
  }

  /** The flags one property contributes: string and number values as `flag=value`, booleans as `flag=1` or `flag=0`. */
  function PropFlags(p: Prop, block: Value): (r: seq<string>)
    ensures |r| <= 1
    ensures !Has(block, p.name) ==> r == []
    ensures r != [] ==> p.schema.Typed? && p.schema.flag.Some? && StartsWith(r[0], p.schema.flag.value)
  {
    if block.Obj? then LookupKeys(block.entries, p.name); ValueFlags(p.schema, Get(block, p.name))
    else ValueFlags(p.schema, Get(block, p.name))
  }

  /** The flags for the value a property reads as, `None` standing for `undefined`. */
  function ValueFlags(s: PropSchema, o: Option<Value>): (r: seq<string>)
    ensures |r| <= 1
    ensures o.None? ==> r == []
    ensures r != [] ==> s.Typed? && s.flag.Some? && StartsWith(r[0], s.flag.value)
  {
    if o.None? then []
    else match s
      case Never => []
      case Typed(t, flag, falseOnlyNoArg) =>
        if t.ObjectT? || flag.None? then []
        else
          match t
          case StringT => [flag.value + "=" + ToJsString(o.value)]
          case NumberT => [flag.value + "=" + ToJsString(o.value)]
          case BooleanT =>
            if falseOnlyNoArg then (if o.value == Bool(false) then [flag.value] else [])
            else [flag.value + "=" + (if Truthy(o.value) then "1" else "0")]
          case _ => []
  }

  /** The flags of a block, property by property in declaration order. */
  function BlockFlags(props: seq<Prop>, block: Value): seq<string>
  {
    if |props| == 0 then [] else PropFlags(props[0], block) + BlockFlags(props[1..], block)
  }

  /** The flags of the spec, add-on by add-on in declaration order. */
  function FlagList(addons: seq<Addon>, spec: Entries): seq<string>
  {
    if |addons| == 0 then [] else AddonFlags(addons[0], spec) + FlagList(addons[1..], spec)
  }

  /** The flags of one add-on: none when the spec has no block of its name. */
  function AddonFlags(addon: Addon, spec: Entries): seq<string>
  {
    match Lookup(spec, addon.name)
    case None => []
    case Some(block) => BlockFlags(addon.schema.props, block)
  }

  /** The flags of one more add-on come after those of the add-ons before it. */
  lemma {:induction false} FlagListSnoc(addons: seq<Addon>, i: nat, spec: Entries)
    requires i < |addons|
    ensures FlagList(addons[..i + 1], spec) == FlagList(addons[..i], spec) + AddonFlags(addons[i], spec)
    decreases i
  {
    if i > 0 {
      FlagListSnoc(addons[1..], i - 1, spec);
      assert addons[1..][..i] == addons[..i + 1][1..];
      assert addons[1..][..i - 1] == addons[..i][1..];
    }
  }

  /** The flags of one more property come after those of the properties before it. */
  lemma {:induction false} BlockFlagsSnoc(props: seq<Prop>, p: nat, block: Value)
    requires p < |props|
    ensures BlockFlags(props[..p + 1], block) == BlockFlags(props[..p], block) + PropFlags(props[p], block)
    decreases p
  {
    if p > 0 {
      BlockFlagsSnoc(props[1..], p - 1, block);
      assert props[1..][..p] == props[..p + 1][1..];
      assert props[1..][..p - 1] == props[..p][1..];
    }
  }

  /** Two values read the same under every property name. */
  ghost predicate SameReads(a: Value, b: Value)
  {
    forall k :: Get(a, k) == Get(b, k)
  }

  lemma {:induction false} BlockFlagsIgnoreOrder(props: seq<Prop>, a: Value, b: Value)
    requires SameReads(a, b)
    ensures BlockFlags(props, a) == BlockFlags(props, b)
    decreases |props|
  {
    if |props| > 0 {
      assert Get(a, props[0].name) == Get(b, props[0].name);
      BlockFlagsIgnoreOrder(props[1..], a, b);
    }
  }

  /** The flags follow the schema's order, not the spec's: reordering keys, in the spec or inside a block, changes nothing. */
  lemma {:induction false} FlagListIgnoresOrder(addons: seq<Addon>, a: Entries, b: Entries)
    requires forall k :: Lookup(a, k).None? <==> Lookup(b, k).None?
    requires forall k :: Lookup(a, k).Some? ==> SameReads(Lookup(a, k).value, Lookup(b, k).value)
    ensures FlagList(addons, a) == FlagList(addons, b)
    decreases |addons|
  {
    if |addons| > 0 {
      var name := addons[0].name;
      if Lookup(a, name).Some? {
        BlockFlagsIgnoreOrder(addons[0].schema.props, Lookup(a, name).value, Lookup(b, name).value);
      }
      FlagListIgnoresOrder(addons[1..], a, b);
    }
  }

  /** `installer.flags()`: the flags joined by single spaces. */
  function Flags(spec: Entries): string
  {
    Join(FlagList(SpecSchema, spec), " ")
  }
}
