# kURL installer core, modelled in Dafny

This project models the core of the kURL API server. A kURL *installer* is a YAML document whose `spec` names the add-ons of a Kubernetes cluster: Kubernetes itself, Docker or containerd, Weave, Rook, OpenEBS, Prometheus, kURL and so on. Each add-on has a version and its own options. The server does five things with an installer:

- It parses and normalises the document: legacy fields move to their new names, and v1beta1 documents drop disabled add-ons.
- It resolves `latest` and `x.y.x` versions against a catalog of supported versions. It then validates the spec against a schema and a list of cross-add-on rules.
- It names the installer by a 7-character content hash.
- It lists the packages a cluster needs, and renders the install-script flags and the values substituted into the bash templates.
- It keeps a cache of per-release version catalogs, merged with a polled registry of external add-ons.

## Modules

The modules follow the program's files.

- `Json`: the parsed YAML value, with objects as ordered key/value lists, because JavaScript's `Object.keys` order is observable.
- `Text`: JavaScript string helpers.
- `SemVer`: the parts of the `semver` package that the core calls.
- `Wrappers`: the `Option` and `Result` datatypes.
- `Schema`: the add-on schema tables, the JSON-Schema check and the flag renderer.
- `Versions`: version resolution (`resolveVersion`, `resolveLatestPatchVersion`, `latestMinors`, the version surrogate tables and `toDotXVersion`).
- `Validation`: `validate` and its rules.
- `Normalize`: parsing, `legacyFieldConversion`, `migrateV1Beta1` and `setKurlVersion`.
- `Hash`: the content hash.
- `Render`: `packages`, `generatePackageName`, `resolve`, `toObject`, `slugIsReserved` and `getExternalAddonVersion`.
- `Installers`: the `Installer` class itself, whose methods update the spec in place and are proved against the functions above.
- `PackageUrls`: the URL builders of `src/util/package/index.ts`.
- `InstallerVersions`: the catalog cache and the external add-on registry of `src/installers/installer-versions.ts`, as a `CatalogStore` class over the module state.
- `Templates`: `bashStringEscape` and `manifestFromInstaller` of `src/util/services/templates.ts`.

## Design decisions

- Code that is pure in the source (schema checks, version arithmetic, URL builders) is modelled as functions with lemmas.
- Code that loops or mutates is modelled as methods proved against those functions. This covers the `Installer` methods, the catalog cache, the polling guard, the latest-patch scan and the minor-slot fill.
- Exceptions the source throws are modelled as `Result.Failure` with the message text. Examples are a semver comparison on an invalid version, `null.version`, and an HTTP error.
- Inputs from outside the core are parameters of the model:
  - the network responses;
  - the process environment (a map);
  - the clock (only the polling guard's "timer started" flag is kept);
  - the library routines `yaml.dump`, `object-hash`, SHA-256 and lodash's `lowerCase`.

An external add-on is named by its registry key up to the first `-`, with no camel-case alias. The add-on catalog is cached once loaded and the cache is never invalidated.

## Model

| member | source | states |
|---|---|---|
| Text.Split | src/installers/installer-versions.ts:20 | `split` returns at least one part, and no part contains the separator |
| Text.SplitJoin | src/installers/installer-versions.ts:20 | joining the parts of a split with the separator gives back the original text |
| Text.Sort | src/installers/index.ts:1081 | the sorted field list is ordered by UTF-16 code unit, as JavaScript's default `sort`, and is a permutation of its input |
| Text.SortPermutationInvariant | src/installers/index.ts:1081 | two lists with the same elements sort to the same list, so input order cannot affect the hash |
| Text.HtmlEscape | src/installers/index.ts:1182 | `_.escape` never shortens a text and leaves a text without HTML-special characters unchanged |
| Text.KebabCaseOfLower | src/installers/index.ts:1333 | a name without upper-case letters is already in kebab case, so `_.kebabCase` leaves such add-on names unchanged |
| Json.Field | src/installers/index.ts:899 | reading `spec[block][field]` yields a value only when the block is present and is an object |
| Json.DottedGetField | src/installers/index.ts:899 | `_.get(spec, "block.field")` is the nested read `spec[block][field]` whenever no top-level key holds a dot |
| Json.DottedKeyShadows | src/installers/index.ts:899 | a top-level key literally named `block.field` is what `_.get(spec, "block.field")` reads, whatever the nested field holds |
| SemVer.Parse | src/installers/index.ts:1398-1405 | a parsed version came from a text of at most 256 characters with safe-integer parts; any other failure reports `Invalid Version: <text>` |
| SemVer.CompareStrings | src/installers/index.ts:1411 | comparing two version texts succeeds exactly when both parse, and then agrees with the precedence of the parsed versions |
| SemVer.CompareAntisymmetric | src/installers/index.ts:1411 | swapping the operands negates the comparison, and zero means equal precedence |
| SemVer.CompareTransitive | src/installers/index.ts:1411 | version precedence is transitive |
| SemVer.CompareLeTransitive | src/installers/index.ts:1440 | at-most is transitive, and strict when either step is strict |
| SemVer.GtIrreflexive | src/installers/index.ts:1440 | no valid version is greater than itself |
| SemVer.GtChain | src/installers/index.ts:1440 | if a is not above b and c is above b, then a is not above c; this is what the minor-slot loop relies on |
| SemVer.Major | src/installers/index.ts:1398 | `semver.major` succeeds exactly on valid versions |
| SemVer.Minor | src/installers/index.ts:1399 | `semver.minor` succeeds exactly on valid versions |
| SemVer.FormatParses | src/installers/index.ts:1232 | formatting a well-formed version and parsing the text back gives the same version |
| Schema.SpecNamesOfSchema | src/installers/index.ts:759-795 | the add-on names of the spec schema are exactly the ordered list that `toObject` walks |
| Schema.ValueError | src/installers/index.ts:1168-1178 | a value has no schema error exactly when it conforms to its type |
| Schema.MissingRequired | src/installers/index.ts:1168-1178 | a required property is reported only when absent, and nothing is reported when all are present |
| Schema.FirstUnknown | src/installers/index.ts:1168-1178 | an unknown key is reported only when it is present and undeclared, and nothing is reported when every key is declared |
| Schema.PropsError | src/installers/index.ts:1168-1178 | a block's properties pass exactly when each one passes |
| Schema.PropError | src/installers/index.ts:1168-1178 | one property passes exactly when it is absent or has its declared type |
| Schema.BlockError | src/installers/index.ts:1168-1178 | an add-on block passes exactly when it is an object with only declared, well-typed properties and its required ones |
| Schema.SpecErrorIn | src/installers/index.ts:1168-1178 | a spec passes exactly when every add-on block in it passes |
| Schema.SchemaPassedBlock | src/installers/index.ts:1168-1178 | after the schema check passes, every present add-on block satisfies its own schema |
| Schema.PropFlags | src/installers/index.ts:1455-1486 | a property renders at most one flag, none when absent, and the flag starts with the property's flag name |
| Schema.ValueFlags | src/installers/index.ts:1455-1486 | an absent value renders no flag, and a rendered one starts with the declared flag name |
| Schema.BlockFlagsIgnoreOrder | src/installers/index.ts:1452-1492 | a block's flags depend only on the values of its fields, not on their order |
| Schema.FlagListIgnoresOrder | src/installers/index.ts:1452-1492 | the flag list of a spec depends only on what each add-on reads, not on key order |
| Versions.SurrogatesWellFormed | src/installers/index.ts:948-953 | no surrogate version of an add-on is also one of its original keys |
| Versions.SurrogateIn | src/installers/index.ts:1382-1392 | a key version is mapped to its surrogate, and any other version is left unchanged |
| Versions.OriginalIn | src/installers/index.ts:966-976 | mapping back gives either the input or an original key, and always a key for a surrogate |
| Versions.OriginalInNotSurrogate | src/installers/index.ts:966-976 | mapping back never yields a surrogate |
| Versions.OriginalOfSurrogate | src/installers/index.ts:963-976 | mapping a non-surrogate version to its surrogate and back is the identity |
| Versions.MapVersion | src/installers/index.ts:1386-1388 | replacing one version changes exactly the matching entries and keeps the length |
| Versions.ApplyTableElementwise | src/installers/index.ts:1382-1392 | applying a surrogate table maps each version independently, element by element |
| Versions.ReplaceAddonVersionsElementwise | src/installers/index.ts:1382-1392 | `replaceVersions` on an add-on's list replaces each version by its surrogate |
| Versions.CleanZeroPadFirstMatch | src/installers/index.ts:1396-1404 | the zero-pad clean-up removes the zero of only the first `.0<digit>` occurrence and leaves other texts alone |
| Versions.CandidateKey | src/installers/index.ts:1404-1410 | a candidate is a cleaned, valid version with the requested major and minor |
| Versions.BestIsFirstGreatest | src/installers/index.ts:1403-1415 | the chosen candidate is the greatest, and the first of the greatest, among the candidates; there is none only when no candidate exists |
| Versions.LatestPatchOutcome | src/installers/index.ts:1394-1421 | the latest patch fails with the parse error of an invalid `.x` token, fails with "latest patch version not found" exactly when no candidate exists, and otherwise returns a listed version whose key is maximal |
| Versions.EmptyIsNotCandidate | src/installers/index.ts:1411-1417 | the empty text is never a candidate, so it can serve as "none chosen yet" |
| Versions.Consider | src/installers/index.ts:1411-1414 | one callback of the scan replaces the held entry exactly when the new entry is a candidate greater than it, so the held entry after it is the first greatest candidate of the entries seen so far |
| Versions.ScanCandidates | src/installers/index.ts:1400-1416 | the scan loop returns the first greatest candidate, or the empty text when none exists |
| Versions.ResolveLatestPatchVersion | src/installers/index.ts:1394-1421 | `resolveLatestPatchVersion` computes the latest patch of its specification |
| Versions.ResolveVersion | src/installers/index.ts:955-977 | `latest` resolves to the first catalog entry (or stays `latest` when there is none), and any version that is neither `latest` nor `.x` is returned unchanged |
| Versions.ResolveNeverSurrogate | src/installers/index.ts:963-976 | a resolved `.x` version is never an internal surrogate |
| Versions.ResolveFromCatalog | src/installers/index.ts:963-976 | a resolved `.x` version is listed in the catalog or is an original key of the surrogate table |
| Versions.HasVersion | src/installers/index.ts:938-946 | `latest` is always supported, a plain version is supported exactly when listed, and a `.x` version throws exactly when its resolution does |
| Versions.HasVersionOfFloating | src/installers/index.ts:938-946 | a `.x` version that resolves is supported: it resolves to an entry of the add-on's catalog list, provided no entry is itself a surrogate |
| Versions.SurrogateOfOriginal | src/installers/index.ts:966-976 | substituting the mapped-back winner again gives the winner, for every entry of the replaced list |
| Versions.ResolveVersionOutcome | src/installers/index.ts:963-977 | a resolved `.x` version, substituted again, is a candidate of the replaced catalog list on the token's major and minor that no candidate exceeds |
| Versions.AllValues | src/installers/index.ts:1429-1434 | collecting the minors succeeds with every value, or fails with the error of the first failing version |
| Versions.MaxOf | src/installers/index.ts:1428-1434 | the greatest minor bounds every minor and is one of them (or zero) |
| Versions.Slots | src/installers/index.ts:1436-1443 | the slot table has one entry per minor from 0 to the greatest |
| Versions.SurrogateGtPreorder | src/installers/index.ts:1439-1440 | the comparison used by `latestMinors`, with surrogates mapped back, is irreflexive and chains |
| Versions.SlotsHoldGreatest | src/installers/index.ts:1436-1443 | each slot holds `0.0.0` or a version of that minor, and no version of a minor is greater than its slot |
| Versions.SlotsOfMinors | src/installers/index.ts:1423-1446 | for any minor-number reader and any comparison that is strictly above in a total preorder, the two loops fill one slot per minor up to the greatest, each `0.0.0` or a listed version of that minor that no listed version of the minor exceeds |
| Versions.LatestMinorsSlots | src/installers/index.ts:1423-1446 | `latestMinors` has a slot for every minor, its last slot is the greatest minor, and each slot is `0.0.0` or the greatest listed version of that minor |
| Versions.GreatestMinor | src/installers/index.ts:1428-1434 | the first loop, given the minor-number reader (`semver.minor` at its only caller), returns the greatest minor and all minors in order, or the first read error |
| Versions.SlotsFailureStays | src/installers/index.ts:1437-1443 | once a comparison throws, the rest of the fill does not change the outcome |
| Versions.FillSlots | src/installers/index.ts:1436-1443 | the fill loop computes the slot table of its specification |
| Versions.LatestMinorsInPlace | src/installers/index.ts:1423-1446 | `latestMinors` as a method computes the specification function |
| Versions.ToDotXVersion | src/installers/index.ts:1375-1380 | a version without a `major.minor.` digit prefix is left unchanged |
| Versions.ToDotXVersionOfTriple | src/installers/index.ts:1375-1380 | `X.Y.Z…` with digit runs `X`, `Y` and a patch part that starts with a digit becomes `X.Y.x` |
| Versions.ToDotXVersionIdempotent | src/installers/index.ts:1375-1380 | a converted version keeps the original's prefix and ends in `.x`, and converting twice changes nothing more |
| Validation.SchemaPassedVersionIsString | src/installers/index.ts:1168-1178 | after the schema check, a present add-on version is a string, and the rules read it as is |
| Validation.CompareTo | src/installers/index.ts:1232 | comparing against a threshold succeeds exactly when the version parses |
| Validation.ThresholdComparisons | src/installers/index.ts:1232-1310 | the rule comparisons against a release threshold agree with `semver` on the threshold's text |
| Validation.When | src/installers/index.ts:1232-1237 | a throwing test is the rule's exception; otherwise the rule fails exactly when the test holds |
| Validation.Membership | src/installers/index.ts:1180-1269 | an add-on that is off passes; an unsupported version without an override fails with the "is not supported" complaint; a passing add-on has a supported version or an override; the rule throws exactly when `hasVersion` throws |
| Validation.StripSlash | src/installers/index.ts:997-1000 | one leading slash is removed, and nothing else changes |
| Validation.Magnitude | src/installers/index.ts:998 | `parseInt` has no value exactly when the text after the sign has no leading digit |
| Validation.ParseIntOfDigits | src/installers/index.ts:998 | a run of digits followed by a non-digit reads as the value of the run |
| Validation.ParseIntOfNumber | src/installers/index.ts:997-1000 | `parseInt` reads the leading decimal digits and ignores what follows |
| Validation.CidrRangeAccepts | src/installers/index.ts:997-1000 | a range is valid exactly when its leading number is between 1 and 32 |
| Validation.CidrRangeSlash | src/installers/index.ts:997-1000 | the same holds after one leading slash |
| Validation.CidrRangeNeedsDigits | src/installers/index.ts:997-1000 | a range without digits is never valid |
| Validation.CidrRule | src/installers/index.ts:1184-1205 | a rejected range is a present, invalid string range reported by field; a passing enabled add-on has a valid range string; a non-string range throws `range.replace is not a function` |
| Validation.OpenEbsKubernetes | src/installers/index.ts:1232-1234 | OpenEBS is rejected only when Kubernetes is at least 1.22 and OpenEBS is below 2.12.9; a passing spec with both enabled has Kubernetes below 1.22 or OpenEBS at 2.12.9 or later |
| Validation.OpenEbsCstor | src/installers/index.ts:1235-1237 | cStor is rejected only on OpenEBS 2.12.9 or later, and a passing cStor spec has an older OpenEBS |
| Validation.SingleCri | src/installers/index.ts:1247-1249 | the spec passes exactly when Docker and containerd are not both enabled |
| Validation.DockerKubernetes | src/installers/index.ts:1250-1252 | Docker passes with Kubernetes only below 1.24 |
| Validation.LimitVerdict | src/installers/index.ts:1272-1328 | an add-on version in a known-bad range is rejected exactly when Kubernetes reaches that range's minimum |
| Validation.ContainerdWeave | src/installers/index.ts:1292-1297 | the spec passes exactly when it does not combine containerd 1.6.4 with Weave |
| Validation.IndexIn | src/installers/index.ts:1312-1321 | `indexOf` returns the first position of a value, or -1 exactly when the value is absent |
| Validation.PrometheusServiceType | src/installers/index.ts:1312-1321 | a passing service type is empty, `ClusterIP` or `NodePort` on a release that supports it; a missing Prometheus catalog throws |
| Validation.RunDispatch | src/installers/index.ts:1180-1328 | each rule kind runs its own check |
| Validation.RunAllFirstFailure | src/installers/index.ts:1180-1328 | the rule list passes exactly when every rule passes, and otherwise reports the first failing rule |
| Validation.Validate | src/installers/index.ts:1163-1178 | a spec without Kubernetes is rejected first, then the first schema error; a valid spec has both |
| Validation.ValidateAccepts | src/installers/index.ts:1163-1329 | a spec is valid exactly when Kubernetes is on, the schema passes and every rule passes |
| Validation.ValidateRejectsFirstFailure | src/installers/index.ts:1180-1328 | a rejected, schema-clean spec is rejected by the first failing rule |
| Validation.ValidPassesRule | src/installers/index.ts:1180-1328 | a valid spec passes every rule |
| Validation.ValidVersionsSupported | src/installers/index.ts:1180-1269 | every enabled add-on of a valid spec has a supported version or an override |
| Validation.OverrideNeverUnsupported | src/installers/index.ts:1494-1496 | an `s3Override` exempts an add-on from the "not supported" complaint |
| Validation.ValidSingleCri | src/installers/index.ts:1247-1249 | a valid spec never enables both container runtimes |
| Validation.ValidDockerBelow124 | src/installers/index.ts:1250-1252 | a valid spec with Docker has Kubernetes below 1.24 |
| Validation.ValidOpenEbsKubernetes | src/installers/index.ts:1232-1234 | a valid spec with OpenEBS and Kubernetes has Kubernetes below 1.22 or OpenEBS at 2.12.9 or later |
| Validation.DockerPassed | src/installers/index.ts:1250-1252 | a passing Docker rule implies Kubernetes below 1.24 |
| Validation.ValidRanges | src/installers/index.ts:1184-1205 | every CIDR range that a valid spec sets is a valid range string |
| Validation.ValidNoContainerd164WithWeave | src/installers/index.ts:1292-1297 | a valid spec does not combine containerd 1.6.4 with Weave |
| Validation.ValidKubernetesLimits | src/installers/index.ts:1272-1328 | in a valid spec, each limited add-on is outside its bad range or Kubernetes is below the minimum |
| Validation.LimitPassed | src/installers/index.ts:1272-1328 | a passing limit rule means the same for its add-on |
| Normalize.WeaveBlock | src/installers/index.ts:886-897 | `encryptNetwork` is removed; `isEncryptionDisabled` keeps an explicit value and is otherwise the negation of `encryptNetwork === true` |
| Normalize.WeaveBlockOther | src/installers/index.ts:886-897 | the other Weave fields are untouched |
| Normalize.WeaveEncryption | src/installers/index.ts:886-897 | the conversion throws exactly when the Weave block is `null` |
| Normalize.WeaveEncryptionBlocks | src/installers/index.ts:886-897 | no other add-on changes, `null` blocks stay `null`, and a spec without `encryptNetwork` is unchanged |
| Normalize.WeaveEncryptionReads | src/installers/index.ts:886-897 | field by field, only the two encryption fields of Weave change, as the legacy rule says |
| Normalize.MoveLegacyBlocks | src/installers/index.ts:899-933 | moving a legacy field changes no add-on's presence or nullness, and changes only its own block |
| Normalize.MoveLegacyReads | src/installers/index.ts:899-933 | a truthy legacy field is removed, and copied to the new name unless that field is already truthy; every other field reads the same |
| Normalize.LegacyFieldConversion | src/installers/index.ts:880-936 | the conversion throws exactly when the Weave block is `null` |
| Normalize.MoveLegacyNoop | src/installers/index.ts:899-933 | a spec without the legacy field is unchanged |
| Normalize.ConvertedIsFixed | src/installers/index.ts:880-936 | a spec without legacy fields is returned unchanged |
| Normalize.MoveLegacyKeepsConverted | src/installers/index.ts:899-933 | one move neither reintroduces nor disturbs any other legacy field |
| Normalize.ConversionConverts | src/installers/index.ts:880-936 | after a successful conversion no legacy field is left |
| Normalize.LegacyFieldConversionIdempotent | src/installers/index.ts:880-936 | converting twice is converting once |
| Normalize.EncryptNetworkRule | src/installers/index.ts:886-897 | after conversion, `encryptNetwork` is gone and `isEncryptionDisabled` follows the legacy rule |
| Normalize.CollectdAlias | src/installers/index.ts:862-864 | collectd `0.0.1` is read as `v5`; nothing else changes |
| Normalize.DropDisabledReads | src/installers/index.ts:1092-1118 | an add-on of the list is dropped exactly when its version is falsy; other keys are unchanged |
| Normalize.MigrateV1Beta1Reads | src/installers/index.ts:1092-1118 | `migrateV1Beta1` drops exactly the v1beta1 add-ons without a version |
| Normalize.ParsedId | src/installers/index.ts:849 | the id is `metadata.name`, or empty when absent |
| Normalize.ParseDocumentEmpty | src/installers/index.ts:851-857 | a document without an object `spec` parses to an empty spec |
| Normalize.ParseDocumentFails | src/installers/index.ts:858-860 | parsing throws exactly when the Weave block is `null` |
| Normalize.ParseDocumentConverted | src/installers/index.ts:844-869 | every successfully parsed spec, whatever its api version, has no legacy field left: the collectd alias and the v1beta1 migration cannot bring one back |
| Normalize.ConvertedKept | src/installers/index.ts:860-866 | deleting blocks or rewriting blocks other than weave, fluentd and rook keeps a converted spec converted |
| Normalize.LegacyGuardShadowed | src/installers/index.ts:899 | a top-level key `fluentd.efkStack` that is false makes the rename's guard false although `spec.fluentd.efkStack` is true |
| Normalize.DefaultsReads | src/installers/index.ts:873-878 | `_.defaults` keeps existing keys and adds missing ones from the defaults |
| Normalize.SetKurlVersionReads | src/installers/index.ts:873-878 | only the kURL block changes: `installerVersion` is set, `additionalNoProxyAddresses` defaults to `[]`, and other fields are kept |
| Hash.LegacyUpdates | src/installers/index.ts:1025-1048 | at most one hash update per legacy field |
| Hash.HashId | src/installers/index.ts:1022-1086 | with a hexadecimal digest the id is a 7-character SHA (`isSHA`), and it is never longer than 7 |
| Hash.LegacyUpdatesSameFields | src/installers/index.ts:1025-1048 | legacy updates depend only on the field values |
| Hash.HashIgnoresAddonOrder | src/installers/index.ts:1060-1085 | the hash input does not depend on the order of add-ons |
| Hash.SpliceSpecFields | src/installers/index.ts:1060-1079 | reordering one block's fields permutes the field list |
| Hash.HashIgnoresFieldOrder | src/installers/index.ts:1060-1085 | the hash input does not depend on the order of a block's fields |
| Render.PlusToDash | src/installers/index.ts:1332-1333 | every `+` becomes `-`, and every other character is kept |
| Render.GeneratePackageName | src/installers/index.ts:1331-1334 | the name is the kebab-cased add-on, a dash, then the version with `+` replaced by `-` |
| Render.PackageNameVerbatim | src/installers/index.ts:1331-1334 | a version without `+` is used verbatim |
| Render.PackageNamesOfBuildAndPreRelease | src/installers/index.ts:1331-1334 | versions that differ only by `+` against `-` name the same package |
| Render.StepAt | src/installers/index.ts:1357-1361 | an in-range index selects that minor's version |
| Render.StepFor | src/installers/index.ts:1357-1361 | a Kubernetes version adds at most one upgrade-step package, named `kubernetes-…` |
| Render.KeyPackages | src/installers/index.ts:1347-1364 | only the `kubernetes` key records a Kubernetes version, and a recorded one is non-empty |
| Render.BasePackages | src/installers/index.ts:1337-1344 | the base list is `common`, the bin-utils package and `host-openssl`, plus `host-longhorn` with Longhorn |
| Render.WalkSpecAppend | src/installers/index.ts:1347-1364 | walking a spec in two parts is the walk of the first part extended by the walk of the second: the packages concatenate, and a Kubernetes version in the second part replaces the first part's |
| Render.OverrideReplacesPackage | src/installers/index.ts:1349-1350 | an add-on with an `s3Override` contributes exactly that URL |
| Render.AddonPackage | src/installers/index.ts:1351-1352 | any other add-on contributes its generated package name |
| Render.KubernetesPackages | src/installers/index.ts:1353-1363 | Kubernetes contributes its package and its upgrade step, and records its version |
| Render.StepIsPreviousMinor | src/installers/index.ts:1357-1361 | the upgrade step is the latest version of the previous minor |
| Render.StepEdges | src/installers/index.ts:1357-1361 | minor 0 or one past the table gives `kubernetes-undefined`, a `0.0.0` slot gives no step, and a throwing step computation gives none |
| Render.PackagesFailure | src/installers/index.ts:1336-1373 | `packages` throws exactly when the recorded Kubernetes version is invalid |
| Render.PackagesShape | src/installers/index.ts:1336-1373 | the package list is the base list and the walked packages, plus the conformance package exactly for Kubernetes 1.17 or later with Sonobuoy wanted |
| Render.NullBlocksContributeNothing | src/installers/index.ts:1347-1348 | a `null` block adds nothing |
| Render.WalkSpecKubernetes | src/installers/index.ts:1353-1363 | the recorded Kubernetes version is that of the `kubernetes` key |
| Render.FirstIndex | src/installers/index.ts:1595-1601 | the first position of a value, or none exactly when it is absent |
| Render.ExternalAddonVersion | src/installers/index.ts:1595-1601 | an external add-on version is found exactly when the registry lists it for that add-on |
| Render.ResolveBlock | src/installers/index.ts:1144-1161 | resolving changes only object blocks, and keeps them objects |
| Render.ResolveKeys | src/installers/index.ts:1144-1161 | resolving keeps the spec's keys in order |
| Render.ResolveReads | src/installers/index.ts:1144-1161 | each key reads as its resolved block |
| Render.ResolveBlockKeepsFields | src/installers/index.ts:1144-1161 | fields other than `version` and `s3Override` are untouched |
| Render.ResolveBlockVersion | src/installers/index.ts:1144-1161 | a resolvable version is replaced by its resolution, and a throwing one leaves the block as it was |
| Render.ResolveBlockOverride | src/installers/index.ts:1150-1158 | an external add-on version gets an `s3Override` URL under the external directory; otherwise the override is unchanged |
| Render.ResolvedNeverSurrogate | src/installers/index.ts:1144-1161 | a resolved `.x` version in the spec is never a surrogate |
| Render.Ordered | src/installers/index.ts:1134-1139 | `toObject` keeps only known, truthy add-ons, with their values |
| Render.ToObjectReads | src/installers/index.ts:1124-1142 | the object has the ordered spec and `metadata.name` set to the id |
| Render.OrderedReads | src/installers/index.ts:1134-1139 | a key reads in the ordered spec exactly when it is known and truthy |
| Render.OrderedIgnoresSpecOrder | src/installers/index.ts:1134-1139 | the ordered spec does not depend on the input key order |
| Render.OrderedIdempotent | src/installers/index.ts:1134-1139 | ordering twice is ordering once |
| Render.SlugIsReserved | src/installers/index.ts:983-995 | a reserved slug is at least 4 characters long after lower-casing |
| Render.ReservedIgnoresCase | src/installers/index.ts:983-995 | reservation depends only on the lower-cased slug |
| Render.HashIdsAreFree | src/installers/index.ts:983-995 | no id that lodash's `lowerCase` reads as lower-case hexadecimal words separated by spaces is reserved, which covers every id `hash` mints |
| PackageUrls.PackageUrlPrefix | src/util/package/index.ts:4-6 | the prefix is the dist URL, with `/version` appended only when a version is pinned |
| PackageUrls.PackageUrl | src/util/package/index.ts:8-10 | a package URL is the prefix followed by `/package` |
| PackageUrls.PackageUrlInjective | src/util/package/index.ts:8-10 | distinct packages under one prefix get distinct URLs |
| PackageUrls.PackageUrlPinned | src/util/package/index.ts:4-10 | a pinned version adds exactly one path segment |
| PackageUrls.BucketUrl | src/util/package/index.ts:50-55 | `BUCKET_URL` when set, otherwise an `https://…s3.amazonaws.com` address |
| PackageUrls.Channel | src/util/package/index.ts:17-21 | `/dist` exactly in production, otherwise `/staging` |
| PackageUrls.DistUrl | src/util/package/index.ts:12-23 | `DIST_URL` when set, otherwise the bucket URL followed by the channel |
| PackageUrls.FallbackPresent | src/util/package/index.ts:26-44 | a fallback exists exactly when `DIST_URL` is unset and both bucket variables are set |
| PackageUrls.FallbackIsBucketDist | src/util/package/index.ts:25-44 | the fallback is the dist URL that `KURL_BUCKET` alone would produce, and it differs from the real dist URL unless `BUCKET_URL` already is that bucket address |
| PackageUrls.ExternalUrl | src/util/package/index.ts:46-48 | the external URL is the bucket URL followed by `/external` |
| PackageUrls.DistAndExternalShareBucket | src/util/package/index.ts:12-48 | without `DIST_URL`, packages and external add-ons share the bucket URL |
| PackageUrls.KurlVersionPrecedence | src/util/package/index.ts:57-64 | the requested version wins, then the installer's truthy `installerVersion`, then the default |
| PackageUrls.KurlVersionNonEmpty | src/util/package/index.ts:57-64 | with a non-empty default, the chosen version is never empty unless the installer pins an array |
| InstallerVersions.FileName | src/installers/installer-versions.ts:19 | the registry key with its 7-character `.tar.gz` tail cut off, with the `slice` behaviour of negative ends on short keys |
| InstallerVersions.Registration | src/installers/installer-versions.ts:19-20 | a registry key gives a name and a version, neither containing `-` |
| InstallerVersions.Registrations | src/installers/installer-versions.ts:18-20 | every registry key is read independently, in order |
| InstallerVersions.ExternalCatalogReads | src/installers/installer-versions.ts:18-28 | an external add-on is listed exactly when one of its versions is kept, and its list is the kept versions, newest registration first |
| InstallerVersions.ExternalCatalogSucceeds | src/installers/installer-versions.ts:21 | the merge succeeds exactly when every version comparison succeeds |
| InstallerVersions.MergeReads | src/installers/installer-versions.ts:16-37 | each merged list is the kept external versions, newest first, followed by the internal list |
| InstallerVersions.MergeThrows | src/installers/installer-versions.ts:21 | the merge throws exactly when some registry version cannot be compared with the pinned version |
| InstallerVersions.MergeUnpinned | src/installers/installer-versions.ts:21 | without a pinned version every registered add-on is kept, and the merge cannot throw |
| InstallerVersions.VersionsOfListsKey | src/installers/installer-versions.ts:21-27 | a kept registration appears under its add-on |
| InstallerVersions.MergeKeepsInternal | src/installers/installer-versions.ts:29-35 | an add-on without external registrations keeps its internal list |
| InstallerVersions.WithoutLatest | src/installers/installer-versions.ts:52-54 | the filter keeps exactly the versions other than `latest` |
| InstallerVersions.WithoutLatestConcat | src/installers/installer-versions.ts:52-54 | the filter distributes over concatenation |
| InstallerVersions.CachedAfterSuccess | src/installers/installer-versions.ts:41-43 | after a successful fetch, later calls for that URL are served from the cache whatever the network returns |
| InstallerVersions.InternalVersionsOutcome | src/installers/installer-versions.ts:39-57 | an uncached fetch succeeds exactly on status 200; 403 and 404 become 404, anything else 500; stored catalogs hold no `latest` |
| InstallerVersions.CatalogStore.constructor | src/installers/installer-versions.ts:12-14 | the cache and the registry start empty, and no timer has started |
| InstallerVersions.CatalogStore.MergeAddonVersions | src/installers/installer-versions.ts:16-37 | `mergeAddonVersions` computes the merge of its specification from the current registry |
| InstallerVersions.CatalogStore.GetInternalAddonVersions | src/installers/installer-versions.ts:39-57 | returns the cached or fetched catalog and stores only a fresh successful fetch; the registry and the timer are unchanged |
| InstallerVersions.CatalogStore.ExternalAddonHandler | src/installers/installer-versions.ts:59-66 | a successful fetch replaces the registry, and a failed one keeps it |
| InstallerVersions.CatalogStore.StartExternalAddonPolling | src/installers/installer-versions.ts:68-73 | polling starts once: the first call fetches and sets the timer, and later calls change nothing |
| InstallerVersions.CatalogStore.GetInstallerVersions | src/installers/installer-versions.ts:75-78 | the internal catalog merged with the registry, with the cache updated as by `getInternalAddonVersions` |
| InstallerVersions.AddExternals | src/installers/installer-versions.ts:18-28 | the registry loop computes the external catalog of its specification |
| InstallerVersions.ExternalCatalogFails | src/installers/installer-versions.ts:21 | once a comparison throws, the remaining registrations do not matter |
| InstallerVersions.AppendInternal | src/installers/installer-versions.ts:29-35 | the internal loop appends each internal list after the external one |
| InstallerVersions.DropLatestEach | src/installers/installer-versions.ts:52-54 | every add-on's list is filtered |
| InstallerVersions.FilterLatest | src/installers/installer-versions.ts:53 | the filter loop computes the specification filter |
| Installers.Installer.constructor | src/installers/index.ts:1005-1009 | a new installer has the given team, an empty id and an empty spec |
| Installers.Installer.Clone | src/installers/index.ts:1011-1018 | the clone is a fresh object with the same team, id and spec |
| Installers.Installer.Parse | src/installers/index.ts:845-871 | parsing succeeds exactly when the document's normalisation does, giving a fresh installer with its id and spec |
| Installers.Installer.SetKurlVersion | src/installers/index.ts:873-878 | the spec becomes the version-pinned spec, and the id is unchanged |
| Installers.Installer.LegacyFieldConversion | src/installers/index.ts:880-936 | the conversion returns a fresh installer with the converted spec, or throws exactly when conversion throws |
| Installers.Installer.MigrateV1Beta1 | src/installers/index.ts:1092-1118 | a fresh installer with the disabled v1beta1 add-ons removed |
| Installers.Installer.Hash | src/installers/index.ts:1022-1086 | `hash` returns `Hash.HashId` of the current spec, the function whose SHA shape and key-order independence the `Hash` lemmas prove |
| Installers.Installer.LegacyUpdatesOf | src/installers/index.ts:1025-1048 | the legacy loop yields the legacy updates of the specification |
| Installers.Installer.SpecFieldsOf | src/installers/index.ts:1060-1079 | the field loop yields the hashed fields of the specification |
| Installers.Installer.Flags | src/installers/index.ts:1452-1492 | `flags` renders the flag string of the specification |
| Installers.Installer.FlagsOf | src/installers/index.ts:1452-1492 | the add-on loop renders the specified flag list |
| Installers.Installer.AddonFlagsOf | src/installers/index.ts:1455-1461 | the top-level `getFlags` turn for one add-on gives nothing when the spec has no block of that name, and otherwise the flags of that block's properties |
| Installers.Installer.BlockFlagsOf | src/installers/index.ts:1455-1486 | the property loop renders a block's specified flags |
| Installers.Installer.Packages | src/installers/index.ts:1336-1373 | `packages` computes the specified package list, or its exception |
| Installers.Installer.WalkKeys | src/installers/index.ts:1347-1364 | the key walk yields the specified packages and the Kubernetes version |
| Installers.Installer.Resolve | src/installers/index.ts:1144-1161 | `resolve` returns a fresh clone whose spec is the resolved spec |
| Installers.Installer.ResolveKeys | src/installers/index.ts:1146-1159 | the loop over keys resolves the spec in place, keeping the id |
| Installers.Installer.ToObject | src/installers/index.ts:1124-1142 | `toObject` builds the specified object |
| Installers.Installer.OrderedOf | src/installers/index.ts:1134-1139 | the ordering loop builds the ordered spec |
| Installers.ResolveKey | src/installers/index.ts:1147-1158 | one resolve callback computes the resolved block |
| Templates.EscapeReadBack | src/util/services/templates.ts:81-83 | bash reads the escaped text back inside double quotes as the original with a backslash kept before each `!`, for any text without `$` or backtick |
| Templates.EscapeRoundTrip | src/util/services/templates.ts:81-83 | a text without `!`, `$` or backtick is read back inside double quotes exactly |
| Templates.EscapeLength | src/util/services/templates.ts:81-83 | escaping adds exactly one character per `!`, `"` or `\` |
| Templates.EscapePlain | src/util/services/templates.ts:81-83 | a text without those characters is unchanged |
| Templates.EscapeNoBareSpecial | src/util/services/templates.ts:81-83 | every special character in the output follows a backslash |
| Templates.ManifestVersions | src/util/services/templates.ts:86-92 | a pinned version names the util image and the bin-utils file; otherwise `alpha` and `latest` are used |
| Templates.ManifestBinUtilsIsPackage | src/util/services/templates.ts:86-92 | the bin-utils file is the bin-utils package of `packages` for the same version, with `.tar.gz` |
| Templates.ManifestReadsBack | src/util/services/templates.ts:93-104 | the script's double-quoted `INSTALLER_YAML` reads back as the YAML, with `\!` for each `!`, whenever the YAML has no `$` or backtick; the step versions form a parenthesised list, and the id and version pass through |
| Templates.ManifestFails | src/util/services/templates.ts:102 | the manifest fails exactly when the upgrade-step computation throws |
| Templates.ManifestFromInstaller | src/util/services/templates.ts:85-105 | the installer is pinned to the requested version, and the manifest is built from its YAML and the Kubernetes upgrade steps |
| Templates.Assemble | src/util/services/templates.ts:93-104 | the returned object is the specified manifest |

## Left out

- The YAML parser and `yaml.dump` are not modelled. Parsing starts from a parsed value, and `dump` is a function parameter.
- SHA-256 and `object-hash` are not modelled; both are function parameters. `Hash.HashId` states the 7-character SHA shape only for a hexadecimal digest.
- lodash's `lowerCase` is a parameter of `Render.SlugIsReserved`. `Text.KebabCase` models `_.kebabCase` only on the camel-case identifiers the schema uses.
- Render.SlugIsReserved: the contract states only the length bound, case-insensitivity and that hash ids are free. It does not list the reserved words.
- The JSON-Schema engine (Ajv) is modelled only for the keywords the schema tables use: `type`, `required`, `properties`, `items` and `additionalProperties`. Its messages are Ajv 8's wording after the instance path.
- SemVer.Parse: the loose-mode regular expression is modelled without its quirks, such as the optional hyphen before a prerelease.
- Network fetches, timers and the process environment are parameters: a `Response` value, a fetched registry, and an environment map.
- The concurrent polling race is not modelled. In the source the timer is set only after the first fetch is awaited, so two early callers can both start one.
- Arrays shared between the merged catalog and the cache are not modelled. The model works on values.
- A malformed `supported-versions-gen.json` body is not modelled.
- InstallerVersions.Registration: a key without `-` gives the version text `undefined`. The semver comparison then throws whenever a kURL version is pinned.
- `Object.keys` puts integer-like keys first. The model keeps insertion order for every key, and add-on names are never integer-like.
- Add-on names that collide with `Object.prototype` members are not modelled.
- Installers.Installer.constructor: the source leaves the id undefined; the model uses the empty text.
- PackageUrls.KurlVersionOrDefault: a truthy `installerVersion` that is not a string is used as its string form. `getDefaultKurlVersion` is a parameter, because `src/util/package/kurl-version.ts` is not part of this model.
- Validation.Validate takes the schema as a parameter and is not a method of the `Installer` class. Checking the literal schema inside the class is too costly for the verifier, so the model proves the rule logic for any schema. Note that `hasVersion` runs before `hasS3Override`, so an overridden add-on whose `.x` version cannot be resolved still throws.
- Templates.ManifestFromInstaller: `latestMinors` is called there without an add-on name, so no version surrogates apply. The model passes the name `undefined`, which has no surrogate table.
- The callbacks of `resolve` and `packages` are `async`, so an exception inside one is lost. The model stops that add-on's callback at the throw and goes on with the next add-on; it does not model the unhandled promise rejection.
- EscapeRoundTrip: holds only for texts without `!`, `$` or backtick. Inside double quotes bash keeps the backslash of `\!` (`Templates.EscapeReadBack` states what comes back), and the escape leaves `$` and backticks bare, so bash expands them; expansion is not modelled.
- ManifestReadsBack: the YAML is read back only up to the same gaps: each `!` comes back as `\!`, and a YAML with `$` or a backtick is expanded by bash, which is not modelled.
- JSON numbers are integers (`Json.Num(n: int)`). Fractions such as `2.5`, the exponent form JavaScript prints from 1e21 on (`1e+21`), and the loss of precision above 2^53 are not modelled, so neither are the flag and hash texts of such values.
- Versions.LatestMinors: the source's `Array(greatest + 1)` throws `RangeError: Invalid array length` once the greatest minor reaches 2^32 - 1. The model builds the slots for any minor.
- SemVer.CompareStrings: numeric prerelease identifiers are compared as exact integers. node-semver converts them to JavaScript numbers, so identifiers above 2^53 that round to the same double (`1.0.0-9007199254740993` and `1.0.0-9007199254740992`) compare equal there and differ here.
- Normalize.MoveLegacyReads: the rename is guarded by `_.get(spec, "block.from")`, which lodash answers from a top-level key literally named `block.from` when there is one (`Json.DottedGet`). The model reads `spec[block][from]`, which is the same read exactly when no top-level key holds a dot (`Json.DottedGetField`). The schema does not exclude such keys, because its top level is spelled `additionalProperites` (src/installers/index.ts:794) and so allows any key. `Normalize.LegacyGuardShadowed` shows a spec where the two reads differ.
- Normalize.MoveLegacyNoop: stated with the nested read. With a truthy top-level key `block.from` the source enters the guard and deletes a falsy nested `from` field such as `false`, which the model keeps.
- Normalize.ConvertedIsFixed: `Converted` is stated with the nested read, as in `Normalize.MoveLegacyReads`. A spec whose top-level dotted key shadows a legacy field is outside what the lemma describes.
- Normalize.DropDisabledReads: `_.get(spec, "<addon>.version")` reads a top-level key literally named `<addon>.version` first. The model reads the nested version only, the same read whenever no top-level key holds a dot (`Json.DottedGetField`).
- Normalize.MigrateV1Beta1Reads: the same dotted-key gap as `Normalize.DropDisabledReads`.
- Normalize.ParseDocumentConverted: stated with the nested read, so a legacy field shadowed by a top-level dotted key is outside it (see `Normalize.MoveLegacyReads`).
- Normalize.ParsedId: `_.get(doc, "metadata.name", "")` reads a top-level key literally named `metadata.name` first; the model reads `doc.metadata.name`, the same read whenever no top-level key holds a dot.
- Render.PackagesShape: the conformance package is keyed on `_.get(spec, "sonobuoy.version")`, which reads a top-level key `sonobuoy.version` first; the model reads `spec.sonobuoy.version`, the same read whenever no top-level key holds a dot.
- `Installer.isLatest`, `Installer.latest`, `specPaths`, the installer store and the template-fetching class are not part of this model.
