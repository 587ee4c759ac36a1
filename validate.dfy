/**
 * `Installer.validate`: the checks an installer spec must pass before it is stored or
 * served, in the order the installer runs them, each stopping the run at its first
 * complaint.
 */
module Validation {
  import opened Wrappers
  import opened Text
  import opened Json
  import SemVer
  import Versions
  import Schema

  /** The limits `validate` enforces between an add-on's version and newer Kubernetes releases. */
  datatype Bound = RookOn120 | RookOn125 | ContainerdOn126 | PrometheusOn122 | PrometheusOn125 | LonghornOn125

  /** Why a spec is refused; `Message` gives the text of the error response. */
  datatype Complaint =
    | KubernetesRequired
    | SchemaViolation(detail: string)
    | Unsupported(title: string, version: string)
    | BadRange(title: string, field: string, range: string)
    | OpenEbsTooOld(version: string)
    | CstorUnsupported(version: string)
    | TwoRuntimes
    | DockerTooNew
    | TooOld(bound: Bound)
    | Containerd164WithWeave
    | ServiceTypeUnknown(serviceType: string)
    | ServiceTypeTooEarly(version: string)

  /** What `validate` gives back: nothing, an error response, or an exception it lets escape. */
  datatype Verdict = Valid | Invalid(complaint: Complaint) | Thrown(error: string)

  /** `"${_.escape(x)}"`. */
  function Quoted(x: string): string
  {
    "\"" + HtmlEscape(x) + "\""
  }

  /** The text of the error response; versions and values are HTML-escaped except where noted. */
  function Message(c: Complaint): string
  {
    match c
    case KubernetesRequired => "Kubernetes version is required"
    case SchemaViolation(detail) => "spec" + detail
    case Unsupported(title, version) => title + " version " + Quoted(version) + " is not supported"
    case BadRange(title, field, range) => title + " " + field + " " + Quoted(range) + " is invalid"
    case OpenEbsTooOld(version) =>
      "Openebs version " + Quoted(version) + " is not compatible with Kubernetes versions 1.22+"
    case CstorUnsupported(version) => "Openebs version " + Quoted(version) + " does not support cstor in kURL"
    case TwoRuntimes => "This spec contains both docker and containerd, please specifiy only one CRI"
    case DockerTooNew => "Docker is not supported with Kubernetes versions 1.24+, please choose Containerd"
    case TooOld(bound) => BoundMessage(bound)
    case Containerd164WithWeave => "Containerd 1.6.4 is not compatible with Weave"
    // the service type and the version are shown unescaped
    case ServiceTypeUnknown(serviceType) =>
      "Supported Prometheus service types are \"NodePort\" and \"ClusterIP\", not \"" + serviceType + "\""
    case ServiceTypeTooEarly(version) =>
      "Prometheus service types are supported for version \"" + PrometheusServiceTypeRelease + "\" and later, not \"" + version + "\""
  }

  /** `... are not compatible with Kubernetes 1.NN+`. */
  function Incompatible(subject: string, kubernetes: string): string
  {
    subject + " are not compatible with Kubernetes " + kubernetes + "+"
  }

  function BoundMessage(b: Bound): string
  {
    match b
    case RookOn120 => "Rook 1.0.4 is not compatible with Kubernetes 1.20+"
    case RookOn125 => Incompatible("Rook versions less than or equal to 1.9.10", "1.25")
    case ContainerdOn126 => Incompatible("Containerd versions less than 1.6.0", "1.26")
    case PrometheusOn122 => Incompatible("Prometheus versions less than or equal to 0.49.0-17.1.3", "1.22")
    case PrometheusOn125 => Incompatible("Prometheus versions less than or equal to 0.59.0", "1.25")
    case LonghornOn125 => Incompatible("Longhorn versions less than or equal to 1.4.0", "1.25")
  }

  // ---------------------------------------------------------------- reading the spec

  /** `this.spec.c && this.spec.c.version`. */
  predicate On(spec: Entries, c: string)
  {
    TruthyOpt(Field(spec, c, "version"))
  }

  /** The text of `this.spec.c.version`; once the schema check has passed, a present version is a string. */
  function VersionOf(spec: Entries, c: string): string
  {
    StrOr(Field(spec, c, "version"))
  }

  /** `hasS3Override(c)`: `_.has(this.spec, [c, "s3Override"])`, so any value counts, falsy ones included. */
  predicate HasS3Override(spec: Entries, c: string)
  {
    Field(spec, c, "s3Override").Some?
  }

  /** Once the schema check has passed, the version of an add-on whose schema declares it as a string is a string when present. */
  lemma SchemaPassedVersionIsString(schema: seq<Schema.Addon>, spec: Entries, i: nat)
    requires Schema.SpecErrorIn(schema, spec).None?
    requires i < |schema| && |schema[i].schema.props| > 0 && schema[i].schema.props[0] == Schema.Version
    requires Field(spec, schema[i].name, "version").Some?
    ensures Field(spec, schema[i].name, "version").value.Str?
    ensures VersionOf(spec, schema[i].name) == Field(spec, schema[i].name, "version").value.s
  {
    assert Schema.AddonOk(schema[i], spec);
    assert Schema.PropOk(schema[i].schema.props[0], Lookup(spec, schema[i].name).value.entries);
  }

  // ---------------------------------------------------------------- version thresholds

  /** A plain `MAJOR.MINOR.PATCH` release such as the literal thresholds `validate` compares with. */
  function Release(major: nat, minor: nat, patch: nat): (t: SemVer.Version)
    ensures t.pre == [] && t.build == []
  {
    SemVer.Version(major, minor, patch, [], [])
  }

  /** A release with parts below 100, which covers every threshold here. */
  predicate SmallRelease(t: SemVer.Version)
  {
    t.pre == [] && t.build == [] && t.major < 100 && t.minor < 100 && t.patch < 100
  }

  /** `semver.compare(v, t)` for a literal `t`: only the left side can fail to parse. */
  function CompareTo(v: string, t: SemVer.Version): (r: Result<int>)
    ensures r.Success? <==> SemVer.Parse(v, false).Success?
  {
    match SemVer.Parse(v, false)
    case Failure(e) => Failure(e)
    case Success(a) => Success(SemVer.Compare(a, t))
  }

  /** `semver.gte(v, t)`. */
  function AtLeast(v: string, t: SemVer.Version): Result<bool>
  {
    match CompareTo(v, t)
    case Failure(e) => Failure(e)
    case Success(c) => Success(c >= 0)
  }

  /** `semver.lte(v, t)`. */
  function AtMost(v: string, t: SemVer.Version): Result<bool>
  {
    match CompareTo(v, t)
    case Failure(e) => Failure(e)
    case Success(c) => Success(c <= 0)
  }

  /** `semver.lt(v, t)`. */
  function Below(v: string, t: SemVer.Version): Result<bool>
  {
    match CompareTo(v, t)
    case Failure(e) => Failure(e)
    case Success(c) => Success(c < 0)
  }

  lemma SmallNatText(n: nat)
    requires n < 100
    ensures 1 <= |NatToString(n)| <= 2
  {
  }

  /** Comparing with a small release agrees with comparing with its text, the way `validate` writes it. */
  lemma ThresholdComparisons(v: string, t: SemVer.Version)
    requires SmallRelease(t)
    ensures CompareTo(v, t) == SemVer.CompareStrings(v, SemVer.Format(t), false)
    ensures AtLeast(v, t) == SemVer.Gte(v, SemVer.Format(t), false)
    ensures AtMost(v, t) == SemVer.Lte(v, SemVer.Format(t), false)
    ensures Below(v, t) == SemVer.Lt(v, SemVer.Format(t), false)
  {
    SmallNatText(t.major);
    SmallNatText(t.minor);
    SmallNatText(t.patch);
    var a, b, c := NatToString(t.major), NatToString(t.minor), NatToString(t.patch);
    assert [a, b, c][1..] == [b, c] && [b, c][1..] == [c];
    assert Join([c], ".") == c;
    assert Join([b, c], ".") == b + "." + c;
    assert SemVer.MainText(t) == a + "." + (b + "." + c);
    assert SemVer.Format(t) == SemVer.MainText(t) + "" + "";
    SemVer.FormatParses(t);
  }

  // ---------------------------------------------------------------- the checks

  /** A comparison that throws ends the run with its exception; a true one with `fail`. */
  function When(test: Result<bool>, fail: Complaint): (r: Verdict)
    ensures test.Failure? ==> r == Thrown(test.error)
    ensures test.Success? ==> (r == if test.value then Invalid(fail) else Valid)
  {
    match test
    case Failure(e) => Thrown(e)
    case Success(b) => if b then Invalid(fail) else Valid
  }

  /** `Title version "v" is not supported` unless the catalog lists the version or the add-on has an override location. */
  function Membership(spec: Entries, catalog: Versions.Catalog, c: string, title: string): (r: Verdict)
    ensures !On(spec, c) ==> r == Valid
    ensures r.Invalid? ==> (On(spec, c) && !HasS3Override(spec, c)
      && Versions.HasVersion(catalog, c, VersionOf(spec, c)) == Success(false)
      && r.complaint == Unsupported(title, VersionOf(spec, c)))
    ensures r.Valid? && On(spec, c) ==>
      Versions.HasVersion(catalog, c, VersionOf(spec, c)) == Success(true) || HasS3Override(spec, c)
    ensures r.Thrown? <==> On(spec, c) && Versions.HasVersion(catalog, c, VersionOf(spec, c)).Failure?
  {
    if !On(spec, c) then Valid
    else
      var v := VersionOf(spec, c);
      match Versions.HasVersion(catalog, c, v)
      case Failure(e) => Thrown(e)
      case Success(found) =>
        if !found && !HasS3Override(spec, c) then Invalid(Unsupported(title, v)) else Valid
  }

  /** `isValidCidrRange(range)`: a leading `/` is dropped and `parseInt` must give a prefix length from 1 to 32. */
  predicate IsValidCidrRange(range: string)
  {
    var n := ParseInt(StripSlash(range));
    n.Some? && 0 < n.value <= 32
  }

  /** `range.replace(/^\//, "")`. */
  function StripSlash(s: string): (r: string)
    ensures |s| > 0 && s[0] == '/' ==> r == s[1..]
    ensures (|s| == 0 || s[0] != '/') ==> r == s
  {
    if |s| > 0 && s[0] == '/' then s[1..] else s
  }

  /** `parseInt(s, 10)`: leading white space, an optional sign, then as many decimal digits as there are; `NaN` as `None`. */
  function ParseInt(s: string): (r: Option<int>)
  {
    var t := TrimStart(s);
    var negative := |t| > 0 && t[0] == '-';
    var body := if |t| > 0 && (t[0] == '-' || t[0] == '+') then t[1..] else t;
    match Magnitude(body)
    case None => None
    case Some(m) => var v: int := m; Some(if negative then -v else v)
  }

  /** The value of the leading decimal digits, `None` when there are none. */
  function Magnitude(body: string): (r: Option<nat>)
    ensures r.None? <==> Versions.LeadingDigits(body) == 0
  {
    var n := Versions.LeadingDigits(body);
    var digits := body[..n];
    assert AllDigits(digits) by {
      forall i | 0 <= i < n ensures IsDigit(digits[i]) { assert digits[i] == body[i]; }
    }
    if n == 0 then None else Some(DigitsValue(digits))
  }

  /** Digits followed by anything that does not start with a digit: the leading digits are exactly those. */
  lemma {:induction false} LeadingDigitsOf(d: string, rest: string)
    requires AllDigits(d)
    requires |rest| == 0 || !IsDigit(rest[0])
    ensures Versions.LeadingDigits(d + rest) == |d|
  {
    if |d| > 0 {
      assert (d + rest)[1..] == d[1..] + rest;
      LeadingDigitsOf(d[1..], rest);
    }
  }

  /** The digits of `n` followed by anything that does not start with a digit are read as `n`. */
  lemma ParseIntOfNumber(n: nat, rest: string)
    requires |rest| == 0 || !IsDigit(rest[0])
    ensures ParseInt(NatToString(n) + rest) == Some(n)
  {
    NatToStringRoundTrip(n);
    ParseIntOfDigits(NatToString(n), rest);
  }

  /** A non-empty run of digits followed by anything that does not start with a digit is read as the run's value. */
  lemma ParseIntOfDigits(d: string, rest: string)
    requires |d| > 0 && AllDigits(d)
    requires |rest| == 0 || !IsDigit(rest[0])
    ensures ParseInt(d + rest) == Some(DigitsValue(d))
  {
    var s := d + rest;
    assert s[0] == d[0];
    ParseIntUnsigned(s);
    MagnitudeOfDigits(d, rest);
  }

  /** The magnitude of a run of digits followed by anything that does not start with a digit is the run's value. */
  lemma MagnitudeOfDigits(d: string, rest: string)
    requires |d| > 0 && AllDigits(d)
    requires |rest| == 0 || !IsDigit(rest[0])
    ensures Magnitude(d + rest) == Some(DigitsValue(d))
  {
    LeadingDigitsOf(d, rest);
    assert (d + rest)[..|d|] == d;
  }

  /** A text starting with a digit is read as the magnitude of its leading digits. */
  lemma ParseIntUnsigned(s: string)
    requires |s| > 0 && IsDigit(s[0])
    ensures Magnitude(s).Some? && ParseInt(s) == Some(Magnitude(s).value)
  {
    DigitStartTrimmed(s);
  }

  /** `trimStart` keeps a text that starts with a digit. */
  lemma DigitStartTrimmed(s: string)
    requires |s| > 0 && IsDigit(s[0])
    ensures TrimStart(s) == s
  {
    assert !IsJsWhitespace(s[0]);
  }

  /** A prefix length written in decimal, followed by whatever non-digit text, is accepted exactly when it is between 1 and 32. */
  lemma CidrRangeAccepts(n: nat, rest: string)
    requires |rest| == 0 || !IsDigit(rest[0])
    ensures IsValidCidrRange(NatToString(n) + rest) <==> 1 <= n <= 32
  {
    var s := NatToString(n) + rest;
    NatToStringRoundTrip(n);
    assert s[0] == NatToString(n)[0];
    assert StripSlash(s) == s;
    ParseIntOfNumber(n, rest);
  }

  /** The leading slash of a prefix length such as `/16` changes nothing. */
  lemma CidrRangeSlash(n: nat, rest: string)
    requires |rest| == 0 || !IsDigit(rest[0])
    ensures IsValidCidrRange("/" + NatToString(n) + rest) <==> 1 <= n <= 32
  {
    var s := NatToString(n) + rest;
    assert "/" + NatToString(n) + rest == "/" + s;
    assert StripSlash("/" + s) == s;
    ParseIntOfNumber(n, rest);
  }

  /** Text with no digit at all, such as `abc` or `/-`, is never a valid range. */
  lemma CidrRangeNeedsDigits(range: string)
    requires forall i :: 0 <= i < |range| ==> !IsDigit(range[i])
    ensures !IsValidCidrRange(range)
  {
    var t := TrimStart(StripSlash(range));
    var body := if |t| > 0 && (t[0] == '-' || t[0] == '+') then t[1..] else t;
    if |body| > 0 {
      assert !IsDigit(body[0]);
    }
  }

  /** `Title field "value" is invalid` for a truthy range on an add-on with a version; a value that is not a string makes `replace` throw. */
  function CidrRule(spec: Entries, c: string, field: string, title: string): (r: Verdict)
    ensures r.Invalid? ==> (On(spec, c) && Field(spec, c, field).Some? && Field(spec, c, field).value.Str?
      && !IsValidCidrRange(Field(spec, c, field).value.s)
      && r.complaint == BadRange(title, field, Field(spec, c, field).value.s))
    ensures r.Valid? && On(spec, c) && TruthyOpt(Field(spec, c, field)) ==>
      Field(spec, c, field).value.Str? && IsValidCidrRange(Field(spec, c, field).value.s)
    ensures r.Thrown? ==> r.error == "range.replace is not a function"
  {
    if !On(spec, c) || !TruthyOpt(Field(spec, c, field)) then Valid
    else match Field(spec, c, field).value
      case Str(range) => if IsValidCidrRange(range) then Valid else Invalid(BadRange(title, field, range))
      case _ => Thrown("range.replace is not a function")
  }

  /** OpenEBS below 2.12.9 with Kubernetes 1.22 and later: the Kubernetes comparison runs first. */
  function OpenEbsKubernetes(spec: Entries): (r: Verdict)
    ensures r.Invalid? ==> (On(spec, "openebs") && On(spec, "kubernetes")
      && AtLeast(VersionOf(spec, "kubernetes"), Release(1, 22, 0)) == Success(true)
      && Below(VersionOf(spec, "openebs"), Release(2, 12, 9)) == Success(true)
      && r.complaint == OpenEbsTooOld(VersionOf(spec, "openebs")))
    ensures r.Valid? && On(spec, "openebs") && On(spec, "kubernetes") ==>
      AtLeast(VersionOf(spec, "kubernetes"), Release(1, 22, 0)) == Success(false)
      || Below(VersionOf(spec, "openebs"), Release(2, 12, 9)) == Success(false)
  {
    if !On(spec, "openebs") || !On(spec, "kubernetes") then Valid
    else match AtLeast(VersionOf(spec, "kubernetes"), Release(1, 22, 0))
      case Failure(e) => Thrown(e)
      case Success(newer) =>
        if !newer then Valid
        else When(Below(VersionOf(spec, "openebs"), Release(2, 12, 9)), OpenEbsTooOld(VersionOf(spec, "openebs")))
  }

  /** OpenEBS 2.12.9 and later cannot have cStor enabled. */
  function OpenEbsCstor(spec: Entries): (r: Verdict)
    ensures r.Invalid? ==> (On(spec, "openebs") && TruthyOpt(Field(spec, "openebs", "isCstorEnabled"))
      && AtLeast(VersionOf(spec, "openebs"), Release(2, 12, 9)) == Success(true))
    ensures r.Valid? && On(spec, "openebs") && TruthyOpt(Field(spec, "openebs", "isCstorEnabled")) ==>
      AtLeast(VersionOf(spec, "openebs"), Release(2, 12, 9)) == Success(false)
  {
    if !On(spec, "openebs") || !TruthyOpt(Field(spec, "openebs", "isCstorEnabled")) then Valid
    else When(AtLeast(VersionOf(spec, "openebs"), Release(2, 12, 9)), CstorUnsupported(VersionOf(spec, "openebs")))
  }

  /** Docker and containerd together. */
  function SingleCri(spec: Entries): (r: Verdict)
    ensures r.Valid? <==> !(On(spec, "containerd") && On(spec, "docker"))
    ensures !r.Valid? ==> r == Invalid(TwoRuntimes)
  {
    if On(spec, "containerd") && On(spec, "docker") then Invalid(TwoRuntimes) else Valid
  }

  /** Docker with Kubernetes 1.24 and later. */
  function DockerKubernetes(spec: Entries): (r: Verdict)
    ensures r.Valid? && On(spec, "docker") && On(spec, "kubernetes") ==>
      AtLeast(VersionOf(spec, "kubernetes"), Release(1, 24, 0)) == Success(false)
    ensures r.Invalid? ==> r.complaint == DockerTooNew
  {
    if !On(spec, "docker") || !On(spec, "kubernetes") then Valid
    else When(AtLeast(VersionOf(spec, "kubernetes"), Release(1, 24, 0)), DockerTooNew)
  }

  /**
   * A version limit against newer Kubernetes releases: add-on `c` at or below (`inclusive`)
   * or below `limit` cannot run on Kubernetes `minimum` and later; `skipLatest` leaves the
   * version `latest` out, which the comparison could not parse.
   */
  datatype Limit = Limit(c: string, skipLatest: bool, inclusive: bool, limit: SemVer.Version, minimum: SemVer.Version)

  function LimitOf(b: Bound): (l: Limit)
    ensures SmallRelease(l.limit) && SmallRelease(l.minimum)
  {
    match b
    case RookOn120 => Limit("rook", true, true, Release(1, 1, 0), Release(1, 20, 0))
    case RookOn125 => Limit("rook", true, true, Release(1, 9, 10), Release(1, 25, 0))
    case ContainerdOn126 => Limit("containerd", true, false, Release(1, 6, 0), Release(1, 26, 0))
    case PrometheusOn122 => Limit("prometheus", false, true, Release(0, 49, 0), Release(1, 22, 0))
    case PrometheusOn125 => Limit("prometheus", false, true, Release(0, 59, 0), Release(1, 25, 0))
    case LonghornOn125 => Limit("longhorn", true, true, Release(1, 4, 0), Release(1, 25, 0))
  }

  /** The add-on's version is within the limit: `semver.lte` or `semver.lt`. */
  function Affected(v: string, l: Limit): Result<bool>
  {
    if l.inclusive then AtMost(v, l.limit) else Below(v, l.limit)
  }

  /** The check of one known-bad range `b`. */
  function KubernetesLimit(spec: Entries, b: Bound): Verdict
  {
    LimitVerdict(spec, LimitOf(b), TooOld(b))
  }

  /** The limit's check: the add-on comparison runs first, the Kubernetes one only for an affected add-on. */
  function LimitVerdict(spec: Entries, l: Limit, complaint: Complaint): (r: Verdict)
    ensures r.Invalid? ==> (r.complaint == complaint && On(spec, l.c) && On(spec, "kubernetes")
      && (l.skipLatest ==> VersionOf(spec, l.c) != "latest")
      && Affected(VersionOf(spec, l.c), l) == Success(true)
      && AtLeast(VersionOf(spec, "kubernetes"), l.minimum) == Success(true))
    ensures r.Valid? && On(spec, l.c) && !(l.skipLatest && VersionOf(spec, l.c) == "latest") && On(spec, "kubernetes") ==>
      (Affected(VersionOf(spec, l.c), l) == Success(false) || AtLeast(VersionOf(spec, "kubernetes"), l.minimum) == Success(false))
  {
    if !On(spec, l.c) || (l.skipLatest && VersionOf(spec, l.c) == "latest") then Valid
    else match Affected(VersionOf(spec, l.c), l)
      case Failure(e) => Thrown(e)
      case Success(affected) =>
        if !affected || !On(spec, "kubernetes") then Valid
        else When(AtLeast(VersionOf(spec, "kubernetes"), l.minimum), complaint)
  }

  /** Containerd 1.6.4 next to any truthy `weave` block. */
  function ContainerdWeave(spec: Entries): (r: Verdict)
    ensures r.Valid? <==> !(Field(spec, "containerd", "version") == Some(Json.Str("1.6.4")) && TruthyOpt(Lookup(spec, "weave")))
    ensures !r.Valid? ==> r == Invalid(Containerd164WithWeave)
  {
    if Field(spec, "containerd", "version") == Some(Json.Str("1.6.4")) && TruthyOpt(Lookup(spec, "weave")) then
      Invalid(Containerd164WithWeave)
    else Valid
  }

  /** `list.indexOf(x)`. */
  function IndexIn(list: seq<string>, x: string): (i: int)
    ensures -1 <= i < |list|
    ensures i == -1 <==> x !in list
    ensures i >= 0 ==> list[i] == x && x !in list[..i]
  {
    if |list| == 0 then -1
    else if list[0] == x then 0
    else
      var j := IndexIn(list[1..], x);
      assert j >= 0 ==> list[..j + 1] == [list[0]] + list[1..][..j];
      if j == -1 then -1 else j + 1
  }

  const PrometheusServiceTypeRelease := "0.48.1-16.10.0"

  const UndefinedIndexOf := "Cannot read properties of undefined (reading 'indexOf')"

  /**
   * The Prometheus service type: only `ClusterIP` and `NodePort` (compared the way `!=`
   * compares a value with a string), and only for versions listed no later than
   * 0.48.1-16.10.0 in the catalog's order, newest first; without a Prometheus list in the
   * catalog the lookup throws.
   */
  function PrometheusServiceType(spec: Entries, catalog: Versions.Catalog): (r: Verdict)
    ensures !On(spec, "prometheus") || !TruthyOpt(Field(spec, "prometheus", "serviceType")) ==> r == Valid
    ensures r.Valid? && On(spec, "prometheus") && TruthyOpt(Field(spec, "prometheus", "serviceType")) ==>
      (ToJsString(Field(spec, "prometheus", "serviceType").value) in {"", "ClusterIP", "NodePort"}
      && "prometheus" in catalog
      && (VersionOf(spec, "prometheus") in catalog["prometheus"] ==>
            IndexIn(catalog["prometheus"], VersionOf(spec, "prometheus")) <= IndexIn(catalog["prometheus"], PrometheusServiceTypeRelease)))
    ensures r.Thrown? ==> "prometheus" !in catalog && r.error == UndefinedIndexOf
  {
    if !On(spec, "prometheus") || !TruthyOpt(Field(spec, "prometheus", "serviceType")) then Valid
    else
      var serviceType := ToJsString(Field(spec, "prometheus", "serviceType").value);
      var version := VersionOf(spec, "prometheus");
      if serviceType != "" && serviceType != "ClusterIP" && serviceType != "NodePort" then
        Invalid(ServiceTypeUnknown(serviceType))
      else if "prometheus" !in catalog then Thrown(UndefinedIndexOf)
      else
        var list := catalog["prometheus"];
        if IndexIn(list, version) != -1 && IndexIn(list, version) > IndexIn(list, PrometheusServiceTypeRelease) then
          Invalid(ServiceTypeTooEarly(version))
        else Valid
  }

  // ---------------------------------------------------------------- validate

  /** One check of `validate`, named by what it inspects. */
  datatype Rule =
    | Catalogued(c: string, title: string)
    | RangeOf(c: string, field: string, title: string)
    | OpenEbsVsKubernetes
    | OpenEbsWithCstor
    | BothRuntimes
    | DockerVsKubernetes
    | TooOldFor(bound: Bound)
    | ContainerdVsWeave
    | PrometheusService

  /** The verdict of one check. */
  function Run(rule: Rule, spec: Entries, catalog: Versions.Catalog): Verdict
  {
    match rule
    case Catalogued(c, title) => Membership(spec, catalog, c, title)
    case RangeOf(c, field, title) => CidrRule(spec, c, field, title)
    case OpenEbsVsKubernetes => OpenEbsKubernetes(spec)
    case OpenEbsWithCstor => OpenEbsCstor(spec)
    case BothRuntimes => SingleCri(spec)
    case DockerVsKubernetes => DockerKubernetes(spec)
    case TooOldFor(bound) => KubernetesLimit(spec, bound)
    case ContainerdVsWeave => ContainerdWeave(spec)
    case PrometheusService => PrometheusServiceType(spec, catalog)
  }

  /** Which check a rule runs; stated once so that proofs about one rule need not unfold the others. */
  lemma RunDispatch(rule: Rule, spec: Entries, catalog: Versions.Catalog)
    ensures rule.Catalogued? ==> Run(rule, spec, catalog) == Membership(spec, catalog, rule.c, rule.title)
    ensures rule.RangeOf? ==> Run(rule, spec, catalog) == CidrRule(spec, rule.c, rule.field, rule.title)
    ensures rule.BothRuntimes? ==> Run(rule, spec, catalog) == SingleCri(spec)
    ensures rule.DockerVsKubernetes? ==> Run(rule, spec, catalog) == DockerKubernetes(spec)
    ensures rule.TooOldFor? ==> Run(rule, spec, catalog) == KubernetesLimit(spec, rule.bound)
    ensures rule.ContainerdVsWeave? ==> Run(rule, spec, catalog) == ContainerdWeave(spec)
  {
  }

  /** The checks after the schema check, in the order `validate` runs them. */
  const Rules: seq<Rule> := [
    Catalogued("kubernetes", "Kubernetes"),
    RangeOf("kubernetes", "serviceCidrRange", "Kubernetes"),
    Catalogued("weave", "Weave"),
    RangeOf("weave", "podCidrRange", "Weave"),
    Catalogued("flannel", "Flannel"),
    RangeOf("flannel", "podCIDRRange", "Flannel"),
    Catalogued("antrea", "Antrea"),
    RangeOf("antrea", "podCidrRange", "Antrea"),
    Catalogued("rook", "Rook"),
    Catalogued("contour", "Contour"),
    Catalogued("registry", "Registry"),
    Catalogued("prometheus", "Prometheus"),
    Catalogued("fluentd", "Fluentd"),
    Catalogued("kotsadm", "Kotsadm"),
    Catalogued("velero", "Velero"),
    Catalogued("openebs", "OpenEBS"),
    OpenEbsVsKubernetes,
    OpenEbsWithCstor,
    Catalogued("minio", "Minio"),
    Catalogued("ekco", "Ekco"),
    Catalogued("containerd", "Containerd"),
    BothRuntimes,
    DockerVsKubernetes,
    Catalogued("collectd", "Collectd"),
    Catalogued("certManager", "CertManager"),
    Catalogued("metricsServer", "MetricsServer"),
    Catalogued("longhorn", "Longhorn"),
    Catalogued("sonobuoy", "Sonobuoy"),
    Catalogued("goldpinger", "Goldpinger"),
    TooOldFor(RookOn120),
    TooOldFor(RookOn125),
    TooOldFor(ContainerdOn126),
    ContainerdVsWeave,
    TooOldFor(PrometheusOn122),
    TooOldFor(PrometheusOn125),
    PrometheusService,
    TooOldFor(LonghornOn125)
  ]

  /** The checks run one after another; the first that does not pass ends the run with its verdict. */
  function RunAll(rules: seq<Rule>, spec: Entries, catalog: Versions.Catalog): Verdict
  {
    if |rules| == 0 then Valid
    else
      var here := Run(rules[0], spec, catalog);
      if !here.Valid? then here
      else RunAll(rules[1..], spec, catalog)
  }

  /** A run passes exactly when every check passes; otherwise its verdict is that of the first check that fails. */
  lemma {:induction false} RunAllFirstFailure(rules: seq<Rule>, spec: Entries, catalog: Versions.Catalog)
    ensures RunAll(rules, spec, catalog).Valid? <==> forall i :: 0 <= i < |rules| ==> Run(rules[i], spec, catalog).Valid?
    ensures !RunAll(rules, spec, catalog).Valid? ==> exists i :: (0 <= i < |rules|
      && Run(rules[i], spec, catalog) == RunAll(rules, spec, catalog)
      && forall j :: 0 <= j < i ==> Run(rules[j], spec, catalog).Valid?)
    decreases |rules|
  {
    if |rules| > 0 && Run(rules[0], spec, catalog).Valid? {
      RunAllFirstFailure(rules[1..], spec, catalog);
      assert forall i :: 1 <= i < |rules| ==> rules[i] == rules[1..][i - 1];
      if !RunAll(rules, spec, catalog).Valid? {
        var k :| 0 <= k < |rules[1..]| && Run(rules[1..][k], spec, catalog) == RunAll(rules, spec, catalog)
          && forall j :: 0 <= j < k ==> Run(rules[1..][j], spec, catalog).Valid?;
        assert Run(rules[k + 1], spec, catalog) == RunAll(rules, spec, catalog);
      }
    } else if |rules| > 0 {
      assert Run(rules[0], spec, catalog) == RunAll(rules, spec, catalog);
    }
  }

  /**
   * `validate(installerVersions)`: the Kubernetes version first, then the schema check, then
   * the rules. `schema` is the add-on table the validator is compiled from; the installer
   * passes `Schema.SpecSchema`, and every property below holds for any table.
   */
  function Validate(schema: seq<Schema.Addon>, spec: Entries, catalog: Versions.Catalog): (r: Verdict)
    ensures !On(spec, "kubernetes") ==> r == Invalid(KubernetesRequired)
    ensures On(spec, "kubernetes") && Schema.SpecErrorIn(schema, spec).Some? ==>
      r == Invalid(SchemaViolation(Schema.SpecErrorIn(schema, spec).value))
    ensures r.Valid? ==> On(spec, "kubernetes") && Schema.SpecErrorIn(schema, spec).None?
  {
    if !On(spec, "kubernetes") then Invalid(KubernetesRequired)
    else match Schema.SpecErrorIn(schema, spec)
      case Some(e) => Invalid(SchemaViolation(e))
      case None => RunAll(Rules, spec, catalog)
  }

  /** A spec is valid exactly when it names Kubernetes, meets the schema and passes every rule. */
  lemma ValidateAccepts(schema: seq<Schema.Addon>, spec: Entries, catalog: Versions.Catalog)
    ensures Validate(schema, spec, catalog).Valid? <==> (On(spec, "kubernetes") && Schema.SpecErrorIn(schema, spec).None?
      && forall i :: 0 <= i < |Rules| ==> Run(Rules[i], spec, catalog).Valid?)
  {
    RunAllFirstFailure(Rules, spec, catalog);
  }

  /** A spec that names Kubernetes and meets the schema but is not valid is rejected by the first rule it fails, with that rule's verdict. */
  lemma ValidateRejectsFirstFailure(schema: seq<Schema.Addon>, spec: Entries, catalog: Versions.Catalog)
    requires On(spec, "kubernetes") && Schema.SpecErrorIn(schema, spec).None?
    requires !Validate(schema, spec, catalog).Valid?
    ensures exists i :: (0 <= i < |Rules| && Run(Rules[i], spec, catalog) == Validate(schema, spec, catalog)
      && forall j :: 0 <= j < i ==> Run(Rules[j], spec, catalog).Valid?)
  {
    RunAllFirstFailure(Rules, spec, catalog);
  }

  /** Every rule of the list passes for a valid spec. */
  lemma ValidPassesRule(schema: seq<Schema.Addon>, spec: Entries, catalog: Versions.Catalog, rule: Rule)
    requires Validate(schema, spec, catalog).Valid?
    requires rule in Rules
    ensures Run(rule, spec, catalog).Valid?
  {
    ValidateAccepts(schema, spec, catalog);
    var i :| 0 <= i < |Rules| && Rules[i] == rule;
    assert Run(Rules[i], spec, catalog).Valid?;
  }

  /** A valid spec names only versions the catalog lists, except where the add-on has an override location. */
  lemma ValidVersionsSupported(schema: seq<Schema.Addon>, spec: Entries, catalog: Versions.Catalog, c: string, title: string)
    requires Validate(schema, spec, catalog).Valid?
    requires Catalogued(c, title) in Rules
    ensures On(spec, c) ==> Versions.HasVersion(catalog, c, VersionOf(spec, c)) == Success(true) || HasS3Override(spec, c)
  {
    ValidPassesRule(schema, spec, catalog, Catalogued(c, title));
    RunDispatch(Catalogued(c, title), spec, catalog);
  }

  /** An override location means the version is never reported as unsupported. */
  lemma OverrideNeverUnsupported(spec: Entries, catalog: Versions.Catalog, c: string, title: string)
    requires HasS3Override(spec, c)
    ensures !Membership(spec, catalog, c, title).Invalid?
  {
  }

  /** A valid spec holds at most one container runtime. */
  lemma ValidSingleCri(schema: seq<Schema.Addon>, spec: Entries, catalog: Versions.Catalog)
    requires Validate(schema, spec, catalog).Valid?
    ensures !(On(spec, "docker") && On(spec, "containerd"))
  {
    ValidPassesRule(schema, spec, catalog, BothRuntimes);
    RunDispatch(BothRuntimes, spec, catalog);
  }

  /** A valid spec with Docker runs a Kubernetes version below 1.24.0. */
  lemma ValidDockerBelow124(schema: seq<Schema.Addon>, spec: Entries, catalog: Versions.Catalog)
    requires Validate(schema, spec, catalog).Valid?
    requires On(spec, "docker")
    ensures AtLeast(VersionOf(spec, "kubernetes"), Release(1, 24, 0)) == Success(false)
  {
    ValidPassesRule(schema, spec, catalog, DockerVsKubernetes);
    RunDispatch(DockerVsKubernetes, spec, catalog);
    DockerPassed(spec);
  }

  /** A valid spec running OpenEBS on Kubernetes 1.22 or later has OpenEBS 2.12.9 or later. */
  lemma ValidOpenEbsKubernetes(schema: seq<Schema.Addon>, spec: Entries, catalog: Versions.Catalog)
    requires Validate(schema, spec, catalog).Valid?
    requires On(spec, "openebs") && On(spec, "kubernetes")
    ensures AtLeast(VersionOf(spec, "kubernetes"), Release(1, 22, 0)) == Success(false)
      || Below(VersionOf(spec, "openebs"), Release(2, 12, 9)) == Success(false)
  {
    ValidPassesRule(schema, spec, catalog, OpenEbsVsKubernetes);
    RunDispatch(OpenEbsVsKubernetes, spec, catalog);
  }

  lemma DockerPassed(spec: Entries)
    requires DockerKubernetes(spec).Valid? && On(spec, "docker") && On(spec, "kubernetes")
    ensures AtLeast(VersionOf(spec, "kubernetes"), Release(1, 24, 0)) == Success(false)
  {
  }

  /** Every range field of a valid spec that is set on an add-on with a version is a string holding a prefix length from 1 to 32. */
  lemma ValidRanges(schema: seq<Schema.Addon>, spec: Entries, catalog: Versions.Catalog, c: string, field: string, title: string)
    requires Validate(schema, spec, catalog).Valid?
    requires RangeOf(c, field, title) in Rules
    ensures On(spec, c) && TruthyOpt(Field(spec, c, field)) ==>
      Field(spec, c, field).value.Str? && IsValidCidrRange(Field(spec, c, field).value.s)
  {
    ValidPassesRule(schema, spec, catalog, RangeOf(c, field, title));
    RunDispatch(RangeOf(c, field, title), spec, catalog);
  }

  /** Containerd 1.6.4 and Weave are never accepted together. */
  lemma ValidNoContainerd164WithWeave(schema: seq<Schema.Addon>, spec: Entries, catalog: Versions.Catalog)
    requires Validate(schema, spec, catalog).Valid?
    ensures !(Field(spec, "containerd", "version") == Some(Json.Str("1.6.4")) && TruthyOpt(Lookup(spec, "weave")))
  {
    ValidPassesRule(schema, spec, catalog, ContainerdVsWeave);
    RunDispatch(ContainerdVsWeave, spec, catalog);
  }

  /** A valid spec respects every Kubernetes limit: an affected add-on version runs only with an older Kubernetes. */
  lemma ValidKubernetesLimits(schema: seq<Schema.Addon>, spec: Entries, catalog: Versions.Catalog, b: Bound)
    requires Validate(schema, spec, catalog).Valid?
    requires On(spec, LimitOf(b).c) && !(LimitOf(b).skipLatest && VersionOf(spec, LimitOf(b).c) == "latest")
    ensures var l := LimitOf(b);
      Affected(VersionOf(spec, l.c), l) == Success(false)
      || AtLeast(VersionOf(spec, "kubernetes"), l.minimum) == Success(false)
  {
    ValidPassesRule(schema, spec, catalog, TooOldFor(b));
    RunDispatch(TooOldFor(b), spec, catalog);
    LimitPassed(spec, b);
  }

  lemma LimitPassed(spec: Entries, b: Bound)
    requires KubernetesLimit(spec, b).Valid? && On(spec, "kubernetes")
    requires On(spec, LimitOf(b).c) && !(LimitOf(b).skipLatest && VersionOf(spec, LimitOf(b).c) == "latest")
    ensures var l := LimitOf(b);
      Affected(VersionOf(spec, l.c), l) == Success(false)
      || AtLeast(VersionOf(spec, "kubernetes"), l.minimum) == Success(false)
  {
  }
}
