/**
 * Where packages and version files are downloaded from: the URL builders of
 * `src/util/package/index.ts`.  The process environment is passed in as a map;
 * a variable is "set" in the JavaScript sense when it is present and non-empty.
 */
module PackageUrls {
  import opened Wrappers
  import opened Text
  import opened Json

  /** `process.env`: variables that are present, with their (possibly empty) values. */
  type Env = map<string, string>

  /** `process.env[k]` is truthy: present and not the empty string. */
  predicate IsSet(env: Env, k: string)
  {
    k in env && env[k] != ""
  }

  /** `${process.env[k]}`: an absent variable interpolates as `undefined`. */
  function Interpolated(env: Env, k: string): string
  {
    if k in env then env[k] else "undefined"
  }

  const S3Host := ".s3.amazonaws.com"

  /** `getPackageUrlPrefix`: the dist URL, followed by `/<kurlVersion>` when a version is pinned. */
  function PackageUrlPrefix(distUrl: string, kurlVersion: string): (r: string)
    ensures StartsWith(r, distUrl)
    ensures kurlVersion == "" ==> r == distUrl
    ensures kurlVersion != "" ==> r[|distUrl|..] == "/" + kurlVersion
  {
    distUrl + (if kurlVersion == "" then "" else "/" + kurlVersion)
  }

  /** `getPackageUrl`: the prefix, a slash, and the package file name. */
  function PackageUrl(distUrl: string, kurlVersion: string, pkg: string): (r: string)
    ensures StartsWith(r, PackageUrlPrefix(distUrl, kurlVersion))
    ensures EndsWith(r, "/" + pkg)
  {
    PackageUrlPrefix(distUrl, kurlVersion) + "/" + pkg
  }

  /** Under one prefix, different package names give different URLs. */
  lemma PackageUrlInjective(distUrl: string, kurlVersion: string, a: string, b: string)
    requires PackageUrl(distUrl, kurlVersion, a) == PackageUrl(distUrl, kurlVersion, b)
    ensures a == b
  {
    var n := |PackageUrlPrefix(distUrl, kurlVersion)| + 1;
    assert a == PackageUrl(distUrl, kurlVersion, a)[n..];
    assert b == PackageUrl(distUrl, kurlVersion, b)[n..];
  }

  /** A pinned version adds exactly one path segment between the dist URL and the package. */
  lemma PackageUrlPinned(distUrl: string, kurlVersion: string, pkg: string)
    ensures PackageUrl(distUrl, kurlVersion, pkg) ==
      if kurlVersion == "" then distUrl + "/" + pkg else distUrl + "/" + kurlVersion + "/" + pkg
  {
  }

  /** `getBucketUrl`: `BUCKET_URL` when set, otherwise the public S3 address of `KURL_BUCKET`. */
  function BucketUrl(env: Env): (r: string)
    ensures IsSet(env, "BUCKET_URL") ==> r == env["BUCKET_URL"]
    ensures !IsSet(env, "BUCKET_URL") ==> StartsWith(r, "https://") && EndsWith(r, S3Host)
  {
    if IsSet(env, "BUCKET_URL") then env["BUCKET_URL"]
    else "https://" + Interpolated(env, "KURL_BUCKET") + S3Host
  }

  /** The channel directory: `/dist` in production, `/staging` otherwise. */
  function Channel(env: Env): (r: string)
    ensures r == "/dist" <==> "NODE_ENV" in env && env["NODE_ENV"] == "production"
    ensures r == "/dist" || r == "/staging"
  {
    if "NODE_ENV" in env && env["NODE_ENV"] == "production" then "/dist" else "/staging"
  }

  /** `getDistUrl`: `DIST_URL` when set, otherwise the bucket URL followed by the channel directory. */
  function DistUrl(env: Env): (r: string)
    ensures IsSet(env, "DIST_URL") ==> r == env["DIST_URL"]
    ensures !IsSet(env, "DIST_URL") ==> StartsWith(r, BucketUrl(env)) && r[|BucketUrl(env)|..] == Channel(env)
  {
    if IsSet(env, "DIST_URL") then env["DIST_URL"] else BucketUrl(env) + Channel(env)
  }

  /**
   * `getFallbackUrl`: there is a fallback only when `DIST_URL` is unset and both `BUCKET_URL`
   * and `KURL_BUCKET` are set; it is the raw S3 address of `KURL_BUCKET` with the channel.
   */
  function FallbackUrl(env: Env): string
  {
    if IsSet(env, "DIST_URL") then ""
    else if !IsSet(env, "BUCKET_URL") then ""
    else if !IsSet(env, "KURL_BUCKET") then ""
    else "https://" + env["KURL_BUCKET"] + S3Host + Channel(env)
  }

  /** A fallback exists exactly when `DIST_URL` is unset and both bucket variables are set. */
  lemma FallbackPresent(env: Env)
    ensures FallbackUrl(env) != "" <==>
      !IsSet(env, "DIST_URL") && IsSet(env, "BUCKET_URL") && IsSet(env, "KURL_BUCKET")
  {
  }

  /** The fallback is the dist URL that `KURL_BUCKET` alone would have produced, with `BUCKET_URL` removed. */
  lemma FallbackIsBucketDist(env: Env)
    requires FallbackUrl(env) != ""
    ensures FallbackUrl(env) == DistUrl(env - {"BUCKET_URL"})
    ensures FallbackUrl(env) != DistUrl(env) || env["BUCKET_URL"] == BucketUrl(env - {"BUCKET_URL"})
  {
    var alone := env - {"BUCKET_URL"};
    assert !IsSet(alone, "DIST_URL") && !IsSet(alone, "BUCKET_URL");
    assert Channel(alone) == Channel(env);
    assert Interpolated(alone, "KURL_BUCKET") == env["KURL_BUCKET"];
    assert DistUrl(env) == env["BUCKET_URL"] + Channel(env);
    if FallbackUrl(env) == DistUrl(env) {
      assert BucketUrl(alone) + Channel(env) == env["BUCKET_URL"] + Channel(env);
      assert BucketUrl(alone) == (BucketUrl(alone) + Channel(env))[..|BucketUrl(alone)|];
    }
  }

  /** `getExternalUrl`: the `/external` directory of the bucket. */
  function ExternalUrl(env: Env): (r: string)
    ensures StartsWith(r, BucketUrl(env)) && r[|BucketUrl(env)|..] == "/external"
  {
    BucketUrl(env) + "/external"
  }

  /** Without `DIST_URL`, packages and external add-ons are served from the same bucket. */
  lemma DistAndExternalShareBucket(env: Env)
    requires !IsSet(env, "DIST_URL")
    ensures DistUrl(env)[..|BucketUrl(env)|] == ExternalUrl(env)[..|BucketUrl(env)|] == BucketUrl(env)
  {
  }

  /**
   * `kurlVersionOrDefault`: the requested version when non-empty, else the installer's
   * truthy `kurl.installerVersion` as it reads in a string, else the server's default.
   */
  function KurlVersionOrDefault(kurlVersion: string, installer: Option<Entries>, defaultVersion: string): string
  {
    if kurlVersion != "" then kurlVersion
    else
      var own := if installer.Some? then Field(installer.value, "kurl", "installerVersion") else None;
      if TruthyOpt(own) then ToJsString(own.value) else defaultVersion
  }

  /** Which of the three sources the version comes from, in order of precedence. */
  lemma KurlVersionPrecedence(kurlVersion: string, installer: Option<Entries>, defaultVersion: string, v: string)
    ensures kurlVersion != "" ==> KurlVersionOrDefault(kurlVersion, installer, defaultVersion) == kurlVersion
    ensures kurlVersion == "" && installer.None? ==> KurlVersionOrDefault(kurlVersion, installer, defaultVersion) == defaultVersion
    ensures kurlVersion == "" && installer.Some? && Field(installer.value, "kurl", "installerVersion") == Some(Str(v)) && v != "" ==>
      KurlVersionOrDefault(kurlVersion, installer, defaultVersion) == v
    ensures kurlVersion == "" && installer.Some? && !TruthyOpt(Field(installer.value, "kurl", "installerVersion")) ==>
      KurlVersionOrDefault(kurlVersion, installer, defaultVersion) == defaultVersion
  {
  }

  /** The chosen version is empty only when the installer pins an empty-reading array or the default is empty. */
  lemma KurlVersionNonEmpty(kurlVersion: string, installer: Option<Entries>, defaultVersion: string)
    requires defaultVersion != ""
    requires installer.Some? ==> match Field(installer.value, "kurl", "installerVersion")
      case Some(Arr(_)) => false
      case _ => true
    ensures KurlVersionOrDefault(kurlVersion, installer, defaultVersion) != ""
  {
    if kurlVersion == "" && installer.Some? {
      var own := Field(installer.value, "kurl", "installerVersion");
      if TruthyOpt(own) {
        match own.value
        case Num(n) => IntToStringNonEmpty(n);
        case _ =>
      }
    }
  }

  lemma IntToStringNonEmpty(n: int)
    ensures IntToString(n) != ""
  {
    if n < 0 {
      assert IntToString(n)[0] == '-';
    } else {
      assert |NatToString(n)| > 0;
    }
  }
}
