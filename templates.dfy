/**
 * The values substituted into the install, join, upgrade and tasks script templates
 * (`src/util/services/templates.ts`): `bashStringEscape` and `manifestFromInstaller`.
 */
module Templates {
  import opened Wrappers
  import opened Text
  import opened Json
  import Schema
  import Versions
  import Normalize
  import Render
  import Installers

  // ------------------------------------------------------------- escaping

  /** The characters a double-quoted bash string needs escaped: `!`, `"` and `\`. */
  predicate IsSpecial(c: char)
  {
    c == '!' || c == '"' || c == '\\'
  }

  /** `bashStringEscape`: a backslash before every special character. */
  function BashStringEscape(s: string): string
  {
    if |s| == 0 then ""
    else (if IsSpecial(s[0]) then ['\\', s[0]] else [s[0]]) + BashStringEscape(s[1..])
  }

  /** The characters a backslash escapes inside bash double quotes, newline aside. */
  predicate QuoteEscapable(c: char)
  {
    c == '$' || c == '`' || c == '"' || c == '\\'
  }

  /** `c` in front of a read text, when there is one. */
  function Prepend(c: char, o: Option<string>): (r: Option<string>)
    ensures r.Some? <==> o.Some?
    ensures r.Some? ==> r.value == [c] + o.value
  {
    match o
    case None => None
    case Some(t) => Some([c] + t)
  }

  /**
   * How a non-interactive bash reads the text between the double quotes of `INSTALLER_YAML="…"`:
   * a backslash before `$`, a backtick, `"` or `\` is dropped and the next character is taken
   * literally, a backslash-newline pair disappears, and any other backslash stays. `None` where
   * a bare `$` or backtick would start an expansion, which is not evaluated here, or a bare `"`
   * would end the string.
   */
  function DoubleQuotedRead(t: string): Option<string>
  {
    if |t| == 0 then Some("")
    else if t[0] == '\\' && |t| >= 2 && t[1] == '\n' then DoubleQuotedRead(t[2..])
    else if t[0] == '\\' && |t| >= 2 && QuoteEscapable(t[1]) then Prepend(t[1], DoubleQuotedRead(t[2..]))
    else if t[0] == '$' || t[0] == '`' || t[0] == '"' then None
    else Prepend(t[0], DoubleQuotedRead(t[1..]))
  }

  /** The text with a backslash in front of every `!`: what bash makes of an escaped `!`. */
  function BangEscaped(s: string): string
  {
    if |s| == 0 then ""
    else (if s[0] == '!' then "\\!" else [s[0]]) + BangEscaped(s[1..])
  }

  /** A text without `!` is its own bang-escaped form. */
  lemma {:induction false} BangEscapedPlain(s: string)
    requires forall i :: 0 <= i < |s| ==> s[i] != '!'
    ensures BangEscaped(s) == s
    decreases |s|
  {
    if |s| > 0 {
      BangEscapedPlain(s[1..]);
    }
  }

  /** The number of special characters in a text. */
  function CountSpecial(s: string): nat
  {
    if |s| == 0 then 0 else (if IsSpecial(s[0]) then 1 else 0) + CountSpecial(s[1..])
  }

  /**
   * Bash reads the escaped text back as the original, except that every `!` keeps the backslash
   * in front of it; this holds whenever the text has no `$` or backtick, which the escape leaves bare.
   */
  lemma {:induction false} EscapeReadBack(s: string)
    requires forall i :: 0 <= i < |s| ==> s[i] != '$' && s[i] != '`'
    ensures DoubleQuotedRead(BashStringEscape(s)) == Some(BangEscaped(s))
    decreases |s|
  {
    if |s| > 0 {
      var rest := BashStringEscape(s[1..]);
      EscapeReadBack(s[1..]);
      if s[0] == '!' {
        ReadEscapedBang(rest);
        assert BangEscaped(s) == ['\\'] + (['!'] + BangEscaped(s[1..]));
      } else if IsSpecial(s[0]) {
        ReadEscaped(s[0], rest);
      } else {
        ReadPlain(s[0], rest);
      }
    }
  }

  /** An escaped `!` is read as a backslash and the `!`. */
  lemma ReadEscapedBang(rest: string)
    ensures DoubleQuotedRead(['\\', '!'] + rest) == Prepend('\\', Prepend('!', DoubleQuotedRead(rest)))
  {
    var t := ['\\', '!'] + rest;
    assert t[1..] == ['!'] + rest;
    assert t[1..][1..] == rest;
  }

  /** An escaped `"` or `\` is read as the character alone. */
  lemma ReadEscaped(c: char, rest: string)
    requires c == '"' || c == '\\'
    ensures DoubleQuotedRead(['\\', c] + rest) == Prepend(c, DoubleQuotedRead(rest))
  {
    assert (['\\', c] + rest)[2..] == rest;
  }

  /** Any other character but `$` and backtick is read as itself. */
  lemma ReadPlain(c: char, rest: string)
    requires !IsSpecial(c) && c != '$' && c != '`'
    ensures DoubleQuotedRead([c] + rest) == Prepend(c, DoubleQuotedRead(rest))
  {
    assert ([c] + rest)[1..] == rest;
  }

  /** A text without `!`, `$` or backtick is read back exactly. */
  lemma EscapeRoundTrip(s: string)
    requires forall i :: 0 <= i < |s| ==> s[i] != '!' && s[i] != '$' && s[i] != '`'
    ensures DoubleQuotedRead(BashStringEscape(s)) == Some(s)
  {
    EscapeReadBack(s);
    BangEscapedPlain(s);
  }

  /** Escaping adds exactly one character per special character. */
  lemma {:induction false} EscapeLength(s: string)
    ensures |BashStringEscape(s)| == |s| + CountSpecial(s)
    decreases |s|
  {
    if |s| > 0 {
      EscapeLength(s[1..]);
    }
  }

  /** A text without special characters is left as it is. */
  lemma {:induction false} EscapePlain(s: string)
    requires forall i :: 0 <= i < |s| ==> !IsSpecial(s[i])
    ensures BashStringEscape(s) == s
    decreases |s|
  {
    if |s| > 0 {
      EscapePlain(s[1..]);
    }
  }

  /** Every special character of the output is escaped: it comes right after a backslash that is itself escaping. */
  lemma {:induction false} EscapeNoBareSpecial(s: string, i: nat)
    requires i < |BashStringEscape(s)| && BashStringEscape(s)[i] != '\\' && IsSpecial(BashStringEscape(s)[i])
    ensures i > 0 && BashStringEscape(s)[i - 1] == '\\'
    decreases |s|
  {
    var t := BashStringEscape(s);
    var rest := BashStringEscape(s[1..]);
    if IsSpecial(s[0]) {
      assert t == ['\\', s[0]] + rest;
      if i >= 2 {
        assert t[i] == rest[i - 2];
        EscapeNoBareSpecial(s[1..], i - 2);
        assert t[i - 1] == rest[i - 3];
      }
    } else {
      assert t == [s[0]] + rest;
      assert i >= 1;
      assert t[i] == rest[i - 1];
      EscapeNoBareSpecial(s[1..], i - 1);
      assert t[i - 1] == rest[i - 2];
    }
  }

  // ------------------------------------------------------------- the manifest

  /** The template data of a script. */
  datatype Manifest = Manifest(
    kurlUrl: string,
    distUrl: string,
    fallbackUrl: string,
    installerId: string,
    kurlVersion: string,
    replicatedAppUrl: string,
    kurlUtilImage: string,
    kurlBinUtilsFile: string,
    stepVersions: string,
    installerYaml: string)

  /** The kurl-util image: the pinned kURL version's tag, or `alpha`. */
  function UtilImage(kurlVersion: string): string
  {
    "replicated/kurl-util:" + (if kurlVersion != "" then kurlVersion else "alpha")
  }

  /** The bash array literal of the upgrade-step versions. */
  function StepVersions(minors: seq<string>): string
  {
    "(" + Join(minors, " ") + ")"
  }

  /**
   * The manifest built from the installer's id, its YAML (`yaml.dump` of `toObject()`, after
   * the kurl version is set) and the Kubernetes upgrade steps; a throwing step computation
   * is the exception of the whole call.
   */
  function ManifestFrom(id: string, yaml: string, minors: Result<seq<string>>, kurlUrl: string, replicatedAppUrl: string,
                        distUrl: string, fallbackUrl: string, kurlVersion: string): Result<Manifest>
  {
    match minors
    case Failure(e) => Failure(e)
    case Success(ms) =>
      Success(Manifest(kurlUrl, distUrl, fallbackUrl, id, kurlVersion, replicatedAppUrl, UtilImage(kurlVersion),
                       Render.BinUtils(kurlVersion) + ".tar.gz", StepVersions(ms), BashStringEscape(yaml)))
  }

  /** A pinned version names the util image and bin-utils file; without one, `alpha` and `latest` are used. */
  lemma ManifestVersions(id: string, yaml: string, minors: Result<seq<string>>, kurlUrl: string, replicatedAppUrl: string,
                         distUrl: string, fallbackUrl: string, kurlVersion: string)
    requires minors.Success?
    ensures var m := ManifestFrom(id, yaml, minors, kurlUrl, replicatedAppUrl, distUrl, fallbackUrl, kurlVersion).value;
      && (kurlVersion != "" ==> m.kurlUtilImage == "replicated/kurl-util:" + kurlVersion
                                && m.kurlBinUtilsFile == "kurl-bin-utils-" + kurlVersion + ".tar.gz")
      && (kurlVersion == "" ==> m.kurlUtilImage == "replicated/kurl-util:alpha"
                                && m.kurlBinUtilsFile == "kurl-bin-utils-latest.tar.gz")
  {
    assert "replicated/kurl-util:" + "alpha" == "replicated/kurl-util:alpha";
    assert "kurl-bin-utils-" + "latest" + ".tar.gz" == "kurl-bin-utils-latest.tar.gz";
  }

  /** The bin-utils file the script downloads is the bin-utils package that `packages()` lists for the same version. */
  lemma ManifestBinUtilsIsPackage(id: string, yaml: string, minors: Result<seq<string>>, kurlUrl: string, replicatedAppUrl: string,
                                  distUrl: string, fallbackUrl: string, kurlVersion: string, spec: Entries)
    requires minors.Success?
    ensures var m := ManifestFrom(id, yaml, minors, kurlUrl, replicatedAppUrl, distUrl, fallbackUrl, kurlVersion).value;
      exists p :: p in Render.BasePackages(spec, kurlVersion) && m.kurlBinUtilsFile == p + ".tar.gz"
  {
    var base := Render.BasePackages(spec, kurlVersion);
    assert base[1] == base[..3][1] == Render.BinUtils(kurlVersion);
    assert base[1] in base;
  }

  /**
   * The script reads the installer YAML back as it was, with a backslash kept before each `!`,
   * whenever the YAML has no `$` or backtick; the upgrade steps form one parenthesised list.
   */
  lemma ManifestReadsBack(id: string, yaml: string, minors: Result<seq<string>>, kurlUrl: string, replicatedAppUrl: string,
                          distUrl: string, fallbackUrl: string, kurlVersion: string)
    requires minors.Success?
    ensures var m := ManifestFrom(id, yaml, minors, kurlUrl, replicatedAppUrl, distUrl, fallbackUrl, kurlVersion).value;
      && ((forall i :: 0 <= i < |yaml| ==> yaml[i] != '$' && yaml[i] != '`') ==>
            DoubleQuotedRead(m.installerYaml) == Some(BangEscaped(yaml)))
      && m.stepVersions[0] == '(' && m.stepVersions[|m.stepVersions| - 1] == ')'
      && m.installerId == id && m.kurlVersion == kurlVersion
  {
    if forall i :: 0 <= i < |yaml| ==> yaml[i] != '$' && yaml[i] != '`' {
      EscapeReadBack(yaml);
    }
  }

  /** A throwing step computation is the only way the manifest fails. */
  lemma ManifestFails(id: string, yaml: string, minors: Result<seq<string>>, kurlUrl: string, replicatedAppUrl: string,
                      distUrl: string, fallbackUrl: string, kurlVersion: string)
    ensures ManifestFrom(id, yaml, minors, kurlUrl, replicatedAppUrl, distUrl, fallbackUrl, kurlVersion).Failure? <==> minors.Failure?
  {
  }

  /** The list of Kubernetes versions of a catalog, `None` when the catalog has none. */
  function KubernetesVersions(catalog: Versions.Catalog): Option<seq<string>>
  {
    if "kubernetes" in catalog then Some(catalog["kubernetes"]) else None
  }

  /**
   * `manifestFromInstaller`: a pinned kURL version is written into the installer first, so it
   * stays written even when computing the upgrade steps then throws. `latestMinors` is called
   * without an add-on name, so no version surrogates apply; `dump` is `yaml.dump`.
   */
  method ManifestFromInstaller(i: Installers.Installer, kurlUrl: string, replicatedAppUrl: string, catalog: Versions.Catalog,
                               distUrl: string, fallbackUrl: string, kurlVersion: string, dump: Value -> string)
    returns (m: Result<Manifest>)
    modifies i
    ensures i.spec == Normalize.SetKurlVersion(old(i.spec), kurlVersion) && i.id == old(i.id)
    ensures m == ManifestFrom(i.id, dump(i.Object()),
                              Versions.LatestMinors(KubernetesVersions(catalog), "undefined"),
                              kurlUrl, replicatedAppUrl, distUrl, fallbackUrl, kurlVersion)
  {
    if kurlVersion != "" {
      i.SetKurlVersion(kurlVersion);
    }
    var minors := Versions.LatestMinorsInPlace(KubernetesVersions(catalog), "undefined");
    m := Assemble(i, kurlUrl, replicatedAppUrl, minors, distUrl, fallbackUrl, kurlVersion, dump);
  }

  /** The returned object of `manifestFromInstaller`, once the version is set and the upgrade steps are known. */
  method Assemble(i: Installers.Installer, kurlUrl: string, replicatedAppUrl: string, minors: Result<seq<string>>,
                  distUrl: string, fallbackUrl: string, kurlVersion: string, dump: Value -> string)
    returns (m: Result<Manifest>)
    ensures m == ManifestFrom(i.id, dump(i.Object()),
                              minors, kurlUrl, replicatedAppUrl, distUrl, fallbackUrl, kurlVersion)
  {
    var kurlUtilImage := "replicated/kurl-util:alpha";
    var kurlBinUtils := "kurl-bin-utils-latest.tar.gz";
    if kurlVersion != "" {
      kurlUtilImage := "replicated/kurl-util:" + kurlVersion;
      kurlBinUtils := "kurl-bin-utils-" + kurlVersion + ".tar.gz";
    } else {
      assert "replicated/kurl-util:" + "alpha" == kurlUtilImage;
      assert "kurl-bin-utils-" + "latest" + ".tar.gz" == kurlBinUtils;
    }
    if minors.Failure? {
      return Failure(minors.error);
    }
    var obj := i.ToObject();
    m := Success(Manifest(kurlUrl, distUrl, fallbackUrl, i.id, kurlVersion, replicatedAppUrl, kurlUtilImage, kurlBinUtils,
                          StepVersions(minors.value), BashStringEscape(dump(obj))));
  }
}
