/**
 * Semantic versions as the `semver` package parses and orders them.
 *
 * Parsing follows sections 2, 9 and 10 of Semantic Versioning 2.0.0 with the package's
 * additions: an optional leading `v`, surrounding white space trimmed, a 256-character
 * limit and the main numbers bounded by `Number.MAX_SAFE_INTEGER`. Ordering is the
 * precedence of section 11: build metadata is ignored.
 */
module SemVer {
  import opened Wrappers
  import opened Text

  /** A pre-release identifier: numeric ones compare as numbers, the others as text. */
  datatype Ident = NumId(n: nat) | AlnumId(s: string)

  datatype Version = Version(major: nat, minor: nat, patch: nat, pre: seq<Ident>, build: seq<string>)

  const MaxLength: nat := 256
  const MaxSafeInteger: nat := 9007199254740991

  predicate IsIdentChar(c: char) { IsDigit(c) || IsLetter(c) || c == '-' }

  predicate AllIdentChars(s: string) { forall i :: 0 <= i < |s| ==> IsIdentChar(s[i]) }

  /** `0|[1-9]\d*`: a number without leading zeros. */
  predicate IsNumericIdent(s: string)
  {
    |s| >= 1 && AllDigits(s) && (s[0] == '0' ==> |s| == 1)
  }

  /** The number rule of the loose grammar, `\d+`, allows leading zeros. */
  predicate IsNumericIdentFor(s: string, loose: bool)
  {
    if loose then |s| >= 1 && AllDigits(s) else IsNumericIdent(s)
  }

  /** `\d*[a-zA-Z-][a-zA-Z0-9-]*`: identifier characters, at least one of them not a digit. */
  predicate IsAlnumIdent(s: string)
  {
    |s| >= 1 && AllIdentChars(s) && !AllDigits(s)
  }

  predicate IsPreIdent(s: string, loose: bool)
  {
    IsNumericIdentFor(s, loose) || IsAlnumIdent(s)
  }

  /** `[0-9A-Za-z-]+`. */
  predicate IsBuildIdent(s: string)
  {
    |s| >= 1 && AllIdentChars(s)
  }

  /** A pre-release identifier made of digits only is stored as a number. */
  function ParseIdent(s: string): (id: Ident)
    requires AllDigits(s) || IsAlnumIdent(s)
    ensures id.NumId? <==> AllDigits(s)
    ensures id.AlnumId? ==> id.s == s
  {
    if AllDigits(s) then NumId(DigitsValue(s)) else AlnumId(s)
  }

  /** `MAJOR.MINOR.PATCH`. */
  function ParseMain(s: string, loose: bool): (r: Option<(nat, nat, nat)>)
    ensures r.Some? <==>
      var parts := Split(s, '.');
      |parts| == 3 && forall i :: 0 <= i < 3 ==> IsNumericIdentFor(parts[i], loose)
  {
    var parts := Split(s, '.');
    if |parts| == 3 && forall i :: 0 <= i < 3 ==> IsNumericIdentFor(parts[i], loose) then
      Some((DigitsValue(parts[0]), DigitsValue(parts[1]), DigitsValue(parts[2])))
    else None
  }

  function ParsePre(s: string, loose: bool): (r: Option<seq<Ident>>)
    ensures r.Some? ==> |r.value| == |Split(s, '.')| >= 1
  {
    var ids := Split(s, '.');
    if forall i :: 0 <= i < |ids| ==> IsPreIdent(ids[i], loose) then
      Some(seq(|ids|, i requires 0 <= i < |ids| && IsPreIdent(ids[i], loose) => ParseIdent(ids[i])))
    else None
  }

  function ParseBuild(s: string): (r: Option<seq<string>>)
    ensures r.Some? ==> r.value == Split(s, '.')
  {
    var ids := Split(s, '.');
    if forall i :: 0 <= i < |ids| ==> IsBuildIdent(ids[i]) then Some(ids) else None
  }

  /**
   * Cuts `MAIN(-PRE)?(+BUILD)?` into its parts. Build metadata starts at the first `+` (no
   * pre-release identifier holds one) and the pre-release at the first `-` before it (no main
   * number holds one).
   */
  function SplitBody(body: string): (string, Option<string>, Option<string>)
  {
    var (rest, build) := SplitAt(body, '+');
    var (main, pre) := SplitAt(rest, '-');
    (main, pre, build)
  }

  function ParseParts(main: string, pre: Option<string>, build: Option<string>, loose: bool): Option<Version>
  {
    match ParseMain(main, loose)
    case None => None
    case Some(nums) =>
      var preIds := if pre.None? then Some([]) else ParsePre(pre.value, loose);
      var buildIds := if build.None? then Some([]) else ParseBuild(build.value);
      if preIds.None? || buildIds.None? then None
      else Some(Version(nums.0, nums.1, nums.2, preIds.value, buildIds.value))
  }

  /** The whole text must match `MAIN(-PRE)?(+BUILD)?`. */
  function ParseBody(body: string, loose: bool): Option<Version>
  {
    var (main, pre, build) := SplitBody(body);
    ParseParts(main, pre, build, loose)
  }

  function Assemble(main: string, pre: Option<string>, build: Option<string>): string
  {
    main + (if pre.Some? then "-" + pre.value else "") + (if build.Some? then "+" + build.value else "")
  }

  /** Cutting a text assembled from parts gives the parts back. */
  lemma SplitAssembled(main: string, pre: Option<string>, build: Option<string>)
    requires '-' !in main && '+' !in main
    requires pre.Some? ==> '+' !in pre.value
    ensures SplitBody(Assemble(main, pre, build)) == (main, pre, build)
  {
    var rest := main + (if pre.Some? then "-" + pre.value else "");
    if pre.Some? {
      NotInJoined(main, '-', pre.value, '+');
      assert rest == main + ['-'] + pre.value;
      SplitAtFirst(main, '-', pre.value);
    } else {
      assert rest == main;
      SplitAtAbsent(main, '-');
    }
    assert '+' !in rest;
    if build.Some? {
      assert Assemble(main, pre, build) == rest + ['+'] + build.value;
      SplitAtFirst(rest, '+', build.value);
    } else {
      assert Assemble(main, pre, build) == rest;
      SplitAtAbsent(rest, '+');
    }
  }

  /** The loose grammar skips any run of `v`, `=` and white space in front of the version. */
  function StripLoosePrefix(s: string): (r: string)
    ensures |r| <= |s|
  {
    if |s| > 0 && (s[0] == 'v' || s[0] == '=' || IsJsWhitespace(s[0])) then StripLoosePrefix(s[1..]) else s
  }

  /** `new SemVer(s, loose)`: the parsed version, or the message of the `TypeError` it throws. */
  function Parse(s: string, loose: bool): (r: Result<Version>)
    ensures r.Success? ==> |s| <= MaxLength
    ensures r.Success? ==> r.value.major <= MaxSafeInteger && r.value.minor <= MaxSafeInteger && r.value.patch <= MaxSafeInteger
    ensures r.Failure? && |s| <= MaxLength && ParseBody(Body(s, loose), loose).None? ==> r.error == "Invalid Version: " + s
  {
    if |s| > MaxLength then Failure("version is longer than 256 characters")
    else match ParseBody(Body(s, loose), loose)
      case None => Failure("Invalid Version: " + s)
      case Some(v) =>
        if v.major > MaxSafeInteger then Failure("Invalid major version")
        else if v.minor > MaxSafeInteger then Failure("Invalid minor version")
        else if v.patch > MaxSafeInteger then Failure("Invalid patch version")
        else Success(v)
  }

  /** What the grammar matches: the trimmed text, without its leading `v` (strict) or `[v=\s]*` (loose). */
  function Body(s: string, loose: bool): string
  {
    var t := Trim(s);
    if loose then StripLoosePrefix(t) else if |t| > 0 && t[0] == 'v' then t[1..] else t
  }

  /** `semver.valid(s)` is non-null. */
  predicate Valid(s: string)
  {
    Parse(s, false).Success?
  }

  // ---------------------------------------------------------------- precedence

  function CompareNat(a: nat, b: nat): (c: int)
    ensures c == 0 <==> a == b
    ensures c < 0 <==> a < b
    ensures -1 <= c <= 1
  {
    if a < b then -1 else if a > b then 1 else 0
  }

  /** Numeric identifiers sort before alphanumeric ones; alphanumeric ones compare by character codes. */
  function CompareIdent(a: Ident, b: Ident): (c: int)
    ensures -1 <= c <= 1
  {
    match (a, b)
    case (NumId(x), NumId(y)) => CompareNat(x, y)
    case (NumId(_), AlnumId(_)) => -1
    case (AlnumId(_), NumId(_)) => 1
    case (AlnumId(x), AlnumId(y)) => if x == y then 0 else if LexLess(x, y) then -1 else 1
  }

  /** Identifier by identifier; when one list is a prefix of the other the shorter one is lower. */
  function ComparePreIds(a: seq<Ident>, b: seq<Ident>): (c: int)
    ensures -1 <= c <= 1
  {
    if |a| == 0 && |b| == 0 then 0
    else if |b| == 0 then 1
    else if |a| == 0 then -1
    else
      var c := CompareIdent(a[0], b[0]);
      if c != 0 then c else ComparePreIds(a[1..], b[1..])
  }

  /** A version without a pre-release has higher precedence than one with. */
  function ComparePre(a: seq<Ident>, b: seq<Ident>): (c: int)
    ensures -1 <= c <= 1
  {
    if |a| == 0 && |b| == 0 then 0
    else if |a| == 0 then 1
    else if |b| == 0 then -1
    else ComparePreIds(a, b)
  }

  /** `a.compare(b)`: major, minor and patch numerically, then the pre-release; build metadata is ignored. */
  function Compare(a: Version, b: Version): (c: int)
    ensures -1 <= c <= 1
  {
    var m := CompareNat(a.major, b.major);
    if m != 0 then m
    else
      var n := CompareNat(a.minor, b.minor);
      if n != 0 then n
      else
        var p := CompareNat(a.patch, b.patch);
        if p != 0 then p else ComparePre(a.pre, b.pre)
  }

  /** Two versions have the same precedence exactly when they differ at most in build metadata. */
  predicate SamePrecedence(a: Version, b: Version)
  {
    a.major == b.major && a.minor == b.minor && a.patch == b.patch && a.pre == b.pre
  }

  lemma CompareIdentAntisymmetric(a: Ident, b: Ident)
    ensures CompareIdent(a, b) == -CompareIdent(b, a)
    ensures CompareIdent(a, b) == 0 <==> a == b
  {
    if a.AlnumId? && b.AlnumId? && a != b {
      LexTrichotomy(a.s, b.s);
      if LexLess(a.s, b.s) { LexLessAsymmetric(a.s, b.s); }
    }
  }

  lemma {:induction false} ComparePreIdsAntisymmetric(a: seq<Ident>, b: seq<Ident>)
    ensures ComparePreIds(a, b) == -ComparePreIds(b, a)
    ensures ComparePreIds(a, b) == 0 <==> a == b
  {
    if |a| > 0 && |b| > 0 {
      CompareIdentAntisymmetric(a[0], b[0]);
      ComparePreIdsAntisymmetric(a[1..], b[1..]);
      if a[0] == b[0] && a[1..] == b[1..] {
        assert a == [a[0]] + a[1..] && b == [b[0]] + b[1..];
      }
    }
  }

  /** Swapping the arguments negates the result, and 0 means the same precedence. */
  lemma CompareAntisymmetric(a: Version, b: Version)
    ensures Compare(a, b) == -Compare(b, a)
    ensures Compare(a, b) == 0 <==> SamePrecedence(a, b)
  {
    if |a.pre| > 0 && |b.pre| > 0 {
      ComparePreIdsAntisymmetric(a.pre, b.pre);
    }
  }

  lemma CompareIdentTransitive(a: Ident, b: Ident, c: Ident)
    requires CompareIdent(a, b) < 0 && CompareIdent(b, c) < 0
    ensures CompareIdent(a, c) < 0
  {
    if a.AlnumId? && c.AlnumId? {
      LexLessTransitive(a.s, b.s, c.s);
      if a.s == c.s { LexLessIrreflexive(a.s); }
    }
  }

  lemma {:induction false} ComparePreIdsTransitive(a: seq<Ident>, b: seq<Ident>, c: seq<Ident>)
    requires ComparePreIds(a, b) < 0 && ComparePreIds(b, c) < 0
    ensures ComparePreIds(a, c) < 0
  {
    if |a| > 0 && |c| > 0 {
      CompareIdentAntisymmetric(a[0], b[0]);
      CompareIdentAntisymmetric(b[0], c[0]);
      CompareIdentAntisymmetric(a[0], c[0]);
      if CompareIdent(a[0], b[0]) < 0 && CompareIdent(b[0], c[0]) < 0 {
        CompareIdentTransitive(a[0], b[0], c[0]);
      } else if CompareIdent(a[0], b[0]) == 0 && CompareIdent(b[0], c[0]) == 0 {
        ComparePreIdsTransitive(a[1..], b[1..], c[1..]);
      }
    }
  }

  /** Precedence is transitive. */
  lemma CompareTransitive(a: Version, b: Version, c: Version)
    requires Compare(a, b) < 0 && Compare(b, c) < 0
    ensures Compare(a, c) < 0
  {
    if SamePrecedence(a, b) || SamePrecedence(b, c) {
      CompareAntisymmetric(a, b);
      CompareAntisymmetric(b, c);
    } else if a.major == c.major && a.minor == c.minor && a.patch == c.patch {
      if |a.pre| > 0 && |b.pre| > 0 && |c.pre| > 0 {
        ComparePreIdsTransitive(a.pre, b.pre, c.pre);
      }
    }
  }

  /** Precedence is a total preorder: `<=` chains, and stays strict when either step is. */
  lemma CompareLeTransitive(a: Version, b: Version, c: Version)
    requires Compare(a, b) <= 0 && Compare(b, c) <= 0
    ensures Compare(a, c) <= 0
    ensures Compare(a, b) < 0 || Compare(b, c) < 0 ==> Compare(a, c) < 0
  {
    CompareAntisymmetric(a, b);
    CompareAntisymmetric(b, c);
    if Compare(a, b) < 0 && Compare(b, c) < 0 {
      CompareTransitive(a, b, c);
    }
  }

  /** `semver.compare(a, b, loose)`: both arguments are parsed, the left one first. */
  function CompareStrings(a: string, b: string, loose: bool): (r: Result<int>)
    ensures r.Success? <==> Parse(a, loose).Success? && Parse(b, loose).Success?
    ensures r.Success? ==> r.value == Compare(Parse(a, loose).value, Parse(b, loose).value)
  {
    match Parse(a, loose)
    case Failure(e) => Failure(e)
    case Success(va) =>
      match Parse(b, loose)
      case Failure(e) => Failure(e)
      case Success(vb) => Success(Compare(va, vb))
  }

  function Gt(a: string, b: string, loose: bool): Result<bool>
  {
    match CompareStrings(a, b, loose)
    case Failure(e) => Failure(e)
    case Success(c) => Success(c > 0)
  }

  function Gte(a: string, b: string, loose: bool): Result<bool>
  {
    match CompareStrings(a, b, loose)
    case Failure(e) => Failure(e)
    case Success(c) => Success(c >= 0)
  }

  function Lt(a: string, b: string, loose: bool): Result<bool>
  {
    match CompareStrings(a, b, loose)
    case Failure(e) => Failure(e)
    case Success(c) => Success(c < 0)
  }

  function Lte(a: string, b: string, loose: bool): Result<bool>
  {
    match CompareStrings(a, b, loose)
    case Failure(e) => Failure(e)
    case Success(c) => Success(c <= 0)
  }

  /** No version is greater than itself. */
  lemma GtIrreflexive(a: string, b: string)
    requires Gt(a, b, false).Success?
    ensures Gt(a, a, false) == Success(false)
  {
    CompareAntisymmetric(Parse(a, false).value, Parse(a, false).value);
  }

  /** Below-or-equal followed by strictly above: `a <= b < c` gives `a < c`. */
  lemma GtChain(a: string, b: string, c: string)
    requires Gt(a, b, false) == Success(false) && Gt(c, b, false) == Success(true)
    ensures Gt(a, c, false) == Success(false)
  {
    var va, vb, vc := Parse(a, false).value, Parse(b, false).value, Parse(c, false).value;
    CompareAntisymmetric(vc, vb);
    CompareLeTransitive(va, vb, vc);
  }

  /** `semver.major(s)`. */
  function Major(s: string): (r: Result<nat>)
    ensures r.Success? <==> Valid(s)
  {
    match Parse(s, false)
    case Failure(e) => Failure(e)
    case Success(v) => Success(v.major)
  }

  /** `semver.minor(s)`. */
  function Minor(s: string): (r: Result<nat>)
    ensures r.Success? <==> Valid(s)
  {
    match Parse(s, false)
    case Failure(e) => Failure(e)
    case Success(v) => Success(v.minor)
  }

  // ---------------------------------------------------------------- formatting

  function IdentString(id: Ident): string
  {
    match id
    case NumId(n) => NatToString(n)
    case AlnumId(s) => s
  }

  function MainText(v: Version): string
  {
    Join([NatToString(v.major), NatToString(v.minor), NatToString(v.patch)], ".")
  }

  function PreStrings(v: Version): (r: seq<string>)
    ensures |r| == |v.pre|
  {
    seq(|v.pre|, i requires 0 <= i < |v.pre| => IdentString(v.pre[i]))
  }

  function PreText(v: Version): Option<string>
  {
    if v.pre == [] then None else Some(Join(PreStrings(v), "."))
  }

  function BuildText(v: Version): Option<string>
  {
    if v.build == [] then None else Some(Join(v.build, "."))
  }

  /** The text of a version: `MAJOR.MINOR.PATCH`, then `-PRE` and `+BUILD` when present. */
  function Format(v: Version): string
  {
    Assemble(MainText(v), PreText(v), BuildText(v))
  }

  /** The versions the strict grammar can produce. */
  predicate WellFormed(v: Version)
  {
    v.major <= MaxSafeInteger && v.minor <= MaxSafeInteger && v.patch <= MaxSafeInteger
    && (forall i :: 0 <= i < |v.pre| ==> v.pre[i].AlnumId? ==> IsAlnumIdent(v.pre[i].s))
    && (forall i :: 0 <= i < |v.build| ==> IsBuildIdent(v.build[i]))
  }

  lemma IdentStringParses(id: Ident)
    requires id.AlnumId? ==> IsAlnumIdent(id.s)
    ensures IsPreIdent(IdentString(id), false) && AllIdentChars(IdentString(id))
    ensures ParseIdent(IdentString(id)) == id
  {
    if id.NumId? {
      NatToStringRoundTrip(id.n);
    }
  }

  /** Three digit strings joined by dots split back into themselves and hold neither `-` nor `+`. */
  lemma DottedTriple(a: string, b: string, c: string)
    requires AllDigits(a) && AllDigits(b) && AllDigits(c) && |a| > 0 && |b| > 0 && |c| > 0
    ensures Split(Join([a, b, c], "."), '.') == [a, b, c]
    ensures '-' !in Join([a, b, c], ".") && '+' !in Join([a, b, c], ".")
    ensures IsDigit(Join([a, b, c], ".")[0]) && IsDigit(Join([a, b, c], ".")[|Join([a, b, c], ".")| - 1])
  {
    DigitsLackPunctuation(a);
    DigitsLackPunctuation(b);
    DigitsLackPunctuation(c);
    TripleSplits(a, b, c);
    TripleLacks(a, b, c);
    TripleEnds(a, b, c);
  }

  lemma TripleSplits(a: string, b: string, c: string)
    requires '.' !in a && '.' !in b && '.' !in c
    ensures Split(Join([a, b, c], "."), '.') == [a, b, c]
  {
    JoinSplit([a, b, c], '.');
  }

  lemma TripleLacks(a: string, b: string, c: string)
    requires '-' !in a && '-' !in b && '-' !in c && '+' !in a && '+' !in b && '+' !in c
    ensures '-' !in Join([a, b, c], ".") && '+' !in Join([a, b, c], ".")
  {
    JoinLacks([a, b, c], '.', '-');
    JoinLacks([a, b, c], '.', '+');
  }

  lemma TripleEnds(a: string, b: string, c: string)
    requires |a| > 0 && |b| > 0 && |c| > 0
    ensures |Join([a, b, c], ".")| > 0
    ensures Join([a, b, c], ".")[0] == a[0]
    ensures Join([a, b, c], ".")[|Join([a, b, c], ".")| - 1] == c[|c| - 1]
  {
    JoinLastChar([a, b, c], ".");
    assert [a, b, c][1..] == [b, c];
    assert Join([a, b, c], ".") == a + "." + Join([b, c], ".");
  }

  lemma DigitsLackPunctuation(s: string)
    requires AllDigits(s)
    ensures '.' !in s && '-' !in s && '+' !in s
  {
  }

  lemma IdentCharsLackPunctuation(s: string)
    requires AllIdentChars(s)
    ensures '.' !in s && '+' !in s
  {
  }

  /** The decimal text of a number is a numeric identifier that reads back as the number. */
  lemma NatTextIsNumericIdent(n: nat)
    ensures IsNumericIdent(NatToString(n)) && DigitsValue(NatToString(n)) == n
  {
    NatToStringRoundTrip(n);
  }

  /** The main part parses back, holds neither `-` nor `+`, and starts and ends with a digit. */
  lemma MainTextParses(v: Version)
    ensures ParseMain(MainText(v), false) == Some((v.major, v.minor, v.patch))
    ensures |MainText(v)| > 0 && IsDigit(MainText(v)[0]) && IsDigit(MainText(v)[|MainText(v)| - 1])
    ensures '-' !in MainText(v) && '+' !in MainText(v)
  {
    var a, b, c := NatToString(v.major), NatToString(v.minor), NatToString(v.patch);
    NatTextIsNumericIdent(v.major);
    NatTextIsNumericIdent(v.minor);
    NatTextIsNumericIdent(v.patch);
    DottedTriple(a, b, c);
    TripleParses(a, b, c);
  }

  /** Three numeric identifiers joined by dots parse as the numbers they spell. */
  lemma TripleParses(a: string, b: string, c: string)
    requires IsNumericIdent(a) && IsNumericIdent(b) && IsNumericIdent(c)
    requires Split(Join([a, b, c], "."), '.') == [a, b, c]
    ensures ParseMain(Join([a, b, c], "."), false) == Some((DigitsValue(a), DigitsValue(b), DigitsValue(c)))
  {
    var parts := [a, b, c];
    assert forall i :: 0 <= i < 3 ==> IsNumericIdentFor(parts[i], false);
  }

  /** Each pre-release identifier's text is valid, reads back as the identifier and holds no `.` or `+`. */
  lemma PreStringsParse(v: Version)
    requires WellFormed(v)
    ensures forall i :: 0 <= i < |v.pre| ==>
      IsPreIdent(PreStrings(v)[i], false) && ParseIdent(PreStrings(v)[i]) == v.pre[i]
      && '.' !in PreStrings(v)[i] && '+' !in PreStrings(v)[i]
      && |PreStrings(v)[i]| > 0 && IsIdentChar(PreStrings(v)[i][|PreStrings(v)[i]| - 1])
  {
    forall i | 0 <= i < |v.pre|
      ensures IsPreIdent(PreStrings(v)[i], false) && ParseIdent(PreStrings(v)[i]) == v.pre[i]
      ensures '.' !in PreStrings(v)[i] && '+' !in PreStrings(v)[i]
      ensures |PreStrings(v)[i]| > 0 && IsIdentChar(PreStrings(v)[i][|PreStrings(v)[i]| - 1])
    {
      var t := PreStrings(v)[i];
      IdentStringParses(v.pre[i]);
      IdentCharsLackPunctuation(t);
    }
  }

  /** Parsing identifier texts joined by dots gives the identifiers. */
  lemma ParsePreJoined(ids: seq<string>, pre: seq<Ident>)
    requires |ids| == |pre| >= 1
    requires forall i :: 0 <= i < |ids| ==> IsPreIdent(ids[i], false) && ParseIdent(ids[i]) == pre[i] && '.' !in ids[i]
    ensures ParsePre(Join(ids, "."), false) == Some(pre)
  {
    JoinSplit(ids, '.');
    var parsed := seq(|ids|, i requires 0 <= i < |ids| && IsPreIdent(ids[i], false) => ParseIdent(ids[i]));
    assert parsed == pre;
  }

  /** The pre-release part of a well-formed version parses back, holds no `+` and ends with an identifier character. */
  lemma PreTextParses(v: Version)
    requires WellFormed(v) && v.pre != []
    ensures ParsePre(Join(PreStrings(v), "."), false) == Some(v.pre)
    ensures |Join(PreStrings(v), ".")| > 0 && IsIdentChar(Join(PreStrings(v), ".")[|Join(PreStrings(v), ".")| - 1])
    ensures '+' !in Join(PreStrings(v), ".")
  {
    var preStrs := PreStrings(v);
    PreStringsParse(v);
    JoinLacks(preStrs, '.', '+');
    JoinLastChar(preStrs, ".");
    ParsePreJoined(preStrs, v.pre);
  }

  /** The build part of a well-formed version parses back and ends with an identifier character. */
  lemma BuildTextParses(v: Version)
    requires WellFormed(v) && v.build != []
    ensures ParseBuild(Join(v.build, ".")) == Some(v.build)
    ensures |Join(v.build, ".")| > 0 && IsIdentChar(Join(v.build, ".")[|Join(v.build, ".")| - 1])
  {
    forall i | 0 <= i < |v.build| ensures '.' !in v.build[i] {
      IdentCharsLackPunctuation(v.build[i]);
    }
    JoinSplit(v.build, '.');
    JoinLastChar(v.build, ".");
  }

  /** A text that starts with a digit and ends with an identifier character is matched whole by the strict grammar. */
  lemma BodyOfPlainText(s: string)
    requires |s| > 0 && IsDigit(s[0]) && IsIdentChar(s[|s| - 1])
    ensures Body(s, false) == s
  {
    TrimNoop(s);
  }

  /** Each part of the text of a well-formed version parses back to its part of the version. */
  lemma PartsParse(v: Version)
    requires WellFormed(v)
    ensures ParseParts(MainText(v), PreText(v), BuildText(v), false) == Some(v)
  {
    MainTextParses(v);
    if v.pre != [] { PreTextParses(v); }
    if v.build != [] { BuildTextParses(v); }
  }

  /** The text of a well-formed version is cut back into its parts, and the grammar sees all of it. */
  lemma FormatSplits(v: Version)
    requires WellFormed(v)
    ensures Body(Format(v), false) == Format(v)
    ensures SplitBody(Format(v)) == (MainText(v), PreText(v), BuildText(v))
  {
    var main, pre, build := MainText(v), PreText(v), BuildText(v);
    MainTextParses(v);
    if v.pre != [] { PreTextParses(v); }
    if v.build != [] { BuildTextParses(v); }
    var s := Assemble(main, pre, build);
    assert s[0] == main[0];
    LastCharOfAssembled(main, pre, build);
    BodyOfPlainText(s);
    SplitAssembled(main, pre, build);
  }

  /** What the grammar sees of the text of a well-formed version parses back to the version. */
  lemma FormatBodyParses(v: Version)
    requires WellFormed(v)
    ensures ParseBody(Body(Format(v), false), false) == Some(v)
  {
    FormatSplits(v);
    PartsParse(v);
  }

  /** Parsing the text of a well-formed version gives the version back. */
  lemma FormatParses(v: Version)
    requires WellFormed(v) && |Format(v)| <= MaxLength
    ensures Parse(Format(v), false) == Success(v)
  {
    FormatBodyParses(v);
    BodyParses(Format(v), v);
  }

  /** A text of allowed length whose body reads as a version within the safe-integer bounds parses as that version. */
  lemma BodyParses(s: string, v: Version)
    requires |s| <= MaxLength && ParseBody(Body(s, false), false) == Some(v)
    requires v.major <= MaxSafeInteger && v.minor <= MaxSafeInteger && v.patch <= MaxSafeInteger
    ensures Parse(s, false) == Success(v)
  {
  }

  lemma LastCharOfAssembled(main: string, pre: Option<string>, build: Option<string>)
    requires |main| > 0 && IsIdentChar(main[|main| - 1])
    requires pre.Some? ==> |pre.value| > 0 && IsIdentChar(pre.value[|pre.value| - 1])
    requires build.Some? ==> |build.value| > 0 && IsIdentChar(build.value[|build.value| - 1])
    ensures IsIdentChar(Assemble(main, pre, build)[|Assemble(main, pre, build)| - 1])
  {
  }

  /** The last character of a join of non-empty pieces is the last character of the last piece. */
  lemma {:induction false} JoinLastChar(parts: seq<string>, sep: string)
    requires |parts| >= 1 && forall i :: 0 <= i < |parts| ==> |parts[i]| >= 1
    ensures |Join(parts, sep)| >= 1
    ensures Join(parts, sep)[|Join(parts, sep)| - 1] == parts[|parts| - 1][|parts[|parts| - 1]| - 1]
    decreases |parts|
  {
    if |parts| > 1 {
      var rest := parts[1..];
      assert forall i :: 0 <= i < |rest| ==> |rest[i]| >= 1 by {
        forall i | 0 <= i < |rest| ensures |rest[i]| >= 1 { assert rest[i] == parts[i + 1]; }
      }
      JoinLastChar(rest, sep);
      var t := Join(rest, sep);
      assert Join(parts, sep) == parts[0] + sep + t;
      assert rest[|rest| - 1] == parts[|parts| - 1];
      assert (parts[0] + sep + t)[|parts[0] + sep + t| - 1] == t[|t| - 1];
    }
  }
}
