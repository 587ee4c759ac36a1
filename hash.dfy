/**
 * The content id of an installer (`Installer.hash` in src/installers/index.ts): the
 * strings fed to SHA-256, in order, and the first seven hex digits of the digest.
 * The legacy `config_field=value` pairs come first in a fixed order so that ids minted
 * before other fields existed stay the same; every other field follows, sorted.
 * SHA-256 and `object-hash` are parameters.
 */
module Hash {
  import opened Wrappers
  import opened Text
  import opened Json

  /** `fs` applied to each element, the results concatenated; defined from the end so that a loop can extend it. */
  function ConcatMap<T>(f: T -> seq<string>, s: seq<T>): seq<string>
  {
    if |s| == 0 then [] else ConcatMap(f, s[..|s| - 1]) + f(s[|s| - 1])
  }

  /** One more element extends the concatenation by its own strings. */
  lemma ConcatMapSnoc<T>(f: T -> seq<string>, s: seq<T>, n: nat)
    requires n < |s|
    ensures ConcatMap(f, s[..n + 1]) == ConcatMap(f, s[..n]) + f(s[n])
  {
    assert s[..n + 1][..n] == s[..n];
  }

  /** Concatenation distributes over `+`. */
  lemma {:induction false} ConcatMapAppend<T>(f: T -> seq<string>, a: seq<T>, b: seq<T>)
    ensures ConcatMap(f, a + b) == ConcatMap(f, a) + ConcatMap(f, b)
    decreases |b|
  {
    if |b| > 0 {
      assert (a + b)[..|a + b| - 1] == a + b[..|b| - 1];
      ConcatMapAppend(f, a, b[..|b| - 1]);
    } else {
      assert a + b == a;
    }
  }

  /** Taking out the element at `i` takes one copy of it out of the multiset. */
  lemma MultisetWithout<T>(b: seq<T>, i: nat)
    requires i < |b|
    ensures multiset(b) == multiset(b[..i] + b[i + 1..]) + multiset{b[i]}
  {
    assert b == b[..i] + [b[i]] + b[i + 1..];
  }

  /** Adding the same element to two multisets keeps them apart or equal. */
  lemma MultisetCancel<T>(m1: multiset<T>, m2: multiset<T>, x: T)
    requires m1 + multiset{x} == m2 + multiset{x}
    ensures m1 == m2
  {
    forall y ensures m1[y] == m2[y] {
      assert (m1 + multiset{x})[y] == (m2 + multiset{x})[y];
    }
  }

  /** A single element contributes its own strings. */
  lemma ConcatMapSingle<T>(f: T -> seq<string>, x: T)
    ensures ConcatMap(f, [x]) == f(x)
  {
    assert [x][..0] == [];
  }

  /** The strings of an element sit between those of the elements before and after it. */
  lemma ConcatMapMiddle<T>(f: T -> seq<string>, left: seq<T>, x: T, right: seq<T>)
    ensures ConcatMap(f, left + [x] + right) == ConcatMap(f, left) + f(x) + ConcatMap(f, right)
  {
    ConcatMapAppend(f, left + [x], right);
    ConcatMapAppend(f, left, [x]);
    ConcatMapSingle(f, x);
  }

  /** Reordering the elements only reorders the concatenated strings. */
  lemma {:induction false} ConcatMapPermutation<T>(f: T -> seq<string>, a: seq<T>, b: seq<T>)
    requires multiset(a) == multiset(b)
    ensures multiset(ConcatMap(f, a)) == multiset(ConcatMap(f, b))
    decreases |a|
  {
    assert |a| == |multiset(a)| == |multiset(b)| == |b|;
    if |a| > 0 {
      var x := a[|a| - 1];
      var a' := a[..|a| - 1];
      assert a == a' + [x];
      assert x in multiset(b);
      var i :| 0 <= i < |b| && b[i] == x;
      var b' := b[..i] + b[i + 1..];
      MultisetWithout(b, i);
      assert multiset(a) == multiset(a') + multiset{x};
      MultisetCancel(multiset(a'), multiset(b'), x);
      ConcatMapPermutation(f, a', b');
      assert b == b[..i] + [x] + b[i + 1..];
      ConcatMapMiddle(f, b[..i], x, b[i + 1..]);
      ConcatMapAppend(f, b[..i], b[i + 1..]);
      assert ConcatMap(f, a) == ConcatMap(f, a') + f(x);
    }
  }

  /** The legacy pairs, in the order they are fed. */
  const LegacyFields: seq<(string, string)> := [
    ("kubernetes", "version"), ("weave", "version"), ("rook", "version"), ("contour", "version"),
    ("registry", "version"), ("prometheus", "version"), ("kotsadm", "version"), ("kotsadm", "applicationSlug")
  ]

  /** `config_field`, the key a field is hashed under. */
  function FieldKey(config: string, field: string): string
  {
    config + "_" + field
  }

  /**
   * The keys the `legacy` lookup object answers truthily: the eight legacy pairs, and the
   * underscore-bearing names every object inherits.
   */
  predicate IsLegacyKey(key: string)
  {
    || key in ["kubernetes_version", "weave_version", "rook_version", "contour_version",
               "registry_version", "prometheus_version", "kotsadm_version", "kotsadm_applicationSlug"]
    || key in ["__proto__", "__defineGetter__", "__defineSetter__", "__lookupGetter__", "__lookupSetter__"]
  }

  /** The legacy updates: each truthy legacy pair as `config_field=value`, in the fixed order. */
  function LegacyUpdates(spec: Entries, pairs: seq<(string, string)>): (r: seq<string>)
    ensures |r| <= |pairs|
  {
    if |pairs| == 0 then []
    else
      var (config, field) := pairs[0];
      var rest := LegacyUpdates(spec, pairs[1..]);
      if TruthyOpt(Field(spec, config, field))
      then [FieldKey(config, field) + "=" + ToJsString(Field(spec, config, field).value)] + rest
      else rest
  }

  /** How a field's value is written: objects and arrays through `object-hash`, anything else as `${val}`. */
  function Rendered(v: Value, objectHash: Value -> string): string
  {
    if v.Obj? || v.Arr? then objectHash(v) else ToJsString(v)
  }

  /** The update for one field of one add-on: nothing for a legacy key. */
  function FieldUpdate(config: string, member: (string, Value), objectHash: Value -> string): seq<string>
  {
    var key := FieldKey(config, member.0);
    if IsLegacyKey(key) then [] else [key + "=" + Rendered(member.1, objectHash)]
  }

  /** The updates for one add-on block, in the order `_.keys` gives its fields. */
  function BlockFields(config: string, block: Value, objectHash: Value -> string): seq<string>
  {
    ConcatMap((m: (string, Value)) => FieldUpdate(config, m, objectHash), Members(block))
  }

  /** The unsorted `fields` list for a whole spec. */
  function SpecFields(spec: Entries, objectHash: Value -> string): seq<string>
  {
    ConcatMap((e: (string, Value)) => BlockFields(e.0, e.1, objectHash), spec)
  }

  /** Everything fed to the hasher, in order. */
  function HashUpdates(spec: Entries, objectHash: Value -> string): seq<string>
  {
    LegacyUpdates(spec, LegacyFields) + Sort(SpecFields(spec, objectHash))
  }

  /** Successive `update` calls hash the concatenation of their inputs. */
  function Concat(parts: seq<string>): string
  {
    if |parts| == 0 then "" else parts[0] + Concat(parts[1..])
  }

  predicate IsLowerHex(c: char) { '0' <= c <= '9' || 'a' <= c <= 'f' }

  /** `/^[0-9a-f]{7}$/`: what an installer id minted by `hash` looks like. */
  predicate IsSHA(id: string)
  {
    |id| == 7 && forall i :: 0 <= i < 7 ==> IsLowerHex(id[i])
  }

  /** A hex SHA-256 digest: 64 lowercase hex digits. */
  predicate IsHexDigest(d: string)
  {
    |d| == 64 && forall i :: 0 <= i < |d| ==> IsLowerHex(d[i])
  }

  /** `h.digest("hex").substring(0, 7)`. */
  function HashId(spec: Entries, sha256Hex: string -> string, objectHash: Value -> string): (id: string)
    ensures IsHexDigest(sha256Hex(Concat(HashUpdates(spec, objectHash)))) ==> IsSHA(id)
    ensures |id| <= 7
  {
    var d := sha256Hex(Concat(HashUpdates(spec, objectHash)));
    if |d| >= 7 then d[..7] else d
  }

  /** With distinct keys, a reordering of the entries reads every key the same. */
  lemma LookupPermutation(a: Entries, b: Entries, k: string)
    requires DistinctKeys(a) && DistinctKeys(b) && multiset(a) == multiset(b)
    ensures Lookup(a, k) == Lookup(b, k)
  {
    LookupKeys(a, k);
    LookupKeys(b, k);
    if Lookup(a, k).Some? {
      var i :| 0 <= i < |a| && a[i] == (k, Lookup(a, k).value);
      assert a[i] in multiset(b);
      LookupDistinct(b, a[i]);
    }
    if Lookup(b, k).Some? {
      var i :| 0 <= i < |b| && b[i] == (k, Lookup(b, k).value);
      assert b[i] in multiset(a);
      LookupDistinct(a, b[i]);
    }
  }

  /** In an object with distinct keys, an entry's key reads as its value. */
  lemma LookupDistinct(e: Entries, x: (string, Value))
    requires DistinctKeys(e) && x in e
    ensures Lookup(e, x.0) == Some(x.1)
  {
    var j :| 0 <= j < |e| && e[j] == x;
    LookupAt(e, j);
  }

  /** In an object with distinct keys, the key at position `j` reads as the value there. */
  lemma {:induction false} LookupAt(e: Entries, j: nat)
    requires DistinctKeys(e) && j < |e|
    ensures Lookup(e, e[j].0) == Some(e[j].1)
  {
    if j > 0 {
      LookupAt(e[1..], j - 1);
    }
  }

  /** The legacy updates read the spec only through `config.field` reads. */
  lemma {:induction false} LegacyUpdatesSameFields(a: Entries, b: Entries, pairs: seq<(string, string)>)
    requires forall k, f :: Field(a, k, f) == Field(b, k, f)
    ensures LegacyUpdates(a, pairs) == LegacyUpdates(b, pairs)
  {
    if |pairs| > 0 {
      LegacyUpdatesSameFields(a, b, pairs[1..]);
      assert Field(a, pairs[0].0, pairs[0].1) == Field(b, pairs[0].0, pairs[0].1);
    }
  }

  /** The id does not depend on the order of the add-ons in the spec. */
  lemma HashIgnoresAddonOrder(a: Entries, b: Entries, objectHash: Value -> string)
    requires DistinctKeys(a) && DistinctKeys(b) && multiset(a) == multiset(b)
    ensures HashUpdates(a, objectHash) == HashUpdates(b, objectHash)
  {
    forall k, f ensures Field(a, k, f) == Field(b, k, f) {
      LookupPermutation(a, b, k);
    }
    LegacyUpdatesSameFields(a, b, LegacyFields);
    ConcatMapPermutation((e: (string, Value)) => BlockFields(e.0, e.1, objectHash), a, b);
    SortPermutationInvariant(SpecFields(a, objectHash), SpecFields(b, objectHash));
  }

  /** Reordering the fields of one block reads every field the same. */
  lemma SpliceSameFields(p: Entries, q: Entries, config: string, e1: Entries, e2: Entries, k: string, f: string)
    requires DistinctKeys(e1) && DistinctKeys(e2) && multiset(e1) == multiset(e2)
    ensures Field(p + [(config, Obj(e1))] + q, k, f) == Field(p + [(config, Obj(e2))] + q, k, f)
  {
    LookupConcat(p, [(config, Obj(e1))] + q, k);
    LookupConcat(p, [(config, Obj(e2))] + q, k);
    assert p + [(config, Obj(e1))] + q == p + ([(config, Obj(e1))] + q);
    assert p + [(config, Obj(e2))] + q == p + ([(config, Obj(e2))] + q);
    LookupPermutation(e1, e2, f);
  }

  /** Reordering the fields of one block only reorders the unsorted field list. */
  lemma SpliceSpecFields(p: Entries, q: Entries, config: string, e1: Entries, e2: Entries, objectHash: Value -> string)
    requires multiset(e1) == multiset(e2)
    ensures multiset(SpecFields(p + [(config, Obj(e1))] + q, objectHash)) == multiset(SpecFields(p + [(config, Obj(e2))] + q, objectHash))
  {
    var g := (e: (string, Value)) => BlockFields(e.0, e.1, objectHash);
    ConcatMapAppend(g, p + [(config, Obj(e1))], q);
    ConcatMapAppend(g, p, [(config, Obj(e1))]);
    ConcatMapAppend(g, p + [(config, Obj(e2))], q);
    ConcatMapAppend(g, p, [(config, Obj(e2))]);
    assert [(config, Obj(e1))][..0] == [] && [(config, Obj(e2))][..0] == [];
    ConcatMapPermutation((m: (string, Value)) => FieldUpdate(config, m, objectHash), e1, e2);
  }

  /** The id does not depend on the order of the fields inside one add-on block. */
  lemma HashIgnoresFieldOrder(p: Entries, q: Entries, config: string, e1: Entries, e2: Entries, objectHash: Value -> string)
    requires DistinctKeys(e1) && DistinctKeys(e2) && multiset(e1) == multiset(e2)
    ensures HashUpdates(p + [(config, Obj(e1))] + q, objectHash) == HashUpdates(p + [(config, Obj(e2))] + q, objectHash)
  {
    var a := p + [(config, Obj(e1))] + q;
    var b := p + [(config, Obj(e2))] + q;
    forall k, f ensures Field(a, k, f) == Field(b, k, f) {
      SpliceSameFields(p, q, config, e1, e2, k, f);
    }
    LegacyUpdatesSameFields(a, b, LegacyFields);
    SpliceSpecFields(p, q, config, e1, e2, objectHash);
    SortPermutationInvariant(SpecFields(a, objectHash), SpecFields(b, objectHash));
  }
}
