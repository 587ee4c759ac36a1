/**
 * The values an installer spec is made of, as the YAML loader hands them over, with the
 * JavaScript operations the engine applies to them: property reads, assignment and `delete`
 * on objects, truthiness, and conversion to a string inside a template literal.
 *
 * Objects are association lists: JavaScript keeps string keys in insertion order, and the
 * engine's output depends on that order (the package list, the first unknown field the
 * schema check reports, where a converted legacy field lands).
 */
module Json {
  import opened Wrappers
  import opened Text

  /** A spec value. Numbers are integers. */
  datatype Value =
    | Null
    | Bool(b: bool)
    | Num(n: int)
    | Str(s: string)
    | Arr(items: seq<Value>)
    | Obj(entries: seq<(string, Value)>)

  type Entries = seq<(string, Value)>

  function Keys(e: Entries): (ks: seq<string>)
    ensures |ks| == |e|
    ensures forall i :: 0 <= i < |e| ==> ks[i] == e[i].0
  {
    if |e| == 0 then [] else [e[0].0] + Keys(e[1..])
  }

  /** The keys of two entry lists placed one after the other. */
  lemma KeysConcat(a: Entries, b: Entries)
    ensures Keys(a + b) == Keys(a) + Keys(b)
  {
    var l, r := Keys(a + b), Keys(a) + Keys(b);
    assert forall i :: 0 <= i < |l| ==> l[i] == r[i];
  }

  /** A JavaScript object never holds the same key twice. */
  predicate DistinctKeys(e: Entries)
  {
    forall i, j :: 0 <= i < j < |e| ==> e[i].0 != e[j].0
  }

  /** `o[k]` on an object: the value stored under `k`, or `None` for `undefined`. */
  function Lookup(e: Entries, k: string): Option<Value>
  {
    if |e| == 0 then None
    else if e[0].0 == k then Some(e[0].1)
    else Lookup(e[1..], k)
  }

  /** `o[k] = v`: an existing key keeps its place, a new key goes last. */
  function Put(e: Entries, k: string, v: Value): Entries
  {
    if |e| == 0 then [(k, v)]
    else if e[0].0 == k then [(k, v)] + e[1..]
    else [e[0]] + Put(e[1..], k, v)
  }

  /** `delete o[k]`: every other entry keeps its value and its place. */
  function Remove(e: Entries, k: string): Entries
  {
    if |e| == 0 then []
    else if e[0].0 == k then Remove(e[1..], k)
    else [e[0]] + Remove(e[1..], k)
  }

  /** A key reads as `undefined` exactly when the object does not have it, and otherwise as one of its entries. */
  lemma {:induction false} LookupKeys(e: Entries, k: string)
    ensures Lookup(e, k).None? <==> k !in Keys(e)
    ensures Lookup(e, k).Some? ==> exists i :: 0 <= i < |e| && e[i] == (k, Lookup(e, k).value)
  {
    if |e| > 0 {
      LookupKeys(e[1..], k);
      assert Keys(e) == [e[0].0] + Keys(e[1..]);
      if e[0].0 != k && Lookup(e, k).Some? {
        var i :| 0 <= i < |e[1..]| && e[1..][i] == (k, Lookup(e, k).value);
        assert e[i + 1] == e[1..][i];
      }
    }
  }

  /** Assignment keeps an existing key in place and appends a new one. */
  lemma {:induction false} PutKeys(e: Entries, k: string, v: Value)
    ensures k in Keys(e) ==> Keys(Put(e, k, v)) == Keys(e)
    ensures k !in Keys(e) ==> Keys(Put(e, k, v)) == Keys(e) + [k]
  {
    if |e| > 0 {
      PutKeys(e[1..], k, v);
      assert Keys(e) == [e[0].0] + Keys(e[1..]);
    }
  }

  /** Deletion leaves only entries that were there, without the deleted key. */
  lemma {:induction false} RemoveKeys(e: Entries, k: string)
    ensures k !in Keys(Remove(e, k))
    ensures |Remove(e, k)| <= |e|
    ensures forall i :: 0 <= i < |Remove(e, k)| ==> Remove(e, k)[i] in e
  {
    if |e| > 0 {
      RemoveKeys(e[1..], k);
      var r := Remove(e[1..], k);
      assert forall i :: 0 <= i < |r| ==> r[i] in e[1..] ==> r[i] in e;
      if e[0].0 != k {
        assert Keys([e[0]] + r) == [e[0].0] + Keys(r);
      }
    }
  }

  /** Reading a key of two objects laid end to end: the first one that has it answers. */
  lemma {:induction false} LookupConcat(a: Entries, b: Entries, k: string)
    ensures Lookup(a + b, k) == if k in Keys(a) then Lookup(a, k) else Lookup(b, k)
  {
    if |a| > 0 {
      assert (a + b)[1..] == a[1..] + b;
      assert Keys(a) == [a[0].0] + Keys(a[1..]);
      LookupConcat(a[1..], b, k);
    } else {
      assert a + b == b;
    }
  }

  /** After `o[k] = v`, reading `k` gives `v` and every other key reads as before. */
  lemma {:induction false} LookupPut(e: Entries, k: string, v: Value, k': string)
    ensures Lookup(Put(e, k, v), k') == if k' == k then Some(v) else Lookup(e, k')
  {
    if |e| > 0 && e[0].0 != k {
      LookupPut(e[1..], k, v, k');
    }
  }

  /** After `delete o[k]`, `k` is undefined and every other key reads as before. */
  lemma {:induction false} LookupRemove(e: Entries, k: string, k': string)
    ensures Lookup(Remove(e, k), k') == if k' == k then None else Lookup(e, k')
  {
    if |e| > 0 {
      LookupRemove(e[1..], k, k');
    }
  }

  /** `LookupPut` for every key at once. */
  lemma LookupPutAll(e: Entries, k: string, v: Value)
    ensures forall k' :: Lookup(Put(e, k, v), k') == if k' == k then Some(v) else Lookup(e, k')
  {
    forall k' ensures Lookup(Put(e, k, v), k') == if k' == k then Some(v) else Lookup(e, k') {
      LookupPut(e, k, v, k');
    }
  }

  /** `LookupRemove` for every key at once. */
  lemma LookupRemoveAll(e: Entries, k: string)
    ensures forall k' :: Lookup(Remove(e, k), k') == if k' == k then None else Lookup(e, k')
  {
    forall k' ensures Lookup(Remove(e, k), k') == if k' == k then None else Lookup(e, k') {
      LookupRemove(e, k, k');
    }
  }

  /** Deleting a key that is not there changes nothing. */
  lemma {:induction false} RemoveAbsent(e: Entries, k: string)
    requires k !in Keys(e)
    ensures Remove(e, k) == e
  {
    if |e| > 0 {
      assert Keys(e)[0] == e[0].0;
      assert Keys(e[1..]) == Keys(e)[1..];
      RemoveAbsent(e[1..], k);
    }
  }

  /** Assignment keeps the keys distinct. */
  lemma {:induction false} PutDistinct(e: Entries, k: string, v: Value)
    requires DistinctKeys(e)
    ensures DistinctKeys(Put(e, k, v))
  {
    if |e| > 0 && e[0].0 != k {
      var rest := e[1..];
      assert DistinctKeys(rest) by {
        forall i, j | 0 <= i < j < |rest| ensures rest[i].0 != rest[j].0 {
          assert rest[i] == e[i + 1] && rest[j] == e[j + 1];
        }
      }
      PutDistinct(rest, k, v);
      PutKeys(rest, k, v);
      var p := Put(rest, k, v);
      forall j | 0 <= j < |p| ensures p[j].0 != e[0].0 {
        assert p[j].0 == Keys(p)[j];
        if j < |rest| {
          assert Keys(p)[j] == Keys(rest)[j] == e[j + 1].0;
        } else {
          assert Keys(p)[j] == k;
        }
      }
      ConsDistinct(e[0], p);
    }
  }

  /** An entry in front of distinct keys keeps them distinct when its key is new. */
  lemma ConsDistinct(x: (string, Value), e: Entries)
    requires DistinctKeys(e)
    requires forall j :: 0 <= j < |e| ==> e[j].0 != x.0
    ensures DistinctKeys([x] + e)
  {
    var r := [x] + e;
    forall i, j | 0 <= i < j < |r| ensures r[i].0 != r[j].0 {
      assert r[j] == e[j - 1];
      if i > 0 {
        assert r[i] == e[i - 1];
      }
    }
  }

  /** Deletion keeps the keys distinct. */
  lemma {:induction false} RemoveDistinct(e: Entries, k: string)
    requires DistinctKeys(e)
    ensures DistinctKeys(Remove(e, k))
  {
    if |e| > 0 {
      RemoveDistinct(e[1..], k);
      RemoveKeys(e[1..], k);
      var r := Remove(e[1..], k);
      if e[0].0 != k {
        forall j | 0 <= j < |r| ensures r[j].0 != e[0].0 {
          var m :| 0 <= m < |e[1..]| && e[1..][m] == r[j];
          assert e[m + 1] == r[j];
        }
        assert Remove(e, k) == [e[0]] + r;
        ConsDistinct(e[0], r);
      }
    }
  }

  /** `v[k]` for a property name `k`: only objects have named properties here. */
  function Get(v: Value, k: string): Option<Value>
  {
    if v.Obj? then Lookup(v.entries, k) else None
  }

  /**
   * A path walked one property at a time, giving `undefined` as soon as a step is missing.
   * This is how lodash's `_.get` reads a dotted string path only when the object has no
   * property literally named by the whole string; `DottedGet` states the difference.
   */
  function GetPath(v: Value, path: seq<string>): Option<Value>
    decreases |path|
  {
    if |path| == 0 then Some(v)
    else match Get(v, path[0])
      case None => None
      case Some(w) => GetPath(w, path[1..])
  }

  /** The string `"block.field"` that the engine hands to `_.get`. */
  function DottedKey(block: string, field: string): string
  {
    block + "." + field
  }

  /**
   * `_.get(v, "block.field")` as lodash resolves a string path: a property whose name is
   * the whole string is read first, and only an object without one has the path split at
   * the dot and walked.
   */
  function DottedGet(v: Value, block: string, field: string): Option<Value>
  {
    if v.Obj? && Lookup(v.entries, DottedKey(block, field)).Some?
    then Lookup(v.entries, DottedKey(block, field))
    else GetPath(v, [block, field])
  }

  /** Whether some key of the object holds a dot, the only keys that can shadow a dotted read. */
  predicate HasDottedKey(e: Entries)
  {
    exists i, j :: 0 <= i < |e| && 0 <= j < |e[i].0| && e[i].0[j] == '.'
  }

  /** Where no top-level key holds a dot, `_.get(spec, "block.field")` is the nested read `Field`. */
  lemma DottedGetField(spec: Entries, block: string, field: string)
    requires !HasDottedKey(spec)
    ensures DottedGet(Obj(spec), block, field) == Field(spec, block, field)
  {
    var key := DottedKey(block, field);
    assert key[|block|] == '.';
    LookupKeys(spec, key);
    assert DottedGet(Obj(spec), block, field) == GetPath(Obj(spec), [block, field]);
    assert [block, field][1..] == [field];
    match Lookup(spec, block)
    case Some(w) =>
      assert GetPath(Obj(spec), [block, field]) == GetPath(w, [field]);
      assert GetPath(w, [field]) == Get(w, field);
    case None =>
  }

  /** A top-level key named `block.field` shadows the nested field, whatever the nested field holds. */
  lemma DottedKeyShadows(spec: Entries, block: string, field: string, v: Value)
    requires Lookup(spec, DottedKey(block, field)) == Some(v)
    ensures DottedGet(Obj(spec), block, field) == Some(v)
    ensures HasDottedKey(spec)
  {
    var key := DottedKey(block, field);
    LookupKeys(spec, key);
    var i :| 0 <= i < |spec| && spec[i] == (key, v);
    assert spec[i].0[|block|] == '.';
  }

  /** `spec.block.field` read through a block that must be an object; any other block reads as `undefined`. */
  function Field(spec: Entries, block: string, field: string): (r: Option<Value>)
    ensures r.Some? ==> Lookup(spec, block).Some? && Lookup(spec, block).value.Obj?
  {
    match Lookup(spec, block)
    case Some(Obj(b)) => Lookup(b, field)
    case _ => None
  }

  /** JavaScript truthiness: `null`, `false`, `0` and `""` are falsy; arrays and objects are truthy. */
  predicate Truthy(v: Value)
  {
    match v
    case Null => false
    case Bool(b) => b
    case Num(n) => n != 0
    case Str(s) => |s| > 0
    case Arr(_) => true
    case Obj(_) => true
  }

  /** Truthiness of a read that may be `undefined`. */
  predicate TruthyOpt(o: Option<Value>)
  {
    o.Some? && Truthy(o.value)
  }

  /** The string of a value that is a string, or `""` for anything else; used only where the schema check has already ensured a string. */
  function StrOr(o: Option<Value>): (s: string)
    ensures o.Some? && o.value.Str? ==> s == o.value.s
  {
    if o.Some? && o.value.Str? then o.value.s else ""
  }

  /** `${v}`: how a value reads inside a template literal. */
  function ToJsString(v: Value): string
    decreases v, 0
  {
    match v
    case Null => "null"
    case Bool(b) => if b then "true" else "false"
    case Num(n) => IntToString(n)
    case Str(s) => s
    case Arr(items) => Join(seq(|items|, i requires 0 <= i < |items| => ItemString(items[i])), ",")
    case Obj(_) => "[object Object]"
  }

  /** `Array.prototype.join` writes `null` items as empty strings. */
  function ItemString(v: Value): string
    decreases v, 1
  {
    if v.Null? then "" else ToJsString(v)
  }

  /** `_.keys(v)` paired with the values: an object's entries, a string's or array's index keys, nothing otherwise. */
  function Members(v: Value): (m: Entries)
    ensures v.Obj? ==> m == v.entries
    ensures v.Str? ==> |m| == |v.s|
    ensures v.Arr? ==> |m| == |v.items|
    ensures v.Null? || v.Bool? || v.Num? ==> m == []
  {
    match v
    case Obj(e) => e
    case Str(s) => seq(|s|, i requires 0 <= i < |s| => (NatToString(i), Str([s[i]])))
    case Arr(items) => seq(|items|, i requires 0 <= i < |items| => (NatToString(i), items[i]))
    case _ => []
  }
}
