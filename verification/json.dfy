/**
  Decoded JSON values as Python's `json` module hands them to the handler, the
  dictionary operations the handler applies to them, and the `int()` /
  `float()` conversions of such values.

  The text-level codec (`json.loads`, `json.dumps`) is not modelled: it is
  supplied as a `JsonLib` value, and the facts the model needs about it are
  collected in `Faithful`, stated for the values `json.loads` can produce
  (`Loadable`).
 */
module Json {
  import opened Prelude
  import Numbers
  import Utf8

  /** A decoded JSON value. An object is the member list of a Python dict:
      keys in insertion order. JSON integers and non-integers stay apart, as
      Python's `int` and `float` do. */
  datatype Json =
    | JNull
    | JBool(b: bool)
    | JInt(i: int)
    | JFloat(x: real)
    | JStr(s: string)
    | JArray(items: seq<Json>)
    | JObject(members: seq<(string, Json)>)

  /** The value bound to `key`; when a key is bound more than once the last
      binding wins, as in the dict `json.loads` builds from such an object. */
  function Lookup(members: seq<(string, Json)>, key: string): (r: Option<Json>)
    ensures r.None? <==> forall i :: 0 <= i < |members| ==> members[i].0 != key
    ensures r.Some? ==>
      exists i :: 0 <= i < |members| && members[i] == (key, r.value) &&
        forall j :: i < j < |members| ==> members[j].0 != key
    decreases |members|
  {
    if |members| == 0 then None
    else if members[|members| - 1].0 == key then Some(members[|members| - 1].1)
    else Lookup(members[..|members| - 1], key)
  }

  /** The binding that `Lookup` finds is the last one for the key. */
  lemma LookupLast(members: seq<(string, Json)>, key: string, i: int)
    requires 0 <= i < |members| && members[i].0 == key
    requires forall j :: i < j < |members| ==> members[j].0 != key
    ensures Lookup(members, key) == Some(members[i].1)
  {
    var r := Lookup(members, key);
    assert r.Some?;
    var k :| 0 <= k < |members| && members[k] == (key, r.value) &&
      forall j :: k < j < |members| ==> members[j].0 != key;
    assert k == i;
  }

  /** `j[key]`: `None` where Python raises — `KeyError` for a dict without
      the key, `TypeError` for a list, string, number, bool or `None`. */
  function Subscript(j: Json, key: string): (r: Option<Json>)
    ensures r.Some? ==> j.JObject?
  {
    if j.JObject? then Lookup(j.members, key) else None
  }

  /** `j.get(key)`: `None` where Python raises `AttributeError` (only a dict
      has `.get`); otherwise the bound value, or JSON null for a missing key. */
  function Get(j: Json, key: string): (r: Option<Json>)
    ensures r.Some? <==> j.JObject?
    ensures r.Some? && r.value != JNull ==> Subscript(j, key) == r
    ensures Subscript(j, key).Some? ==> r == Subscript(j, key)
  {
    if j.JObject? then
      match Lookup(j.members, key)
      case Some(v) => Some(v)
      case None => Some(JNull)
    else None
  }

  /** Python's `int(v)` on a decoded value: strings are parsed, floats are
      truncated toward zero, booleans count as 0 and 1. `None` where Python
      raises (`ValueError` for bad text, `TypeError` for null, lists and
      dicts). */
  function ToInt(j: Json): (r: Option<int>)
    ensures (j.JNull? || j.JArray? || j.JObject?) ==> r.None?
    ensures (j.JInt? || j.JFloat? || j.JBool?) ==> r.Some?
    ensures j.JInt? ==> r == Some(j.i)
    ensures j.JFloat? ==> Numbers.Abs(r.value as real - j.x) < 1.0
  {
    match j
    case JStr(s) => Numbers.ParseInt(s)
    case JInt(i) => Some(i)
    case JFloat(x) => Some(Numbers.TruncateTowardZero(x))
    case JBool(b) => Some(if b then 1 else 0)
    case _ => None
  }

  /** Python's `float(v)` on a decoded value: the same acceptance as `int`
      except that text may spell a fraction or an exponent. Applied to a
      loadable value it yields a finite decimal. */
  function ToFloat(j: Json): (r: Option<real>)
    ensures (j.JNull? || j.JArray? || j.JObject?) ==> r.None?
    ensures (j.JInt? || j.JFloat? || j.JBool?) ==> r.Some?
    ensures j.JInt? ==> r == Some(j.i as real)
    ensures r.Some? && Loadable(j) ==> Numbers.IsDecimal(r.value)
  {
    match j
    case JStr(s) => Numbers.ParseFloat(s)
    case JInt(i) => Numbers.IntegerIsDecimal(i); Some(i as real)
    case JFloat(x) => Some(x)
    case JBool(b) =>
      Numbers.IntegerIsDecimal(if b then 1 else 0);
      Some(if b then 1.0 else 0.0)
    case _ => None
  }

  /** Every value `int(v)` accepts, `float(v)` accepts too, and the two agree
      on every value that is not already a float (`int` truncates a float). */
  lemma ToFloatAgreesWithToInt(j: Json)
    requires ToInt(j).Some?
    ensures ToFloat(j).Some?
    ensures !j.JFloat? ==> ToFloat(j).value == ToInt(j).value as real
  {
    match j
    case JStr(s) => Numbers.ParseFloatOfInteger(s);
    case _ =>
  }

  /** The keys of an object's member list, in order. */
  function Keys(members: seq<(string, Json)>): (ks: seq<string>)
    ensures |ks| == |members|
    ensures forall i :: 0 <= i < |members| ==> ks[i] == members[i].0
  {
    seq(|members|, i requires 0 <= i < |members| => members[i].0)
  }

  /** The JSON text codec: `json.loads` on the decoded payload octets and
      `json.dumps` with its default settings. */
  datatype JsonLib = JsonLib(loads: seq<byte> -> Option<Json>, dumps: Json -> string)

  /** A value `json.loads` can produce: every number is finite with a finite
      decimal expansion (a binary float is one), and no object binds a key
      twice (a dict cannot). */
  ghost predicate Loadable(v: Json)
    decreases v
  {
    match v
    case JFloat(x) => Numbers.IsDecimal(x)
    case JArray(items) => forall i :: 0 <= i < |items| ==> Loadable(items[i])
    case JObject(members) =>
      && DistinctKeys(members)
      && forall i :: 0 <= i < |members| ==> Loadable(members[i].1)
    case _ => true
  }

  predicate DistinctKeys(members: seq<(string, Json)>) {
    forall i, j :: 0 <= i < j < |members| ==> members[i].0 != members[j].0
  }

  /** A member of a loadable object is loadable. */
  lemma SubscriptLoadable(j: Json, key: string)
    requires Loadable(j) && Subscript(j, key).Some?
    ensures Loadable(Subscript(j, key).value)
  {
    var r := Subscript(j, key);
    var i :| 0 <= i < |j.members| && j.members[i] == (key, r.value) &&
      forall k :: i < k < |j.members| ==> j.members[k].0 != key;
    assert Loadable(j.members[i].1);
  }

  /** What the model relies on from the codec, stated for loadable values:
      - `json.dumps` (without `indent`) never writes a raw line break;
      - what `json.loads` returns is loadable;
      - `json.loads` reads back what `json.dumps` wrote of a loadable value,
        trailing whitespace allowed.
      There are countably many loadable values, so a codec can meet this, as
      `ReferenceCodec.Codec` does. Python's codec meets it only on values
      whose floats are binary doubles and whose integers have at most 4300
      digits: it reads a float back as the nearest double, and since 3.11 it
      raises on longer integers. */
  ghost predicate Faithful(lib: JsonLib) {
    && (forall v :: '\n' !in lib.dumps(v))
    && (forall bs :: lib.loads(bs).Some? ==> Loadable(lib.loads(bs).value))
    && (forall v :: Loadable(v) ==> lib.loads(Utf8.Encode(lib.dumps(v) + "\n")) == Some(v))
  }
}
