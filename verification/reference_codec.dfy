/**
  A reference codec that meets every requirement `Json.Faithful` places on
  `json.loads` / `json.dumps`, so the assumption is consistent.

  The text format is deliberately plain rather than JSON's own: every value
  is a tag letter followed by its parts, numbers and lengths are written in
  unary, and a decimal is written as an integer and a power of ten. It uses
  no line break, and reading it back is unambiguous.
 */
module ReferenceCodec {
  import opened Prelude
  import opened Json
  import Numbers
  import Utf8

  /** `n` ones and a closing zero. */
  function Unary(n: nat): (t: string)
    ensures '\n' !in t && |t| == n + 1
  {
    if n == 0 then "0" else "1" + Unary(n - 1)
  }

  function ReadUnary(t: string): (r: Option<(nat, string)>)
    ensures r.Some? ==> |r.value.1| < |t|
    decreases |t|
  {
    if |t| == 0 then None
    else if t[0] == '0' then Some((0, t[1..]))
    else if t[0] == '1' then
      match ReadUnary(t[1..])
      case Some((n, rest)) => Some((n + 1, rest))
      case None => None
    else None
  }

  lemma {:induction false} ReadUnaryOf(n: nat, rest: string)
    ensures ReadUnary(Unary(n) + rest) == Some((n, rest))
    decreases n
  {
    if n == 0 {
      assert (Unary(n) + rest)[1..] == rest;
    } else {
      assert (Unary(n) + rest)[1..] == Unary(n - 1) + rest;
      ReadUnaryOf(n - 1, rest);
    }
  }

  /** A sign letter, then the magnitude. */
  function IntText(i: int): (t: string)
    ensures '\n' !in t
  {
    if i < 0 then "m" + Unary(-i) else "p" + Unary(i)
  }

  function ReadInt(t: string): (r: Option<(int, string)>)
    ensures r.Some? ==> |r.value.1| < |t|
  {
    if |t| == 0 then None
    else
      var (n, rest) :- ReadUnary(t[1..]);
      if t[0] == 'm' then Some((-(n as int), rest))
      else if t[0] == 'p' then Some((n as int, rest))
      else None
  }

  lemma ReadIntOf(i: int, rest: string)
    ensures ReadInt(IntText(i) + rest) == Some((i, rest))
  {
    var n: nat := if i < 0 then -i else i;
    assert (IntText(i) + rest)[1..] == Unary(n) + rest;
    ReadUnaryOf(n, rest);
  }

  /** A character as its code point. */
  function ReadChar(t: string): (r: Option<(char, string)>)
    ensures r.Some? ==> |r.value.1| < |t|
  {
    var (n, rest) :- ReadUnary(t);
    if n < 0xD800 || 0xE000 <= n < 0x11_0000 then Some((n as char, rest)) else None
  }

  function CharsText(s: string): (t: string)
    ensures '\n' !in t
    decreases |s|
  {
    if |s| == 0 then "" else Unary(s[0] as int) + CharsText(s[1..])
  }

  /** A string: its length, then its characters. */
  function StringText(s: string): (t: string)
    ensures '\n' !in t
  {
    Unary(|s|) + CharsText(s)
  }

  function ReadChars(n: nat, t: string): (r: Option<(string, string)>)
    ensures r.Some? ==> |r.value.1| <= |t|
    decreases n
  {
    if n == 0 then Some(([], t))
    else
      var (c, r1) :- ReadChar(t);
      var (cs, r2) :- ReadChars(n - 1, r1);
      Some(([c] + cs, r2))
  }

  function ReadString(t: string): (r: Option<(string, string)>)
    ensures r.Some? ==> |r.value.1| < |t|
  {
    var (n, r1) :- ReadUnary(t);
    ReadChars(n, r1)
  }

  lemma {:induction false} ReadCharsOf(s: string, rest: string)
    ensures ReadChars(|s|, CharsText(s) + rest) == Some((s, rest))
    decreases |s|
  {
    if |s| > 0 {
      var tail := CharsText(s[1..]) + rest;
      assert CharsText(s) + rest == Unary(s[0] as int) + tail;
      ReadUnaryOf(s[0] as int, tail);
      assert ReadChar(CharsText(s) + rest) == Some((s[0], tail));
      ReadCharsOf(s[1..], rest);
      assert [s[0]] + s[1..] == s;
    } else {
      assert CharsText(s) + rest == rest;
    }
  }

  lemma ReadStringOf(s: string, rest: string)
    ensures ReadString(StringText(s) + rest) == Some((s, rest))
  {
    assert StringText(s) + rest == Unary(|s|) + (CharsText(s) + rest);
    ReadUnaryOf(|s|, CharsText(s) + rest);
    ReadCharsOf(s, rest);
  }

  /** The number of decimal places a finite decimal is written with. */
  ghost function Places(x: real): (k: nat)
    requires Numbers.IsDecimal(x)
    ensures Numbers.IsWhole(Numbers.Shift(x, k))
  {
    var k: nat :| Numbers.IsWhole(Numbers.Shift(x, k)); k
  }

  /** A decimal as the integer `x * 10^k`, then `k`. */
  ghost function DecimalText(x: real): (t: string)
    ensures '\n' !in t
  {
    if Numbers.IsDecimal(x) then
      var k := Places(x);
      IntText(Numbers.Shift(x, k).Floor) + Unary(k)
    else ""
  }

  lemma {:induction false} ReadDecimalOf(x: real, rest: string)
    requires Numbers.IsDecimal(x)
    ensures var k := Places(x);
      var m := Numbers.Shift(x, k).Floor;
      && DecimalText(x) + rest == IntText(m) + (Unary(k) + rest)
      && m as real / Numbers.Pow10(k) as real == x
  {
    var k := Places(x);
    var p := Numbers.Pow10(k) as real;
    var m := Numbers.Shift(x, k).Floor;
    assert m as real == x * p;
    MultiplyThenDivide(x, p);
  }

  lemma MultiplyThenDivide(x: real, p: real)
    requires p != 0.0
    ensures (x * p) / p == x
  {
  }

  /** The text of a value, written by tag. */
  ghost function Dump(v: Json): (t: string)
    ensures '\n' !in t
    decreases v, 1, 0
  {
    match v
    case JNull => "n"
    case JBool(b) => if b then "t" else "f"
    case JInt(i) => "i" + IntText(i)
    case JFloat(x) => "d" + DecimalText(x)
    case JStr(s) => "s" + StringText(s)
    case JArray(items) => "a" + Unary(|items|) + ItemsText(v, 0)
    case JObject(members) => "o" + Unary(|members|) + MembersText(v, 0)
  }

  ghost function ItemsText(v: Json, i: nat): (t: string)
    requires v.JArray? && i <= |v.items|
    ensures '\n' !in t
    decreases v, 0, |v.items| - i
  {
    if i == |v.items| then "" else Dump(v.items[i]) + ItemsText(v, i + 1)
  }

  ghost function MembersText(v: Json, i: nat): (t: string)
    requires v.JObject? && i <= |v.members|
    ensures '\n' !in t
    decreases v, 0, |v.members| - i
  {
    if i == |v.members| then ""
    else StringText(v.members[i].0) + Dump(v.members[i].1) + MembersText(v, i + 1)
  }

  /** Reads one value off the front of `t`. */
  function Read(t: string): (r: Option<(Json, string)>)
    ensures r.Some? ==> |r.value.1| < |t|
    decreases |t|, 0, 0
  {
    if |t| == 0 then None
    else
      var body := t[1..];
      match t[0]
      case 'n' => Some((JNull, body))
      case 't' => Some((JBool(true), body))
      case 'f' => Some((JBool(false), body))
      case 'i' =>
        var (i, rest) :- ReadInt(body);
        Some((JInt(i), rest))
      case 'd' =>
        var (m, r1) :- ReadInt(body);
        var (k, r2) :- ReadUnary(r1);
        Some((JFloat(m as real / Numbers.Pow10(k) as real), r2))
      case 's' =>
        var (s, rest) :- ReadString(body);
        Some((JStr(s), rest))
      case 'a' =>
        var (n, r1) :- ReadUnary(body);
        var (items, r2) :- ReadItems(n, r1);
        Some((JArray(items), r2))
      case 'o' =>
        var (n, r1) :- ReadUnary(body);
        var (members, r2) :- ReadMembers(n, r1);
        Some((JObject(members), r2))
      case _ => None
  }

  function ReadItems(n: nat, t: string): (r: Option<(seq<Json>, string)>)
    ensures r.Some? ==> |r.value.1| <= |t|
    decreases |t|, 1, n
  {
    if n == 0 then Some(([], t))
    else
      var (v, r1) :- Read(t);
      var (vs, r2) :- ReadItems(n - 1, r1);
      Some(([v] + vs, r2))
  }

  function ReadMembers(n: nat, t: string): (r: Option<(seq<(string, Json)>, string)>)
    ensures r.Some? ==> |r.value.1| <= |t|
    decreases |t|, 1, n
  {
    if n == 0 then Some(([], t))
    else
      var (key, r1) :- ReadString(t);
      var (v, r2) :- Read(r1);
      var (ms, r3) :- ReadMembers(n - 1, r2);
      Some(([(key, v)] + ms, r3))
  }

  /** Reading back the text of a loadable value gives the value and leaves
      what follows it. */
  lemma {:induction false} ReadDump(v: Json, rest: string)
    requires Loadable(v)
    ensures Read(Dump(v) + rest) == Some((v, rest))
    decreases v, 1, 0
  {
    match v
    case JArray(items) =>
      var u, tail := Unary(|items|), ItemsText(v, 0) + rest;
      Associate("a" + u, ItemsText(v, 0), rest);
      Associate("a", u, tail);
      ReadUnaryOf(|items|, tail);
      ReadItemsOf(v, 0, rest);
      assert items[0..] == items;
      ReadArrayStep("a" + (u + tail), |items|, tail, items, rest);
    case JObject(members) =>
      var u, tail := Unary(|members|), MembersText(v, 0) + rest;
      Associate("o" + u, MembersText(v, 0), rest);
      Associate("o", u, tail);
      ReadUnaryOf(|members|, tail);
      ReadMembersOf(v, 0, rest);
      assert members[0..] == members;
      ReadObjectStep("o" + (u + tail), |members|, tail, members, rest);
    case _ => ReadScalarOf(v, rest);
  }

  lemma ReadFloatOf(x: real, rest: string)
    requires Numbers.IsDecimal(x)
    ensures Read(Dump(JFloat(x)) + rest) == Some((JFloat(x), rest))
  {
    ReadDecimalOf(x, rest);
    var k := Places(x);
    var m := Numbers.Shift(x, k).Floor;
    var t := "d" + (IntText(m) + (Unary(k) + rest));
    assert Dump(JFloat(x)) + rest == t;
    ReadIntOf(m, Unary(k) + rest);
    ReadUnaryOf(k, rest);
    ReadDecimalStep(t, m, Unary(k) + rest, k, rest);
  }

  lemma ReadDecimalStep(t: string, m: int, r1: string, k: nat, r2: string)
    requires |t| > 0 && t[0] == 'd'
    requires ReadInt(t[1..]) == Some((m, r1)) && ReadUnary(r1) == Some((k, r2))
    ensures Read(t) == Some((JFloat(m as real / Numbers.Pow10(k) as real), r2))
  {
  }

  lemma ReadArrayStep(t: string, n: nat, r1: string, items: seq<Json>, r2: string)
    requires |t| > 0 && t[0] == 'a'
    requires ReadUnary(t[1..]) == Some((n, r1)) && ReadItems(n, r1) == Some((items, r2))
    ensures Read(t) == Some((JArray(items), r2))
  {
  }

  lemma ReadObjectStep(t: string, n: nat, r1: string, ms: seq<(string, Json)>, r2: string)
    requires |t| > 0 && t[0] == 'o'
    requires ReadUnary(t[1..]) == Some((n, r1)) && ReadMembers(n, r1) == Some((ms, r2))
    ensures Read(t) == Some((JObject(ms), r2))
  {
  }

  lemma ReadItemsStep(n: nat, t: string, v: Json, r1: string, vs: seq<Json>, r2: string)
    requires n > 0 && Read(t) == Some((v, r1)) && ReadItems(n - 1, r1) == Some((vs, r2))
    ensures ReadItems(n, t) == Some(([v] + vs, r2))
  {
  }

  lemma ReadMembersStep(n: nat, t: string, key: string, r1: string, v: Json, r2: string,
                        ms: seq<(string, Json)>, r3: string)
    requires n > 0 && ReadString(t) == Some((key, r1)) && Read(r1) == Some((v, r2))
    requires ReadMembers(n - 1, r2) == Some((ms, r3))
    ensures ReadMembers(n, t) == Some(([(key, v)] + ms, r3))
  {
  }

  lemma ReadScalarOf(v: Json, rest: string)
    requires Loadable(v) && !v.JArray? && !v.JObject?
    ensures Read(Dump(v) + rest) == Some((v, rest))
  {
    var t := Dump(v) + rest;
    match v
    case JNull => assert t[1..] == rest;
    case JBool(b) => assert t[1..] == rest;
    case JInt(i) =>
      assert t[1..] == IntText(i) + rest;
      ReadIntOf(i, rest);
    case JFloat(x) => ReadFloatOf(x, rest);
    case JStr(s) =>
      assert t[1..] == StringText(s) + rest;
      ReadStringOf(s, rest);
  }

  lemma {:induction false} ReadItemsOf(v: Json, i: nat, rest: string)
    requires v.JArray? && i <= |v.items| && Loadable(v)
    ensures ReadItems(|v.items| - i, ItemsText(v, i) + rest) == Some((v.items[i..], rest))
    decreases v, 0, |v.items| - i
  {
    if i < |v.items| {
      var head, tail := Dump(v.items[i]), ItemsText(v, i + 1) + rest;
      Associate(head, ItemsText(v, i + 1), rest);
      ReadDump(v.items[i], tail);
      ReadItemsOf(v, i + 1, rest);
      ReadItemsStep(|v.items| - i, head + tail, v.items[i], tail, v.items[i + 1..], rest);
      Uncons(v.items, i);
    } else {
      assert ItemsText(v, i) + rest == rest;
      assert v.items[i..] == [];
    }
  }

  lemma {:induction false} ReadMembersOf(v: Json, i: nat, rest: string)
    requires v.JObject? && i <= |v.members| && Loadable(v)
    ensures ReadMembers(|v.members| - i, MembersText(v, i) + rest) == Some((v.members[i..], rest))
    decreases v, 0, |v.members| - i
  {
    if i < |v.members| {
      var (key, value) := v.members[i];
      var a, b, c := StringText(key), Dump(value), MembersText(v, i + 1);
      var tail := c + rest;
      Associate(a + b, c, rest);
      Associate(a, b, tail);
      ReadStringOf(key, b + tail);
      ReadDump(value, tail);
      ReadMembersOf(v, i + 1, rest);
      ReadMembersStep(|v.members| - i, a + (b + tail), key, b + tail, value, tail, v.members[i + 1..], rest);
      Uncons(v.members, i);
    } else {
      assert MembersText(v, i) + rest == rest;
      assert v.members[i..] == [];
    }
  }

  lemma Associate(a: string, b: string, c: string)
    ensures (a + b) + c == a + (b + c)
  {
  }

  lemma Uncons<T>(s: seq<T>, i: nat)
    requires i < |s|
    ensures [s[i]] + s[i + 1..] == s[i..]
  {
  }

  /** `loads`: UTF-8 text holding exactly one value and a closing line feed;
      anything that is not loadable is refused. */
  ghost function Load(bs: seq<byte>): (r: Option<Json>)
    ensures r.Some? ==> Loadable(r.value)
  {
    match Utf8.Decode(bs)
    case None => None
    case Some(t) =>
      if |t| > 0 && t[|t| - 1] == '\n' then
        match Read(t[..|t| - 1])
        case Some((v, rest)) => if rest == [] && Loadable(v) then Some(v) else None
        case None => None
      else None
  }

  ghost function Codec(): JsonLib {
    JsonLib(bs => Load(bs), v => Dump(v))
  }

  /** The reference codec meets every requirement of `Faithful`. */
  lemma CodecFaithful()
    ensures Faithful(Codec())
  {
    var lib := Codec();
    forall v | Loadable(v)
      ensures lib.loads(Utf8.Encode(lib.dumps(v) + "\n")) == Some(v)
    {
      var t := Dump(v) + "\n";
      Utf8.DecodeEncode(t);
      assert t[..|t| - 1] == Dump(v) + "";
      ReadDump(v, "");
    }
  }
}
