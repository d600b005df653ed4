/**
  UTF-8 as used by `str.encode('utf-8')` on the serialised record (and by
  whoever reads the record back). A Dafny `char` is a Unicode scalar value, so
  every string has an encoding. Decoding is strict: overlong forms, surrogates
  and values above U+10FFFF are rejected.
 */
module Utf8 {
  import opened Prelude

  predicate IsContinuation(b: byte) {
    0x80 <= b < 0xC0
  }

  /** The six payload bits of a continuation octet. */
  function Low(b: byte): int {
    b as int - 0x80
  }

  /** The one to four octets of a single scalar value. */
  function EncodeChar(c: char): (bs: seq<byte>)
    ensures 1 <= |bs| <= 4
    ensures |bs| == 1 <==> c as int < 0x80
    ensures |bs| == 1 ==> bs[0] == c as int
    ensures |bs| > 1 ==> 0xC0 <= bs[0] && forall k :: 1 <= k < |bs| ==> IsContinuation(bs[k])
  {
    var v := c as int;
    if v < 0x80 then [v]
    else if v < 0x800 then
      [0xC0 + v / 64, 0x80 + v % 64]
    else if v < 0x10000 then
      var v1 := v / 64;
      [0xE0 + v1 / 64, 0x80 + v1 % 64, 0x80 + v % 64]
    else
      var v1 := v / 64;
      var v2 := v1 / 64;
      [0xF0 + v2 / 64, 0x80 + v2 % 64, 0x80 + v1 % 64, 0x80 + v % 64]
  }

  function Encode(s: string): (bs: seq<byte>)
    ensures |s| <= |bs| <= 4 * |s|
    decreases |s|
  {
    if |s| == 0 then [] else EncodeChar(s[0]) + Encode(s[1..])
  }

  /** The scalar value that starts `bs`, and how many octets it took. */
  function DecodeChar(bs: seq<byte>): (r: Option<(char, nat)>)
    ensures r.Some? ==> 1 <= r.value.1 <= |bs| && r.value.1 <= 4
  {
    if |bs| == 0 then None
    else
      var b0 := bs[0] as int;
      if b0 < 0x80 then Some((b0 as char, 1))
      else if 0xC2 <= b0 < 0xE0 then
        if |bs| < 2 || !IsContinuation(bs[1]) then None
        else Some((((b0 - 0xC0) * 64 + Low(bs[1])) as char, 2))
      else if 0xE0 <= b0 < 0xF0 then
        if |bs| < 3 || !IsContinuation(bs[1]) || !IsContinuation(bs[2]) then None
        else
          var v := ((b0 - 0xE0) * 64 + Low(bs[1])) * 64 + Low(bs[2]);
          if v < 0x800 || 0xD800 <= v < 0xE000 then None
          else Some((v as char, 3))
      else if 0xF0 <= b0 < 0xF5 then
        if |bs| < 4 || !IsContinuation(bs[1]) || !IsContinuation(bs[2]) || !IsContinuation(bs[3]) then None
        else
          var v := (((b0 - 0xF0) * 64 + Low(bs[1])) * 64 + Low(bs[2])) * 64 + Low(bs[3]);
          if v < 0x10000 || 0x110000 <= v then None
          else Some((v as char, 4))
      else None
  }

  /** `bytes.decode('utf-8')`; `None` where Python raises `UnicodeDecodeError`. */
  function Decode(bs: seq<byte>): (r: Option<string>)
    ensures r.Some? ==> |r.value| <= |bs|
    decreases |bs|
  {
    if |bs| == 0 then Some([])
    else
      var (c, n) :- DecodeChar(bs);
      var rest :- Decode(bs[n..]);
      Some([c] + rest)
  }

  lemma DecodeEncodeChar(c: char, rest: seq<byte>)
    ensures DecodeChar(EncodeChar(c) + rest) == Some((c, |EncodeChar(c)|))
  {
    var v := c as int;
    var bs := EncodeChar(c) + rest;
    if v < 0x80 {
    } else if v < 0x800 {
      assert bs[0] == 0xC0 + v / 64 && bs[1] == 0x80 + v % 64;
      assert (bs[0] as int - 0xC0) * 64 + Low(bs[1]) == v;
    } else if v < 0x10000 {
      var v1 := v / 64;
      assert bs[0] == 0xE0 + v1 / 64 && bs[1] == 0x80 + v1 % 64 && bs[2] == 0x80 + v % 64;
      assert (bs[0] as int - 0xE0) * 64 + Low(bs[1]) == v1;
      assert v1 * 64 + Low(bs[2]) == v;
    } else {
      var v1 := v / 64;
      var v2 := v1 / 64;
      assert bs[0] == 0xF0 + v2 / 64 && bs[1] == 0x80 + v2 % 64;
      assert bs[2] == 0x80 + v1 % 64 && bs[3] == 0x80 + v % 64;
      assert (bs[0] as int - 0xF0) * 64 + Low(bs[1]) == v2;
      assert v2 * 64 + Low(bs[2]) == v1;
      assert v1 * 64 + Low(bs[3]) == v;
    }
  }

  /** Every string survives encoding and decoding. */
  lemma {:induction false} DecodeEncode(s: string)
    ensures Decode(Encode(s)) == Some(s)
    decreases |s|
  {
    if |s| > 0 {
      var head := EncodeChar(s[0]);
      DecodeEncodeChar(s[0], Encode(s[1..]));
      assert (head + Encode(s[1..]))[|head|..] == Encode(s[1..]);
      DecodeEncode(s[1..]);
      assert [s[0]] + s[1..] == s;
    }
  }

  lemma EncodeDecodeChar(bs: seq<byte>)
    requires DecodeChar(bs).Some?
    ensures EncodeChar(DecodeChar(bs).value.0) == bs[..DecodeChar(bs).value.1]
  {
    var (c, n) := DecodeChar(bs).value;
    var v := c as int;
    if n == 2 {
      assert v == (bs[0] as int - 0xC0) * 64 + Low(bs[1]);
      assert v / 64 == bs[0] as int - 0xC0 && v % 64 == Low(bs[1]);
    } else if n == 3 {
      var v1 := (bs[0] as int - 0xE0) * 64 + Low(bs[1]);
      assert v == v1 * 64 + Low(bs[2]);
      assert v / 64 == v1 && v % 64 == Low(bs[2]);
      assert v1 / 64 == bs[0] as int - 0xE0 && v1 % 64 == Low(bs[1]);
    } else if n == 4 {
      var v2 := (bs[0] as int - 0xF0) * 64 + Low(bs[1]);
      var v1 := v2 * 64 + Low(bs[2]);
      assert v == v1 * 64 + Low(bs[3]);
      assert v / 64 == v1 && v % 64 == Low(bs[3]);
      assert v1 / 64 == v2 && v1 % 64 == Low(bs[2]);
      assert v2 / 64 == bs[0] as int - 0xF0 && v2 % 64 == Low(bs[1]);
    }
  }

  /** A decodable text decodes its first character, then the rest. */
  lemma DecodeFirst(bs: seq<byte>)
    requires |bs| > 0 && Decode(bs).Some?
    ensures DecodeChar(bs).Some?
    ensures var n := DecodeChar(bs).value.1;
      0 < n <= |bs| && Decode(bs[n..]).Some? &&
      Decode(bs).value == [DecodeChar(bs).value.0] + Decode(bs[n..]).value
  {
  }

  /** The strict decoder accepts only canonical encodings: whatever it
      accepts, encoding the result gives back exactly the same octets. */
  lemma {:induction false} EncodeDecode(bs: seq<byte>)
    requires Decode(bs).Some?
    ensures Encode(Decode(bs).value) == bs
    decreases |bs|
  {
    if |bs| > 0 {
      DecodeFirst(bs);
      var (c, n) := DecodeChar(bs).value;
      EncodeDecodeChar(bs);
      EncodeDecode(bs[n..]);
      var s := Decode(bs).value;
      assert s[0] == c && s[1..] == Decode(bs[n..]).value;
      assert Encode(s) == EncodeChar(c) + Encode(s[1..]);
      assert bs == bs[..n] + bs[n..];
    }
  }

  lemma {:induction false} EncodeAppend(s: string, t: string)
    ensures Encode(s + t) == Encode(s) + Encode(t)
    decreases |s|
  {
    if |s| > 0 {
      assert (s + t)[0] == s[0];
      assert (s + t)[1..] == s[1..] + t;
      EncodeAppend(s[1..], t);
    } else {
      assert s + t == t;
    }
  }

  /** The newline octet 0x0A occurs in an encoding exactly where the text has
      a newline: multi-octet forms only use octets at or above 0x80. */
  lemma {:induction false} NewlineOctet(s: string)
    ensures 0x0A in Encode(s) <==> '\n' in s
    decreases |s|
  {
    if |s| > 0 {
      NewlineOctet(s[1..]);
      var head := EncodeChar(s[0]);
      assert Encode(s) == head + Encode(s[1..]);
      assert 0x0A in head <==> s[0] == '\n';
      assert '\n' in s <==> s[0] == '\n' || '\n' in s[1..];
    }
  }
}
