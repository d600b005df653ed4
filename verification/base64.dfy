/**
  The standard base64 alphabet and padding of section 4 of RFC 4648, as used by
  `base64.b64encode` / `base64.b64decode` on the record payloads.

  Encoding works on groups of three octets, each giving four characters of six
  bits; a final group of one or two octets is padded with `=`. Decoding is
  strict: the text must consist of whole four-character groups over the
  alphabet, with `=` only as padding at the very end. As Python does, the unused
  low bits of a padded final group are not required to be zero.
 */
module Base64 {
  import opened Prelude

  /** The character that stands for the six-bit value `v`. */
  function CharOf(v: nat): (c: char)
    requires v < 64
    ensures IsAlphabetChar(c)
  {
    if v < 26 then ('A' as int + v) as char
    else if v < 52 then ('a' as int + (v - 26)) as char
    else if v < 62 then ('0' as int + (v - 52)) as char
    else if v == 62 then '+'
    else '/'
  }

  /** The six-bit value of an alphabet character; `None` for anything else,
      the padding character included. */
  function ValueOf(c: char): (r: Option<nat>)
    ensures r.Some? <==> IsAlphabetChar(c)
    ensures r.Some? ==> r.value < 64 && CharOf(r.value) == c
  {
    if 'A' <= c <= 'Z' then Some(c as int - 'A' as int)
    else if 'a' <= c <= 'z' then Some(c as int - 'a' as int + 26)
    else if '0' <= c <= '9' then Some(c as int - '0' as int + 52)
    else if c == '+' then Some(62)
    else if c == '/' then Some(63)
    else None
  }

  /** The 64 characters of the alphabet; `=` is not among them. */
  predicate IsAlphabetChar(c: char) {
    'A' <= c <= 'Z' || 'a' <= c <= 'z' || '0' <= c <= '9' || c == '+' || c == '/'
  }

  /** Text that may appear in an encoding: alphabet characters and pads. */
  predicate IsEncodingText(s: string) {
    forall i :: 0 <= i < |s| ==> IsAlphabetChar(s[i]) || s[i] == '='
  }

  lemma ValueOfCharOf(v: nat)
    requires v < 64
    ensures ValueOf(CharOf(v)) == Some(v)
  {
  }

  /** Four characters for three octets. */
  function EncodeGroup(b0: byte, b1: byte, b2: byte): (s: string)
    ensures |s| == 4
    ensures IsEncodingText(s)
  {
    [CharOf(b0 / 4), CharOf((b0 % 4) * 16 + b1 / 16), CharOf((b1 % 16) * 4 + b2 / 64), CharOf(b2 % 64)]
  }

  /** A final group of one octet: two characters and two pads. */
  function EncodeFinal1(b0: byte): (s: string)
    ensures |s| == 4
    ensures IsEncodingText(s)
  {
    [CharOf(b0 / 4), CharOf((b0 % 4) * 16), '=', '=']
  }

  /** A final group of two octets: three characters and one pad. */
  function EncodeFinal2(b0: byte, b1: byte): (s: string)
    ensures |s| == 4
    ensures IsEncodingText(s)
  {
    [CharOf(b0 / 4), CharOf((b0 % 4) * 16 + b1 / 16), CharOf((b1 % 16) * 4), '=']
  }

  /** `base64.b64encode(b).decode('ascii')`. */
  function Encode(b: seq<byte>): (s: string)
    ensures |s| == (|b| + 2) / 3 * 4
    ensures IsEncodingText(s)
    decreases |b|
  {
    if |b| == 0 then []
    else if |b| == 1 then EncodeFinal1(b[0])
    else if |b| == 2 then EncodeFinal2(b[0], b[1])
    else
      var head, tail := EncodeGroup(b[0], b[1], b[2]), Encode(b[3..]);
      EncodingTextAppend(head, tail);
      assert (|b| + 2) / 3 == (|b| - 3 + 2) / 3 + 1;
      head + tail
  }

  lemma EncodingTextAppend(s: string, t: string)
    requires IsEncodingText(s) && IsEncodingText(t)
    ensures IsEncodingText(s + t)
  {
    forall i | 0 <= i < |s + t|
      ensures IsAlphabetChar((s + t)[i]) || (s + t)[i] == '='
    {
      if i >= |s| {
        assert (s + t)[i] == t[i - |s|];
      }
    }
  }

  /** Reassembles the octets of an unpadded group of four characters. */
  function DecodeGroup(q: string): (r: Option<seq<byte>>)
    requires |q| == 4
    ensures r.Some? ==> |r.value| == 3
  {
    match (ValueOf(q[0]), ValueOf(q[1]), ValueOf(q[2]), ValueOf(q[3]))
    case (Some(c0), Some(c1), Some(c2), Some(c3)) =>
      Some([c0 * 4 + c1 / 16, (c1 % 16) * 16 + c2 / 4, (c2 % 4) * 64 + c3])
    case _ => None
  }

  /** The last group of the text, which may carry one or two pads. */
  function DecodeFinalGroup(q: string): (r: Option<seq<byte>>)
    requires |q| == 4
    ensures r.Some? ==> 1 <= |r.value| <= 3
  {
    if q[2] == '=' && q[3] == '=' then
      match (ValueOf(q[0]), ValueOf(q[1]))
      case (Some(c0), Some(c1)) => Some([c0 * 4 + c1 / 16])
      case _ => None
    else if q[3] == '=' then
      match (ValueOf(q[0]), ValueOf(q[1]), ValueOf(q[2]))
      case (Some(c0), Some(c1), Some(c2)) => Some([c0 * 4 + c1 / 16, (c1 % 16) * 16 + c2 / 4])
      case _ => None
    else DecodeGroup(q)
  }

  /** Strict `base64.b64decode(s)`: `None` where Python would raise
      `binascii.Error` (or `ValueError` for non-ASCII text). */
  function Decode(s: string): (r: Option<seq<byte>>)
    ensures r.Some? ==> |s| % 4 == 0
    ensures r.Some? ==> |s| / 4 * 3 - 2 <= |r.value| <= |s| / 4 * 3
    decreases |s|
  {
    if |s| == 0 then Some([])
    else if |s| < 4 then None
    else if |s| == 4 then DecodeFinalGroup(s)
    else
      var head :- DecodeGroup(s[..4]);
      var tail :- Decode(s[4..]);
      Some(head + tail)
  }

  /** Three octets cut into four six-bit values and joined again. */
  lemma Regroup(b0: byte, b1: byte, b2: byte)
    ensures var c1, c2 := (b0 % 4) * 16 + b1 / 16, (b1 % 16) * 4 + b2 / 64;
      && (b0 / 4) * 4 + c1 / 16 == b0
      && (c1 % 16) * 16 + c2 / 4 == b1
      && (c2 % 4) * 64 + b2 % 64 == b2
  {
    var c1, c2 := (b0 % 4) * 16 + b1 / 16, (b1 % 16) * 4 + b2 / 64;
    assert c1 / 16 == b0 % 4 && c1 % 16 == b1 / 16;
    assert c2 / 4 == b1 % 16 && c2 % 4 == b2 / 64;
  }

  lemma DecodeEncodeGroup(b0: byte, b1: byte, b2: byte)
    ensures DecodeGroup(EncodeGroup(b0, b1, b2)) == Some([b0, b1, b2])
  {
    var c0, c1, c2, c3 := b0 / 4, (b0 % 4) * 16 + b1 / 16, (b1 % 16) * 4 + b2 / 64, b2 % 64;
    var q := EncodeGroup(b0, b1, b2);
    ValueOfCharOf(c0);
    ValueOfCharOf(c1);
    ValueOfCharOf(c2);
    ValueOfCharOf(c3);
    assert ValueOf(q[0]) == Some(c0) && ValueOf(q[1]) == Some(c1);
    assert ValueOf(q[2]) == Some(c2) && ValueOf(q[3]) == Some(c3);
    Regroup(b0, b1, b2);
  }

  lemma DecodeEncodeFinal1(b0: byte)
    ensures DecodeFinalGroup(EncodeFinal1(b0)) == Some([b0])
  {
    ValueOfCharOf(b0 / 4);
    ValueOfCharOf((b0 % 4) * 16);
  }

  lemma DecodeEncodeFinal2(b0: byte, b1: byte)
    ensures DecodeFinalGroup(EncodeFinal2(b0, b1)) == Some([b0, b1])
  {
    ValueOfCharOf(b0 / 4);
    ValueOfCharOf((b0 % 4) * 16 + b1 / 16);
    ValueOfCharOf((b1 % 16) * 4);
  }

  /** A text of more than one group decodes group by group. */
  lemma DecodeLeadingGroup(q: string, t: string)
    requires |q| == 4 && |t| > 0
    requires DecodeGroup(q).Some? && Decode(t).Some?
    ensures Decode(q + t) == Some(DecodeGroup(q).value + Decode(t).value)
  {
    assert (q + t)[..4] == q;
    assert (q + t)[4..] == t;
  }

  /** A full group at the end of the text decodes as the final group. */
  lemma DecodeEncodeLastGroup(b0: byte, b1: byte, b2: byte)
    ensures Decode(Encode([b0, b1, b2])) == Some([b0, b1, b2])
  {
    var q := EncodeGroup(b0, b1, b2);
    assert [b0, b1, b2][3..] == [];
    assert Encode([b0, b1, b2]) == q;
    DecodeEncodeGroup(b0, b1, b2);
    assert DecodeFinalGroup(q) == DecodeGroup(q);
  }

  /** The inductive step: a leading full group decodes back to its three
      octets, ahead of the rest. */
  lemma DecodeEncodeStep(b: seq<byte>)
    requires |b| > 3 && Decode(Encode(b[3..])) == Some(b[3..])
    ensures Decode(Encode(b)) == Some(b)
  {
    var q := EncodeGroup(b[0], b[1], b[2]);
    var t := Encode(b[3..]);
    DecodeEncodeGroup(b[0], b[1], b[2]);
    assert Encode(b) == q + t;
    DecodeLeadingGroup(q, t);
    SplitGroup(b);
  }

  lemma SplitGroup(b: seq<byte>)
    requires |b| >= 3
    ensures b == [b[0], b[1], b[2]] + b[3..]
  {
  }

  lemma DecodeEncodeOne(b: seq<byte>)
    requires |b| == 1
    ensures Decode(Encode(b)) == Some(b)
  {
    DecodeEncodeFinal1(b[0]);
    assert b == [b[0]];
  }

  lemma DecodeEncodeTwo(b: seq<byte>)
    requires |b| == 2
    ensures Decode(Encode(b)) == Some(b)
  {
    DecodeEncodeFinal2(b[0], b[1]);
    assert b == [b[0], b[1]];
  }

  lemma DecodeEncodeThree(b: seq<byte>)
    requires |b| == 3
    ensures Decode(Encode(b)) == Some(b)
  {
    DecodeEncodeLastGroup(b[0], b[1], b[2]);
    assert b == [b[0], b[1], b[2]];
  }

  /** Decoding undoes encoding: every octet string survives the trip. */
  lemma {:induction false} DecodeEncode(b: seq<byte>)
    ensures Decode(Encode(b)) == Some(b)
    decreases |b|
  {
    if |b| == 1 {
      DecodeEncodeOne(b);
    } else if |b| == 2 {
      DecodeEncodeTwo(b);
    } else if |b| == 3 {
      DecodeEncodeThree(b);
    } else if |b| > 3 {
      DecodeEncode(b[3..]);
      DecodeEncodeStep(b);
    }
  }
}
