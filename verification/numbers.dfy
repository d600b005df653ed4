/**
  The numeric conversions the flattening step applies to attribute values:
  Python's `int(s)` and `float(s)` on decimal text, `int(x)` on a float, and
  `round(x, 2)`.

  Floats are modelled as exact `real`s: `float(s)` is the exact value of the
  decimal text and `round(x, 2)` rounds that exact value to the nearest
  hundredth, ties to even (the rule Python applies to the exact value of its
  argument). Binary floating point is not modelled.
 */
module Numbers {
  import opened Prelude

  predicate IsDigit(c: char) {
    '0' <= c <= '9'
  }

  predicate AllDigits(s: string) {
    forall i :: 0 <= i < |s| ==> IsDigit(s[i])
  }

  /** ASCII whitespace: space, and tab, line feed, vertical tab, form feed,
      carriage return. Python's number parsers also skip the other Unicode
      whitespace characters; this model does not. */
  predicate IsSpace(c: char) {
    c == ' ' || '\t' <= c <= '\r'
  }

  function DigitValue(c: char): (d: nat)
    requires IsDigit(c)
    ensures d < 10
  {
    c as int - '0' as int
  }

  function DigitChar(d: nat): (c: char)
    requires d < 10
    ensures IsDigit(c) && DigitValue(c) == d
  {
    ('0' as int + d) as char
  }

  /** The value of a string of decimal digits, most significant first. */
  function DigitsValue(s: string): nat
    requires AllDigits(s)
    decreases |s|
  {
    if |s| == 0 then 0 else DigitsValue(s[..|s| - 1]) * 10 + DigitValue(s[|s| - 1])
  }

  function Pow10(k: nat): (p: nat)
    ensures p >= 1
  {
    if k == 0 then 1 else 10 * Pow10(k - 1)
  }

  /** `m * 10^e` as an exact real, for an exponent of either sign. */
  function Scale(m: int, e: int): real {
    if e >= 0 then (m * Pow10(e)) as real else m as real / Pow10(-e) as real
  }

  function TrimLeft(s: string): (t: string)
    ensures |t| <= |s| && t == s[|s| - |t|..]
    ensures forall i :: 0 <= i < |s| - |t| ==> IsSpace(s[i])
    ensures |t| > 0 ==> !IsSpace(t[0])
    decreases |s|
  {
    if |s| > 0 && IsSpace(s[0]) then TrimLeft(s[1..]) else s
  }

  function TrimRight(s: string): (t: string)
    ensures |t| <= |s| && t == s[..|t|]
    ensures forall i :: |t| <= i < |s| ==> IsSpace(s[i])
    ensures |t| > 0 ==> !IsSpace(t[|t| - 1])
    decreases |s|
  {
    if |s| > 0 && IsSpace(s[|s| - 1]) then TrimRight(s[..|s| - 1]) else s
  }

  /** The text with surrounding whitespace removed, as `int()` and `float()`
      do before parsing: a contiguous piece of `s` with only whitespace
      around it, and no whitespace at either of its ends. */
  function Strip(s: string): (t: string)
    ensures |t| <= |s|
    ensures exists a :: SpaceAround(s, t, a)
    ensures |t| > 0 ==> !IsSpace(t[0]) && !IsSpace(t[|t| - 1])
  {
    var l := TrimLeft(s);
    var t := TrimRight(l);
    var a := |s| - |l|;
    assert t == s[a..a + |t|];
    assert SpaceAround(s, t, a);
    t
  }

  /** `t` occurs in `s` at offset `a` with only whitespace before and after. */
  predicate SpaceAround(s: string, t: string, a: int) {
    && 0 <= a && a + |t| <= |s| && t == s[a..a + |t|]
    && (forall i :: 0 <= i < a ==> IsSpace(s[i]))
    && (forall i :: a + |t| <= i < |s| ==> IsSpace(s[i]))
  }

  /** An optional leading sign: whether it was `-`, and the rest. */
  function SplitSign(s: string): (r: (bool, string))
    ensures r.1 == s || (|s| > 0 && r.1 == s[1..] && (s[0] == '+' || s[0] == '-'))
    ensures r.0 <==> |s| > 0 && s[0] == '-'
  {
    if |s| > 0 && (s[0] == '+' || s[0] == '-') then (s[0] == '-', s[1..]) else (false, s)
  }

  /** The text `int()` accepts once whitespace is stripped: an optional
      sign followed by one or more ASCII digits. */
  predicate IsIntegerText(t: string) {
    && |t| > 0
    && (IsDigit(t[0]) || (|t| > 1 && (t[0] == '+' || t[0] == '-')))
    && forall i :: 1 <= i < |t| ==> IsDigit(t[i])
  }

  /** `int(s)` for a decimal string: optional whitespace, an optional sign,
      one or more ASCII digits, optional whitespace. `None` where Python raises
      `ValueError`; only a `-` sign gives a negative value. */
  function ParseInt(s: string): (r: Option<int>)
    ensures r.Some? <==> IsIntegerText(Strip(s))
    ensures r.Some? && r.value < 0 ==> Strip(s)[0] == '-'
  {
    var (negative, digits) := SplitSign(Strip(s));
    if |digits| > 0 && AllDigits(digits) then
      Some(Signed(negative, DigitsValue(digits)))
    else None
  }

  function Signed(negative: bool, n: nat): int {
    if negative then -(n as int) else n
  }

  /** The canonical decimal text of a natural number (`str(n)`). */
  function ShowNat(n: nat): (s: string)
    ensures |s| > 0 && AllDigits(s)
    decreases n
  {
    if n < 10 then [DigitChar(n)] else ShowNat(n / 10) + [DigitChar(n % 10)]
  }

  /** The canonical decimal text of an integer (`str(i)`). */
  function ShowInt(i: int): string {
    if i < 0 then "-" + ShowNat(-i) else ShowNat(i)
  }

  lemma {:induction false} DigitsValueShowNat(n: nat)
    ensures DigitsValue(ShowNat(n)) == n
    decreases n
  {
    if n >= 10 {
      DigitsValueShowNat(n / 10);
      var s := ShowNat(n);
      assert s[..|s| - 1] == ShowNat(n / 10);
    }
  }

  lemma StripUnchanged(s: string)
    requires |s| > 0 && !IsSpace(s[0]) && !IsSpace(s[|s| - 1])
    ensures Strip(s) == s
  {
  }

  /** `int(str(i)) == i`: parsing inverts the canonical rendering. */
  lemma ParseIntShowInt(i: int)
    ensures ParseInt(ShowInt(i)) == Some(i)
  {
    var n: nat := if i < 0 then -i else i;
    var digits := ShowNat(n);
    DigitsValueShowNat(n);
    var s := ShowInt(i);
    assert s[|s| - 1] == digits[|digits| - 1];
    StripUnchanged(s);
    if i < 0 {
      assert s[0] == '-' && s[1..] == digits;
      assert SplitSign(s) == (true, digits);
    } else {
      assert SplitSign(s) == (false, digits);
    }
  }

  /** The length of the longest all-digit prefix. */
  function DigitRun(s: string): (n: nat)
    ensures n <= |s| && AllDigits(s[..n])
    ensures n < |s| ==> !IsDigit(s[n])
    decreases |s|
  {
    if |s| > 0 && IsDigit(s[0]) then
      var n := 1 + DigitRun(s[1..]);
      assert s[..n] == [s[0]] + s[1..][..n - 1];
      n
    else 0
  }

  /** An optional exponent part `e`/`E`, sign, digits; the empty text is
      exponent zero, anything else malformed. */
  function ParseExponent(t: string): Option<int> {
    if |t| == 0 then Some(0)
    else if t[0] == 'e' || t[0] == 'E' then
      var (negative, digits) := SplitSign(t[1..]);
      if |digits| > 0 && AllDigits(digits) then
        Some(Signed(negative, DigitsValue(digits)))
      else None
    else None
  }

  /** `float(s)` for decimal text: optional whitespace and sign, digits with
      an optional fraction (at least one digit in all, so `.5` and `5.` are
      accepted), an optional exponent, optional whitespace. The value is
      exact, so always a finite decimal. `None` where Python raises
      `ValueError`. */
  function ParseFloat(s: string): (r: Option<real>)
    ensures r.Some? ==> IsDecimal(r.value)
  {
    var (negative, body) := SplitSign(Strip(s));
    var magnitude :- ParseDecimal(body);
    NegatedDecimal(magnitude);
    Some(if negative then -magnitude else magnitude)
  }

  /** The unsigned part of `float()`'s text: digits, an optional point and
      digits, an optional exponent. */
  function ParseDecimal(body: string): (r: Option<real>)
    ensures r.Some? ==> IsDecimal(r.value)
  {
    var n1 := DigitRun(body);
    var whole := body[..n1];
    var afterWhole := body[n1..];
    var hasPoint := |afterWhole| > 0 && afterWhole[0] == '.';
    var afterPoint := if hasPoint then afterWhole[1..] else afterWhole;
    var n2 := if hasPoint then DigitRun(afterPoint) else 0;
    var fraction := afterPoint[..n2];
    if |whole| + |fraction| == 0 then None
    else
      var e :- ParseExponent(afterPoint[n2..]);
      ScaleIsDecimal(DigitsValue(whole + fraction), e - |fraction|);
      Some(Scale(DigitsValue(whole + fraction), e - |fraction|))
  }

  /** On integer text `float` agrees with `int`: `float(s) == int(s)`. */
  lemma ParseFloatOfInteger(s: string)
    requires ParseInt(s).Some?
    ensures ParseFloat(s) == Some(ParseInt(s).value as real)
  {
    var (negative, body) := SplitSign(Strip(s));
    IntegerBody(body);
  }

  /** Digits alone are read as the integer they spell. */
  lemma IntegerBody(body: string)
    requires |body| > 0 && AllDigits(body)
    ensures ParseDecimal(body) == Some(DigitsValue(body) as real)
  {
    DigitRunAll(body);
    assert body[..|body|] == body && body[|body|..] == "";
    assert body + "" == body;
  }

  /** `float("<w>.<ds>")`: a fraction is read as the digits it spells over a
      power of ten. */
  lemma ParseFloatFraction(w: nat, ds: string)
    requires |ds| > 0 && AllDigits(ds)
    ensures ParseFloat(ShowNat(w) + "." + ds) ==
      Some((w * Pow10(|ds|) + DigitsValue(ds)) as real / Pow10(|ds|) as real)
  {
    var whole := ShowNat(w);
    FractionText(whole, ds);
    DigitsValueShowNat(w);
    DigitsValueAppend(whole, ds);
    var d := DigitsValue(whole + ds);
    ScaleDown(d, |ds|);
    FractionValue(ParseFloat(whole + "." + ds), w, ds, d);
  }

  lemma FractionValue(x: Option<real>, w: nat, ds: string, d: int)
    requires |ds| > 0 && AllDigits(ds)
    requires x == Some(Scale(d, -|ds|))
    requires Scale(d, -|ds|) == d as real / Pow10(|ds|) as real
    requires d == w * Pow10(|ds|) + DigitsValue(ds)
    ensures x == Some((w * Pow10(|ds|) + DigitsValue(ds)) as real / Pow10(|ds|) as real)
  {
  }

  /** A negative exponent divides by a power of ten. */
  lemma ScaleDown(m: int, k: int)
    requires k > 0
    ensures Scale(m, -k) == m as real / Pow10(k) as real
  {
  }

  /** `float()` on digits, a point and digits: the digits as one integer,
      scaled down by the length of the fraction. */
  lemma FractionText(whole: string, ds: string)
    requires |whole| > 0 && AllDigits(whole) && |ds| > 0 && AllDigits(ds)
    ensures AllDigits(whole + ds)
    ensures ParseFloat(whole + "." + ds) == Some(Scale(DigitsValue(whole + ds), -|ds|))
  {
    var s := whole + "." + ds;
    assert s[|s| - 1] == ds[|ds| - 1];
    UnsignedText(s);
    FractionBody(whole, ds);
  }

  /** Text that starts and ends with a digit is read without stripping and
      without a sign. */
  lemma UnsignedText(s: string)
    requires |s| > 0 && IsDigit(s[0]) && IsDigit(s[|s| - 1])
    ensures ParseFloat(s) == ParseDecimal(s)
  {
    StripUnchanged(s);
    assert SplitSign(s) == (false, s);
  }

  lemma FractionBody(whole: string, ds: string)
    requires |whole| > 0 && AllDigits(whole) && |ds| > 0 && AllDigits(ds)
    ensures AllDigits(whole + ds)
    ensures ParseDecimal(whole + "." + ds) == Some(Scale(DigitsValue(whole + ds), -|ds|))
  {
    AllDigitsAppend(whole, ds);
    FractionParts(whole, ds);
    assert ParseExponent("") == Some(0);
  }

  /** How `whole + "." + ds` splits into the pieces `ParseDecimal` reads. */
  lemma FractionParts(whole: string, ds: string)
    requires AllDigits(whole) && AllDigits(ds)
    ensures var s := whole + "." + ds;
      && DigitRun(s) == |whole| && s[..|whole|] == whole && s[|whole|..] == "." + ds
      && ("." + ds)[1..] == ds && DigitRun(ds) == |ds| && ds[..|ds|] == ds && ds[|ds|..] == ""
  {
    assert whole + "." + ds == whole + ("." + ds);
    WholePart(whole, "." + ds);
    assert ("." + ds)[1..] == ds;
    DigitRunAll(ds);
    assert ds[..|ds|] == ds && ds[|ds|..] == "";
  }

  lemma WholePart(whole: string, rest: string)
    requires AllDigits(whole) && |rest| > 0 && !IsDigit(rest[0])
    ensures var s := whole + rest;
      DigitRun(s) == |whole| && s[..|whole|] == whole && s[|whole|..] == rest
  {
    DigitRunStops(whole, rest);
    var s := whole + rest;
    assert s[..|whole|] == whole;
    assert s[|whole|..] == rest;
  }

  /** `DigitRun` stops at the first character that is not a digit. */
  lemma {:induction false} DigitRunStops(d: string, rest: string)
    requires AllDigits(d) && |rest| > 0 && !IsDigit(rest[0])
    ensures DigitRun(d + rest) == |d|
    decreases |d|
  {
    if |d| > 0 {
      assert (d + rest)[1..] == d[1..] + rest;
      DigitRunStops(d[1..], rest);
    }
  }

  lemma {:induction false} DigitRunAll(d: string)
    requires AllDigits(d)
    ensures DigitRun(d) == |d|
    decreases |d|
  {
    if |d| > 0 {
      DigitRunAll(d[1..]);
    }
  }

  /** Appending digits shifts the value left: the value of `a + b` is
      `a`'s value times `10^|b|` plus `b`'s. */
  lemma {:induction false} DigitsValueAppend(a: string, b: string)
    requires AllDigits(a) && AllDigits(b)
    ensures AllDigits(a + b)
    ensures DigitsValue(a + b) == DigitsValue(a) * Pow10(|b|) + DigitsValue(b)
    decreases |b|
  {
    AllDigitsAppend(a, b);
    if |b| > 0 {
      var ab := a + b;
      var b' := b[..|b| - 1];
      assert ab[..|ab| - 1] == a + b';
      assert ab[|ab| - 1] == b[|b| - 1];
      AllDigitsAppend(a, b');
      DigitsValueAppend(a, b');
      ShiftDigit(DigitsValue(a), Pow10(|b'|), DigitsValue(b'), DigitValue(b[|b| - 1]));
    } else {
      assert a + b == a;
    }
  }

  lemma AllDigitsAppend(a: string, b: string)
    requires AllDigits(a) && AllDigits(b)
    ensures AllDigits(a + b)
  {
    assert forall i :: |a| <= i < |a + b| ==> (a + b)[i] == b[i - |a|];
  }

  lemma ShiftDigit(x: int, p: int, y: int, d: int)
    ensures (x * p + y) * 10 + d == x * (10 * p) + (y * 10 + d)
  {
  }

  /** Whether `y` is a whole number. */
  predicate IsWhole(y: real) {
    y.Floor as real == y
  }

  /** `x * 10^k`. */
  function Shift(x: real, k: nat): real {
    x * Pow10(k) as real
  }

  /** Whether `x` has a finite decimal expansion: `x * 10^k` is whole for
      some `k`. Every value decimal text denotes, and every binary float,
      is one. */
  ghost predicate IsDecimal(x: real) {
    exists k: nat :: IsWhole(Shift(x, k))
  }

  lemma ScaleIsDecimal(m: int, e: int)
    ensures IsDecimal(Scale(m, e))
  {
    if e >= 0 {
      IntegerIsDecimal(m * Pow10(e));
    } else {
      var k: nat := -e;
      var p := Pow10(k) as real;
      var q := m as real / p;
      assert Scale(m, e) == q;
      DivideThenMultiply(m as real, p);
      assert Shift(q, k) == m as real;
      assert (m as real).Floor == m;
      assert IsWhole(Shift(q, k));
    }
  }

  lemma DivideThenMultiply(a: real, p: real)
    requires p != 0.0
    ensures (a / p) * p == a
  {
  }

  lemma NegatedDecimal(x: real)
    requires IsDecimal(x)
    ensures IsDecimal(-x)
  {
    var k: nat :| IsWhole(Shift(x, k));
    var y := Shift(x, k);
    NegateProduct(x, Pow10(k) as real);
    assert Shift(-x, k) == -y;
    var n := y.Floor;
    assert y == n as real;
    assert (-y).Floor == -n;
    assert IsWhole(Shift(-x, k));
  }

  lemma NegateProduct(a: real, b: real)
    ensures (-a) * b == -(a * b)
  {
  }

  lemma IntegerIsDecimal(i: int)
    ensures IsDecimal(i as real)
  {
    assert Shift(i as real, 0) == i as real;
    assert (i as real).Floor == i;
    assert IsWhole(Shift(i as real, 0));
  }

  lemma CentsAreDecimal(x: real)
    requires IsCents(x)
    ensures IsDecimal(x)
  {
    assert Pow10(2) == 100 by {
      assert Pow10(1) == 10;
    }
    assert Shift(x, 2) == x * 100.0;
    assert IsWhole(Shift(x, 2));
  }

  /** `int(x)` for a float: truncation toward zero. */
  function TruncateTowardZero(x: real): (n: int)
    ensures 0.0 <= x ==> 0 <= n && n as real <= x < n as real + 1.0
    ensures x < 0.0 ==> n <= 0 && n as real - 1.0 < x <= n as real
  {
    if x >= 0.0 then x.Floor else -((-x).Floor)
  }

  /** Whether `x` is a whole number of hundredths. */
  predicate IsCents(x: real) {
    IsWhole(x * 100.0)
  }

  function Abs(x: real): real {
    if x < 0.0 then -x else x
  }

  /** The integer nearest to `y`, ties to the even one. */
  function RoundHalfEven(y: real): (k: int)
    ensures Abs(k as real - y) <= 0.5
    ensures Abs(k as real - y) == 0.5 ==> k % 2 == 0
  {
    var f := y.Floor;
    var d := y - f as real;
    if d < 0.5 then f else if d > 0.5 then f + 1 else if f % 2 == 0 then f else f + 1
  }

  /** No integer is strictly closer to `y` than `RoundHalfEven(y)`. */
  lemma RoundHalfEvenNearest(y: real, k: int)
    ensures Abs(RoundHalfEven(y) as real - y) <= Abs(k as real - y)
  {
    var f := y.Floor;
    if k <= f {
      assert Abs(k as real - y) >= y - f as real;
    } else {
      assert Abs(k as real - y) >= f as real + 1.0 - y;
    }
  }

  /** `round(x, 2)`: the nearest whole number of hundredths, ties to the
      even neighbour. */
  function Round2(x: real): (r: real)
    ensures IsCents(r)
    ensures -0.005 <= r - x <= 0.005
  {
    var k := RoundHalfEven(x * 100.0);
    DivideThenMultiply(k as real, 100.0);
    assert (k as real).Floor == k;
    k as real / 100.0
  }

  /** No whole number of hundredths is strictly closer to `x` than `Round2(x)`,
      and at an exact tie the chosen neighbour is the even one. */
  lemma Round2Nearest(x: real, c: real)
    requires IsCents(c)
    ensures Abs(Round2(x) - x) <= Abs(c - x)
    ensures Abs(Round2(x) - x) == 0.005 ==> (Round2(x) * 100.0).Floor % 2 == 0
  {
    var y := x * 100.0;
    var kr := RoundHalfEven(y);
    var kc := (c * 100.0).Floor;
    RoundHalfEvenNearest(y, kc);
    var r := Round2(x);
    assert r * 100.0 == kr as real;
    assert c * 100.0 == kc as real;
    assert Abs(r - x) * 100.0 == Abs(kr as real - y);
    assert Abs(c - x) * 100.0 == Abs(kc as real - y);
  }

  /** Rounding a whole number of hundredths changes nothing, so rounding
      twice is rounding once. */
  lemma Round2OfCents(x: real)
    requires IsCents(x)
    ensures Round2(x) == x
  {
  }

  lemma Round2Idempotent(x: real)
    ensures Round2(Round2(x)) == Round2(x)
  {
    Round2OfCents(Round2(x));
  }
}
