/**
 * Decimal digit strings and the finite decimal literals Python's `float()` and `int()`
 * accept: `[sign] digits [. digits] [e [sign] digits]`, surrounded by optional whitespace.
 */
module Decimal {
  import opened Outcomes
  import opened Text

  predicate IsDigit(c: char)
  {
    '0' <= c <= '9'
  }

  predicate AllDigits(s: string)
  {
    forall i :: 0 <= i < |s| ==> IsDigit(s[i])
  }

  /** The value of a string of decimal digits (0 for the empty string). */
  function DigitsValue(s: string): nat
    requires AllDigits(s)
  {
    if s == [] then 0 else 10 * DigitsValue(s[..|s| - 1]) + (s[|s| - 1] as int - '0' as int)
  }

  function Pow10(n: nat): (r: nat)
    ensures r >= 1
  {
    if n == 0 then 1 else 10 * Pow10(n - 1)
  }

  /** Python's `str(n)` for a non-negative int. */
  function NatToString(n: nat): (s: string)
    ensures |s| >= 1 && AllDigits(s)
    ensures DigitsValue(s) == n
  {
    if n < 10 then [('0' as int + n) as char]
    else
      var s := NatToString(n / 10) + [('0' as int + n % 10) as char];
      assert s[..|s| - 1] == NatToString(n / 10);
      s
  }

  /** Python's `str(i)` for an int. */
  function IntToString(i: int): string
  {
    if i < 0 then "-" + NatToString(-i) else NatToString(i)
  }

  function Abs(i: int): nat
  {
    if i < 0 then -i else i
  }

  /** A finite decimal `mantissa * 10^exponent`. */
  datatype Dec = Dec(mantissa: int, exponent: int)

  /** Index of the first character of `s` at or after `k` satisfying `e`/`E`, else `|s|`. */
  function ExpMarker(s: string, k: nat): (r: nat)
    requires k <= |s|
    decreases |s| - k
    ensures k <= r <= |s|
    ensures r < |s| ==> s[r] == 'e' || s[r] == 'E'
    ensures forall j :: k <= j < r ==> s[j] != 'e' && s[j] != 'E'
  {
    if k == |s| || s[k] == 'e' || s[k] == 'E' then k else ExpMarker(s, k + 1)
  }

  /** Index of the first `.` in `s` at or after `k`, else `|s|`. */
  function DotMarker(s: string, k: nat): (r: nat)
    requires k <= |s|
    decreases |s| - k
    ensures k <= r <= |s|
    ensures r < |s| ==> s[r] == '.'
    ensures forall j :: k <= j < r ==> s[j] != '.'
  {
    if k == |s| || s[k] == '.' then k else DotMarker(s, k + 1)
  }

  /** An optional sign: whether it was `-`, and the rest. */
  function SplitSign(t: string): (bool, string)
  {
    if |t| > 0 && (t[0] == '+' || t[0] == '-') then (t[0] == '-', t[1..]) else (false, t)
  }

  /** `[sign] digits`, at least one digit. */
  function ParseSignedDigits(t: string): Option<int>
  {
    var (neg, body) := SplitSign(t);
    if |body| > 0 && AllDigits(body) then
      Some(if neg then -(DigitsValue(body) as int) else DigitsValue(body))
    else None
  }

  /** `intPart [. fracPart]` with at least one digit in all. */
  function ParseMantissa(m: string): Option<Dec>
  {
    var d := DotMarker(m, 0);
    var intPart := m[..d];
    var fracPart := if d < |m| then m[d + 1..] else "";
    if AllDigits(intPart) && AllDigits(fracPart) && |intPart| + |fracPart| > 0 then
      Some(Dec(DigitsValue(intPart + fracPart), -|fracPart|))
    else None
  }

  /** Scales a mantissa by an optional exponent. */
  function WithExponent(mant: Option<Dec>, exp: Option<int>): Option<Dec>
  {
    if mant.Some? && exp.Some? then Some(Dec(mant.value.mantissa, mant.value.exponent + exp.value)) else None
  }

  /** Negates a parsed value when the literal carried a `-`. */
  function ApplySign(neg: bool, d: Option<Dec>): Option<Dec>
  {
    if neg && d.Some? then Some(Dec(-d.value.mantissa, d.value.exponent)) else d
  }

  /** An unsigned literal: mantissa and optional exponent. */
  function ParseUnsigned(body: string): Option<Dec>
  {
    var e := ExpMarker(body, 0);
    WithExponent(ParseMantissa(body[..e]), if e < |body| then ParseSignedDigits(body[e + 1..]) else Some(0))
  }

  /** The finite decimal literals `float()` accepts (ASCII digits, no `_` separators). */
  function ParseNumber(s: string): Option<Dec>
  {
    var t := SplitSign(Strip(s));
    ApplySign(t.0, ParseUnsigned(t.1))
  }

  /** The integer literals `int()` accepts for a string (ASCII digits, no `_` separators). */
  function ParseInteger(s: string): Option<int>
  {
    ParseSignedDigits(Strip(s))
  }

  /** Lower-case ASCII letters, as needed for Python's case-insensitive `inf`/`nan`. */
  function Lower(s: string): (r: string)
    ensures |r| == |s|
  {
    if s == [] then [] else [if 'A' <= s[0] <= 'Z' then (s[0] as int + 32) as char else s[0]] + Lower(s[1..])
  }

  /** Drops the last `k` decimal digits of `m` (floor division by `10^k`). */
  function DropDigits(m: nat, k: nat): nat
  {
    if k == 0 then m else DropDigits(m / 10, k - 1)
  }

  /** `int(x)` of a finite decimal: truncation toward zero. */
  function Truncate(d: Dec): int
  {
    if d.exponent >= 0 then d.mantissa * Pow10(d.exponent)
    else if d.mantissa >= 0 then DropDigits(d.mantissa, -d.exponent)
    else -(DropDigits(-d.mantissa, -d.exponent) as int)
  }

  lemma Mul10Assoc(x: int, y: int)
    ensures 10 * (x * y) == x * (10 * y)
  {
  }

  lemma {:induction false} DigitsValueAppend(a: string, b: string)
    requires AllDigits(a) && AllDigits(b)
    ensures AllDigits(a + b)
    ensures DigitsValue(a + b) == DigitsValue(a) * Pow10(|b|) + DigitsValue(b)
    decreases |b|
  {
    if b == [] {
      assert a + b == a;
    } else {
      var b' := b[..|b| - 1];
      var c := b[|b| - 1] as int - '0' as int;
      assert (a + b)[..|a + b| - 1] == a + b';
      assert (a + b)[|a + b| - 1] == b[|b| - 1];
      DigitsValueAppend(a, b');
      var x, p, y := DigitsValue(a), Pow10(|b'|), DigitsValue(b');
      assert DigitsValue(a + b) == 10 * (x * p + y) + c;
      assert DigitsValue(b) == 10 * y + c;
      assert Pow10(|b|) == 10 * p;
      Mul10Assoc(x, p);
    }
  }

  lemma {:induction false} DigitsValueBound(s: string)
    requires AllDigits(s)
    ensures DigitsValue(s) < Pow10(|s|)
    decreases |s|
  {
    if s != [] {
      DigitsValueBound(s[..|s| - 1]);
    }
  }

  lemma {:induction false} Pow10Mono(a: nat, b: nat)
    requires a <= b
    ensures Pow10(a) <= Pow10(b)
    decreases b
  {
    if a < b {
      Pow10Mono(a, b - 1);
    }
  }

  lemma {:induction false} DropDigitsOfShifted(v: nat, f: nat, k: nat)
    requires f < Pow10(k)
    ensures DropDigits(v * Pow10(k) + f, k) == v
    decreases k
  {
    if k > 0 {
      var p := Pow10(k - 1);
      Mul10Assoc(v, p);
      assert v * Pow10(k) + f == 10 * (v * p) + f;
      assert (10 * (v * p) + f) / 10 == v * p + f / 10;
      DropDigitsOfShifted(v, f / 10, k - 1);
    }
  }

  lemma {:induction false} RStripNoSpace(t: string)
    requires forall i :: 0 <= i < |t| ==> !IsSpace(t[i])
    ensures RStripSpace(t) == t
  {
  }

  lemma {:induction false} StripNoSpace(t: string)
    requires forall i :: 0 <= i < |t| ==> !IsSpace(t[i])
    ensures Strip(t) == t
  {
    RStripNoSpace(t);
  }

  lemma {:induction false} NoExpMarker(s: string, k: nat)
    requires k <= |s|
    requires forall j :: k <= j < |s| ==> s[j] != 'e' && s[j] != 'E'
    ensures ExpMarker(s, k) == |s|
    decreases |s| - k
  {
    if k < |s| {
      NoExpMarker(s, k + 1);
    }
  }

  lemma {:induction false} DotMarkerAt(s: string, k: nat, d: nat)
    requires k <= d <= |s|
    requires forall j :: k <= j < d ==> s[j] != '.'
    requires d == |s| || s[d] == '.'
    ensures DotMarker(s, k) == d
    decreases d - k
  {
    if k < d {
      DotMarkerAt(s, k + 1, d);
    }
  }

  lemma DigitsAreNotMarkers(s: string)
    requires AllDigits(s)
    ensures forall i :: 0 <= i < |s| ==> !IsSpace(s[i]) && s[i] != 'e' && s[i] != 'E' && s[i] != '.'
    ensures forall i :: 0 <= i < |s| ==> s[i] != '-' && s[i] != '+'
  {
  }

  /** A literal without exponent is read by its mantissa alone. */
  lemma {:induction false} ParseUnsignedPlain(m: string)
    requires forall i :: 0 <= i < |m| ==> m[i] != 'e' && m[i] != 'E'
    ensures ParseUnsigned(m) == ParseMantissa(m)
  {
    NoExpMarker(m, 0);
    assert m[..|m|] == m;
  }

  /** A signed literal without surrounding whitespace: the sign is split off first. */
  lemma {:induction false} ParseNumberSigned(t: string, neg: bool, m: string)
    requires |m| > 0 && m[0] != '-' && m[0] != '+'
    requires forall i :: 0 <= i < |m| ==> !IsSpace(m[i])
    requires t == if neg then "-" + m else m
    ensures ParseNumber(t) == ApplySign(neg, ParseUnsigned(m))
  {
    SignedNoSpace(t, neg, m);
    StripNoSpace(t);
    assert SplitSign(t) == (neg, m) by {
      if neg {
        assert t[1..] == m;
      }
    }
  }

  /** A sign put before a text without whitespace adds none. */
  lemma SignedNoSpace(t: string, neg: bool, m: string)
    requires forall i :: 0 <= i < |m| ==> !IsSpace(m[i])
    requires t == if neg then "-" + m else m
    ensures forall i :: 0 <= i < |t| ==> !IsSpace(t[i])
  {
    forall i | 0 <= i < |t| ensures !IsSpace(t[i]) {
      if neg && i > 0 {
        assert t[i] == m[i - 1];
      }
    }
  }

  /** A plain string of digits is a mantissa without fraction. */
  lemma DigitsMantissa(digits: string)
    requires |digits| > 0 && AllDigits(digits)
    ensures ParseMantissa(digits) == Some(Dec(DigitsValue(digits), 0))
  {
    DigitsAreNotMarkers(digits);
    DotMarkerAt(digits, 0, |digits|);
    var d := DotMarker(digits, 0);
    var intPart := digits[..d];
    assert intPart == digits;
    assert intPart + "" == digits;
  }

  /** A plain string of digits is an unsigned literal with no fraction and no exponent. */
  lemma DigitsParseUnsigned(digits: string)
    requires |digits| > 0 && AllDigits(digits)
    ensures ParseUnsigned(digits) == Some(Dec(DigitsValue(digits), 0))
  {
    DigitsAreNotMarkers(digits);
    ParseUnsignedPlain(digits);
    DigitsMantissa(digits);
  }

  /** A plain string of digits reads back as its value. */
  lemma DigitsParse(digits: string)
    requires |digits| > 0 && AllDigits(digits)
    ensures ParseNumber(digits) == Some(Dec(DigitsValue(digits), 0))
  {
    DigitsParseUnsigned(digits);
    DigitsAreNotMarkers(digits);
    ParseNumberSigned(digits, false, digits);
  }

  /** `str(n)`, read as a decimal literal, has the exact value `n`. */
  lemma IntToStringParses(n: int)
    ensures ParseNumber(IntToString(n)) == Some(Dec(n, 0))
  {
    var v: nat := if n < 0 then -n else n;
    var digits := NatToString(v);
    DigitsParseUnsigned(digits);
    DigitsAreNotMarkers(digits);
    ParseNumberSigned(IntToString(n), n < 0, digits);
  }

  /** A sign followed by digits splits into the sign and the digits. */
  lemma SplitSignOfDigits(neg: bool, digits: string, t: string)
    requires |digits| > 0 && AllDigits(digits)
    requires t == if neg then "-" + digits else digits
    ensures SplitSign(t) == (neg, digits)
    ensures forall i :: 0 <= i < |t| ==> !IsSpace(t[i])
  {
    DigitsAreNotMarkers(digits);
    if neg {
      assert t[1..] == digits;
      forall i | 0 <= i < |t| ensures !IsSpace(t[i]) {
        if i > 0 {
          assert t[i] == digits[i - 1];
        }
      }
    }
  }

  /** `int(str(n))` gives `n` back. */
  lemma IntToStringIsInteger(n: int)
    ensures ParseInteger(IntToString(n)) == Some(n)
  {
    var v: nat := if n < 0 then -n else n;
    var digits := NatToString(v);
    var t := IntToString(n);
    SplitSignOfDigits(n < 0, digits, t);
    StripNoSpace(t);
    assert ParseInteger(t) == ParseSignedDigits(t);
    assert DigitsValue(digits) == v;
  }

  lemma MantissaWithFraction(digits: string, frac: string)
    requires |digits| > 0 && AllDigits(digits) && AllDigits(frac)
    ensures AllDigits(digits + frac)
    ensures ParseMantissa(digits + "." + frac) == Some(Dec(DigitsValue(digits + frac), -|frac|))
  {
    var m := digits + "." + frac;
    PointAfterDigits(digits, frac);
    assert m[..|digits|] == digits && m[|digits| + 1..] == frac;
    DigitsConcat(digits, frac);
  }

  /** In digits, a point and more digits, the point found is the one after the first digits. */
  lemma PointAfterDigits(digits: string, frac: string)
    requires AllDigits(digits)
    ensures DotMarker(digits + "." + frac, 0) == |digits|
  {
    var m := digits + "." + frac;
    DigitsAreNotMarkers(digits);
    forall j | 0 <= j < |digits| ensures m[j] != '.' {
      assert m[j] == digits[j];
    }
    DotMarkerAt(m, 0, |digits|);
  }

  /** Two runs of digits make one. */
  lemma DigitsConcat(a: string, b: string)
    requires AllDigits(a) && AllDigits(b)
    ensures AllDigits(a + b)
  {
    forall j | 0 <= j < |a + b| ensures IsDigit((a + b)[j]) {
      if j >= |a| {
        assert (a + b)[j] == b[j - |a|];
      }
    }
  }

  /** Digits, a point and more digits read back as an exact decimal. */
  lemma FractionParses(digits: string, frac: string)
    requires |digits| > 0 && AllDigits(digits) && AllDigits(frac)
    ensures AllDigits(digits + frac)
    ensures ParseUnsigned(digits + "." + frac) == Some(Dec(DigitsValue(digits + frac), -|frac|))
  {
    NoExponentInFraction(digits, frac);
    MantissaWithFraction(digits, frac);
    ParseUnsignedPlain(digits + "." + frac);
  }

  /** Digits, a point and more digits hold no exponent marker. */
  lemma NoExponentInFraction(digits: string, frac: string)
    requires AllDigits(digits) && AllDigits(frac)
    ensures forall i :: 0 <= i < |digits + "." + frac| ==> (digits + "." + frac)[i] != 'e' && (digits + "." + frac)[i] != 'E'
  {
    var m := digits + "." + frac;
    forall i | 0 <= i < |m| ensures m[i] != 'e' && m[i] != 'E' {
      if i < |digits| {
        assert m[i] == digits[i];
      } else if i > |digits| {
        assert m[i] == frac[i - |digits| - 1];
      }
    }
  }

  /** Dropping the `k` fractional digits of `v.f` leaves `v`, on both signs. */
  lemma TruncateShifted(v: nat, f: nat, k: nat, mant: nat, neg: bool)
    requires k > 0 && f < Pow10(k) && mant == v * Pow10(k) + f
    ensures Truncate(Dec(if neg then -(mant as int) else mant as int, -(k as int))) == if neg then -(v as int) else v as int
  {
    DropDigitsOfShifted(v, f, k);
  }

  /** A signed `digits.frac` literal is read as the signed digits of `digits + frac`. */
  lemma SignedFractionParses(neg: bool, digits: string, frac: string, t: string)
    requires |digits| > 0 && AllDigits(digits) && AllDigits(frac)
    requires t == if neg then "-" + (digits + "." + frac) else digits + "." + frac
    ensures AllDigits(digits + frac)
    ensures ParseNumber(t) == ApplySign(neg, Some(Dec(DigitsValue(digits + frac), -|frac|)))
  {
    var m := digits + "." + frac;
    assert forall i :: 0 <= i < |m| ==> !IsSpace(m[i]) by {
      forall i | 0 <= i < |m| ensures !IsSpace(m[i]) {
        if i < |digits| {
          assert m[i] == digits[i];
        } else if i > |digits| {
          assert m[i] == frac[i - |digits| - 1];
        }
      }
    }
    assert m[0] == digits[0];
    FractionParses(digits, frac);
    ParseNumberSigned(t, neg, m);
  }

  /** The exact value of `±digits.frac` truncates to `±digits`. */
  lemma {:induction false} TruncateFraction(neg: bool, digits: string, frac: string)
    requires AllDigits(digits) && |frac| > 0 && AllDigits(frac)
    ensures AllDigits(digits + frac)
    ensures ApplySign(neg, Some(Dec(DigitsValue(digits + frac), -|frac|))).Some?
    ensures Truncate(ApplySign(neg, Some(Dec(DigitsValue(digits + frac), -|frac|))).value)
         == if neg then -(DigitsValue(digits) as int) else DigitsValue(digits) as int
  {
    DigitsValueAppend(digits, frac);
    DigitsValueBound(frac);
    TruncateShifted(DigitsValue(digits), DigitsValue(frac), |frac|, DigitsValue(digits + frac), neg);
  }

  /** A signed `digits.frac` literal truncates to its signed integer part. */
  lemma SignedFractionTruncates(neg: bool, digits: string, frac: string, t: string)
    requires |digits| > 0 && AllDigits(digits) && |frac| > 0 && AllDigits(frac)
    requires t == if neg then "-" + (digits + "." + frac) else digits + "." + frac
    ensures ParseNumber(t).Some?
    ensures Truncate(ParseNumber(t).value) == if neg then -(DigitsValue(digits) as int) else DigitsValue(digits) as int
  {
    SignedFractionParses(neg, digits, frac, t);
    TruncateFraction(neg, digits, frac);
  }

  /** The exact value of the literal `<n>.<frac>` truncates toward zero to `n`, on both signs. */
  lemma DecimalTruncates(n: int, frac: string)
    requires |frac| > 0 && AllDigits(frac)
    ensures ParseNumber(IntToString(n) + "." + frac).Some?
    ensures Truncate(ParseNumber(IntToString(n) + "." + frac).value) == n
  {
    var v: nat := if n < 0 then -n else n;
    var digits := NatToString(v);
    var t := IntToString(n) + "." + frac;
    assert t == if n < 0 then "-" + (digits + "." + frac) else digits + "." + frac;
    SignedFractionTruncates(n < 0, digits, frac, t);
  }

  /** A signed `digits.frac` literal has `|frac|` fractional digits and `|digits| + |frac|` digits in all. */
  lemma SignedFractionDigits(neg: bool, digits: string, frac: string, t: string)
    requires |digits| > 0 && AllDigits(digits) && |frac| > 0 && AllDigits(frac)
    requires t == if neg then "-" + (digits + "." + frac) else digits + "." + frac
    ensures ParseNumber(t).Some? && ParseNumber(t).value.exponent == -|frac|
    ensures Abs(ParseNumber(t).value.mantissa) < Pow10(|digits| + |frac|)
  {
    SignedFractionParses(neg, digits, frac, t);
    BoundOfConcat(digits, frac);
  }

  lemma BoundOfConcat(a: string, b: string)
    requires AllDigits(a) && AllDigits(b)
    ensures AllDigits(a + b) && DigitsValue(a + b) < Pow10(|a| + |b|)
  {
    DigitsConcat(a, b);
    DigitsValueBound(a + b);
  }
}
