/**
 * Decoded JSON values as the scripts see them after `json.loads`, with the few pieces of
 * Python semantics they depend on: `dict.get`, truthiness, `or`, `str()` and `repr()`,
 * `int()`, `float()` and the `_as_int` coercion.
 */
module PyValues {
  import opened Outcomes
  import opened Text
  import opened Decimal
  import opened Binary64

  /**
   * A JSON value; a float carries the text Python's `repr` prints for it, and an object
   * lists its keys in insertion order in `order`, each key once.
   */
  datatype Value =
    | Null
    | Bool(b: bool)
    | Int(i: int)
    | Float(repr: string)
    | Str(s: string)
    | List(items: seq<Value>)
    | Object(fields: map<string, Value>, order: seq<string>)

  /** An object's `order` lists each of its keys exactly once, as a decoded JSON object's does. */
  ghost predicate KeysOrdered(v: Value)
  {
    v.Object? ==>
      (forall k :: k in v.fields <==> k in v.order) &&
      forall i, j :: 0 <= i < j < |v.order| ==> v.order[i] != v.order[j]
  }

  /** A decoded JSON object (a Python `dict` with string keys). */
  type Dict = map<string, Value>

  /** `d.get(k)`: a missing key reads as `None`, exactly like a stored `null`. */
  function Get(d: Dict, k: string): (v: Value)
    ensures k !in d ==> v == Null
    ensures k in d ==> v == d[k]
  {
    if k in d then d[k] else Null
  }

  /** `d.get(k, default)`: the default only when the key is missing. */
  function GetOr(d: Dict, k: string, default: Value): (v: Value)
    ensures k !in d ==> v == default
    ensures k in d ==> v == d[k]
  {
    if k in d then d[k] else default
  }

  /** `(v or "").strip()`: `None` where `.strip` raises, that is for a truthy value that is no string. */
  function StrippedOrEmpty(v: Value): (r: Option<string>)
    ensures r.None? <==> Truthy(v) && !v.Str?
    ensures v.Str? ==> r == Some(Strip(v.s))
    ensures !Truthy(v) ==> r == Some("")
  {
    if !Truthy(v) then Some("")
    else if v.Str? then Some(Strip(v.s))
    else None
  }

  /** A float's text denotes zero (`0.0`, `-0.0`, `0e5`). */
  predicate IsZeroText(r: string)
  {
    var d := ParseNumber(r);
    d.Some? && d.value.mantissa == 0
  }

  /** Python truthiness. */
  predicate Truthy(v: Value)
  {
    match v
    case Null => false
    case Bool(b) => b
    case Int(i) => i != 0
    case Float(r) => r != "" && !IsZeroText(r)
    case Str(s) => s != ""
    case List(items) => items != []
    case Object(fields, _) => fields != map[]
  }

  /** Python's `a or b`: `a` when truthy, else `b`. */
  function Or(a: Value, b: Value): (r: Value)
    ensures Truthy(a) ==> r == a
    ensures !Truthy(a) ==> r == b
  {
    if Truthy(a) then a else b
  }

  /** The quote `repr` puts around `s`: double quotes when `s` holds a single quote and no double quote. */
  function QuoteFor(s: string): char
  {
    if '\'' in s && '"' !in s then '"' else '\''
  }

  /** The characters `repr` shows as `\xhh`: ASCII controls other than tab and line breaks, DEL, C1 controls, no-break space and soft hyphen. */
  predicate HexEscaped(c: char)
  {
    (c as int < 0x20 && c != '\t' && c != '\n' && c != '\r') || 0x7f <= c as int <= 0xa0 || c as int == 0xad
  }

  /** A lower-case hexadecimal digit. */
  function HexDigit(n: nat): char
    requires n < 16
  {
    if n < 10 then ('0' as int + n) as char else ('a' as int + n - 10) as char
  }

  /** One character of a string as `repr` writes it between the quotes `q`. */
  function EscapeChar(c: char, q: char): string
  {
    if c == q || c == '\\' then ['\\', c]
    else if c == '\t' then "\\t"
    else if c == '\n' then "\\n"
    else if c == '\r' then "\\r"
    else if HexEscaped(c) then ['\\', 'x', HexDigit(c as int / 16), HexDigit(c as int % 16)]
    else [c]
  }

  function Escaped(s: string, q: char): string
  {
    if s == [] then [] else EscapeChar(s[0], q) + Escaped(s[1..], q)
  }

  /** Python's `repr(s)` of a string. */
  function StrRepr(s: string): (r: string)
    ensures |r| >= 2 && r[0] == QuoteFor(s) && r[|r| - 1] == QuoteFor(s)
    ensures r[1..|r| - 1] == Escaped(s, QuoteFor(s))
  {
    [QuoteFor(s)] + Escaped(s, QuoteFor(s)) + [QuoteFor(s)]
  }

  /** The value of a hexadecimal digit. */
  function HexValue(c: char): nat
  {
    if '0' <= c <= '9' then c as int - '0' as int
    else if 'a' <= c <= 'f' then c as int - 'a' as int + 10
    else 0
  }

  /** How Python reads the text between the quotes of a string literal back: escapes become the characters they name. */
  function Unescape(t: string): string
    decreases |t|
  {
    if t == [] then []
    else if t[0] != '\\' || |t| == 1 then [t[0]] + Unescape(t[1..])
    else if t[1] == 't' then "\t" + Unescape(t[2..])
    else if t[1] == 'n' then "\n" + Unescape(t[2..])
    else if t[1] == 'r' then "\r" + Unescape(t[2..])
    else if t[1] == 'x' && |t| >= 4 then [(16 * HexValue(t[2]) + HexValue(t[3])) as char] + Unescape(t[4..])
    else [t[1]] + Unescape(t[2..])
  }

  /** `str(v)` when `nested` is false; the text of `v` inside a list's or dict's `str`, that is `repr(v)`, when true. */
  function Render(v: Value, nested: bool): string
    decreases v
  {
    match v
    case Null => "None"
    case Bool(b) => if b then "True" else "False"
    case Int(i) => IntToString(i)
    case Float(r) => r
    case Str(s) => if nested then StrRepr(s) else s
    case List(items) => "[" + Join(seq(|items|, k requires 0 <= k < |items| => Render(items[k], true)), ", ") + "]"
    case Object(fields, order) =>
      "{" + Join(seq(|order|, k requires 0 <= k < |order| =>
        StrRepr(order[k]) + ": " + if order[k] in fields then Render(fields[order[k]], true) else "None"), ", ") + "}"
  }

  /** Python's `str(v)`. */
  function ToStr(v: Value): (s: string)
    ensures v.Str? ==> s == v.s
  {
    Render(v, false)
  }

  /**
   * What `str()` prints reads back: an int's text is that int's literal, a string prints as
   * itself, a list is bracketed and a dict braced.
   */
  lemma ToStrReadsBack(v: Value)
    ensures v.Int? ==> ParseInteger(ToStr(v)) == Some(v.i)
    ensures v.Str? ==> ToStr(v) == v.s
    ensures v.List? || v.Object? ==> |ToStr(v)| >= 2
    ensures v.List? ==> ToStr(v)[0] == '[' && ToStr(v)[|ToStr(v)| - 1] == ']'
    ensures v.Object? ==> ToStr(v)[0] == '{' && ToStr(v)[|ToStr(v)| - 1] == '}'
  {
    if v.Int? {
      IntToStringIsInteger(v.i);
    }
  }

  /** What Python's `float(x)` produces, when it does not raise. */
  datatype PyFloat =
    | Finite(d: Dec)        // the exact decimal value; rounding to the nearest double is not modelled
    | Inf(negative: bool)
    | NaN

  /**
   * `float(t)` of a string: a finite literal beyond the double range becomes an infinity and
   * one too small to be told from zero becomes zero; `inf`, `infinity` and `nan`, in any case
   * and with an optional sign, are the non-finite values; any other text raises.
   */
  function FloatText(t: string): (r: Option<PyFloat>)
    ensures ParseNumber(t).Some? ==> r.Some?
    ensures r.Some? && r.value.Finite? ==> ParseNumber(t).Some? && !Overflows(ParseNumber(t).value)
    ensures ParseNumber(t).Some? && Overflows(ParseNumber(t).value) ==> r == Some(Inf(ParseNumber(t).value.mantissa < 0))
  {
    match ParseNumber(t)
    case Some(d) =>
      if Overflows(d) then Some(Inf(d.mantissa < 0))
      else if Underflows(d) then Some(Finite(Dec(0, 0)))
      else Some(Finite(d))
    case None =>
      var (neg, body) := SplitSign(Strip(t));
      if Lower(body) == "nan" then Some(NaN)
      else if Lower(body) == "inf" || Lower(body) == "infinity" then Some(Inf(neg))
      else None
  }

  /** `int(float(t))`: the value truncated toward zero; `None` where either conversion raises, infinities and nan included. */
  function TruncText(t: string): (r: Option<int>)
    ensures r.Some? <==> ParseNumber(t).Some? && !Overflows(ParseNumber(t).value)
  {
    match FloatText(t)
    case Some(Finite(d)) => Some(Truncate(d))
    case _ => None
  }

  /**
   * `_as_int(x)`: `None` stays `None`, bools and ints convert, a float truncates toward zero
   * (nan and infinities fail), anything else goes through `int(float(str(x)))`, and every
   * failure is `None`.
   */
  function AsInt(v: Value): (r: Option<int>)
    ensures v.Null? ==> r.None?
    ensures v.Bool? ==> r == Some(if v.b then 1 else 0)
    ensures v.Int? ==> r == Some(v.i)
    ensures v.List? || v.Object? ==> r.None?
  {
    match v
    case Null => None
    case Bool(b) => Some(if b then 1 else 0)
    case Int(i) => Some(i)
    case Float(r) => TruncText(r)
    case Str(s) => TruncText(ToStr(v))
    case _ =>
      ToStrReadsBack(v);
      BracketedNotNumber(ToStr(v));
      TruncText(ToStr(v))
  }

  /** Python's `float(x)` for a decoded JSON value: `None` where it raises. */
  function FloatOf(v: Value): (r: Option<PyFloat>)
    ensures v.Null? || v.List? || v.Object? ==> r.None?
    ensures v.Int? ==> (r.None? <==> Overflows(Dec(v.i, 0)))
    ensures v.Int? && Abs(v.i) <= MaxExact ==> r == Some(Finite(Dec(v.i, 0)))
  {
    match v
    case Bool(b) => Some(Finite(Dec(if b then 1 else 0, 0)))
    case Int(i) =>
      assert Abs(i) <= MaxExact ==> !Overflows(Dec(i, 0)) by {
        if Abs(i) <= MaxExact {
          SmallDoesNotOverflow(Dec(i, 0));
        }
      }
      if Overflows(Dec(i, 0)) then None else Some(Finite(Dec(i, 0)))
    case Float(t) => FloatText(t)
    case Str(t) => FloatText(t)
    case _ => None
  }

  /** `x > 0` for a converted float. */
  predicate Positive(f: PyFloat)
  {
    (f.Finite? && f.d.mantissa > 0) || f == Inf(false)
  }

  /** A literal whose value is zero converts to a float that is not positive. */
  lemma ZeroIsNotPositive(t: string, e: int)
    requires ParseNumber(t) == Some(Dec(0, e))
    ensures FloatText(t) == Some(Finite(Dec(0, e))) && !Positive(Finite(Dec(0, e)))
    ensures FloatOf(Float(t)) == Some(Finite(Dec(0, e)))
  {
    ZeroInRange(e);
  }

  /** Python's `int(x)`: strings must be integer literals; floats truncate; `None`, lists, dicts raise. */
  function PyInt(v: Value): (r: Option<int>)
    ensures v.Null? || v.List? || v.Object? ==> r.None?
    ensures v.Int? ==> r == Some(v.i)
    ensures v.Bool? ==> r == Some(if v.b then 1 else 0)
  {
    match v
    case Bool(b) => Some(if b then 1 else 0)
    case Int(i) => Some(i)
    case Float(t) => TruncText(t)
    case Str(t) => ParseInteger(t)
    case _ => None
  }

  /** A truthy value never prints as the empty string. */
  lemma TruthyRendersNonEmpty(v: Value)
    requires Truthy(v)
    ensures ToStr(v) != ""
  {
    match v
    case Int(i) => {
      var n: nat := if i < 0 then -i else i;
      assert |NatToString(n)| >= 1;
    }
    case _ => {}
  }

  /** The text of a list or dict, bracketed or braced, is no decimal literal. */
  lemma BracketedNotNumber(s: string)
    requires |s| >= 2 && (s[0] == '[' || s[0] == '{') && (s[|s| - 1] == ']' || s[|s| - 1] == '}')
    ensures ParseNumber(s).None?
  {
    StripKeepsEnds(s);
    assert SplitSign(s) == (false, s);
    NoMantissaAfterBracket(s);
  }

  /** Stripping leaves a text alone whose first and last characters are no whitespace. */
  lemma StripKeepsEnds(s: string)
    requires |s| >= 1 && !IsSpace(s[0]) && !IsSpace(s[|s| - 1])
    ensures Strip(s) == s
  {
    assert RStripSpace(s) == s;
    assert LStripSpace(s) == s;
  }

  /** An unsigned literal cannot open with a bracket or brace. */
  lemma NoMantissaAfterBracket(s: string)
    requires |s| >= 1 && (s[0] == '[' || s[0] == '{')
    ensures ParseUnsigned(s).None?
  {
    var e := ExpMarker(s, 0);
    if e > 0 {
      var m := s[..e];
      var d := DotMarker(m, 0);
      assert m[0] == s[0];
      assert d > 0;
      assert m[..d][0] == s[0];
      assert !AllDigits(m[..d]);
    }
  }

  /**
   * `_as_int` reads the decimal text of an int of at most 2^53 in magnitude back as that int:
   * `_as_int("128") == 128`.
   */
  lemma AsIntOfIntText(n: int)
    requires Abs(n) <= MaxExact
    ensures AsInt(Str(IntToString(n))) == Some(n)
  {
    IntToStringParses(n);
    SmallDoesNotOverflow(Dec(n, 0));
    TruncTextOf(IntToString(n), Dec(n, 0));
    AsIntOfText(IntToString(n));
  }

  /** `int()` reads the decimal text of any int back as that int. */
  lemma PyIntOfIntText(n: int)
    ensures PyInt(Str(IntToString(n))) == Some(n)
  {
    IntToStringIsInteger(n);
  }

  /**
   * `_as_int` truncates a decimal text of at most fifteen digits toward zero, on both signs:
   * `_as_int("128.0") == 128`, `_as_int("-7.9") == -7`; the same holds for a float whose
   * `repr` is that text.
   */
  lemma AsIntOfDecimalText(neg: bool, digits: string, frac: string, t: string)
    requires |digits| > 0 && AllDigits(digits) && |frac| > 0 && AllDigits(frac)
    requires |digits| + |frac| <= 15
    requires t == if neg then "-" + (digits + "." + frac) else digits + "." + frac
    ensures AsInt(Str(t)) == Some(if neg then -(DigitsValue(digits) as int) else DigitsValue(digits))
    ensures AsInt(Float(t)) == Some(if neg then -(DigitsValue(digits) as int) else DigitsValue(digits))
  {
    SignedFractionDigits(neg, digits, frac, t);
    SignedFractionTruncates(neg, digits, frac, t);
    FifteenDigitsInRange(ParseNumber(t).value, |digits| + |frac|);
    TruncTextOf(t, ParseNumber(t).value);
    AsIntOfText(t);
  }

  lemma TruncTextOf(t: string, d: Dec)
    requires ParseNumber(t) == Some(d) && !Overflows(d) && !Underflows(d)
    ensures TruncText(t) == Some(Truncate(d))
  {
  }

  lemma AsIntOfText(t: string)
    ensures AsInt(Str(t)) == TruncText(t) && AsInt(Float(t)) == TruncText(t)
  {
    assert ToStr(Str(t)) == t;
  }

  /** `_as_int` of a plain digit string of value at most 2^53 (the `eff<N>=<M>` capture) is the digits' value. */
  lemma AsIntOfDigits(g: string)
    requires |g| > 0 && AllDigits(g) && DigitsValue(g) <= MaxExact
    ensures AsInt(Str(g)) == Some(DigitsValue(g))
  {
    DigitsParse(g);
    SmallDoesNotOverflow(Dec(DigitsValue(g), 0));
    TruncTextOf(g, Dec(DigitsValue(g), 0));
    AsIntOfText(g);
  }

  /** A text `float()` reads as a number at least 2^1024 - 2^970 in magnitude makes `_as_int` fail. */
  lemma AsIntOfHugeText(t: string)
    requires ParseNumber(t).Some? && Overflows(ParseNumber(t).value)
    ensures AsInt(Str(t)).None? && AsInt(Float(t)).None?
    ensures FloatOf(Str(t)) == Some(Inf(ParseNumber(t).value.mantissa < 0))
  {
    AsIntOfText(t);
  }

  /** `repr` of a string reads back as that string: the text between the quotes unescapes to `s`. */
  lemma {:induction false} StrReprRoundTrip(s: string)
    ensures Unescape(StrRepr(s)[1..|StrRepr(s)| - 1]) == s
  {
    EscapedRoundTrip(s, QuoteFor(s));
  }

  lemma {:induction false} EscapedRoundTrip(s: string, q: char)
    requires q == '\'' || q == '"'
    ensures Unescape(Escaped(s, q)) == s
    decreases |s|
  {
    if s != [] {
      EscapeCharRoundTrip(s[0], q, Escaped(s[1..], q));
      EscapedRoundTrip(s[1..], q);
      assert [s[0]] + s[1..] == s;
    }
  }

  lemma EscapeCharRoundTrip(c: char, q: char, rest: string)
    requires q == '\'' || q == '"'
    ensures Unescape(EscapeChar(c, q) + rest) == [c] + Unescape(rest)
  {
    var e := EscapeChar(c, q);
    var t := e + rest;
    if c == q || c == '\\' {
      assert t[2..] == rest;
    } else if c == '\t' || c == '\n' || c == '\r' {
      assert t[2..] == rest;
    } else if HexEscaped(c) {
      var hi := c as int / 16;
      var lo := c as int % 16;
      assert t[4..] == rest;
      assert HexValue(HexDigit(hi)) == hi && HexValue(HexDigit(lo)) == lo;
      assert (16 * hi + lo) as char == c;
    } else {
      assert t[1..] == rest;
    }
  }

  /** A string with no quote, backslash or character `repr` escapes prints between single quotes as it is. */
  lemma {:induction false} PlainStrRepr(s: string)
    requires forall i :: 0 <= i < |s| ==> s[i] != '\'' && s[i] != '\\' && s[i] as int >= 0x20 && !HexEscaped(s[i])
    ensures StrRepr(s) == "'" + s + "'"
  {
    PlainEscaped(s, '\'');
  }

  lemma {:induction false} PlainEscaped(s: string, q: char)
    requires forall i :: 0 <= i < |s| ==> s[i] != q && s[i] != '\\' && s[i] as int >= 0x20 && !HexEscaped(s[i])
    ensures Escaped(s, q) == s
    decreases |s|
  {
    if s != [] {
      PlainEscaped(s[1..], q);
      assert [s[0]] + s[1..] == s;
    }
  }
}
