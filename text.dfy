/**
 * String operations of Python's `str` that the scripts rely on: `in`/`find`,
 * `startswith`/`endswith`, `strip`/`lstrip`/`rstrip` and `join`.
 */
module Text {
  import opened Outcomes

  /** Python's `str.isspace()` for one character (the characters `strip()` and regex `\s` remove). */
  predicate IsSpace(c: char)
  {
    c == ' ' || ('\t' <= c <= '\r') || ('\U{1C}' <= c <= '\U{1F}') || c == '\U{85}' || c == '\U{A0}'
    || c == '\U{1680}' || ('\U{2000}' <= c <= '\U{200A}') || c == '\U{2028}' || c == '\U{2029}'
    || c == '\U{202F}' || c == '\U{205F}' || c == '\U{3000}'
  }

  /** `s.startswith(p)` */
  predicate StartsWith(s: string, p: string)
  {
    |p| <= |s| && s[..|p|] == p
  }

  /** `s.endswith(p)` */
  predicate EndsWith(s: string, p: string)
  {
    |p| <= |s| && s[|s| - |p|..] == p
  }

  /** `p` occurs in `s` starting at index `k`. */
  predicate IsAt(s: string, p: string, k: nat)
  {
    k + |p| <= |s| && s[k..k + |p|] == p
  }

  /** The first occurrence of `p` in `s` at or after `k`. */
  function FindFrom(s: string, p: string, k: nat): (r: Option<nat>)
    requires k <= |s|
    decreases |s| - k
    ensures r.Some? ==> k <= r.value && IsAt(s, p, r.value)
    ensures r.Some? ==> forall j :: k <= j < r.value ==> !IsAt(s, p, j)
    ensures r.None? ==> forall j :: k <= j ==> !IsAt(s, p, j)
  {
    if IsAt(s, p, k) then Some(k)
    else if k == |s| then None
    else FindFrom(s, p, k + 1)
  }

  /** `s.find(p)`, with `None` for Python's -1. */
  function Find(s: string, p: string): (r: Option<nat>)
    ensures r.Some? ==> IsAt(s, p, r.value) && forall j :: 0 <= j < r.value ==> !IsAt(s, p, j)
    ensures r.None? ==> forall j :: 0 <= j ==> !IsAt(s, p, j)
  {
    FindFrom(s, p, 0)
  }

  /** `p in s` */
  predicate Contains(s: string, p: string)
  {
    Find(s, p).Some?
  }

  /** `s.rstrip()` */
  function RStripSpace(s: string): (r: string)
    ensures |r| <= |s| && r == s[..|r|]
    ensures r == [] || !IsSpace(r[|r| - 1])
    ensures forall i :: |r| <= i < |s| ==> IsSpace(s[i])
  {
    if s != [] && IsSpace(s[|s| - 1]) then RStripSpace(s[..|s| - 1]) else s
  }

  /** `s.lstrip()` */
  function LStripSpace(s: string): (r: string)
    ensures |r| <= |s| && r == s[|s| - |r|..]
    ensures r == [] || !IsSpace(r[0])
    ensures forall i :: 0 <= i < |s| - |r| ==> IsSpace(s[i])
  {
    if s != [] && IsSpace(s[0]) then LStripSpace(s[1..]) else s
  }

  /** `s.strip()` */
  function Strip(s: string): string
  {
    LStripSpace(RStripSpace(s))
  }

  /** Stripping twice is stripping once. */
  lemma StripStable(s: string)
    ensures Strip(Strip(s)) == Strip(s)
  {
    var t := Strip(s);
    var u := RStripSpace(s);
    if t != [] {
      assert t[|t| - 1] == u[|u| - 1];
    }
    assert RStripSpace(t) == t;
  }

  /** `s.rstrip(c)` for a single character `c`. */
  function RStripChar(s: string, c: char): (r: string)
    ensures |r| <= |s| && r == s[..|r|]
    ensures r == [] || r[|r| - 1] != c
    ensures forall i :: |r| <= i < |s| ==> s[i] == c
  {
    if s != [] && s[|s| - 1] == c then RStripChar(s[..|s| - 1], c) else s
  }

  /** `s.lstrip(c)` for a single character `c`. */
  function LStripChar(s: string, c: char): (r: string)
    ensures |r| <= |s| && r == s[|s| - |r|..]
    ensures r == [] || r[0] != c
    ensures forall i :: 0 <= i < |s| - |r| ==> s[i] == c
  {
    if s != [] && s[0] == c then LStripChar(s[1..], c) else s
  }

  /** `sep.join(parts)` */
  function Join(parts: seq<string>, sep: string): string
  {
    if |parts| == 0 then ""
    else if |parts| == 1 then parts[0]
    else parts[0] + sep + Join(parts[1..], sep)
  }

  /** The first occurrence is determined by where `p` occurs and where it does not. */
  lemma FindIs(s: string, p: string, k: nat)
    requires IsAt(s, p, k)
    requires forall j :: 0 <= j < k ==> !IsAt(s, p, j)
    ensures Find(s, p) == Some(k)
  {
  }

  /** Text after a prefix cannot add an earlier occurrence. */
  lemma FindInPrefix(b: string, c: string, p: string)
    requires Find(b, p).Some?
    ensures Find(b + c, p) == Find(b, p)
  {
    var k := Find(b, p).value;
    assert (b + c)[k..k + |p|] == b[k..k + |p|];
    forall j | 0 <= j < k ensures !IsAt(b + c, p, j) {
      assert !IsAt(b, p, j);
      assert (b + c)[j..j + |p|] == b[j..j + |p|];
    }
    FindIs(b + c, p, k);
  }

  /** No character of `p` after its first equals `c`: an occurrence cannot start just before `c`. */
  predicate HeadOnly(p: string, c: char)
  {
    forall i :: 1 <= i < |p| ==> p[i] != c
  }

  /**
   * When `a` holds no occurrence of `p` and `b` starts with a character `p` holds only at its
   * head, no occurrence straddles the seam, so the first occurrence in `a + b` is the first in
   * `b`, shifted.
   */
  lemma FindAfter(a: string, b: string, p: string)
    requires Find(a, p).None?
    requires |b| > 0 && HeadOnly(p, b[0])
    ensures Find(a + b, p) == if Find(b, p).Some? then Some(|a| + Find(b, p).value) else None
  {
    var s := a + b;
    forall j | 0 <= j < |a| ensures !IsAt(s, p, j) {
      if j + |p| <= |a| {
        assert !IsAt(a, p, j);
        assert a[j..j + |p|] == s[j..j + |p|];
      } else if j + |p| <= |s| {
        var i := |a| - j;
        assert s[j..j + |p|][i] == b[0];
        assert p[i] != b[0];
      }
    }
    forall j | 0 <= j ensures IsAt(s, p, |a| + j) <==> IsAt(b, p, j) {
      if |a| + j + |p| <= |s| {
        assert s[|a| + j..|a| + j + |p|] == b[j..j + |p|];
      }
    }
    match Find(b, p)
    case Some(k) => {
      forall j | 0 <= j < |a| + k ensures !IsAt(s, p, j) {
        if j >= |a| {
          assert !IsAt(b, p, j - |a|);
        }
      }
      FindIs(s, p, |a| + k);
    }
    case None => {
      forall j | 0 <= j ensures !IsAt(s, p, j) {
        if j >= |a| {
          assert !IsAt(b, p, j - |a|);
        }
      }
    }
  }
}
