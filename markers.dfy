/**
 * Marker-delimited report blocks: an HTML-comment BEGIN marker, the block's lines, and an END
 * marker. The vendor patch scripts find the markers with `str.find`/`str.split` and splice a
 * new block in; the facts here say where the markers of a spliced block are found again.
 */
module Markers {
  import opened Outcomes
  import opened Text

  /** No line break in `p`. */
  predicate NoBreak(p: string)
  {
    forall i :: 0 <= i < |p| ==> p[i] != '\n'
  }

  /** An HTML-comment marker: `<` at its head and nowhere else, and on one line. */
  predicate Marker(m: string)
  {
    |m| > 0 && m[0] == '<' && HeadOnly(m, '<') && NoBreak(m)
  }

  /** A BEGIN/END pair of markers, neither holding the other. */
  predicate MarkerPair(begin: string, end: string)
  {
    Marker(begin) && Marker(end) && Find(begin, end).None? && Find(end, begin).None?
  }

  /** No line of a block's body contains the END marker. */
  predicate Clean(body: seq<string>, end: string)
  {
    forall i :: 0 <= i < |body| ==> Find(body[i], end).None?
  }

  /** A block that starts with `begin` and whose first `end` after it is its very end. */
  predicate Framed(b: string, begin: string, end: string)
  {
    |begin| + |end| <= |b| && StartsWith(b, begin) && Find(b[|begin|..], end) == Some(|b| - |begin| - |end|)
  }

  /** `"\n".join([begin] + body + [end])`: the block text as the scripts build it. */
  function Frame(begin: string, body: seq<string>, end: string): string
  {
    Join([begin] + body + [end], "\n")
  }

  /**
   * `pre, rest = t.split(begin, 1); _, post = rest.split(end, 1); pre + block + post`: the span
   * from the first `begin` to the first `end` after it is replaced; `None` when either is missing.
   */
  function Splice(t: string, begin: string, end: string, block: string): (r: Option<string>)
    ensures r.Some? <==> (Find(t, begin).Some? && Find(t[Find(t, begin).value + |begin|..], end).Some?)
  {
    match Find(t, begin)
    case None => None
    case Some(i) =>
      var rest := t[i + |begin|..];
      match Find(rest, end)
      case None => None
      case Some(j) => Some(t[..i] + block + rest[j + |end|..])
  }

  /** A text is ready for splicing when it has no `begin`, or an `end` after its first `begin`. */
  predicate Proper(t: string, begin: string, end: string)
  {
    Find(t, begin).None? || Splice(t, begin, end, "").Some?
  }

  /** The text before a first occurrence holds none. */
  lemma NoneBeforeFirst(s: string, p: string, k: nat)
    requires |p| > 0 && k <= |s|
    requires forall j :: 0 <= j < k ==> !IsAt(s, p, j)
    ensures Find(s[..k], p).None?
  {
    forall j | 0 <= j ensures !IsAt(s[..k], p, j) {
      if j + |p| <= k {
        assert s[..k][j..j + |p|] == s[j..j + |p|];
        assert !IsAt(s, p, j);
      }
    }
  }

  /** A prefix of a text without `p` has no `p`. */
  lemma NoneInPrefix(s: string, p: string, k: nat)
    requires |p| > 0 && k <= |s| && Find(s, p).None?
    ensures Find(s[..k], p).None?
  {
    NoneBeforeFirst(s, p, k);
  }

  /** An occurrence inside the middle part of `x + b + y` is an occurrence in `b`. */
  lemma IsAtShift(x: string, b: string, y: string, p: string, j: nat)
    requires j + |p| <= |b|
    ensures IsAt(x + b + y, p, |x| + j) <==> IsAt(b, p, j)
  {
    assert (x + b + y)[|x| + j..|x| + j + |p|] == b[j..j + |p|];
  }

  /**
   * A line break separates occurrences: a one-line `p` absent from `a` is first found in
   * `a + "\n" + b` exactly where it is first found in `b`, shifted.
   */
  lemma FindAcrossBreak(a: string, b: string, p: string)
    requires |p| > 0 && NoBreak(p) && Find(a, p).None?
    ensures Find(a + "\n" + b, p) == if Find(b, p).Some? then Some(|a| + 1 + Find(b, p).value) else None
  {
    var s := a + "\n" + b;
    NoneUpToBreak(a, b, p);
    ShiftedPastBreak(a, b, p);
    match Find(b, p)
    case Some(k) => {
      forall j | 0 <= j < |a| + 1 + k ensures !IsAt(s, p, j) {
        if j > |a| {
          assert !IsAt(b, p, j - |a| - 1);
        }
      }
      FindIs(s, p, |a| + 1 + k);
    }
    case None => {
      forall j | 0 <= j ensures !IsAt(s, p, j) {
        if j > |a| {
          assert !IsAt(b, p, j - |a| - 1);
        }
      }
    }
  }

  /** No occurrence of a one-line `p` absent from `a` starts at or before the break after `a`. */
  lemma NoneUpToBreak(a: string, b: string, p: string)
    requires |p| > 0 && NoBreak(p) && Find(a, p).None?
    ensures forall j :: 0 <= j <= |a| ==> !IsAt(a + "\n" + b, p, j)
  {
    forall j | 0 <= j <= |a| ensures !IsAt(a + "\n" + b, p, j) {
      BreakBlocks(a, b, p, j);
    }
  }

  /** Past the break, the occurrences are those of `b`, shifted. */
  lemma ShiftedPastBreak(a: string, b: string, p: string)
    ensures forall m :: 0 <= m ==> (IsAt(a + "\n" + b, p, |a| + 1 + m) <==> IsAt(b, p, m))
  {
    var s := a + "\n" + b;
    forall m | 0 <= m ensures IsAt(s, p, |a| + 1 + m) <==> IsAt(b, p, m) {
      if m + |p| <= |b| {
        IsAtShift(a + "\n", b, "", p, m);
        assert a + "\n" + b + "" == s;
      }
    }
  }

  /** An occurrence of a one-line `p` cannot start in `a` and run over the break after it. */
  lemma BreakBlocks(a: string, b: string, p: string, j: nat)
    requires |p| > 0 && NoBreak(p) && Find(a, p).None? && j <= |a|
    ensures !IsAt(a + "\n" + b, p, j)
  {
    var s := a + "\n" + b;
    if j + |p| <= |a| {
      assert s[j..j + |p|] == a[j..j + |p|];
      assert !IsAt(a, p, j);
    } else if j + |p| <= |s| {
      assert s[j..j + |p|][|a| - j] == '\n';
      assert p[|a| - j] != '\n';
    }
  }

  /** A one-line `p` found in no line is not found in their join. */
  lemma {:induction false} JoinAvoids(lines: seq<string>, p: string)
    requires |p| > 0 && NoBreak(p)
    requires forall i :: 0 <= i < |lines| ==> Find(lines[i], p).None?
    ensures Find(Join(lines, "\n"), p).None?
  {
    if |lines| > 1 {
      JoinAvoids(lines[1..], p);
      FindAcrossBreak(lines[0], Join(lines[1..], "\n"), p);
    }
  }

  lemma {:induction false} JoinSnoc(xs: seq<string>, e: string)
    requires |xs| > 0
    ensures Join(xs + [e], "\n") == Join(xs, "\n") + "\n" + e
  {
    if |xs| > 1 {
      JoinSnoc(xs[1..], e);
      assert (xs + [e])[1..] == xs[1..] + [e];
    }
  }

  lemma JoinHead(xs: seq<string>)
    requires |xs| > 0
    ensures StartsWith(Join(xs, "\n"), xs[0]) && |Join(xs, "\n")| >= |xs[0]|
  {
    if |xs| > 1 {
      assert Join(xs, "\n") == xs[0] + ("\n" + Join(xs[1..], "\n"));
    }
  }

  /** A marker that does not start with another marker holds no occurrence of it. */
  lemma MarkerAvoids(a: string, m: string)
    requires Marker(a) && Marker(m) && !StartsWith(a, m)
    ensures Find(a, m).None?
  {
    forall j | 0 <= j ensures !IsAt(a, m, j) {
      if 0 < j && j + |m| <= |a| {
        assert a[j..j + |m|][0] == a[j] != m[0];
      }
    }
  }

  /**
   * The block the scripts build is framed by its markers, provided no body line contains the
   * END marker.
   */
  lemma FrameFramed(begin: string, body: seq<string>, end: string)
    requires Marker(end)
    requires forall i :: 0 <= i < |body| ==> Find(body[i], end).None?
    ensures Framed(Frame(begin, body, end), begin, end)
  {
    var f := Frame(begin, body, end);
    var tail := Join(body + [end], "\n");
    FrameSplit(begin, body, end);
    assert f[|begin|..] == "" + "\n" + tail;
    TailEndsOnce(body, end);
    FindAcrossBreak("", tail, end);
  }

  /** The block is BEGIN, a line break, and the body's lines and END joined. */
  lemma FrameSplit(begin: string, body: seq<string>, end: string)
    ensures Frame(begin, body, end) == begin + "\n" + Join(body + [end], "\n")
  {
    assert [begin] + body + [end] == [begin] + (body + [end]);
  }

  /** The body's lines and END joined hold END only at their end. */
  lemma TailEndsOnce(body: seq<string>, end: string)
    requires Marker(end)
    requires forall i :: 0 <= i < |body| ==> Find(body[i], end).None?
    ensures |end| <= |Join(body + [end], "\n")|
    ensures Find(Join(body + [end], "\n"), end) == Some(|Join(body + [end], "\n")| - |end|)
  {
    var tail := Join(body + [end], "\n");
    FindIs(end, end, 0);
    if |body| > 0 {
      JoinSnoc(body, end);
      JoinAvoids(body, end);
      FindAcrossBreak(Join(body, "\n"), end, end);
    } else {
      assert body + [end] == [end];
      assert tail == end;
    }
  }

  /** When BEGIN holds no END, the END closing a built block is the first END in it. */
  lemma FrameEndsOnce(begin: string, body: seq<string>, end: string)
    requires Marker(end) && Find(begin, end).None?
    requires forall i :: 0 <= i < |body| ==> Find(body[i], end).None?
    ensures Find(Frame(begin, body, end), end) == Some(|Frame(begin, body, end)| - |end|)
  {
    FrameFramed(begin, body, end);
    var f := Frame(begin, body, end);
    var tail := f[|begin| + 1..];
    assert f == begin + "\n" + tail;
    assert f[|begin|..] == "" + "\n" + tail;
    FindAcrossBreak("", tail, end);
    FindAcrossBreak(begin, tail, end);
  }

  /**
   * When the text before a framed block holds no BEGIN, the block's markers are the ones found,
   * whatever follows it.
   */
  lemma FindBeginFramed(x: string, b: string, y: string, begin: string, end: string)
    requires Marker(begin) && Framed(b, begin, end) && Find(x, begin).None?
    ensures Find(x + b + y, begin) == Some(|x|)
  {
    assert x + b + y == x + (b + y);
    FindAfter(x, b + y, begin);
    assert IsAt(b + y, begin, 0) by {
      assert (b + y)[..|begin|] == b[..|begin|];
    }
    FindIs(b + y, begin, 0);
  }

  /** Splicing into a text that holds a framed block replaces exactly that block. */
  lemma SpliceFramed(x: string, b: string, y: string, c: string, begin: string, end: string)
    requires Marker(begin) && Framed(b, begin, end) && Find(x, begin).None?
    ensures Splice(x + b + y, begin, end, c) == Some(x + c + y)
  {
    var s := x + b + y;
    FindBeginFramed(x, b, y, begin, end);
    var inner := b[|begin|..];
    var rest := s[|x| + |begin|..];
    assert rest == inner + y;
    FindInPrefix(inner, y, end);
    var j := |b| - |begin| - |end|;
    assert rest[j + |end|..] == y;
    assert s[..|x|] == x;
  }

  /** Re-splicing the block a splice produced changes nothing. */
  lemma SpliceStable(t: string, b: string, begin: string, end: string)
    requires Marker(begin) && Framed(b, begin, end)
    requires Splice(t, begin, end, b).Some?
    ensures Splice(Splice(t, begin, end, b).value, begin, end, b) == Splice(t, begin, end, b)
  {
    var i := Find(t, begin).value;
    var rest := t[i + |begin|..];
    var j := Find(rest, end).value;
    var x := t[..i];
    var y := rest[j + |end|..];
    assert Splice(t, begin, end, b) == Some(x + b + y);
    NoneBeforeFirst(t, begin, i);
    SpliceFramed(x, b, y, b, begin, end);
  }

  /** Appending a line break to a text without a one-line `p` adds no occurrence. */
  lemma NoneAfterBreak(a: string, p: string)
    requires |p| > 0 && NoBreak(p) && Find(a, p).None?
    ensures Find(a + "\n", p).None?
  {
    FindAcrossBreak(a, "", p);
    assert a + "\n" + "" == a + "\n";
  }

  /**
   * When the text before a framed block holds neither marker, and the block holds END only at
   * its end, the first of each marker in the whole text is the block's.
   */
  lemma FindBothFramed(x: string, b: string, y: string, begin: string, end: string)
    requires Marker(begin) && Marker(end) && Framed(b, begin, end)
    requires Find(b, end) == Some(|b| - |end|)
    requires Find(x, begin).None? && Find(x, end).None?
    ensures Find(x + b + y, begin) == Some(|x|)
    ensures Find(x + b + y, end) == Some(|x| + |b| - |end|)
  {
    FindBeginFramed(x, b, y, begin, end);
    assert x + b + y == x + (b + y);
    FindAfter(x, b + y, end);
    FindInPrefix(b, y, end);
  }

  /** A block of text that starts with BEGIN and holds END only at its very end. */
  predicate Closed(f: string, begin: string, end: string)
  {
    Framed(f, begin, end) && Find(f, end) == Some(|f| - |end|)
  }

  /** A built block is closed when no line of its body holds END. */
  lemma FrameClosed(begin: string, body: seq<string>, end: string)
    requires MarkerPair(begin, end) && Clean(body, end)
    ensures Closed(Frame(begin, body, end), begin, end)
  {
    FrameFramed(begin, body, end);
    FrameEndsOnce(begin, body, end);
  }
}
