/**
 * JSON-lines input as the scripts read it: each line is blank (only whitespace), not valid
 * JSON, or one decoded value. Decoding itself is not modelled; a line arrives already classified.
 */
module Jsonl {
  import opened Outcomes
  import opened PyValues

  datatype Line = Blank | Malformed | Parsed(v: Value)

  /** Why a strict reader gives up, with the 0-based index of the offending line. */
  datatype DecodeError = BadJson(line: nat) | NotObject(line: nat)

  /** A line a strict reader accepts: blank, or one JSON object. */
  predicate Acceptable(l: Line)
  {
    l.Blank? || (l.Parsed? && l.v.Object?)
  }

  /** The objects of the non-blank lines, in order (meaningful when every line is acceptable). */
  function Objects(lines: seq<Line>): seq<Dict>
  {
    if |lines| == 0 then []
    else
      var rest := Objects(lines[1..]);
      if lines[0].Parsed? && lines[0].v.Object? then [lines[0].v.fields] + rest else rest
  }

  /**
   * The strict reader (`rows.append(json.loads(line))` over non-blank lines, followed by
   * dictionary access): blank lines are skipped, the first bad line aborts the whole read.
   */
  function DecodeObjects(lines: seq<Line>, offset: nat): (r: Result<seq<Dict>, DecodeError>)
    ensures r.Ok? <==> forall i :: 0 <= i < |lines| ==> Acceptable(lines[i])
    ensures r.Ok? ==> r.value == Objects(lines)
    ensures r.Err? ==> offset <= r.error.line < offset + |lines|
    decreases |lines|
  {
    if |lines| == 0 then Ok([])
    else
      var rest := DecodeObjects(lines[1..], offset + 1);
      assert forall i :: 1 <= i < |lines| ==> lines[i] == lines[1..][i - 1];
      match lines[0]
      case Blank => rest
      case Malformed => Err(BadJson(offset))
      case Parsed(v) =>
        if !v.Object? then Err(NotObject(offset))
        else if rest.Err? then rest
        else Ok([v.fields] + rest.value)
  }

  /** Blank lines anywhere in the input change nothing in what is read. */
  lemma {:induction false} BlankLinesIgnored(a: seq<Line>, b: seq<Line>)
    ensures Objects(a + [Blank] + b) == Objects(a + b)
  {
    if |a| == 0 {
      assert a + [Blank] + b == [Blank] + b;
      assert ([Blank] + b)[1..] == b;
      assert a + b == b;
    } else {
      assert (a + [Blank] + b)[1..] == a[1..] + [Blank] + b;
      assert (a + b)[1..] == a[1..] + b;
      BlankLinesIgnored(a[1..], b);
    }
  }

  /** Reading is line by line: the objects of a concatenation concatenate. */
  lemma {:induction false} ObjectsAppend(a: seq<Line>, b: seq<Line>)
    ensures Objects(a + b) == Objects(a) + Objects(b)
  {
    if |a| == 0 {
      assert a + b == b;
    } else {
      assert (a + b)[1..] == a[1..] + b;
      ObjectsAppend(a[1..], b);
    }
  }

  /** The strict reader stops at the first line it does not accept, and names it. */
  lemma {:induction false} FirstBadLine(lines: seq<Line>, offset: nat, i: nat)
    requires i < |lines| && !Acceptable(lines[i])
    requires forall j :: 0 <= j < i ==> Acceptable(lines[j])
    ensures DecodeObjects(lines, offset) == Err(if lines[i].Malformed? then BadJson(offset + i) else NotObject(offset + i))
  {
    if i > 0 {
      assert forall j :: 0 <= j < i - 1 ==> lines[1..][j] == lines[j + 1];
      FirstBadLine(lines[1..], offset + 1, i - 1);
    }
  }

  /** Reading one more line. */
  lemma ObjectsSnoc(lines: seq<Line>, i: nat)
    requires i < |lines|
    ensures Objects(lines[..i + 1]) ==
      Objects(lines[..i]) + (if lines[i].Parsed? && lines[i].v.Object? then [lines[i].v.fields] else [])
  {
    assert lines[..i + 1] == lines[..i] + [lines[i]];
    ObjectsAppend(lines[..i], [lines[i]]);
    assert [lines[i]][1..] == [];
  }
}
