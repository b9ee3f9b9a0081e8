/**
 * Rebuilding the results table from the results log: every line must be a JSON object (the
 * first one that is not aborts the rebuild), `depends_on` is flattened to text, and the columns
 * are the preferred ones that occur, in their fixed order, followed by every other key in
 * sorted order.
 */
module RebuildCsv {
  import opened Outcomes
  import opened Text
  import opened Lex
  import opened PyValues
  import opened Jsonl

  /** The columns that lead the table, in this order, when some row has them. */
  const Preferred: seq<string> := [
    "ts_utc",
    "repo", "commit", "scheme", "bench_name", "chain_profile",
    "gas_verify", "gas_surface", "gas",
    "security_metric_type", "security_metric_value",
    "gas_per_secure_bit",
    "hash_profile", "security_model", "surface_class",
    "notes", "depends_on"
  ]

  /** No element occurs twice. */
  predicate Distinct(s: seq<string>)
  {
    forall i, j :: 0 <= i < j < |s| ==> s[i] != s[j]
  }

  /** No preferred column is listed twice. */
  lemma PreferredDistinct()
    ensures Distinct(Preferred)
  {
  }

  /** `str(x)` of each element, joined with `;`. */
  function JoinedTexts(items: seq<Value>): string
  {
    Join(seq(|items|, j requires 0 <= j < |items| => ToStr(items[j])), ";")
  }

  /**
   * `_normalize_depends_on`: a list becomes its elements' texts joined with `;`, a missing or
   * null value the empty string, anything else its `str()`.
   */
  function NormalizeDependsOn(o: Dict): (r: Dict)
    ensures r.Keys == o.Keys + {"depends_on"}
    ensures forall k :: k in o && k != "depends_on" ==> r[k] == o[k]
    ensures r["depends_on"].Str?
    ensures Get(o, "depends_on").Null? ==> r["depends_on"] == Str("")
    ensures Get(o, "depends_on").Str? ==> r["depends_on"] == Get(o, "depends_on")
    ensures Get(o, "depends_on").List? ==> r["depends_on"] == Str(JoinedTexts(Get(o, "depends_on").items))
  {
    var dep := Get(o, "depends_on");
    var text :=
      if dep.List? then JoinedTexts(dep.items)
      else if dep.Null? then ""
      else ToStr(dep);
    o["depends_on" := Str(text)]
  }

  /** Normalising is idempotent: a normalised row is its own normal form. */
  lemma NormalizeIdempotent(o: Dict)
    ensures NormalizeDependsOn(NormalizeDependsOn(o)) == NormalizeDependsOn(o)
  {
    var r := NormalizeDependsOn(o);
    assert Get(r, "depends_on") == r["depends_on"];
  }

  /** A list of texts is joined as those texts. */
  lemma JoinedTextsOfStrings(items: seq<Value>, texts: seq<string>)
    requires |items| == |texts| && forall j :: 0 <= j < |items| ==> items[j] == Str(texts[j])
    ensures JoinedTexts(items) == Join(texts, ";")
  {
    assert seq(|items|, j requires 0 <= j < |items| => ToStr(items[j])) == texts;
  }

  /** The rows as the loop keeps them: each object with `depends_on` normalised. */
  function NormalizeAll(rows: seq<Dict>): (r: seq<Dict>)
    ensures |r| == |rows| && forall i :: 0 <= i < |rows| ==> r[i] == NormalizeDependsOn(rows[i])
  {
    seq(|rows|, i requires 0 <= i < |rows| => NormalizeDependsOn(rows[i]))
  }

  /** The union of the rows' keys, accumulated row by row. */
  function KeysOf(rows: seq<Dict>): set<string>
  {
    if |rows| == 0 then {} else KeysOf(rows[..|rows| - 1]) + rows[|rows| - 1].Keys
  }

  /** A key is collected exactly when some row has it. */
  lemma {:induction false} KeysOfMembers(rows: seq<Dict>)
    ensures forall k :: k in KeysOf(rows) <==> exists i :: 0 <= i < |rows| && k in rows[i]
  {
    if |rows| > 0 {
      var init := rows[..|rows| - 1];
      KeysOfMembers(init);
      assert forall i :: 0 <= i < |init| ==> rows[i] == init[i];
    }
  }

  /** The elements of `ps` that are in `keys`, in the order of `ps`. */
  function Filter(ps: seq<string>, keys: set<string>): (r: seq<string>)
    ensures forall x :: x in r <==> x in ps && x in keys
  {
    if |ps| == 0 then []
    else
      var rest := Filter(ps[1..], keys);
      assert forall x :: x in ps[1..] ==> x in ps;
      if ps[0] in keys then [ps[0]] + rest else rest
  }

  /** Filtering a list without repetitions gives one without repetitions. */
  lemma {:induction false} FilterDistinct(ps: seq<string>, keys: set<string>)
    requires Distinct(ps)
    ensures Distinct(Filter(ps, keys))
  {
    if |ps| > 0 {
      FilterDistinct(ps[1..], keys);
      assert ps[0] !in ps[1..];
    }
  }

  /**
   * `header`: the preferred columns present, in preferred order, then the remaining keys sorted
   * (`sorted` of a set: strictly increasing, each key once).
   */
  ghost predicate IsHeader(h: seq<string>, keys: set<string>)
  {
    var lead := Filter(Preferred, keys);
    |lead| <= |h| && h[..|lead|] == lead &&
    StrictlySorted(h[|lead|..]) &&
    forall x :: x in h[|lead|..] <==> x in keys && x !in Preferred
  }

  /** The header names every key exactly once, and nothing else. */
  lemma HeaderExact(h: seq<string>, keys: set<string>)
    requires IsHeader(h, keys)
    ensures Distinct(h)
    ensures forall x :: x in h <==> x in keys
  {
    var lead := Filter(Preferred, keys);
    var rest := h[|lead|..];
    PreferredDistinct();
    FilterDistinct(Preferred, keys);
    assert h == lead + rest;
    forall i, j | 0 <= i < j < |h| ensures h[i] != h[j] {
      if j < |lead| {
      } else if i >= |lead| {
        assert Less(rest[i - |lead|], rest[j - |lead|]);
        LessAsymmetric(rest[i - |lead|], rest[j - |lead|]);
      } else {
        assert h[i] in Preferred && h[j] in rest;
      }
    }
  }

  /** The header is determined by the set of keys. */
  lemma HeaderUnique(h1: seq<string>, h2: seq<string>, keys: set<string>)
    requires IsHeader(h1, keys) && IsHeader(h2, keys)
    ensures h1 == h2
  {
    var n := |Filter(Preferred, keys)|;
    SortedUnique(h1[n..], h2[n..]);
    assert h1 == h1[..n] + h1[n..] && h2 == h2[..n] + h2[n..];
  }

  /** When every preferred column occurs, the header starts with all of them in preferred order. */
  lemma AllPreferredLead(h: seq<string>, keys: set<string>)
    requires IsHeader(h, keys)
    requires forall k :: k in Preferred ==> k in keys
    ensures |Preferred| <= |h| && h[..|Preferred|] == Preferred
  {
    FilterAll(Preferred, keys);
  }

  lemma {:induction false} FilterAll(ps: seq<string>, keys: set<string>)
    requires forall k :: k in ps ==> k in keys
    ensures Filter(ps, keys) == ps
  {
    if |ps| > 0 {
      assert forall k :: k in ps[1..] ==> k in ps;
      FilterAll(ps[1..], keys);
      assert ps[0] in keys;
      assert ps == [ps[0]] + ps[1..];
    }
  }

  /** One table row: the cell of each header column, `""` where the row lacks that key. */
  function Cells(o: Dict, header: seq<string>): (cells: seq<Value>)
    ensures |cells| == |header|
  {
    seq(|header|, j requires 0 <= j < |header| => GetOr(o, header[j], Str("")))
  }

  /** No field is dropped: every key of a row has a column, and its cell holds the row's value. */
  lemma CellsKeepFields(rows: seq<Dict>, h: seq<string>, i: nat, k: string)
    requires IsHeader(h, KeysOf(rows)) && i < |rows| && k in rows[i]
    ensures exists j :: 0 <= j < |h| && h[j] == k && Cells(rows[i], h)[j] == rows[i][k]
  {
    HeaderExact(h, KeysOf(rows));
    KeysOfMembers(rows);
    assert k in KeysOf(rows);
    var j :| 0 <= j < |h| && h[j] == k;
    assert Cells(rows[i], h)[j] == rows[i][k];
  }

  /** A column the row lacks holds the empty string. */
  lemma CellsDefault(o: Dict, h: seq<string>, j: nat)
    requires j < |h| && h[j] !in o
    ensures Cells(o, h)[j] == Str("")
  {
  }

  lemma NormalizeAllSnoc(s: seq<Dict>, x: Dict)
    ensures NormalizeAll(s + [x]) == NormalizeAll(s) + [NormalizeDependsOn(x)]
  {
  }

  lemma KeysOfSnoc(s: seq<Dict>, x: Dict)
    ensures KeysOf(s + [x]) == KeysOf(s) + x.Keys
  {
    assert (s + [x])[..|s|] == s;
  }

  /** The rebuilt table: its columns and one row of cells per object. */
  datatype Table = Table(header: seq<string>, rows: seq<seq<Value>>)

  /** What the reading loop knows after the first `i` lines. */
  ghost predicate ReadSoFar(lines: seq<Line>, i: nat, rows: seq<Dict>, allKeys: set<string>)
  {
    i <= |lines| &&
    (forall j :: 0 <= j < i ==> Acceptable(lines[j])) &&
    rows == NormalizeAll(Objects(lines[..i])) && allKeys == KeysOf(rows)
  }

  /** One more acceptable line: a blank one changes nothing, an object is normalised and kept. */
  lemma ReadStep(lines: seq<Line>, i: nat, rows: seq<Dict>, allKeys: set<string>)
    requires ReadSoFar(lines, i, rows, allKeys) && i < |lines| && Acceptable(lines[i])
    ensures lines[i].Blank? ==> ReadSoFar(lines, i + 1, rows, allKeys)
    ensures lines[i].Parsed? ==>
      var o := NormalizeDependsOn(lines[i].v.fields);
      ReadSoFar(lines, i + 1, rows + [o], allKeys + o.Keys)
  {
    ObjectsSnoc(lines, i);
    if lines[i].Parsed? {
      var o := NormalizeDependsOn(lines[i].v.fields);
      NormalizeAllSnoc(Objects(lines[..i]), lines[i].v.fields);
      KeysOfSnoc(rows, o);
    }
  }

  /** A line that is not acceptable is the one the strict reader reports. */
  lemma ReadFails(lines: seq<Line>, i: nat)
    requires i < |lines| && !Acceptable(lines[i])
    requires forall j :: 0 <= j < i ==> Acceptable(lines[j])
    ensures DecodeObjects(lines, 1) == Err(if lines[i].Malformed? then BadJson(i + 1) else NotObject(i + 1))
  {
    FirstBadLine(lines, 1, i);
  }

  /** Having read every line, the loop holds exactly what the strict reader returns. */
  lemma ReadDone(lines: seq<Line>, rows: seq<Dict>, allKeys: set<string>)
    requires ReadSoFar(lines, |lines|, rows, allKeys)
    ensures DecodeObjects(lines, 1).Ok?
    ensures rows == NormalizeAll(Objects(lines)) && allKeys == KeysOf(rows)
  {
    assert lines[..|lines|] == lines;
  }

  /** The reading loop: every line is a JSON object, normalised and kept in order; blank lines are skipped. */
  method ReadRows(lines: seq<Line>) returns (r: Result<(seq<Dict>, set<string>), DecodeError>)
    ensures r.Err? <==> DecodeObjects(lines, 1).Err?
    ensures r.Err? ==> r.error == DecodeObjects(lines, 1).error
    ensures r.Ok? ==> r.value.0 == NormalizeAll(Objects(lines)) && r.value.1 == KeysOf(r.value.0)
  {
    var rows: seq<Dict> := [];
    var allKeys: set<string> := {};
    for i := 0 to |lines|
      invariant ReadSoFar(lines, i, rows, allKeys)
    {
      if !Acceptable(lines[i]) {
        ReadFails(lines, i);
        return Err(if lines[i].Malformed? then BadJson(i + 1) else NotObject(i + 1));
      }
      ReadStep(lines, i, rows, allKeys);
      if lines[i].Parsed? {
        var o := NormalizeDependsOn(lines[i].v.fields);
        rows := rows + [o];
        allKeys := allKeys + o.Keys;
      }
    }
    ReadDone(lines, rows, allKeys);
    return Ok((rows, allKeys));
  }

  /** The preferred columns some row has, in preferred order. */
  method LeadColumns(keys: set<string>) returns (lead: seq<string>)
    ensures lead == Filter(Preferred, keys)
  {
    lead := [];
    var i := |Preferred|;
    while i > 0
      invariant 0 <= i <= |Preferred|
      invariant lead == Filter(Preferred[i..], keys)
    {
      i := i - 1;
      assert Preferred[i..][1..] == Preferred[i + 1..];
      if Preferred[i] in keys {
        lead := [Preferred[i]] + lead;
      }
    }
  }

  /** `sorted(k for k in all_keys if k not in PREFERRED)`. */
  method RestColumns(keys: set<string>) returns (rest: seq<string>)
    ensures StrictlySorted(rest)
    ensures forall x :: x in rest <==> x in keys && x !in Preferred
  {
    rest := [];
    var todo := keys;
    while todo != {}
      invariant todo <= keys
      invariant StrictlySorted(rest)
      invariant forall x :: x in rest <==> x in keys - todo && x !in Preferred
      decreases |todo|
    {
      var k :| k in todo;
      if k !in Preferred {
        rest := Insert(rest, k);
      }
      todo := todo - {k};
    }
  }

  /** The header construction. */
  method BuildHeader(keys: set<string>) returns (header: seq<string>)
    ensures IsHeader(header, keys)
  {
    var lead := LeadColumns(keys);
    var rest := RestColumns(keys);
    header := lead + rest;
    assert header[..|lead|] == lead && header[|lead|..] == rest;
  }

  /** `writer.writerow` for each row, in order. */
  method WriteRows(rows: seq<Dict>, header: seq<string>) returns (out: seq<seq<Value>>)
    ensures |out| == |rows|
    ensures forall i :: 0 <= i < |rows| ==> out[i] == Cells(rows[i], header)
  {
    out := [];
    for i := 0 to |rows|
      invariant |out| == i && forall j :: 0 <= j < i ==> out[j] == Cells(rows[j], header)
    {
      out := out + [Cells(rows[i], header)];
    }
  }

  /** The whole rebuild: read, build the header, write one row of cells per object. */
  method Rebuild(lines: seq<Line>) returns (r: Result<Table, DecodeError>)
    ensures r.Err? <==> DecodeObjects(lines, 1).Err?
    ensures r.Err? ==> r.error == DecodeObjects(lines, 1).error
    ensures r.Ok? ==> IsHeader(r.value.header, KeysOf(NormalizeAll(Objects(lines))))
    ensures r.Ok? ==> |r.value.rows| == |Objects(lines)|
    ensures r.Ok? ==> forall i :: 0 <= i < |r.value.rows| ==>
      r.value.rows[i] == Cells(NormalizeDependsOn(Objects(lines)[i]), r.value.header)
  {
    var read := ReadRows(lines);
    if read.Err? {
      return Err(read.error);
    }
    var rows := read.value.0;
    var header := BuildHeader(read.value.1);
    var out := WriteRows(rows, header);
    return Ok(Table(header, out));
  }
}
