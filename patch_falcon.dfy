/**
 * The Falcon vendor section of the protocol-readiness report: the latest QuantumAccount
 * measurement of each bench (timestamps compared as datetimes), the section's table and pinned
 * commit, and the upsert of the section: between the FALCON_VENDOR markers when present, else
 * before the Dilithium section, else after the ML-DSA-65 section, else at the end.
 */
module PatchFalcon {
  import opened Outcomes
  import opened Text
  import opened PyValues
  import opened Jsonl
  import opened Markers
  import opened VendorBlock

  const Begin: string := "<!-- FALCON_VENDOR_BEGIN -->"
  const End: string := "<!-- FALCON_VENDOR_END -->"
  const AnchorAfter: string := "<!-- MLDSA65_VENDOR_END -->"
  const AnchorBefore: string := "<!-- DILITHIUM_VENDOR_BEGIN -->"
  const Repo: string := "QuantumAccount"

  /** The benches of the section, in table order. */
  const Order: seq<string> := ["falcon_verifySignature_log", "qa_validateUserOp_userop_log",
                               "falcon_getUserOpHash_via_entry", "falcon_handleOps_userOp_e2e"]

  /** Both markers are one-line HTML comments, and neither contains the other. */
  lemma MarkersWellFormed()
    ensures MarkerPair(Begin, End)
  {
    assert Begin[19] != End[19];
    MarkerAvoids(Begin, End);
    MarkerAvoids(End, Begin);
  }

  // ---------------------------------------------------------------------------------------
  // `_read_jsonl` and the QuantumAccount rows
  // ---------------------------------------------------------------------------------------

  /** What `_read_jsonl` keeps: every decoded value of a non-blank line, in order. */
  function Decoded(lines: seq<Line>): (vs: seq<Value>)
    ensures |vs| <= |lines|
    ensures forall v :: v in vs <==> exists j :: 0 <= j < |lines| && lines[j] == Parsed(v)
  {
    if |lines| == 0 then []
    else
      var init := lines[..|lines| - 1];
      var last := lines[|lines| - 1];
      assert lines == init + [last];
      assert forall j :: 0 <= j < |init| ==> lines[j] == init[j];
      Decoded(init) + (if last.Parsed? then [last.v] else [])
  }

  /** `_read_jsonl`: blank lines and lines that do not decode are skipped. */
  method ReadJsonl(lines: seq<Line>) returns (vs: seq<Value>)
    ensures vs == Decoded(lines)
  {
    vs := [];
    for i := 0 to |lines|
      invariant vs == Decoded(lines[..i])
    {
      assert lines[..i + 1][..i] == lines[..i];
      if lines[i].Parsed? {
        vs := vs + [lines[i].v];
      }
    }
    assert lines[..|lines|] == lines;
  }

  /** A row of the QuantumAccount Falcon vendor. */
  predicate IsQa(r: Dict)
  {
    Get(r, "repo") == Str(Repo) && Get(r, "scheme") == Str("falcon")
  }

  /**
   * `qa_rows`: the QuantumAccount Falcon rows in order; `None` when a decoded value is not an
   * object, on which `r.get` raises.
   */
  function QaRows(vs: seq<Value>): (r: Option<seq<Dict>>)
    ensures r.Some? <==> forall i :: 0 <= i < |vs| ==> vs[i].Object?
    ensures r.Some? ==> forall d :: d in r.value <==> IsQa(d) && exists i :: 0 <= i < |vs| && vs[i].fields == d
  {
    if |vs| == 0 then Some([])
    else
      var init := vs[..|vs| - 1];
      var last := vs[|vs| - 1];
      assert vs == init + [last];
      assert forall j :: 0 <= j < |init| ==> vs[j] == init[j];
      match QaRows(init)
      case None => None
      case Some(rows) =>
        if !last.Object? then None
        else Some(rows + (if IsQa(last.fields) then [last.fields] else []))
  }

  // ---------------------------------------------------------------------------------------
  // `_parse_ts` and `_pick_latest`
  // ---------------------------------------------------------------------------------------

  /**
   * A `datetime`: naive (wall-clock seconds since 0001-01-01, `datetime.min` being 0) or aware
   * (seconds since 0001-01-01 UTC). Python compares two of one kind by their seconds and raises
   * on a naive and an aware one.
   */
  datatype Stamp = Naive(n: nat) | Aware(a: int)

  const DatetimeMin: Stamp := Naive(0)

  /** The seconds a stamp denotes when a naive one is read as UTC. */
  function Seconds(st: Stamp): int
  {
    match st
    case Naive(n) => n
    case Aware(a) => a
  }

  /**
   * `_parse_ts`: a missing or empty timestamp, one that is not a string, and one that does not
   * parse are `datetime.min`; a trailing `Z` reads as `+00:00`. `fromIso` stands for
   * `datetime.fromisoformat`, `None` where it raises.
   */
  function ParseTs(v: Value, fromIso: string -> Option<Stamp>): (st: Stamp)
    ensures !v.Str? || v.s == "" ==> st == DatetimeMin
    ensures v.Str? && v.s != "" && !EndsWith(v.s, "Z") && fromIso(v.s).Some? ==> st == fromIso(v.s).value
    ensures st != DatetimeMin ==>
      (v.Str? && (fromIso(v.s) == Some(st) || (EndsWith(v.s, "Z") && fromIso(v.s[..|v.s| - 1] + "+00:00") == Some(st))))
  {
    if !Truthy(v) || !v.Str? then DatetimeMin
    else
      var s := if EndsWith(v.s, "Z") then v.s[..|v.s| - 1] + "+00:00" else v.s;
      match fromIso(s)
      case None => DatetimeMin
      case Some(st) => st
  }

  /** A missing timestamp and a `Z` suffix behave as `_parse_ts` promises. */
  lemma ParseTsCases(s: string, fromIso: string -> Option<Stamp>)
    ensures ParseTs(Null, fromIso) == DatetimeMin && ParseTs(Str(""), fromIso) == DatetimeMin
    ensures ParseTs(Str(s + "Z"), fromIso) == ParseTs(Str(s + "+00:00"), fromIso)
    ensures fromIso(s + "+00:00").None? ==> ParseTs(Str(s + "Z"), fromIso) == DatetimeMin
  {
    var z := s + "Z";
    assert EndsWith(z, "Z") && z[..|z| - 1] == s;
    var u := s + "+00:00";
    assert u[|u| - 1] == '0';
    assert !EndsWith(u, "Z");
  }

  /** `[r for r in rows if r.get("bench_name") == bench]`. */
  function Candidates(rows: seq<Dict>, bench: string): (cand: seq<Dict>)
    ensures |cand| <= |rows|
    ensures forall r :: r in cand <==> r in rows && Get(r, "bench_name") == Str(bench)
  {
    if |rows| == 0 then []
    else
      var init := rows[..|rows| - 1];
      var last := rows[|rows| - 1];
      assert rows == init + [last];
      Candidates(init, bench) + (if Get(last, "bench_name") == Str(bench) then [last] else [])
  }

  /** The candidates' parsed timestamps, position by position. */
  function StampsOf(cand: seq<Dict>, fromIso: string -> Option<Stamp>): (st: seq<Stamp>)
    ensures |st| == |cand| && forall j :: 0 <= j < |cand| ==> st[j] == ParseTs(Get(cand[j], "ts_utc"), fromIso)
  {
    seq(|cand|, j requires 0 <= j < |cand| => ParseTs(Get(cand[j], "ts_utc"), fromIso))
  }

  /** Both a naive and an aware stamp occur: sorting them raises `TypeError`. */
  predicate Mixed(st: seq<Stamp>)
  {
    (exists i :: 0 <= i < |st| && st[i].Naive?) && (exists j :: 0 <= j < |st| && st[j].Aware?)
  }

  /**
   * The position a stable sort by descending seconds puts first: the first position whose
   * seconds no other position exceeds.
   */
  function FirstMax(secs: seq<int>): (k: nat)
    requires |secs| > 0
    ensures k < |secs|
    ensures forall j :: 0 <= j < |secs| ==> secs[j] <= secs[k]
    ensures forall j :: 0 <= j < k ==> secs[j] < secs[k]
  {
    if |secs| == 1 then 0
    else
      var k := FirstMax(secs[..|secs| - 1]);
      assert forall j :: 0 <= j < |secs| - 1 ==> secs[j] == secs[..|secs| - 1][j];
      if secs[k] < secs[|secs| - 1] then |secs| - 1 else k
  }

  function SecondsOf(st: seq<Stamp>): (secs: seq<int>)
    ensures |secs| == |st| && forall j :: 0 <= j < |st| ==> secs[j] == Seconds(st[j])
  {
    seq(|st|, j requires 0 <= j < |st| => Seconds(st[j]))
  }

  /** Why `_pick_latest` fails as written. */
  datatype SortError = NaiveAndAware

  /**
   * `_pick_latest` as written: no candidate gives `None`; candidates mixing naive and aware
   * timestamps make the sort raise; otherwise the first candidate with the latest timestamp.
   */
  function PickLatestAsWritten(rows: seq<Dict>, bench: string, fromIso: string -> Option<Stamp>)
    : (r: Result<Option<Dict>, SortError>)
    ensures r.Err? <==> Mixed(StampsOf(Candidates(rows, bench), fromIso))
    ensures r == Ok(None) <==> Candidates(rows, bench) == []
  {
    var cand := Candidates(rows, bench);
    var st := StampsOf(cand, fromIso);
    if |cand| == 0 then Ok(None)
    else if Mixed(st) then Err(NaiveAndAware)
    else Ok(Some(cand[FirstMax(SecondsOf(st))]))
  }

  /**
   * A row timestamped in UTC (`...Z`) and a row without a timestamp for the same bench make
   * `_pick_latest` raise instead of picking the timestamped row.
   */
  lemma MissingTimestampRaises(dated: Dict, undated: Dict, b: string, s: string, fromIso: string -> Option<Stamp>)
    requires Get(dated, "bench_name") == Str(b) && Get(undated, "bench_name") == Str(b)
    requires Get(dated, "ts_utc") == Str(s + "Z") && fromIso(s + "+00:00").Some? && fromIso(s + "+00:00").value.Aware?
    requires !Truthy(Get(undated, "ts_utc"))
    ensures PickLatestAsWritten([dated, undated], b, fromIso).Err?
  {
    var cand := BothCandidates(dated, undated, b);
    var st := StampsOf(cand, fromIso);
    ParseTsCases(s, fromIso);
    assert st[0].Aware? && st[1] == DatetimeMin;
    assert Mixed(st);
  }

  /** Two rows for bench `b` are both candidates, in order. */
  lemma BothCandidates(r1: Dict, r2: Dict, b: string) returns (cand: seq<Dict>)
    requires Get(r1, "bench_name") == Str(b) && Get(r2, "bench_name") == Str(b)
    ensures cand == Candidates([r1, r2], b) == [r1, r2]
  {
    assert [r1, r2][..1] == [r1] && [r1][..0] == [];
    assert Candidates([r1], b) == [r1];
    cand := [r1, r2];
  }

  /**
   * The corrected `_pick_latest`: naive timestamps read as UTC, so every pair compares; the
   * first candidate with the latest timestamp, `None` without candidates.
   */
  function PickLatest(rows: seq<Dict>, bench: string, fromIso: string -> Option<Stamp>): (r: Option<Dict>)
    ensures r.None? <==> Candidates(rows, bench) == []
    ensures r.Some? ==> r.value in rows && Get(r.value, "bench_name") == Str(bench)
  {
    var cand := Candidates(rows, bench);
    if |cand| == 0 then None
    else Some(cand[FirstMax(SecondsOf(StampsOf(cand, fromIso)))])
  }

  /**
   * The corrected pick is the first candidate with the latest timestamp: no candidate is later,
   * and every candidate before it is earlier.
   */
  lemma PickLatestIsLatest(rows: seq<Dict>, bench: string, fromIso: string -> Option<Stamp>)
    requires Candidates(rows, bench) != []
    ensures var cand := Candidates(rows, bench);
      exists k :: 0 <= k < |cand| && PickLatest(rows, bench, fromIso) == Some(cand[k]) &&
        (forall j :: 0 <= j < |cand| ==> Seconds(StampsOf(cand, fromIso)[j]) <= Seconds(StampsOf(cand, fromIso)[k])) &&
        (forall j :: 0 <= j < k ==> Seconds(StampsOf(cand, fromIso)[j]) < Seconds(StampsOf(cand, fromIso)[k]))
  {
    var cand := Candidates(rows, bench);
    var st := StampsOf(cand, fromIso);
    var secs := SecondsOf(st);
    var k := FirstMax(secs);
    assert PickLatest(rows, bench, fromIso) == Some(cand[k]);
    LatestAt(st, secs, k);
  }

  /** The first maximum of the seconds is the first latest stamp. */
  lemma LatestAt(st: seq<Stamp>, secs: seq<int>, k: nat)
    requires secs == SecondsOf(st) && |st| > 0 && k == FirstMax(secs)
    ensures k < |st|
    ensures forall j :: 0 <= j < |st| ==> Seconds(st[j]) <= Seconds(st[k])
    ensures forall j :: 0 <= j < k ==> Seconds(st[j]) < Seconds(st[k])
  {
  }

  /** Wherever the script as written does not raise, the corrected pick is its pick. */
  lemma PicksAgree(rows: seq<Dict>, bench: string, fromIso: string -> Option<Stamp>)
    requires PickLatestAsWritten(rows, bench, fromIso).Ok?
    ensures PickLatestAsWritten(rows, bench, fromIso) == Ok(PickLatest(rows, bench, fromIso))
  {
  }

  /** `main`'s selection: the corrected latest row of every bench of the section that has one. */
  method PickAll(rows: seq<Dict>, fromIso: string -> Option<Stamp>) returns (picked: map<string, Dict>)
    ensures forall b :: b in picked <==> b in Order && Candidates(rows, b) != []
    ensures forall b :: b in picked ==> Some(picked[b]) == PickLatest(rows, b, fromIso)
  {
    picked := map[];
    for i := 0 to |Order|
      invariant forall b :: b in picked <==> b in Order[..i] && Candidates(rows, b) != []
      invariant forall b :: b in picked ==> Some(picked[b]) == PickLatest(rows, b, fromIso)
    {
      var b := Order[i];
      var r := PickLatest(rows, b, fromIso);
      if r.Some? && r.value != map[] {
        picked := picked[b := r.value];
      }
      assert Order[..i + 1] == Order[..i] + [b];
    }
    assert Order[..|Order|] == Order;
  }

  // ---------------------------------------------------------------------------------------
  // `_build_block`
  // ---------------------------------------------------------------------------------------

  /** What `_build_block` shows: the pinned commit (empty when none is known) and the rows. */
  datatype Section = Section(commit: string, rows: seq<VendorRow>)

  /** `_build_block`, up to the text of its lines. */
  method BuildSection(picked: map<string, Dict>) returns (s: Section)
    ensures s.commit == Short(PinnedCommit(picked, Order))
    ensures s.rows == Shown(picked, Order)
  {
    var full := FirstCommit(picked, Order);
    var rows := TableRows(picked, Order);
    s := Section(Short(full), rows);
  }

  /** `repo_at`: the repository, with the pinned commit when one is known. */
  function RepoAt(commit: string): (s: string)
    ensures commit == "" ==> s == "`" + Repo + "`"
    ensures commit != "" ==> EndsWith(s, "@`" + commit + "`")
  {
    if commit != "" then
      var s := "`" + Repo + "`@`" + commit + "`";
      assert s == ("`" + Repo + "`") + ("@`" + commit + "`");
      s
    else "`" + Repo + "`"
  }

  /** `_build_block`'s text: the framed lines, without a closing line break. */
  function Block(body: seq<string>): string
  {
    Frame(Begin, body, End)
  }

  // ---------------------------------------------------------------------------------------
  // `_upsert_block`
  // ---------------------------------------------------------------------------------------

  /** `s.replace(old, new, 1)` when `old` occurs in `s`. */
  function ReplaceFirst(s: string, target: string, replacement: string): string
    requires Contains(s, target)
  {
    var i := Find(s, target).value;
    s[..i] + replacement + s[i + |target|..]
  }

  /** Why the upsert stops: both markers occur, but no END follows the first BEGIN. */
  datatype Refusal = NoEndAfterBegin

  /**
   * `_upsert_block`: with both markers, the span from the first BEGIN to the first END after it
   * is replaced; without them, the block goes in a blank line before the `before` anchor, else
   * a blank line after the `after` anchor, else at the end after a blank line.
   */
  function UpsertFor(txt: string, begin: string, end: string, before: string, after: string, block: string)
    : (r: Result<string, Refusal>)
    ensures r.Err? <==> Contains(txt, begin) && Contains(txt, end) && Splice(txt, begin, end, block).None?
  {
    if Contains(txt, begin) && Contains(txt, end) then
      match Splice(txt, begin, end, block)
      case None => Err(NoEndAfterBegin)
      case Some(s) => Ok(s)
    else if Contains(txt, before) then
      Ok(ReplaceFirst(txt, before, block + "\n\n" + before))
    else if Contains(txt, after) then
      Ok(ReplaceFirst(txt, after, after + "\n\n" + block))
    else
      Ok(txt + (if EndsWith(txt, "\n") then "" else "\n") + "\n" + block + "\n")
  }

  function Upsert(txt: string, block: string): (r: Result<string, Refusal>)
    ensures r.Err? <==> Contains(txt, Begin) && Contains(txt, End) && Splice(txt, Begin, End, block).None?
    ensures Contains(txt, Begin) && Contains(txt, End) && r.Ok? ==> Some(r.value) == Splice(txt, Begin, End, block)
    ensures !(Contains(txt, Begin) && Contains(txt, End)) && !Contains(txt, AnchorBefore) && !Contains(txt, AnchorAfter) ==>
      r.Ok? && StartsWith(r.value, txt) && EndsWith(r.value, "\n" + block + "\n")
  {
    UpsertFor(txt, Begin, End, AnchorBefore, AnchorAfter, block)
  }

  /** A BEGIN marker without any END: the one report the upsert places a second block in. */
  predicate OrphanBegin(t: string, begin: string, end: string)
  {
    Contains(t, begin) && !Contains(t, end)
  }

  /**
   * Whichever way it goes, an upsert that succeeds leaves a text holding the block after a
   * prefix without BEGIN, when the report had no orphan BEGIN.
   */
  lemma UpsertShape(t: string, begin: string, end: string, before: string, after: string, b: string)
    returns (x: string, y: string)
    requires Marker(begin) && !OrphanBegin(t, begin, end)
    requires UpsertFor(t, begin, end, before, after, b).Ok?
    ensures UpsertFor(t, begin, end, before, after, b).value == x + b + y
    ensures Find(x, begin).None?
  {
    if Contains(t, begin) && Contains(t, end) {
      x, y := SpliceShape(t, begin, end, b);
    } else if Contains(t, before) {
      x, y := BeforeShape(t, begin, before, b);
    } else if Contains(t, after) {
      x, y := AfterShape(t, begin, after, b);
    } else {
      x, y := AppendShape(t, begin, b);
    }
  }

  lemma SpliceShape(t: string, begin: string, end: string, b: string) returns (x: string, y: string)
    requires Marker(begin) && Splice(t, begin, end, b).Some?
    ensures Splice(t, begin, end, b).value == x + b + y && Find(x, begin).None?
  {
    var i := Find(t, begin).value;
    var rest := t[i + |begin|..];
    var j := Find(rest, end).value;
    x, y := t[..i], rest[j + |end|..];
    NoneBeforeFirst(t, begin, i);
  }

  lemma BeforeShape(t: string, begin: string, before: string, b: string) returns (x: string, y: string)
    requires Marker(begin) && !Contains(t, begin) && Contains(t, before)
    ensures ReplaceFirst(t, before, b + "\n\n" + before) == x + b + y && Find(x, begin).None?
  {
    var i := Find(t, before).value;
    x, y := t[..i], "\n\n" + before + t[i + |before|..];
    NoneInPrefix(t, begin, i);
  }

  lemma AfterShape(t: string, begin: string, after: string, b: string) returns (x: string, y: string)
    requires Marker(begin) && !Contains(t, begin) && Contains(t, after)
    ensures ReplaceFirst(t, after, after + "\n\n" + b) == x + b + y && Find(x, begin).None?
  {
    var i := Find(t, after).value;
    var p := t[..i + |after|];
    assert t[..i] + after == p;
    x, y := p + "\n\n", t[i + |after|..];
    NoneInPrefix(t, begin, i + |after|);
    NoneAfterBreak(p, begin);
    NoneAfterBreak(p + "\n", begin);
    assert p + "\n" + "\n" == x;
  }

  lemma AppendShape(t: string, begin: string, b: string) returns (x: string, y: string)
    requires Marker(begin) && !Contains(t, begin)
    ensures t + (if EndsWith(t, "\n") then "" else "\n") + "\n" + b + "\n" == x + b + y
    ensures Find(x, begin).None?
  {
    var p := t + (if EndsWith(t, "\n") then "" else "\n");
    if !EndsWith(t, "\n") {
      NoneAfterBreak(t, begin);
    } else {
      assert p == t;
    }
    x, y := p + "\n", "\n";
    NoneAfterBreak(p, begin);
  }

  /** Upserting a block into a text that holds it after a BEGIN-free prefix changes nothing. */
  lemma UpsertAt(x: string, b: string, y: string, begin: string, end: string, before: string, after: string)
    requires Marker(begin) && Framed(b, begin, end) && Find(x, begin).None?
    ensures UpsertFor(x + b + y, begin, end, before, after, b) == Ok(x + b + y)
  {
    var t := x + b + y;
    FindBeginFramed(x, b, y, begin, end);
    SpliceFramed(x, b, y, b, begin, end);
    var k := |x| + |b| - |end|;
    assert IsAt(t, end, k) by {
      assert b[|begin|..][|b| - |begin| - |end|..|b| - |begin|] == end;
      assert t[k..k + |end|] == b[|b| - |end|..];
    }
  }

  /**
   * Rerunning the script with the same measurements leaves the report as the first run left
   * it, unless the report held a BEGIN marker without an END, provided no body line holds END.
   */
  lemma UpsertRerun(t: string, body: seq<string>)
    requires Clean(body, End) && !OrphanBegin(t, Begin, End) && Upsert(t, Block(body)).Ok?
    ensures Upsert(Upsert(t, Block(body)).value, Block(body)) == Upsert(t, Block(body))
  {
    MarkersWellFormed();
    FrameFramed(Begin, body, End);
    var x, y := UpsertShape(t, Begin, End, AnchorBefore, AnchorAfter, Block(body));
    UpsertAt(x, Block(body), y, Begin, End, AnchorBefore, AnchorAfter);
  }
}
