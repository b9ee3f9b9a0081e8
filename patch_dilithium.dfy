/**
 * The Dilithium vendor section of the protocol-readiness report: the latest ZKNoxHQ/ETHDILITHIUM
 * measurement of each bench (timestamps compared as text), the section's table and pinned
 * commit, and the upsert of the section between the DILITHIUM_VENDOR markers.
 */
module PatchDilithium {
  import opened Outcomes
  import opened Text
  import opened Lex
  import opened PyValues
  import opened Jsonl
  import opened Markers
  import opened VendorBlock

  const Begin: string := "<!-- DILITHIUM_VENDOR_BEGIN -->"
  const End: string := "<!-- DILITHIUM_VENDOR_END -->"
  const Repo: string := "ZKNoxHQ/ETHDILITHIUM"

  /** The benches of the section, in table order. */
  const Order: seq<string> := ["dilithium_verify_nistkat", "ethdilithium_verify_evmfriendly"]

  /** Both markers are one-line HTML comments, and neither contains the other. */
  lemma MarkersWellFormed()
    ensures MarkerPair(Begin, End)
  {
    assert Begin[22] != End[22];
    MarkerAvoids(Begin, End);
    MarkerAvoids(End, Begin);
  }

  // ---------------------------------------------------------------------------------------
  // `_latest_for_bench`
  // ---------------------------------------------------------------------------------------

  /** The object a decoded line holds; empty for any other line. */
  function Fields(l: Line): Dict
  {
    if l.Parsed? && l.v.Object? then l.v.fields else map[]
  }

  /** A line that decodes to something other than an object: `obj.get` raises on it. */
  predicate NotRow(l: Line)
  {
    l.Parsed? && !l.v.Object?
  }

  /** The line is a row of the vendor repository, scheme `dilithium`, for bench `b`. */
  predicate Counts(l: Line, b: string)
  {
    l.Parsed? && l.v.Object? && Get(l.v.fields, "repo") == Str(Repo) &&
    Get(l.v.fields, "scheme") == Str("dilithium") && Get(l.v.fields, "bench_name") == Str(b)
  }

  /** `str(obj.get("ts_utc") or "")`: the timestamp compared as text, empty when missing. */
  function Ts(r: Dict): string
  {
    ToStr(Or(Get(r, "ts_utc"), Str("")))
  }

  /** Which lines count for `b`, position by position. */
  function CountsOf(lines: seq<Line>, b: string): (c: seq<bool>)
    ensures |c| == |lines| && forall j :: 0 <= j < |lines| ==> c[j] == Counts(lines[j], b)
  {
    seq(|lines|, j requires 0 <= j < |lines| => Counts(lines[j], b))
  }

  /** Every line's timestamp text (empty for a line that is no row). */
  function TsOf(lines: seq<Line>): (ts: seq<string>)
    ensures |ts| == |lines| && forall j :: 0 <= j < |lines| ==> ts[j] == Ts(Fields(lines[j]))
  {
    seq(|lines|, j requires 0 <= j < |lines| => Ts(Fields(lines[j])))
  }

  /**
   * Among the first `n` positions, `k` is the one kept: no counting position has a greater
   * timestamp; a later one never has an equal non-empty one (an equal timestamp replaces); and
   * a position that is not the first counting one has a non-empty timestamp (an empty one
   * never replaces).
   */
  ghost predicate Latest(c: seq<bool>, ts: seq<string>, n: nat, k: nat)
    requires |c| == |ts|
  {
    k < n <= |c| && c[k] &&
    forall j :: 0 <= j < n && c[j] ==>
      LessEq(ts[j], ts[k]) &&
      (k < j ==> ts[j] == "" || Less(ts[j], ts[k])) &&
      (j < k ==> ts[k] != "")
  }

  /** Among the first `n` lines, line `k` holds the row kept for bench `b`. */
  ghost predicate IsLatest(lines: seq<Line>, n: nat, b: string, k: nat)
  {
    Latest(CountsOf(lines, b), TsOf(lines), n, k)
  }

  /** The scan's state after `i` positions: whether a row is kept, its timestamp and ghost position `k`. */
  ghost predicate Scan(c: seq<bool>, ts: seq<string>, i: nat, kept: bool, bestTs: string, k: nat)
    requires |c| == |ts|
  {
    i <= |c| &&
    (!kept <==> forall j :: 0 <= j < i ==> !c[j]) &&
    (kept ==> Latest(c, ts, i, k) && bestTs == ts[k])
  }

  /**
   * `_latest_for_bench`: blank and undecodable lines are skipped, a decoded non-object aborts
   * the run, and of the counting rows the one with the greatest timestamp is kept, the last of
   * equal non-empty timestamps and the first when all are empty.
   */
  method LatestForBench(lines: seq<Line>, b: string) returns (r: Result<Option<Dict>, DecodeError>)
    ensures r.Err? <==> exists j :: 0 <= j < |lines| && NotRow(lines[j])
    ensures r.Err? ==>
      r.error.NotObject? && r.error.line < |lines| && NotRow(lines[r.error.line]) &&
      forall j :: 0 <= j < r.error.line ==> !NotRow(lines[j])
    ensures r.Ok? ==> (r.value.None? <==> forall j :: 0 <= j < |lines| ==> !Counts(lines[j], b))
    ensures r.Ok? && r.value.Some? ==>
      exists k: nat :: k < |lines| && IsLatest(lines, |lines|, b, k) && r.value.value == Fields(lines[k])
  {
    ghost var c, ts := CountsOf(lines, b), TsOf(lines);
    var best: Option<Dict> := None;
    var bestTs := "";
    ghost var k: nat := 0;
    for i := 0 to |lines|
      invariant forall j :: 0 <= j < i ==> !NotRow(lines[j])
      invariant Scan(c, ts, i, best.Some?, bestTs, k)
      invariant best.Some? ==> k < |lines| && best.value == Fields(lines[k])
    {
      if NotRow(lines[i]) {
        return Err(NotObject(i));
      }
      if !Counts(lines[i], b) {
        StepSkip(c, ts, i, best.Some?, bestTs, k);
        continue;
      }
      var row := Fields(lines[i]);
      var t := Ts(row);
      if best.None? || (t != "" && LessEq(bestTs, t)) {
        StepTake(c, ts, i, best.Some?, bestTs, k);
        best, bestTs, k := Some(row), t, i;
      } else {
        StepKeep(c, ts, i, bestTs, k);
      }
    }
    r := Ok(best);
  }

  lemma StepSkip(c: seq<bool>, ts: seq<string>, i: nat, kept: bool, bestTs: string, k: nat)
    requires |c| == |ts| && i < |c| && Scan(c, ts, i, kept, bestTs, k) && !c[i]
    ensures Scan(c, ts, i + 1, kept, bestTs, k)
  {
  }

  lemma StepTake(c: seq<bool>, ts: seq<string>, i: nat, kept: bool, bestTs: string, k: nat)
    requires |c| == |ts| && i < |c| && Scan(c, ts, i, kept, bestTs, k) && c[i]
    requires !kept || (ts[i] != "" && LessEq(bestTs, ts[i]))
    ensures Scan(c, ts, i + 1, true, ts[i], i)
  {
    forall j | 0 <= j < i && c[j]
      ensures LessEq(ts[j], ts[i]) && ts[i] != ""
    {
      LessEqTransitive(ts[j], bestTs, ts[i]);
    }
  }

  lemma StepKeep(c: seq<bool>, ts: seq<string>, i: nat, bestTs: string, k: nat)
    requires |c| == |ts| && i < |c| && Scan(c, ts, i, true, bestTs, k) && c[i]
    requires !(ts[i] != "" && LessEq(bestTs, ts[i]))
    ensures Scan(c, ts, i + 1, true, bestTs, k)
  {
    if ts[i] == "" {
      EmptyLeast(bestTs);
    } else {
      NotLessEq(bestTs, ts[i]);
    }
  }

  /** At most one position is the latest: the selection is well defined. */
  lemma LatestUnique(c: seq<bool>, ts: seq<string>, n: nat, k1: nat, k2: nat)
    requires |c| == |ts| && Latest(c, ts, n, k1) && Latest(c, ts, n, k2)
    ensures k1 == k2
  {
    if k1 < k2 {
      assert Less(ts[k2], ts[k1]) && LessEq(ts[k1], ts[k2]);
      LessAsymmetric(ts[k2], ts[k1]);
    } else if k2 < k1 {
      assert Less(ts[k1], ts[k2]) && LessEq(ts[k2], ts[k1]);
      LessAsymmetric(ts[k1], ts[k2]);
    }
  }

  /** A timestamped row beats every row without one: the kept row has a timestamp if any does. */
  lemma LatestHasTimestamp(c: seq<bool>, ts: seq<string>, n: nat, k: nat, j: nat)
    requires |c| == |ts| && Latest(c, ts, n, k) && j < n && c[j] && ts[j] != ""
    ensures ts[k] != ""
  {
    assert LessEq(ts[j], ts[k]);
  }

  /** `main`'s selection: the latest row of every bench of the section that has one. */
  method PickAll(lines: seq<Line>) returns (r: Result<map<string, Dict>, DecodeError>)
    ensures r.Err? <==> exists j :: 0 <= j < |lines| && NotRow(lines[j])
    ensures r.Ok? ==> forall b :: b in r.value <==> b in Order && exists j :: 0 <= j < |lines| && Counts(lines[j], b)
    ensures r.Ok? ==> forall b :: b in r.value ==>
      exists k: nat :: k < |lines| && IsLatest(lines, |lines|, b, k) && r.value[b] == Fields(lines[k])
  {
    var picked: map<string, Dict> := map[];
    for i := 0 to |Order|
      invariant i > 0 ==> forall j :: 0 <= j < |lines| ==> !NotRow(lines[j])
      invariant forall b :: b in picked <==> b in Order[..i] && exists j :: 0 <= j < |lines| && Counts(lines[j], b)
      invariant forall b :: b in picked ==>
        exists k: nat :: k < |lines| && IsLatest(lines, |lines|, b, k) && picked[b] == Fields(lines[k])
    {
      var latest := LatestForBench(lines, Order[i]);
      if latest.Err? {
        return Err(latest.error);
      }
      if latest.value.Some? {
        picked := picked[Order[i] := latest.value.value];
      }
      assert Order[..i + 1] == Order[..i] + [Order[i]];
    }
    assert Order[..|Order|] == Order;
    r := Ok(picked);
  }

  // ---------------------------------------------------------------------------------------
  // `_build_block`
  // ---------------------------------------------------------------------------------------

  /** The fixed note each bench's row adds to the recorded notes. */
  function NoteFor(b: string): (n: string)
    ensures b in Order <==> n != ""
  {
    if b == "dilithium_verify_nistkat" then "path-pinned; Foundry: test/ZKNOX_dilithiumKATS.t.sol:testVerify"
    else if b == "ethdilithium_verify_evmfriendly" then "path-pinned; Foundry: test/ZKNOX_ethdilithiumKAT.t.sol:testVerify"
    else ""
  }

  /** `str(r.get("notes") or "").strip()`: the notes the row records. */
  function OwnNotes(r: Dict): string
  {
    Strip(ToStr(Or(Get(r, "notes"), Str(""))))
  }

  /** The notes cell: the row's own notes, then `; ` and the bench's fixed note. */
  function NotesCell(b: string, r: Dict): string
  {
    JoinNotes(OwnNotes(r), NoteFor(b))
  }

  /** Recorded notes extended by a fixed note: both survive, the fixed one last. */
  function JoinNotes(own: string, extra: string): (n: string)
    ensures StartsWith(n, own) && EndsWith(n, extra)
    ensures own == "" ==> n == extra
    ensures extra == "" ==> n == own
  {
    if extra == "" then own
    else if own != "" then
      var n := own + "; " + extra;
      assert n[..|own|] == own && n[|n| - |extra|..] == extra;
      n
    else extra
  }

  /** The security-model cell: `security_model`, else `security_model_type`, else `standalone`. */
  function SecurityModelCell(r: Dict): (m: string)
    ensures Truthy(Get(r, "security_model")) ==> m == ToStr(Get(r, "security_model"))
    ensures !Truthy(Get(r, "security_model")) && Truthy(Get(r, "security_model_type")) ==>
      m == ToStr(Get(r, "security_model_type"))
    ensures !Truthy(Get(r, "security_model")) && !Truthy(Get(r, "security_model_type")) ==> m == "standalone"
  {
    ToStr(Or(Or(Get(r, "security_model"), Get(r, "security_model_type")), Str("standalone")))
  }

  /** The table: a placeholder row when nothing was picked, else one row per shown bench. */
  datatype Table = Placeholder | Rows(rows: seq<VendorRow>)

  /** What `_build_block` shows: the pinned commit (empty for `(none)`) and the table. */
  datatype Section = Section(commit: string, table: Table)

  /** `_build_block`, up to the text of its lines. */
  method BuildSection(picked: map<string, Dict>) returns (s: Section)
    ensures s.commit == Short(PinnedCommit(picked, Order))
    ensures s.table.Placeholder? <==> picked == map[]
    ensures s.table.Rows? ==> s.table.rows == Shown(picked, Order)
  {
    var full := FirstCommit(picked, Order);
    if picked == map[] {
      return Section(Short(full), Placeholder);
    }
    var rows := TableRows(picked, Order);
    s := Section(Short(full), Rows(rows));
  }

  /** `_build_block`'s text: the framed lines and a closing line break. */
  function Block(body: seq<string>): string
  {
    Frame(Begin, body, End) + "\n"
  }

  // ---------------------------------------------------------------------------------------
  // `_upsert_block`
  // ---------------------------------------------------------------------------------------

  /**
   * `_upsert_block` as written: with both markers, the text before the first BEGIN, the block,
   * and the text after the first END; otherwise the right-stripped text, a blank line, the block.
   */
  function UpsertAsWrittenFor(txt: string, begin: string, end: string, block: string): string
  {
    if Contains(txt, begin) && Contains(txt, end) then
      txt[..Find(txt, begin).value] + block + txt[Find(txt, end).value + |end|..]
    else
      RStripSpace(txt) + "\n\n" + block
  }

  function UpsertAsWritten(txt: string, block: string): (r: string)
    ensures Contains(txt, Begin) && Contains(txt, End) ==>
      StartsWith(r, txt[..Find(txt, Begin).value] + block) && EndsWith(r, txt[Find(txt, End).value + |End|..])
    ensures !(Contains(txt, Begin) && Contains(txt, End)) ==> r == RStripSpace(txt) + "\n\n" + block
  {
    UpsertAsWrittenFor(txt, Begin, End, block)
  }

  /** One leading line break removed. */
  function DropBreak(s: string): string
  {
    if StartsWith(s, "\n") then s[1..] else s
  }

  /**
   * The corrected upsert: the block's own closing line break takes the place of the one that
   * followed the old END marker, so replacing a block by itself changes nothing.
   */
  function UpsertFor(txt: string, begin: string, end: string, block: string): string
  {
    if Contains(txt, begin) && Contains(txt, end) then
      txt[..Find(txt, begin).value] + block + DropBreak(txt[Find(txt, end).value + |end|..])
    else
      RStripSpace(txt) + "\n\n" + block
  }

  function Upsert(txt: string, block: string): (r: string)
    ensures Contains(txt, Begin) && Contains(txt, End) ==>
      StartsWith(r, txt[..Find(txt, Begin).value] + block) && EndsWith(r, DropBreak(txt[Find(txt, End).value + |End|..]))
    ensures !(Contains(txt, Begin) && Contains(txt, End)) ==> r == RStripSpace(txt) + "\n\n" + block
  {
    UpsertFor(txt, Begin, End, block)
  }

  /** A report the upsert handles cleanly: no marker, or both with the first BEGIN before the first END. */
  predicate Ordered(t: string, begin: string, end: string)
  {
    (!Contains(t, begin) && !Contains(t, end)) ||
    (Contains(t, begin) && Contains(t, end) && Find(t, begin).value < Find(t, end).value)
  }

  /**
   * Both upserts of an ordered report produce the same text around the block: a prefix holding
   * no marker, the block, and the text after the old END (with one line break less when
   * corrected).
   */
  lemma FirstRunShape(t: string, f: string, begin: string, end: string) returns (x: string, post: string)
    requires MarkerPair(begin, end) && Ordered(t, begin, end)
    ensures Find(x, begin).None? && Find(x, end).None?
    ensures UpsertAsWrittenFor(t, begin, end, f + "\n") == x + (f + "\n") + post
    ensures UpsertFor(t, begin, end, f + "\n") == x + (f + "\n") + DropBreak(post)
  {
    if Contains(t, begin) {
      x, post := ShapeWithMarkers(t, f, begin, end);
    } else {
      x := ShapeWithoutMarkers(t, f, begin, end);
      post := "";
    }
  }

  /** The report holds both markers: the prefix is the text before the first BEGIN. */
  lemma ShapeWithMarkers(t: string, f: string, begin: string, end: string) returns (x: string, post: string)
    requires MarkerPair(begin, end) && Ordered(t, begin, end) && Contains(t, begin)
    ensures Find(x, begin).None? && Find(x, end).None?
    ensures UpsertAsWrittenFor(t, begin, end, f + "\n") == x + (f + "\n") + post
    ensures UpsertFor(t, begin, end, f + "\n") == x + (f + "\n") + DropBreak(post)
  {
    var i := Find(t, begin).value;
    var j := Find(t, end).value;
    x := t[..i];
    post := t[j + |end|..];
    NoneBeforeFirst(t, begin, i);
    NoneBeforeFirst(t, end, i);
  }

  /** The report holds no marker: the prefix is the right-stripped text and a blank line. */
  lemma ShapeWithoutMarkers(t: string, f: string, begin: string, end: string) returns (x: string)
    requires MarkerPair(begin, end) && Ordered(t, begin, end) && !Contains(t, begin)
    ensures Find(x, begin).None? && Find(x, end).None?
    ensures UpsertAsWrittenFor(t, begin, end, f + "\n") == x + (f + "\n")
    ensures UpsertFor(t, begin, end, f + "\n") == x + (f + "\n")
  {
    var r := RStripSpace(t);
    x := r + "\n\n";
    NoneInPrefix(t, begin, |r|);
    NoneInPrefix(t, end, |r|);
    assert t[..|r|] == r;
    NoneAfterBreak(r, begin);
    NoneAfterBreak(r + "\n", begin);
    NoneAfterBreak(r, end);
    NoneAfterBreak(r + "\n", end);
    assert r + "\n" + "\n" == x;
  }

  /** In a report holding a closed block after a marker-free prefix, the markers found are the block's. */
  lemma SplitAt(x: string, f: string, y: string, begin: string, end: string)
    requires MarkerPair(begin, end) && Closed(f, begin, end)
    requires Find(x, begin).None? && Find(x, end).None?
    ensures var t := x + (f + "\n") + y;
      Contains(t, begin) && Contains(t, end) &&
      t[..Find(t, begin).value] == x && t[Find(t, end).value + |end|..] == "\n" + y
  {
    var t := x + f + ("\n" + y);
    assert x + (f + "\n") + y == t;
    FindBothFramed(x, f, "\n" + y, begin, end);
    assert t[..|x|] == x;
    assert t[|x| + |f| - |end| + |end|..] == "\n" + y;
  }

  /** Both upserts of such a report, with the same block. */
  lemma UpsertAt(x: string, f: string, y: string, begin: string, end: string)
    requires MarkerPair(begin, end) && Closed(f, begin, end)
    requires Find(x, begin).None? && Find(x, end).None?
    ensures UpsertAsWrittenFor(x + (f + "\n") + y, begin, end, f + "\n") == x + (f + "\n") + ("\n" + y)
    ensures UpsertFor(x + (f + "\n") + y, begin, end, f + "\n") == x + (f + "\n") + y
  {
    SplitAt(x, f, y, begin, end);
    assert DropBreak("\n" + y) == y by {
      assert ("\n" + y)[1..] == y;
    }
  }

  /**
   * As written, every rerun adds a line break after the block: rerunning on the report a run
   * produced never leaves it unchanged.
   */
  lemma AsWrittenGrowsFor(t: string, f: string, begin: string, end: string)
    requires MarkerPair(begin, end) && Closed(f, begin, end) && Ordered(t, begin, end)
    ensures var once := UpsertAsWrittenFor(t, begin, end, f + "\n");
      |UpsertAsWrittenFor(once, begin, end, f + "\n")| == |once| + 1
  {
    var x, post := FirstRunShape(t, f, begin, end);
    UpsertAt(x, f, post, begin, end);
  }

  lemma AsWrittenGrows(t: string, body: seq<string>)
    requires Clean(body, End) && Ordered(t, Begin, End)
    ensures UpsertAsWritten(UpsertAsWritten(t, Block(body)), Block(body)) != UpsertAsWritten(t, Block(body))
  {
    MarkersWellFormed();
    FrameClosed(Begin, body, End);
    AsWrittenGrowsFor(t, Frame(Begin, body, End), Begin, End);
  }

  /** The corrected upsert is idempotent. */
  lemma UpsertRerunFor(t: string, f: string, begin: string, end: string)
    requires MarkerPair(begin, end) && Closed(f, begin, end) && Ordered(t, begin, end)
    ensures UpsertFor(UpsertFor(t, begin, end, f + "\n"), begin, end, f + "\n") == UpsertFor(t, begin, end, f + "\n")
  {
    var x, post := FirstRunShape(t, f, begin, end);
    UpsertAt(x, f, DropBreak(post), begin, end);
  }

  /** The corrected upsert leaves a report holding its markers, in order. */
  lemma UpsertOrderedFor(t: string, f: string, begin: string, end: string)
    requires MarkerPair(begin, end) && Closed(f, begin, end) && Ordered(t, begin, end)
    ensures Ordered(UpsertFor(t, begin, end, f + "\n"), begin, end) && Contains(UpsertFor(t, begin, end, f + "\n"), begin)
  {
    var x, post := FirstRunShape(t, f, begin, end);
    ShapeOrdered(x, f, DropBreak(post), begin, end);
  }

  lemma ShapeOrdered(x: string, f: string, y: string, begin: string, end: string)
    requires MarkerPair(begin, end) && Closed(f, begin, end)
    requires Find(x, begin).None? && Find(x, end).None?
    ensures Ordered(x + (f + "\n") + y, begin, end) && Contains(x + (f + "\n") + y, begin)
  {
    FindBothFramed(x, f, "\n" + y, begin, end);
    assert x + (f + "\n") + y == x + f + ("\n" + y);
  }

  /**
   * Rerunning the script with the same measurements leaves the report as the first run left
   * it, provided no body line holds the END marker.
   */
  lemma UpsertRerun(t: string, body: seq<string>)
    requires Clean(body, End) && Ordered(t, Begin, End)
    ensures Upsert(Upsert(t, Block(body)), Block(body)) == Upsert(t, Block(body))
    ensures Ordered(Upsert(t, Block(body)), Begin, End) && Contains(Upsert(t, Block(body)), Begin)
  {
    MarkersWellFormed();
    FrameClosed(Begin, body, End);
    UpsertRerunFor(t, Frame(Begin, body, End), Begin, End);
    UpsertOrderedFor(t, Frame(Begin, body, End), Begin, End);
  }

  /** Where the text after the old END does not start a new line, both upserts agree. */
  lemma UpsertsAgree(t: string, block: string)
    requires !(Contains(t, Begin) && Contains(t, End)) ||
      !StartsWith(t[Find(t, End).value + |End|..], "\n")
    ensures Upsert(t, block) == UpsertAsWritten(t, block)
  {
  }
}
