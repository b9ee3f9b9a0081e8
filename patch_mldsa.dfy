/**
 * The ML-DSA-65 vendor section of the protocol-readiness report: the latest measurement of each
 * wanted bench, the marker scaffold added to a report that lacks one, and the replacement of
 * everything from the BEGIN marker to the END marker by a freshly built block.
 */
module PatchMldsa {
  import opened Outcomes
  import opened Text
  import opened Lex
  import opened PyValues
  import opened Markers
  import opened Jsonl

  const Begin: string := "<!-- MLDSA65_VENDOR_BEGIN -->"
  const End: string := "<!-- MLDSA65_VENDOR_END -->"

  /** The benches the section shows, in table order. */
  const Want: seq<string> := ["verify_poc_foundry", "preA_compute_w_fromPackedA_ntt_rho0_log", "preA_compute_w_fromPackedA_ntt_rho1_log"]

  /** Both markers are one-line HTML comments, and neither contains the other. */
  lemma MarkersWellFormed()
    ensures MarkerPair(Begin, End)
  {
    assert Begin[20] != End[20];
    MarkerAvoids(Begin, End);
    MarkerAvoids(End, Begin);
  }

  /** A row counts for bench `b`: it names `b`, `b` is wanted, and its scheme is `mldsa65`. */
  predicate Eligible(r: Dict, b: string)
  {
    Get(r, "bench_name") == Str(b) && b in Want && Get(r, "scheme") == Str("mldsa65")
  }

  /** `str(r.get("ts_utc", ""))`: the timestamp compared as text. */
  function Ts(r: Dict): string
  {
    ToStr(GetOr(r, "ts_utc", Str("")))
  }

  /** Some row among the first `n` counts for `b`. */
  ghost predicate Seen(rows: seq<Dict>, n: nat, b: string)
  {
    exists j: nat :: j < n && j < |rows| && Eligible(rows[j], b)
  }

  /**
   * Among the first `n` rows, row `k` is the one kept for `b`: no eligible row has a greater
   * timestamp, and every earlier eligible row has a smaller one (the first of the latest wins,
   * because only a strictly greater timestamp replaces).
   */
  ghost predicate IsPick(rows: seq<Dict>, n: nat, b: string, k: nat)
  {
    k < n && n <= |rows| && Eligible(rows[k], b) &&
    forall j: nat :: j < n && Eligible(rows[j], b) ==>
      LessEq(Ts(rows[j]), Ts(rows[k])) && (j < k ==> Less(Ts(rows[j]), Ts(rows[k])))
  }

  /** The benches kept after `i` rows are exactly those with an eligible row so far. */
  ghost predicate Presence(rows: seq<Dict>, i: nat, out: map<string, Dict>)
  {
    forall b :: b in out <==> Seen(rows, i, b)
  }

  /** Every kept row is the pick for its bench, at the ghost index recorded for it. */
  ghost predicate Picks(rows: seq<Dict>, i: nat, out: map<string, Dict>, idx: map<string, nat>)
  {
    forall b :: b in out && b in idx ==> IsPick(rows, i, b, idx[b]) && out[b] == rows[idx[b]]
  }

  /** The scan's state after `i` rows, with the ghost index of each kept row. */
  ghost predicate PickState(rows: seq<Dict>, i: nat, out: map<string, Dict>, idx: map<string, nat>)
  {
    i <= |rows| && Presence(rows, i, out) && out.Keys == idx.Keys && Picks(rows, i, out, idx)
  }

  /**
   * `_pick_latest_by_ts`: for every wanted bench with an eligible row, the row with the
   * greatest timestamp string, the earliest among equals.
   */
  method PickLatestByTs(rows: seq<Dict>) returns (out: map<string, Dict>)
    ensures forall b :: b in out ==> b in Want
    ensures forall b :: b in out <==> Seen(rows, |rows|, b)
    ensures forall b :: b in out ==> exists k: nat :: IsPick(rows, |rows|, b, k) && out[b] == rows[k]
  {
    out := map[];
    ghost var idx: map<string, nat> := map[];
    for i := 0 to |rows|
      invariant PickState(rows, i, out, idx)
    {
      out, idx := PickStep(rows, i, out, idx);
    }
    PickStateDone(rows, out, idx);
  }

  /**
   * `_load_jsonl` followed by `_pick_latest_by_ts`: the whole file is decoded first, so a line
   * that is not JSON aborts the run, and so does a line that is not an object (`r.get` raises);
   * otherwise the picks are those of the decoded rows.
   */
  method PickLatestFromLines(lines: seq<Line>) returns (r: Result<map<string, Dict>, DecodeError>)
    ensures r.Err? <==> exists i :: 0 <= i < |lines| && !Acceptable(lines[i])
    ensures r.Err? ==> r.error == DecodeObjects(lines, 0).error
    ensures r.Ok? ==> forall b :: b in r.value <==> Seen(Objects(lines), |Objects(lines)|, b)
    ensures r.Ok? ==> forall b :: b in r.value ==> b in Want
    ensures r.Ok? ==> forall b :: b in r.value ==>
      (exists k: nat :: IsPick(Objects(lines), |Objects(lines)|, b, k) && r.value[b] == Objects(lines)[k])
  {
    var decoded := DecodeObjects(lines, 0);
    if decoded.Err? {
      return Err(decoded.error);
    }
    var out := PickLatestByTs(decoded.value);
    return Ok(out);
  }

  /** What the final scan state says about the picks. */
  lemma PickStateDone(rows: seq<Dict>, out: map<string, Dict>, idx: map<string, nat>)
    requires PickState(rows, |rows|, out, idx)
    ensures forall b :: b in out ==> b in Want
    ensures forall b :: b in out ==> exists k: nat :: IsPick(rows, |rows|, b, k) && out[b] == rows[k]
  {
    forall b | b in out ensures b in Want && IsPick(rows, |rows|, b, idx[b]) && out[b] == rows[idx[b]] {
    }
  }

  /** One pass of the loop body of `_pick_latest_by_ts`: row `i` is taken, replaces, or is passed over. */
  method PickStep(rows: seq<Dict>, i: nat, out: map<string, Dict>, ghost idx: map<string, nat>)
    returns (out': map<string, Dict>, ghost idx': map<string, nat>)
    requires i < |rows| && PickState(rows, i, out, idx)
    ensures PickState(rows, i + 1, out', idx')
  {
    out', idx' := out, idx;
    var r := rows[i];
    var bv := Get(r, "bench_name");
    if bv.Str? && bv.s in Want && Get(r, "scheme") == Str("mldsa65") {
      var b := bv.s;
      assert Eligible(r, b);
      if b !in out {
        StepNew(rows, i, out, idx, b);
        out', idx' := out[b := r], idx[b := i];
      } else if Less(Ts(out[b]), Ts(r)) {
        StepReplace(rows, i, out, idx, b);
        out', idx' := out[b := r], idx[b := i];
      } else {
        StepKeep(rows, i, out, idx, b);
      }
    } else {
      StepSkip(rows, i, out, idx);
    }
  }

  lemma SeenStep(rows: seq<Dict>, i: nat, b: string)
    requires i < |rows|
    ensures Seen(rows, i + 1, b) <==> Seen(rows, i, b) || Eligible(rows[i], b)
  {
    if Seen(rows, i + 1, b) && !Eligible(rows[i], b) {
      var j: nat :| j < i + 1 && j < |rows| && Eligible(rows[j], b);
      assert j < i;
    }
    if Seen(rows, i, b) {
      var j: nat :| j < i && j < |rows| && Eligible(rows[j], b);
      assert j < i + 1;
    }
    if Eligible(rows[i], b) {
      assert i < i + 1;
    }
  }

  /** `k` stays the pick for `b` when row `i` is not eligible for `b` or is not newer. */
  lemma KeepsPick(rows: seq<Dict>, i: nat, b: string, k: nat)
    requires i < |rows| && IsPick(rows, i, b, k)
    requires Eligible(rows[i], b) ==> LessEq(Ts(rows[i]), Ts(rows[k]))
    ensures IsPick(rows, i + 1, b, k)
  {
    forall j: nat | j < i + 1 && Eligible(rows[j], b)
      ensures LessEq(Ts(rows[j]), Ts(rows[k])) && (j < k ==> Less(Ts(rows[j]), Ts(rows[k])))
    {
      if j < i {
        assert j < i && Eligible(rows[j], b);
      }
    }
  }

  /** Row `i`, eligible for `b` at most, adds at most `b` to the benches seen. */
  lemma PresenceStep(rows: seq<Dict>, i: nat, out: map<string, Dict>, b: string, v: Dict)
    requires i < |rows| && Presence(rows, i, out)
    requires forall c :: !Eligible(rows[i], c) || c == b
    requires Seen(rows, i + 1, b)
    ensures Presence(rows, i + 1, out[b := v])
  {
    forall c {
      SeenStep(rows, i, c);
    }
  }

  /** Every bench other than `b` keeps its pick, and `b` gets row `k`. */
  lemma PicksStep(rows: seq<Dict>, i: nat, out: map<string, Dict>, idx: map<string, nat>, b: string, k: nat)
    requires i < |rows| && Picks(rows, i, out, idx)
    requires forall c :: !Eligible(rows[i], c) || c == b
    requires IsPick(rows, i + 1, b, k)
    ensures Picks(rows, i + 1, out[b := rows[k]], idx[b := k])
  {
    forall c | c in out && c in idx && c != b ensures IsPick(rows, i + 1, c, idx[c]) {
      KeepsPick(rows, i, c, idx[c]);
    }
  }

  /** Every bench other than `b` keeps its pick, and `b` gets row `k`. */
  lemma OthersKept(rows: seq<Dict>, i: nat, out: map<string, Dict>, idx: map<string, nat>, b: string, k: nat)
    requires i < |rows| && PickState(rows, i, out, idx)
    requires forall c :: !Eligible(rows[i], c) || c == b
    requires Seen(rows, i + 1, b) && IsPick(rows, i + 1, b, k)
    ensures PickState(rows, i + 1, out[b := rows[k]], idx[b := k])
  {
    PresenceStep(rows, i, out, b, rows[k]);
    PicksStep(rows, i, out, idx, b, k);
  }

  /** A row eligible for `b` is eligible for no other bench. */
  lemma EligibleOnlyFor(r: Dict, b: string)
    requires Eligible(r, b)
    ensures forall c :: !Eligible(r, c) || c == b
  {
    forall c | Eligible(r, c) ensures c == b {
      EligibleOnce(r, b, c);
    }
  }

  /** A row is eligible for at most the bench it names. */
  lemma EligibleOnce(r: Dict, b: string, c: string)
    requires Eligible(r, b) && Eligible(r, c)
    ensures b == c
  {
  }

  lemma StepNew(rows: seq<Dict>, i: nat, out: map<string, Dict>, idx: map<string, nat>, b: string)
    requires i < |rows| && PickState(rows, i, out, idx)
    requires Eligible(rows[i], b) && b !in out
    ensures PickState(rows, i + 1, out[b := rows[i]], idx[b := i])
  {
    assert !Seen(rows, i, b);
    assert forall j: nat :: j < i && j < |rows| ==> !Eligible(rows[j], b);
    assert IsPick(rows, i + 1, b, i);
    SeenStep(rows, i, b);
    forall c | Eligible(rows[i], c) ensures c == b {
      EligibleOnce(rows[i], b, c);
    }
    OthersKept(rows, i, out, idx, b, i);
  }

  lemma StepReplace(rows: seq<Dict>, i: nat, out: map<string, Dict>, idx: map<string, nat>, b: string)
    requires i < |rows| && PickState(rows, i, out, idx)
    requires Eligible(rows[i], b) && b in out && Less(Ts(out[b]), Ts(rows[i]))
    ensures PickState(rows, i + 1, out[b := rows[i]], idx[b := i])
  {
    NewerPick(rows, i, b, idx[b]);
    SeenStep(rows, i, b);
    forall c | Eligible(rows[i], c) ensures c == b {
      EligibleOnce(rows[i], b, c);
    }
    OthersKept(rows, i, out, idx, b, i);
  }

  /** An eligible row newer than the pick so far becomes the pick. */
  lemma NewerPick(rows: seq<Dict>, i: nat, b: string, k: nat)
    requires i < |rows| && IsPick(rows, i, b, k)
    requires Eligible(rows[i], b) && Less(Ts(rows[k]), Ts(rows[i]))
    ensures IsPick(rows, i + 1, b, i)
  {
    var ti := Ts(rows[i]);
    forall j: nat | j < i + 1 && Eligible(rows[j], b)
      ensures LessEq(Ts(rows[j]), ti) && (j < i ==> Less(Ts(rows[j]), ti))
    {
      if j < i {
        assert j < i && Eligible(rows[j], b);
        LessEqLess(Ts(rows[j]), Ts(rows[k]), ti);
      }
    }
  }

  lemma StepKeep(rows: seq<Dict>, i: nat, out: map<string, Dict>, idx: map<string, nat>, b: string)
    requires i < |rows| && PickState(rows, i, out, idx)
    requires Eligible(rows[i], b) && b in out && !Less(Ts(out[b]), Ts(rows[i]))
    ensures PickState(rows, i + 1, out, idx)
  {
    EligibleOnlyFor(rows[i], b);
    PresenceKept(rows, i, out);
    LessTotal(Ts(out[b]), Ts(rows[i]));
    PicksKeep(rows, i, out, idx, b);
  }

  /** Row `i` adds no bench to those seen when every bench it is eligible for is kept already. */
  lemma PresenceKept(rows: seq<Dict>, i: nat, out: map<string, Dict>)
    requires i < |rows| && Presence(rows, i, out)
    requires forall c :: Eligible(rows[i], c) ==> c in out
    ensures Presence(rows, i + 1, out)
  {
    forall c {
      SeenStep(rows, i, c);
    }
  }

  /** Every pick stands when row `i` is eligible for `b` at most and is not newer than `b`'s pick. */
  lemma PicksKeep(rows: seq<Dict>, i: nat, out: map<string, Dict>, idx: map<string, nat>, b: string)
    requires i < |rows| && Picks(rows, i, out, idx)
    requires forall c :: !Eligible(rows[i], c) || c == b
    requires b in out && b in idx ==> LessEq(Ts(rows[i]), Ts(rows[idx[b]]))
    ensures Picks(rows, i + 1, out, idx)
  {
    forall c | c in out && c in idx ensures IsPick(rows, i + 1, c, idx[c]) {
      KeepsPick(rows, i, c, idx[c]);
    }
  }

  lemma StepSkip(rows: seq<Dict>, i: nat, out: map<string, Dict>, idx: map<string, nat>)
    requires i < |rows| && PickState(rows, i, out, idx)
    requires forall c :: !Eligible(rows[i], c)
    ensures PickState(rows, i + 1, out, idx)
  {
    assert Presence(rows, i + 1, out) by {
      forall c {
        SeenStep(rows, i, c);
      }
    }
    forall c | c in out ensures IsPick(rows, i + 1, c, idx[c]) {
      KeepsPick(rows, i, c, idx[c]);
    }
  }

  /** The pick is unique: two rows that both satisfy `IsPick` for a bench are the same row. */
  lemma PickUnique(rows: seq<Dict>, n: nat, b: string, k1: nat, k2: nat)
    requires IsPick(rows, n, b, k1) && IsPick(rows, n, b, k2)
    ensures k1 == k2
  {
    if k1 < k2 {
      assert Less(Ts(rows[k1]), Ts(rows[k2]));
      assert LessEq(Ts(rows[k2]), Ts(rows[k1]));
      LessAsymmetric(Ts(rows[k1]), Ts(rows[k2]));
    } else if k2 < k1 {
      assert Less(Ts(rows[k2]), Ts(rows[k1]));
      assert LessEq(Ts(rows[k1]), Ts(rows[k2]));
      LessAsymmetric(Ts(rows[k2]), Ts(rows[k1]));
    }
  }

  /** The two ways the script refuses to patch a report (its `SystemExit` messages). */
  datatype Refusal = BeginWithoutEnd | MarkersNotFound

  /**
   * `_ensure_markers`, for a marker pair: a report with BEGIN but no END is refused; one with
   * neither gets an empty marker pair appended on lines of its own; any other report is left
   * as it is.
   */
  function EnsureMarkersFor(text: string, begin: string, end: string): (r: Result<string, Refusal>)
    ensures r.Err? <==> Contains(text, begin) && !Contains(text, end)
    ensures r.Ok? && (Contains(text, begin) || Contains(text, end)) ==> r.value == text
    ensures r.Ok? && !Contains(text, begin) && !Contains(text, end) ==>
      r.value == (if EndsWith(text, "\n") then text else text + "\n") + "\n" + begin + "\n" + end + "\n"
    ensures r.Ok? && !Contains(text, begin) && !Contains(text, end) ==>
      StartsWith(r.value, text) && EndsWith(r.value, "\n" + begin + "\n" + end + "\n")
  {
    var hasBegin := Contains(text, begin);
    var hasEnd := Contains(text, end);
    if hasBegin && !hasEnd then
      Err(BeginWithoutEnd)
    else if !hasBegin && !hasEnd then
      var t := if EndsWith(text, "\n") then text else text + "\n";
      Ok(t + ("\n" + begin + "\n" + end + "\n"))
    else
      Ok(text)
  }

  /** `_ensure_markers` with the ML-DSA-65 markers. */
  function EnsureMarkers(text: string): (r: Result<string, Refusal>)
    ensures r.Err? <==> Contains(text, Begin) && !Contains(text, End)
    ensures r.Ok? && (Contains(text, Begin) || Contains(text, End)) ==> r.value == text
    ensures r.Ok? && !Contains(text, Begin) && !Contains(text, End) ==>
      StartsWith(r.value, text) && EndsWith(r.value, "\n" + Begin + "\n" + End + "\n")
  {
    EnsureMarkersFor(text, Begin, End)
  }

  /**
   * `_patch_between_markers`, for a marker pair: the first BEGIN through the first END is
   * replaced by `block`, the text before it losing its trailing line breaks and getting a blank
   * line, the text after it losing its leading line breaks. Refused when a marker is missing or
   * END comes first.
   */
  function PatchBetweenFor(text: string, begin: string, end: string, block: string): (r: Result<string, Refusal>)
    ensures r.Ok? <==> Find(text, begin).Some? && Find(text, end).Some? && Find(text, begin).value <= Find(text, end).value
  {
    PatchFound(text, Find(text, begin), Find(text, end), |end|, block)
  }

  /** The patch once the first BEGIN at `bi` and the first END (of length `n`) at `bj` are looked up. */
  function PatchFound(text: string, bi: Option<nat>, bj: Option<nat>, n: nat, block: string): (r: Result<string, Refusal>)
    requires bj.Some? ==> bj.value + n <= |text|
  {
    if bi.None? || bj.None? || bj.value < bi.value then
      Err(MarkersNotFound)
    else
      Ok(Replaced(text, bi.value, bj.value + n, block))
  }

  /** The text up to `i` with its trailing line breaks stripped, a blank line, the block, and the text from `k` stripped of leading ones. */
  function Replaced(text: string, i: nat, k: nat, block: string): string
    requires i <= k <= |text|
  {
    RStripChar(text[..i], '\n') + "\n\n" + block + "\n" + LStripChar(text[k..], '\n')
  }

  /** `_patch_between_markers` with the ML-DSA-65 markers. */
  function PatchBetweenMarkers(text: string, block: string): (r: Result<string, Refusal>)
    ensures r.Ok? <==> Find(text, Begin).Some? && Find(text, End).Some? && Find(text, Begin).value <= Find(text, End).value
  {
    PatchBetweenFor(text, Begin, End, block)
  }

  /** `_build_block`'s framing: the section's lines between the markers, ending in a line break. */
  function Block(body: seq<string>): string
  {
    Frame(Begin, body, End) + "\n"
  }

  /** No line of the section's body contains the END marker. */
  predicate BodyClean(body: seq<string>)
  {
    Clean(body, End)
  }

  /** The whole rewrite of `main`: scaffold the markers when needed, then patch between them. */
  function Patch(text: string, body: seq<string>): (r: Result<string, Refusal>)
    ensures Contains(text, Begin) && !Contains(text, End) ==> r == Err(BeginWithoutEnd)
    ensures !Contains(text, Begin) && Contains(text, End) ==> r == Err(MarkersNotFound)
    ensures Contains(text, Begin) && Contains(text, End) ==> r == PatchBetweenMarkers(text, Block(body))
  {
    match EnsureMarkers(text)
    case Err(e) => Err(e)
    case Ok(t) => PatchBetweenMarkers(t, Block(body))
  }

  /** `s.rstrip(c)` ignores copies of `c` appended to a text that does not end in `c`. */
  lemma {:induction false} RStripAppended(s: string, c: char, n: nat)
    requires s == [] || s[|s| - 1] != c
    ensures RStripChar(s + seq(n, _ => c), c) == s
  {
    if n > 0 {
      assert s + seq(n, _ => c) == (s + seq(n - 1, _ => c)) + [c];
      assert (s + seq(n, _ => c))[..|s| + n - 1] == s + seq(n - 1, _ => c);
      RStripAppended(s, c, n - 1);
    } else {
      assert s + seq(0, _ => c) == s;
    }
  }

  /** `s.lstrip(c)` ignores copies of `c` put before a text that does not start with `c`. */
  lemma {:induction false} LStripPrepended(s: string, c: char, n: nat)
    requires s == [] || s[0] != c
    ensures LStripChar(seq(n, _ => c) + s, c) == s
  {
    if n > 0 {
      assert (seq(n, _ => c) + s)[1..] == seq(n - 1, _ => c) + s;
      LStripPrepended(s, c, n - 1);
    } else {
      assert seq(0, _ => c) + s == s;
    }
  }

  /** The stripped text before the first BEGIN, with a blank line after it, holds neither marker. */
  lemma PrefixClean(text: string, begin: string, end: string, i: nat, j: nat)
    requires MarkerPair(begin, end)
    requires Find(text, begin) == Some(i) && Find(text, end) == Some(j) && i <= j
    ensures var r := RStripChar(text[..i], '\n');
      Find(r + "\n\n", begin).None? && Find(r + "\n\n", end).None?
  {
    var r := RStripChar(text[..i], '\n');
    NoneBeforeFirst(text, begin, i);
    NoneBeforeFirst(text, end, i);
    NoneInPrefix(text[..i], begin, |r|);
    NoneInPrefix(text[..i], end, |r|);
    assert text[..i][..|r|] == r;
    NoneAfterBreak(r, begin);
    NoneAfterBreak(r + "\n", begin);
    NoneAfterBreak(r, end);
    NoneAfterBreak(r + "\n", end);
    assert r + "\n" + "\n" == r + "\n\n";
  }

  /**
   * A patched report holds the new block: the stripped text before (with no marker and a
   * blank line after it), the block, and a blank line and the stripped text after.
   */
  lemma PatchedShape(text: string, f: string, begin: string, end: string, i: nat, j: nat) returns (r: string, s: string)
    requires MarkerPair(begin, end)
    requires Find(text, begin) == Some(i) && Find(text, end) == Some(j) && i <= j && j + |end| <= |text|
    ensures Replaced(text, i, j + |end|, f + "\n") == (r + "\n\n") + f + ("\n\n" + s)
    ensures Find(r + "\n\n", begin).None? && Find(r + "\n\n", end).None?
    ensures (r == [] || r[|r| - 1] != '\n') && (s == [] || s[0] != '\n')
  {
    r := RStripChar(text[..i], '\n');
    s := LStripChar(text[j + |end|..], '\n');
    PrefixClean(text, begin, end, i, j);
    ReplacedParts(text, i, j + |end|, f, r, s);
  }

  /** The replaced text regrouped around the block. */
  lemma ReplacedParts(text: string, i: nat, k: nat, f: string, r: string, s: string)
    requires i <= k <= |text|
    requires r == RStripChar(text[..i], '\n') && s == LStripChar(text[k..], '\n')
    ensures Replaced(text, i, k, f + "\n") == (r + "\n\n") + f + ("\n\n" + s)
  {
    Reassemble(r + "\n\n", f, s);
  }

  /** `_patch_between_markers` once the markers' positions are known. */
  lemma PatchAt(t: string, begin: string, end: string, block: string, i: nat, j: nat)
    requires Find(t, begin) == Some(i) && Find(t, end) == Some(j) && i <= j
    ensures j + |end| <= |t|
    ensures PatchBetweenFor(t, begin, end, block) == Ok(Replaced(t, i, j + |end|, block))
  {
    assert j + |end| <= |t| by {
      assert IsAt(t, end, j);
    }
    assert PatchBetweenFor(t, begin, end, block) == PatchFound(t, Some(i), Some(j), |end|, block);
  }

  /** The two line breaks a patch puts before and after the block are stripped again. */
  lemma StripSeams(r: string, s: string)
    requires (r == [] || r[|r| - 1] != '\n') && (s == [] || s[0] != '\n')
    ensures RStripChar(r + "\n\n", '\n') == r && LStripChar("\n\n" + s, '\n') == s
  {
    assert "\n\n" == seq(2, _ => '\n');
    RStripAppended(r, '\n', 2);
    LStripPrepended(s, '\n', 2);
  }

  /** The pieces a patch joins, regrouped. */
  lemma Reassemble(x: string, f: string, s: string)
    ensures x + (f + "\n") + "\n" + s == x + f + ("\n\n" + s)
  {
    assert "\n\n" == "\n" + "\n";
    assert (f + "\n") + "\n" == f + "\n\n";
    assert x + (f + "\n") + "\n" == x + (f + "\n\n");
    assert x + (f + "\n\n") + s == x + f + ("\n\n" + s);
  }

  /** In a report of the shape a patch leaves, the markers found are the block's. */
  lemma PatchedMarkers(x: string, f: string, y: string, begin: string, end: string)
    requires MarkerPair(begin, end) && Closed(f, begin, end)
    requires Find(x, begin).None? && Find(x, end).None?
    ensures Find(x + f + y, begin) == Some(|x|)
    ensures Find(x + f + y, end) == Some(|x| + |f| - |end|)
    ensures |end| <= |f|
  {
    FindBothFramed(x, f, y, begin, end);
  }

  /** Patching a report of the shape a patch leaves, with the same block, gives it back. */
  lemma PatchFixes(r: string, s: string, f: string, begin: string, end: string)
    requires MarkerPair(begin, end) && Closed(f, begin, end)
    requires Find(r + "\n\n", begin).None? && Find(r + "\n\n", end).None?
    requires (r == [] || r[|r| - 1] != '\n') && (s == [] || s[0] != '\n')
    ensures PatchBetweenFor((r + "\n\n") + f + ("\n\n" + s), begin, end, f + "\n") ==
      Ok((r + "\n\n") + f + ("\n\n" + s))
  {
    var x := r + "\n\n";
    var y := "\n\n" + s;
    var t := x + f + y;
    var j := |x| + |f| - |end|;
    PatchedMarkers(x, f, y, begin, end);
    PatchAt(t, begin, end, f + "\n", |x|, j);
    ReplacedFixed(r, s, f);
  }

  /** Replacing the block of a report of the shape a patch leaves by the same block gives it back. */
  lemma ReplacedFixed(r: string, s: string, f: string)
    requires (r == [] || r[|r| - 1] != '\n') && (s == [] || s[0] != '\n')
    ensures var t := (r + "\n\n") + f + ("\n\n" + s);
      Replaced(t, |r| + 2, |r| + 2 + |f|, f + "\n") == t
  {
    var x := r + "\n\n";
    var y := "\n\n" + s;
    var t := x + f + y;
    assert t[..|x|] == x;
    assert t[|x| + |f|..] == y;
    StripSeams(r, s);
    Reassemble(x, f, s);
  }

  /** Patching twice with the same closed block is patching once, for any marker pair. */
  lemma PatchIdempotentFor(text: string, f: string, begin: string, end: string)
    requires MarkerPair(begin, end) && Closed(f, begin, end)
    requires PatchBetweenFor(text, begin, end, f + "\n").Ok?
    ensures PatchBetweenFor(PatchBetweenFor(text, begin, end, f + "\n").value, begin, end, f + "\n") ==
      PatchBetweenFor(text, begin, end, f + "\n")
  {
    var i, j := Find(text, begin).value, Find(text, end).value;
    PatchAt(text, begin, end, f + "\n", i, j);
    var r, s := PatchedShape(text, f, begin, end, i, j);
    PatchFixes(r, s, f, begin, end);
  }

  /**
   * Patching is idempotent: patching a patched report with the same block changes nothing,
   * provided no body line contains the END marker.
   */
  lemma PatchIdempotent(text: string, body: seq<string>)
    requires BodyClean(body)
    requires PatchBetweenMarkers(text, Block(body)).Ok?
    ensures PatchBetweenMarkers(PatchBetweenMarkers(text, Block(body)).value, Block(body)) ==
            PatchBetweenMarkers(text, Block(body))
  {
    MarkersWellFormed();
    FrameClosed(Begin, body, End);
    PatchIdempotentFor(text, Frame(Begin, body, End), Begin, End);
  }

  /** The scaffold `_ensure_markers` appends is a closed block with nothing between its markers. */
  lemma ScaffoldClosed(begin: string, end: string)
    requires MarkerPair(begin, end)
    ensures Closed(begin + "\n" + end, begin, end)
  {
    FrameClosed(begin, [], end);
    assert [begin] + [] + [end] == [begin, end];
    assert [begin, end][1..] == [end];
    assert Join([end], "\n") == end;
    assert Frame(begin, [], end) == begin + "\n" + Join([end], "\n");
  }

  /** The scaffolded report: the text, a blank line, and the empty marker pair on lines of their own. */
  lemma ScaffoldShape(text: string, begin: string, end: string) returns (x: string)
    requires MarkerPair(begin, end)
    requires !Contains(text, begin) && !Contains(text, end)
    ensures EnsureMarkersFor(text, begin, end).Ok?
    ensures EnsureMarkersFor(text, begin, end).value == x + (begin + "\n" + end) + "\n"
    ensures Find(x, begin).None? && Find(x, end).None?
  {
    var t0 := if EndsWith(text, "\n") then text else text + "\n";
    assert Find(t0, begin).None? && Find(t0, end).None? by {
      if !EndsWith(text, "\n") {
        NoneAfterBreak(text, begin);
        NoneAfterBreak(text, end);
      }
    }
    x := t0 + "\n";
    assert Find(x, begin).None? && Find(x, end).None? by {
      NoneAfterBreak(t0, begin);
      NoneAfterBreak(t0, end);
    }
    assert EnsureMarkersFor(text, begin, end) == Ok(t0 + ("\n" + begin + "\n" + end + "\n"));
    ScaffoldRegroup(t0, begin, end);
  }

  /** The appended marker pair, regrouped around the blank line before it. */
  lemma ScaffoldRegroup(t0: string, begin: string, end: string)
    ensures t0 + ("\n" + begin + "\n" + end + "\n") == (t0 + "\n") + (begin + "\n" + end) + "\n"
  {
  }

  /** A report with neither marker is scaffolded and then patched without refusal. */
  lemma ScaffoldedPatchesFor(text: string, block: string, begin: string, end: string)
    requires MarkerPair(begin, end)
    requires !Contains(text, begin) && !Contains(text, end)
    ensures EnsureMarkersFor(text, begin, end).Ok?
    ensures PatchBetweenFor(EnsureMarkersFor(text, begin, end).value, begin, end, block).Ok?
  {
    var x := ScaffoldShape(text, begin, end);
    ScaffoldClosed(begin, end);
    PatchedMarkers(x, begin + "\n" + end, "\n", begin, end);
  }

  /** A report with neither ML-DSA-65 marker is scaffolded and then patched without refusal. */
  lemma ScaffoldedPatches(text: string, body: seq<string>)
    requires !Contains(text, Begin) && !Contains(text, End)
    ensures Patch(text, body).Ok?
  {
    MarkersWellFormed();
    ScaffoldedPatchesFor(text, Block(body), Begin, End);
  }

  /** A patched report holds both markers, so scaffolding leaves it alone. */
  lemma PatchedKeepsMarkers(text: string, f: string, begin: string, end: string)
    requires MarkerPair(begin, end) && Closed(f, begin, end)
    requires PatchBetweenFor(text, begin, end, f + "\n").Ok?
    ensures var out := PatchBetweenFor(text, begin, end, f + "\n").value;
      EnsureMarkersFor(out, begin, end) == Ok(out)
  {
    var i, j := Find(text, begin).value, Find(text, end).value;
    PatchAt(text, begin, end, f + "\n", i, j);
    var r, s := PatchedShape(text, f, begin, end, i, j);
    PatchedMarkers(r + "\n\n", f, "\n\n" + s, begin, end);
  }

  /**
   * Running the script twice with the same measurements leaves the report as the first run
   * left it.
   */
  lemma PatchRerun(text: string, body: seq<string>)
    requires BodyClean(body)
    requires Patch(text, body).Ok?
    ensures Patch(Patch(text, body).value, body) == Patch(text, body)
  {
    MarkersWellFormed();
    FrameClosed(Begin, body, End);
    var t := EnsureMarkers(text).value;
    PatchedKeepsMarkers(t, Frame(Begin, body, End), Begin, End);
    PatchIdempotentFor(t, Frame(Begin, body, End), Begin, End);
  }

  /** One table row of the section: a placeholder for a bench without a kept row, or the row. */
  datatype BenchRow = Missing(bench: string) | Measured(bench: string, row: Dict, commit: string)

  /** `str(r.get("commit", ""))[:12]`. */
  function ShortCommit(r: Dict): (c: string)
    ensures var full := ToStr(GetOr(r, "commit", Str(""))); |c| == (if |full| <= 12 then |full| else 12) && StartsWith(full, c)
  {
    var full := ToStr(GetOr(r, "commit", Str("")));
    if |full| <= 12 then full else full[..12]
  }

  /**
   * The table loop of `_build_block`: one row per wanted bench, in `Want` order, a placeholder
   * exactly when no row is kept for it or the kept row is empty.
   */
  method TableRows(selected: map<string, Dict>) returns (rows: seq<BenchRow>)
    ensures |rows| == |Want|
    ensures forall k :: 0 <= k < |rows| ==> rows[k].bench == Want[k]
    ensures forall k :: 0 <= k < |rows| ==>
      (rows[k].Missing? <==> Want[k] !in selected || selected[Want[k]] == map[])
    ensures forall k :: 0 <= k < |rows| && rows[k].Measured? ==>
      rows[k].row == selected[Want[k]] && rows[k].commit == ShortCommit(selected[Want[k]])
  {
    rows := [];
    for k := 0 to |Want|
      invariant |rows| == k
      invariant forall m :: 0 <= m < k ==> rows[m].bench == Want[m]
      invariant forall m :: 0 <= m < k ==>
        (rows[m].Missing? <==> Want[m] !in selected || selected[Want[m]] == map[])
      invariant forall m :: 0 <= m < k && rows[m].Measured? ==>
        rows[m].row == selected[Want[m]] && rows[m].commit == ShortCommit(selected[Want[m]])
    {
      var bench := Want[k];
      if bench !in selected || selected[bench] == map[] {
        rows := rows + [Missing(bench)];
      } else {
        var r := selected[bench];
        rows := rows + [Measured(bench, r, ShortCommit(r))];
      }
    }
  }

  /** The row that supplies the vector-pack lines: it exists and has a truthy `vector_pack_ref`. */
  predicate SuppliesPack(selected: map<string, Dict>, b: string)
  {
    b in selected && selected[b] != map[] && Truthy(Get(selected[b], "vector_pack_ref"))
  }

  /**
   * The provenance loop of `_build_block`: the first wanted bench whose kept row carries a
   * vector-pack reference; `None` when no kept row carries one.
   */
  method PackSource(selected: map<string, Dict>) returns (src: Option<nat>)
    ensures src.Some? ==> src.value < |Want| && SuppliesPack(selected, Want[src.value])
    ensures src.Some? ==> forall k :: 0 <= k < src.value ==> !SuppliesPack(selected, Want[k])
    ensures src.None? ==> forall k :: 0 <= k < |Want| ==> !SuppliesPack(selected, Want[k])
  {
    for k := 0 to |Want|
      invariant forall m :: 0 <= m < k ==> !SuppliesPack(selected, Want[m])
    {
      var b := Want[k];
      if b !in selected || selected[b] == map[] {
        continue;
      }
      if Truthy(Get(selected[b], "vector_pack_ref")) {
        return Some(k);
      }
    }
    return None;
  }
}
