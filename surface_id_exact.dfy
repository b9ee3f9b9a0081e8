/**
 * The exact surface-id pass: rows still carrying a legacy surface id get the id their stripped
 * `(scheme, bench_name)` pair maps to; pairs without a mapping are reported, not guessed.
 * The rows are the decoded objects of the results file, patched in place.
 */
module SurfaceIdExact {
  import opened Outcomes
  import opened Text
  import opened PyValues
  import opened SurfaceLayer
  import opened Jsonl

  /** One of the placeholder ids older rows were written with. */
  predicate Legacy(sid: string)
  {
    sid == "unknown::unclassified" || sid == "aa::unknown::falcon"
  }

  /** The exact mapping from `(scheme, bench_name)` to the surface id such a row should carry. */
  const Map: map<(string, string), string> := map[
    ("randao", "l1_randao_mix_surface") := "entropy::randao_mix_surface",
    ("randao", "mix_for_sample_selection_surface") := "entropy::randao_mix_for_sample_selection_surface",
    ("attestation", "relay_attestation_surface") := "attestation::relay_attestation_surface",
    ("das", "verify_sample_512b_surface") := "da::verify_sample_512b_surface",
    ("p256", "ethdilithium_p256verify_log") := "sig::p256::verify",
    ("sigproto", "eip7932_precompile_assumption") := "sigproto::eip7932_precompile_assumption",
    ("falcon1024", "qa_handleOps_userop_foundry_weakest_link_sigproto") := "aa::handleOps::falcon1024::weakest_link_sigproto",
    ("falcon", "falcon_verifySignature_log") := "sig::falcon::verify",
    ("falcon", "qa_validateUserOp_userop_log") := "aa::validateUserOp::falcon"
  ]

  /** An unmapped legacy row as the pass reports it: its lookup key and its (stripped) id. */
  datatype Unmapped = Unmapped(key: (string, string), sid: string)

  /** What the loop does with one row. */
  datatype Outcome =
    | Skip               // not a legacy row
    | Raises             // stripping its surface id, scheme or bench name raises
    | Miss(u: Unmapped)  // a legacy row whose key has no mapping
    | Rewrite(id: string)  // a legacy row whose key maps to `id`

  /** The stripped `(scheme, bench_name)` pair; `None` where stripping either raises. */
  function KeyOf(r: Dict): (k: Option<(string, string)>)
    ensures k.Some? <==>
      StrippedOrEmpty(Get(r, "scheme")).Some? && StrippedOrEmpty(Get(r, "bench_name")).Some?
    ensures k.Some? ==>
      k.value == (StrippedOrEmpty(Get(r, "scheme")).value, StrippedOrEmpty(Get(r, "bench_name")).value)
  {
    match (StrippedOrEmpty(Get(r, "scheme")), StrippedOrEmpty(Get(r, "bench_name")))
    case (Some(scheme), Some(bench)) => Some((scheme, bench))
    case _ => None
  }

  /** `MAP.get(key)` followed by `if not new`: an absent key and an empty id both count as unmapped. */
  function Lookup(key: (string, string)): Option<string>
  {
    if key in Map && Map[key] != "" then Some(Map[key]) else None
  }

  /** One turn of the loop, as a decision. */
  function Decide(r: Dict): (o: Outcome)
    ensures o.Skip? <==> Sid(r).Some? && !Legacy(Sid(r).value)
    ensures o.Miss? ==> Sid(r) == Some(o.u.sid) && Legacy(o.u.sid) && KeyOf(r) == Some(o.u.key) && Lookup(o.u.key).None?
    ensures o.Rewrite? ==> Sid(r).Some? && Legacy(Sid(r).value) && KeyOf(r).Some? && Lookup(KeyOf(r).value) == Some(o.id)
  {
    match Sid(r)
    case None => Raises
    case Some(sid) =>
      if !Legacy(sid) then Skip
      else
        match KeyOf(r)
        case None => Raises
        case Some(key) =>
          match Lookup(key)
          case None => Miss(Unmapped(key, sid))
          case Some(id) => Rewrite(id)
  }

  /** One row after the pass (for a row on which it does not raise). */
  function Rewritten(r: Dict): Dict
  {
    match Decide(r)
    case Rewrite(id) => if Get(r, "surface_id") != Str(id) then r["surface_id" := Str(id)] else r
    case _ => r
  }

  /** All rows after the pass, in their order. */
  function RewriteAll(s: seq<Dict>): (t: seq<Dict>)
    ensures |t| == |s| && forall i :: 0 <= i < |s| ==> t[i] == Rewritten(s[i])
  {
    seq(|s|, i requires 0 <= i < |s| => Rewritten(s[i]))
  }

  /** The unmapped legacy rows, in the order the pass meets them. */
  function MissingOf(s: seq<Dict>): (m: seq<Unmapped>)
    ensures |m| <= |s|
  {
    if |s| == 0 then []
    else
      var d := Decide(s[|s| - 1]);
      MissingOf(s[..|s| - 1]) + (if d.Miss? then [d.u] else [])
  }

  /** The number of rows the pass rewrites. */
  function RewriteCount(s: seq<Dict>): nat
  {
    if |s| == 0 then 0
    else RewriteCount(s[..|s| - 1]) + (if Decide(s[|s| - 1]).Rewrite? then 1 else 0)
  }

  /** A string whose first and last characters are no white space strips to itself. */
  lemma StripEnds(v: string)
    requires v != [] && !IsSpace(v[0]) && !IsSpace(v[|v| - 1])
    ensures Strip(v) == v
  {
  }

  /** The mapped ids 1 to 3, in table order, strip to themselves. */
  lemma MappedIdsStrip1()
    ensures Strip("entropy::randao_mix_surface") == "entropy::randao_mix_surface"
    ensures Strip("entropy::randao_mix_for_sample_selection_surface") == "entropy::randao_mix_for_sample_selection_surface"
    ensures Strip("attestation::relay_attestation_surface") == "attestation::relay_attestation_surface"
  {
    StripEnds("entropy::randao_mix_surface");
    StripEnds("entropy::" + "randao_mix_for_sample_selection_surface");
    StripEnds("attestation::relay_attestation_surface");
  }

  /** The mapped ids 4 to 6, in table order, strip to themselves. */
  lemma MappedIdsStrip2()
    ensures Strip("da::verify_sample_512b_surface") == "da::verify_sample_512b_surface"
    ensures Strip("sig::p256::verify") == "sig::p256::verify"
    ensures Strip("sigproto::eip7932_precompile_assumption") == "sigproto::eip7932_precompile_assumption"
  {
    StripEnds("da::verify_sample_512b_surface");
    StripEnds("sig::p256::verify");
    StripEnds("sigproto::eip7932_precompile_assumption");
  }

  /** The mapped ids 7 to 9, in table order, strip to themselves. */
  lemma MappedIdsStrip3()
    ensures Strip("aa::handleOps::falcon1024::weakest_link_sigproto") == "aa::handleOps::falcon1024::weakest_link_sigproto"
    ensures Strip("sig::falcon::verify") == "sig::falcon::verify"
    ensures Strip("aa::validateUserOp::falcon") == "aa::validateUserOp::falcon"
  {
    StripEnds("aa::handleOps::falcon1024::" + "weakest_link_sigproto");
    StripEnds("sig::falcon::verify");
    StripEnds("aa::validateUserOp::falcon");
  }

  /** One of the ids the mapping assigns. */
  predicate MappedId(v: string)
  {
    v == "entropy::randao_mix_surface" || v == "entropy::randao_mix_for_sample_selection_surface"
    || v == "attestation::relay_attestation_surface" || v == "da::verify_sample_512b_surface"
    || v == "sig::p256::verify" || v == "sigproto::eip7932_precompile_assumption"
    || v == "aa::handleOps::falcon1024::weakest_link_sigproto" || v == "sig::falcon::verify"
    || v == "aa::validateUserOp::falcon"
  }

  /** Every value of the mapping is one of the assigned ids. */
  lemma MapValues(key: (string, string))
    requires key in Map
    ensures MappedId(Map[key])
  {
  }

  /** An assigned id is non-empty and no legacy id. */
  lemma MappedIdNotLegacy(v: string)
    requires MappedId(v)
    ensures v != "" && !Legacy(v)
  {
    assert |v| != 21;
    assert |v| == 19 ==> v[0] == 's';
  }

  /** An assigned id strips to itself. */
  lemma MappedIdStrips(v: string)
    requires MappedId(v)
    ensures Strip(v) == v
  {
    if v == "entropy::randao_mix_surface" || v == "entropy::randao_mix_for_sample_selection_surface"
      || v == "attestation::relay_attestation_surface" {
      MappedIdsStrip1();
    } else if v == "da::verify_sample_512b_surface" || v == "sig::p256::verify"
      || v == "sigproto::eip7932_precompile_assumption" {
      MappedIdsStrip2();
    } else {
      MappedIdsStrip3();
    }
  }

  /** Every mapped id is non-empty, strips to itself and is no legacy id. */
  lemma MapIdsFinal(key: (string, string))
    requires key in Map
    ensures Lookup(key) == Some(Map[key])
    ensures Strip(Map[key]) == Map[key] && !Legacy(Map[key])
  {
    MapValues(key);
    MappedIdNotLegacy(Map[key]);
    MappedIdStrips(Map[key]);
  }

  /** A legacy row that maps is always changed: its id strips to a legacy id, the new one does not. */
  lemma RewriteChanges(r: Dict)
    requires Decide(r).Rewrite?
    ensures Get(r, "surface_id") != Str(Decide(r).id)
    ensures Rewritten(r) == r["surface_id" := Str(Decide(r).id)]
  {
    var key := KeyOf(r).value;
    MapIdsFinal(key);
  }

  /** A rewritten row is no longer legacy, so the pass then skips it. */
  lemma RewrittenSkipped(r: Dict)
    requires Decide(r).Rewrite?
    ensures Decide(Rewritten(r)) == Skip
  {
    MapIdsFinal(KeyOf(r).value);
    RewriteChanges(r);
    var id := Decide(r).id;
    assert Get(Rewritten(r), "surface_id") == Str(id);
    assert Sid(Rewritten(r)) == Some(id);
  }

  /**
   * The pass leaves a row alone unless it is a legacy row with a mapped key; it then changes it,
   * and only its surface id.
   */
  lemma RewrittenIs(r: Dict)
    requires !Decide(r).Raises?
    ensures Rewritten(r) != r <==> Decide(r).Rewrite?
    ensures Decide(r).Rewrite? ==> Rewritten(r) == r["surface_id" := Str(Decide(r).id)]
    ensures Decide(Rewritten(r)) == if Decide(r).Rewrite? then Skip else Decide(r)
  {
    if Decide(r).Rewrite? {
      RewriteChanges(r);
      RewrittenSkipped(r);
    }
  }

  /** Counting one more row. */
  lemma CountStep(s: seq<Dict>, i: nat)
    requires i < |s|
    ensures RewriteCount(s[..i + 1]) == RewriteCount(s[..i]) + (if Decide(s[i]).Rewrite? then 1 else 0)
    ensures MissingOf(s[..i + 1]) == MissingOf(s[..i]) + (if Decide(s[i]).Miss? then [Decide(s[i]).u] else [])
  {
    assert s[..i + 1][..i] == s[..i];
  }

  /** Rewriting one more row. */
  lemma RewriteStep(s: seq<Dict>, t: seq<Dict>, i: nat)
    requires |s| == |t| && i < |s|
    requires t[..i] == RewriteAll(s[..i]) && t[i] == Rewritten(s[i])
    ensures t[..i + 1] == RewriteAll(s[..i + 1])
  {
    assert t[..i + 1] == t[..i] + [t[i]];
  }

  /** The reported count is the number of rows the pass changes. */
  lemma {:induction false} RewriteCountIsDiffering(s: seq<Dict>)
    requires forall i :: 0 <= i < |s| ==> !Decide(s[i]).Raises?
    ensures RewriteCount(s) == Differing(s, RewriteAll(s))
  {
    if |s| > 0 {
      var init := s[..|s| - 1];
      var last := s[|s| - 1];
      var t := RewriteAll(s);
      assert forall i :: 0 <= i < |init| ==> !Decide(init[i]).Raises? by {
        forall i | 0 <= i < |init| ensures !Decide(init[i]).Raises? {
          assert init[i] == s[i];
        }
      }
      RewriteCountIsDiffering(init);
      assert t[..|s| - 1] == RewriteAll(init);
      var changedLast := last != Rewritten(last);
      assert changedLast == Decide(last).Rewrite? by {
        RewrittenIs(last);
      }
      assert Differing(s, t) == Differing(init, RewriteAll(init)) + (if changedLast then 1 else 0);
      assert RewriteCount(s) == RewriteCount(init) + (if changedLast then 1 else 0);
    }
  }

  /**
   * A second run over the output changes nothing and reports the same unmapped rows: no mapped
   * id is itself legacy.
   */
  lemma {:induction false} SecondRunChangesNothing(s: seq<Dict>)
    requires forall i :: 0 <= i < |s| ==> !Decide(s[i]).Raises?
    ensures forall i :: 0 <= i < |s| ==> !Decide(RewriteAll(s)[i]).Raises?
    ensures RewriteAll(RewriteAll(s)) == RewriteAll(s)
    ensures RewriteCount(RewriteAll(s)) == 0
    ensures MissingOf(RewriteAll(s)) == MissingOf(s)
  {
    if |s| > 0 {
      var init := s[..|s| - 1];
      var t := RewriteAll(s);
      SecondRunChangesNothing(init);
      assert t[..|s| - 1] == RewriteAll(init);
      RewrittenIs(s[|s| - 1]);
      RewrittenIs(t[|s| - 1]);
      forall i | 0 <= i < |s| ensures Rewritten(t[i]) == t[i] && !Decide(t[i]).Raises? {
        RewrittenIs(s[i]);
        RewrittenIs(t[i]);
      }
    }
  }

  /** One turn of the loop on `rows[i]`: `None` where it raises. */
  method RewriteRow(rows: array<Dict>, i: nat) returns (o: Outcome)
    requires i < rows.Length
    modifies rows
    ensures o == Decide(old(rows[i]))
    ensures rows[i] == if o.Raises? then old(rows[i]) else Rewritten(old(rows[i]))
    ensures forall j :: 0 <= j < rows.Length && j != i ==> rows[j] == old(rows[j])
  {
    var r := rows[i];
    o := Decide(r);
    if o.Rewrite? && Get(r, "surface_id") != Str(o.id) {
      rows[i] := r["surface_id" := Str(o.id)];
    }
  }

  /** The state of the loop after `i` rows: the rows so far rewritten, counted and reported. */
  ghost predicate Progress(before: seq<Dict>, now: seq<Dict>, i: nat, changed: nat, missing: seq<Unmapped>)
  {
    |now| == |before| && i <= |before| &&
    (forall j :: 0 <= j < i ==> !Decide(before[j]).Raises?) &&
    now[..i] == RewriteAll(before[..i]) && now[i..] == before[i..] &&
    changed == RewriteCount(before[..i]) && missing == MissingOf(before[..i])
  }

  /** One more row that does not raise keeps the loop state. */
  lemma ProgressStep(before: seq<Dict>, prev: seq<Dict>, now: seq<Dict>, i: nat, changed: nat, missing: seq<Unmapped>)
    requires Progress(before, prev, i, changed, missing) && i < |before|
    requires !Decide(before[i]).Raises?
    requires |now| == |prev| && now[i] == Rewritten(before[i])
    requires forall j :: 0 <= j < |now| && j != i ==> now[j] == prev[j]
    ensures Progress(before, now, i + 1,
      changed + (if Decide(before[i]).Rewrite? then 1 else 0),
      missing + (if Decide(before[i]).Miss? then [Decide(before[i]).u] else []))
  {
    assert now[..i] == prev[..i];
    assert now[i + 1..] == prev[i + 1..];
    RewriteStep(before, now, i);
    CountStep(before, i);
  }

  /** The loop state after every row, when none raised. */
  lemma ProgressDone(before: seq<Dict>, now: seq<Dict>, changed: nat, missing: seq<Unmapped>)
    requires Progress(before, now, |before|, changed, missing)
    ensures now == RewriteAll(before)
    ensures changed == Differing(before, now) == RewriteCount(before)
    ensures missing == MissingOf(before)
  {
    assert now == now[..|before|];
    assert before == before[..|before|];
    RewriteCountIsDiffering(before);
  }

  /**
   * The loop of `main`: rewrites every mapped legacy row, counts the rewrites and collects the
   * unmapped legacy rows. A row on which stripping raises stops the pass (`Err` with its index);
   * the file is then not written.
   */
  method RewriteIds(rows: array<Dict>) returns (r: Result<(nat, seq<Unmapped>), nat>)
    modifies rows
    ensures r.Ok? ==> forall i :: 0 <= i < rows.Length ==> !Decide(old(rows[i])).Raises?
    ensures r.Ok? ==> rows[..] == RewriteAll(old(rows[..]))
    ensures r.Ok? ==> r.value.0 == Differing(old(rows[..]), rows[..]) == RewriteCount(old(rows[..]))
    ensures r.Ok? ==> r.value.1 == MissingOf(old(rows[..]))
    ensures r.Err? ==> r.error < rows.Length && Decide(old(rows[r.error])).Raises?
    ensures r.Err? ==> forall i :: 0 <= i < r.error ==> !Decide(old(rows[i])).Raises?
    ensures r.Err? ==> rows[..r.error] == RewriteAll(old(rows[..r.error])) && rows[r.error..] == old(rows[r.error..])
  {
    ghost var before := rows[..];
    var changed := 0;
    var missing := [];
    for i := 0 to rows.Length
      invariant Progress(before, rows[..], i, changed, missing)
    {
      ghost var prev := rows[..];
      var o := RewriteRow(rows, i);
      if o.Raises? {
        assert rows[..] == prev;
        return Err(i);
      }
      ProgressStep(before, prev, rows[..], i, changed, missing);
      if o.Miss? {
        missing := missing + [o.u];
      } else if o.Rewrite? {
        changed := changed + 1;
      }
    }
    ProgressDone(before, rows[..], changed, missing);
    return Ok((changed, missing));
  }

  /** Why `main` stops before writing: a line that does not decode to an object, or a row at this index on which stripping raises. */
  datatype RewriteAbort = BadLine(e: DecodeError) | RaisesAt(row: nat)

  /**
   * `main` over the lines of the results file: every non-blank line is decoded first, so a
   * line that is not JSON or not an object stops it; then the loop runs over the decoded rows.
   * `Ok` carries the rows written back, the count printed and the unmapped legacy rows.
   */
  method RewriteFile(lines: seq<Line>) returns (r: Result<(seq<Dict>, nat, seq<Unmapped>), RewriteAbort>)
    ensures DecodeObjects(lines, 0).Err? ==> r == Err(BadLine(DecodeObjects(lines, 0).error))
    ensures DecodeObjects(lines, 0).Ok? ==>
      (r.Ok? <==> forall i :: 0 <= i < |Objects(lines)| ==> !Decide(Objects(lines)[i]).Raises?)
    ensures r.Ok? ==> r.value.0 == RewriteAll(Objects(lines)) && r.value.1 == RewriteCount(Objects(lines))
    ensures r.Ok? ==> r.value.2 == MissingOf(Objects(lines))
    ensures r.Err? && r.error.RaisesAt? ==>
      r.error.row < |Objects(lines)| && Decide(Objects(lines)[r.error.row]).Raises? &&
      forall i :: 0 <= i < r.error.row ==> !Decide(Objects(lines)[i]).Raises?
  {
    var decoded := DecodeObjects(lines, 0);
    if decoded.Err? {
      return Err(BadLine(decoded.error));
    }
    var objs := decoded.value;
    var rows := new Dict[|objs|](i requires 0 <= i < |objs| => objs[i]);
    assert rows[..] == objs == Objects(lines);
    ghost var before := rows[..];
    var res := RewriteIds(rows);
    if res.Err? {
      assert Decide(before[res.error]).Raises?;
      assert !forall i :: 0 <= i < |Objects(lines)| ==> !Decide(Objects(lines)[i]).Raises?;
      return Err(RaisesAt(res.error));
    }
    return Ok((rows[..], res.value.0, res.value.1));
  }
}
