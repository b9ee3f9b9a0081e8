/**
 * The surface-layer pass: every result row whose stripped `surface_id` starts with a known
 * prefix gets the layer that prefix names (`settlement`, `protocol` or `execution`), unless it
 * already carries a non-blank `surface_layer`; the pass reports how many rows it changed.
 * The rows are the decoded objects of the results file, patched in place.
 */
module SurfaceLayer {
  import opened Outcomes
  import opened Text
  import opened PyValues
  import Decimal
  import opened Jsonl

  const Settlement: string := "settlement"
  const Protocol: string := "protocol"
  const Execution: string := "execution"

  const SettlementPrefixes: seq<string> := ["zk::"]
  const ProtocolPrefixes: seq<string> := ["sigproto::", "env::", "entropy::", "attestation::", "da::"]
  const ExecutionPrefixes: seq<string> := ["aa::", "sig::"]

  /** `sid.startswith(p)` for some `p` of `ps`. */
  predicate AnyPrefix(sid: string, ps: seq<string>)
  {
    exists k :: 0 <= k < |ps| && StartsWith(sid, ps[k])
  }

  /** The stripped `surface_id` of a row; `None` where stripping raises. */
  function Sid(r: Dict): Option<string>
  {
    StrippedOrEmpty(Get(r, "surface_id"))
  }

  /**
   * The layer the prefix of `sid` names. The three prefix groups are tried in turn, but no id
   * starts with prefixes of two groups, so the answer does not depend on that order.
   */
  function LayerFor(sid: string): (l: Option<string>)
    ensures l == Some(Settlement) <==> AnyPrefix(sid, SettlementPrefixes)
    ensures l == Some(Protocol) <==> AnyPrefix(sid, ProtocolPrefixes)
    ensures l == Some(Execution) <==> AnyPrefix(sid, ExecutionPrefixes)
    ensures l.None? <==>
      !AnyPrefix(sid, SettlementPrefixes) && !AnyPrefix(sid, ProtocolPrefixes) && !AnyPrefix(sid, ExecutionPrefixes)
  {
    PrefixGroupsDisjoint(sid);
    if AnyPrefix(sid, SettlementPrefixes) then Some(Settlement)
    else if AnyPrefix(sid, ProtocolPrefixes) then Some(Protocol)
    else if AnyPrefix(sid, ExecutionPrefixes) then Some(Execution)
    else None
  }

  /** No surface id starts with prefixes of two different groups. */
  lemma PrefixGroupsDisjoint(sid: string)
    ensures !(AnyPrefix(sid, SettlementPrefixes) && AnyPrefix(sid, ProtocolPrefixes))
    ensures !(AnyPrefix(sid, SettlementPrefixes) && AnyPrefix(sid, ExecutionPrefixes))
    ensures !(AnyPrefix(sid, ProtocolPrefixes) && AnyPrefix(sid, ExecutionPrefixes))
  {
    forall p | p in SettlementPrefixes + ProtocolPrefixes + ExecutionPrefixes && StartsWith(sid, p)
      ensures sid[0] == p[0] && sid[1] == p[1] && sid[3] == p[3]
    {
      assert sid[..|p|] == p;
    }
  }

  /** `surface_layer` is missing: absent, not a string, or blank once stripped. */
  predicate MissingLayer(r: Dict)
  {
    !(Get(r, "surface_layer").Str? && Strip(Get(r, "surface_layer").s) != "")
  }

  /** `set_if_missing(r, v)` on the row `rows[i]`: writes `v` and answers 1 exactly when the layer is missing. */
  method SetIfMissing(rows: array<Dict>, i: nat, v: string) returns (n: nat)
    requires i < rows.Length
    modifies rows
    ensures n == if MissingLayer(old(rows[i])) then 1 else 0
    ensures rows[i] == if MissingLayer(old(rows[i])) then old(rows[i])["surface_layer" := Str(v)] else old(rows[i])
    ensures forall j :: 0 <= j < rows.Length && j != i ==> rows[j] == old(rows[j])
  {
    var r := rows[i];
    if !Get(r, "surface_layer").Str? || Strip(r["surface_layer"].s) == "" {
      rows[i] := r["surface_layer" := Str(v)];
      return 1;
    }
    return 0;
  }

  /** One row after the pass (for a row whose surface id can be stripped). */
  function Relabelled(r: Dict): Dict
  {
    match Sid(r)
    case None => r
    case Some(sid) =>
      match LayerFor(sid)
      case None => r
      case Some(layer) => if MissingLayer(r) then r["surface_layer" := Str(layer)] else r
  }

  /** All rows after the pass, in their order. */
  function RelabelAll(s: seq<Dict>): (t: seq<Dict>)
    ensures |t| == |s| && forall i :: 0 <= i < |s| ==> t[i] == Relabelled(s[i])
  {
    seq(|s|, i requires 0 <= i < |s| => Relabelled(s[i]))
  }

  /** The number of positions at which two equally long row sequences differ. */
  function Differing(a: seq<Dict>, b: seq<Dict>): nat
    requires |a| == |b|
  {
    if |a| == 0 then 0
    else Differing(a[..|a| - 1], b[..|b| - 1]) + (if a[|a| - 1] != b[|b| - 1] then 1 else 0)
  }

  /** Identical sequences differ nowhere. */
  lemma {:induction false} DifferingSelf(a: seq<Dict>)
    ensures Differing(a, a) == 0
  {
    if |a| > 0 {
      DifferingSelf(a[..|a| - 1]);
    }
  }

  /** A layer name is never blank. */
  lemma LayerNotBlank(sid: string)
    requires LayerFor(sid).Some?
    ensures Strip(LayerFor(sid).value) == LayerFor(sid).value != ""
  {
    var l := LayerFor(sid).value;
    assert l == Settlement || l == Protocol || l == Execution;
    assert forall k :: 0 <= k < |l| ==> 'a' <= l[k] <= 'z';
    Decimal.StripNoSpace(l);
  }

  /** Writing a non-blank layer into a row that misses one changes the row, and only its layer. */
  lemma WriteLayer(r: Dict, l: string)
    requires Strip(l) == l != "" && MissingLayer(r)
    ensures r["surface_layer" := Str(l)] != r
    ensures !MissingLayer(r["surface_layer" := Str(l)])
    ensures Get(r["surface_layer" := Str(l)], "surface_id") == Get(r, "surface_id")
  {
    var w := r["surface_layer" := Str(l)];
    assert Get(w, "surface_layer") == Str(l);
    assert "surface_id" != "surface_layer" by { assert "surface_id"[8] != "surface_layer"[8]; }
  }

  /** A row changes exactly when it names a layer and has none, and then gets a non-blank one. */
  lemma RelabelledChanges(r: Dict)
    requires Sid(r).Some?
    ensures Relabelled(r) != r <==> LayerFor(Sid(r).value).Some? && MissingLayer(r)
    ensures !MissingLayer(Relabelled(r)) || LayerFor(Sid(r).value).None?
    ensures Get(Relabelled(r), "surface_id") == Get(r, "surface_id")
  {
    var sid := Sid(r).value;
    if LayerFor(sid).Some? && MissingLayer(r) {
      LayerNotBlank(sid);
      WriteLayer(r, LayerFor(sid).value);
    }
  }

  /** The pass is idempotent: once applied, applying it again changes no row. */
  lemma {:induction false} SecondPassChangesNothing(s: seq<Dict>)
    requires forall i :: 0 <= i < |s| ==> Sid(s[i]).Some?
    ensures RelabelAll(RelabelAll(s)) == RelabelAll(s)
    ensures Differing(RelabelAll(s), RelabelAll(RelabelAll(s))) == 0
  {
    var t := RelabelAll(s);
    forall i | 0 <= i < |s| ensures Relabelled(t[i]) == t[i] {
      RelabelledChanges(s[i]);
      assert Sid(t[i]) == Sid(s[i]);
      RelabelledChanges(t[i]);
    }
    DifferingSelf(t);
  }

  /** The pass writes a layer into the row: its id names a layer and it has none. */
  predicate Changes(r: Dict)
  {
    Sid(r).Some? && LayerFor(Sid(r).value).Some? && MissingLayer(r)
  }

  /** The number of rows the pass writes a layer into. */
  function ChangedCount(s: seq<Dict>): nat
  {
    if |s| == 0 then 0
    else ChangedCount(s[..|s| - 1]) + (if Changes(s[|s| - 1]) then 1 else 0)
  }

  /** Counting one more row. */
  lemma CountStep(s: seq<Dict>, i: nat)
    requires i < |s|
    ensures ChangedCount(s[..i + 1]) == ChangedCount(s[..i]) + (if Changes(s[i]) then 1 else 0)
  {
    assert s[..i + 1][..i] == s[..i];
  }

  /** Relabelling one more row. */
  lemma RelabelStep(s: seq<Dict>, t: seq<Dict>, i: nat)
    requires |s| == |t| && i < |s|
    requires t[..i] == RelabelAll(s[..i]) && t[i] == Relabelled(s[i])
    ensures t[..i + 1] == RelabelAll(s[..i + 1])
  {
    assert t[..i + 1] == t[..i] + [t[i]];
  }

  /** A row counts exactly when the pass changes it. */
  lemma ChangesIffDiffers(r: Dict)
    ensures Changes(r) <==> Relabelled(r) != r
  {
    if Sid(r).Some? {
      RelabelledChanges(r);
    }
  }

  /** The rows the pass counts are exactly those at which its output differs from its input. */
  lemma {:induction false} ChangedCountIsDiffering(s: seq<Dict>)
    ensures ChangedCount(s) == Differing(s, RelabelAll(s))
  {
    if |s| > 0 {
      var init := s[..|s| - 1];
      var t := RelabelAll(s);
      ChangedCountIsDiffering(init);
      assert t[..|s| - 1] == RelabelAll(init);
      ChangesIffDiffers(s[|s| - 1]);
    }
  }

  /** One turn of the module loop on `rows[i]`: `None` where stripping its surface id raises. */
  method PatchRow(rows: array<Dict>, i: nat) returns (n: Option<nat>)
    requires i < rows.Length
    modifies rows
    ensures n.None? <==> Sid(old(rows[i])).None?
    ensures n.None? ==> rows[i] == old(rows[i])
    ensures n.Some? ==> rows[i] == Relabelled(old(rows[i])) && n.value == if Changes(old(rows[i])) then 1 else 0
    ensures forall j :: 0 <= j < rows.Length && j != i ==> rows[j] == old(rows[j])
  {
    var sid := Sid(rows[i]);
    if sid.None? {
      return None;
    }
    var layer := LayerFor(sid.value);
    if layer.None? {
      return Some(0);
    }
    var k := SetIfMissing(rows, i, layer.value);
    return Some(k);
  }

  /**
   * The module loop: each row in turn gets its layer, and the count is that of the rows that
   * changed. A row whose surface id cannot be stripped stops the pass (`Err` with its index);
   * the rows before it are patched, the rest are untouched, and the file is then not written.
   */
  method PatchLayers(rows: array<Dict>) returns (r: Result<nat, nat>)
    modifies rows
    ensures r.Ok? ==> (forall i :: 0 <= i < rows.Length ==> Sid(old(rows[i])).Some?)
    ensures r.Ok? ==> rows[..] == RelabelAll(old(rows[..])) && r.value == Differing(old(rows[..]), rows[..])
    ensures r.Err? ==> r.error < rows.Length && Sid(old(rows[r.error])).None?
    ensures r.Err? ==> forall i :: 0 <= i < r.error ==> Sid(old(rows[i])).Some?
    ensures r.Err? ==> rows[..r.error] == RelabelAll(old(rows[..r.error])) && rows[r.error..] == old(rows[r.error..])
  {
    ghost var before := rows[..];
    var changed := 0;
    for i := 0 to rows.Length
      invariant Progress(before, rows[..], i, changed)
    {
      ghost var prev := rows[..];
      var n := PatchRow(rows, i);
      if n.None? {
        assert rows[..] == prev;
        return Err(i);
      }
      ProgressStep(before, prev, rows[..], i, changed);
      changed := changed + n.value;
    }
    ProgressDone(before, rows[..], changed);
    return Ok(changed);
  }

  /** Why the script stops before writing: a line that does not decode to an object, or a row at this index whose id cannot be stripped. */
  datatype Abort = Undecodable(e: DecodeError) | Unstrippable(row: nat)

  /**
   * The whole script over the lines of the results file: every non-blank line is decoded
   * first, so a line that is not JSON or not an object stops it; then the module loop runs
   * over the decoded rows. `Ok` carries the rows written back and the count printed.
   */
  method PatchFile(lines: seq<Line>) returns (r: Result<(seq<Dict>, nat), Abort>)
    ensures DecodeObjects(lines, 0).Err? ==> r == Err(Undecodable(DecodeObjects(lines, 0).error))
    ensures DecodeObjects(lines, 0).Ok? ==>
      (r.Ok? <==> forall i :: 0 <= i < |Objects(lines)| ==> Sid(Objects(lines)[i]).Some?)
    ensures r.Ok? ==> r.value.0 == RelabelAll(Objects(lines)) && r.value.1 == Differing(Objects(lines), r.value.0)
    ensures r.Err? && r.error.Unstrippable? ==>
      r.error.row < |Objects(lines)| && Sid(Objects(lines)[r.error.row]).None? &&
      forall i :: 0 <= i < r.error.row ==> Sid(Objects(lines)[i]).Some?
  {
    var decoded := DecodeObjects(lines, 0);
    if decoded.Err? {
      return Err(Undecodable(decoded.error));
    }
    var objs := decoded.value;
    var rows := new Dict[|objs|](i requires 0 <= i < |objs| => objs[i]);
    assert rows[..] == objs == Objects(lines);
    ghost var before := rows[..];
    var res := PatchLayers(rows);
    if res.Err? {
      assert Sid(before[res.error]).None?;
      assert !forall i :: 0 <= i < |Objects(lines)| ==> Sid(Objects(lines)[i]).Some?;
      return Err(Unstrippable(res.error));
    }
    return Ok((rows[..], res.value));
  }

  /** The state of the module loop after `i` rows: those rows relabelled and counted, the rest untouched. */
  ghost predicate Progress(before: seq<Dict>, now: seq<Dict>, i: nat, changed: nat)
  {
    |now| == |before| && i <= |before| &&
    (forall j :: 0 <= j < i ==> Sid(before[j]).Some?) &&
    now[..i] == RelabelAll(before[..i]) && now[i..] == before[i..] &&
    changed == ChangedCount(before[..i])
  }

  /** One more row whose surface id strips keeps the loop state. */
  lemma ProgressStep(before: seq<Dict>, prev: seq<Dict>, now: seq<Dict>, i: nat, changed: nat)
    requires Progress(before, prev, i, changed) && i < |before|
    requires Sid(before[i]).Some?
    requires |now| == |prev| && now[i] == Relabelled(before[i])
    requires forall j :: 0 <= j < |now| && j != i ==> now[j] == prev[j]
    ensures Progress(before, now, i + 1, changed + (if Changes(before[i]) then 1 else 0))
  {
    OneChanged(prev, now, i);
    RelabelStep(before, now, i);
    CountStep(before, i);
    assert now[i + 1..] == before[i + 1..] by {
      assert prev[i + 1..] == prev[i..][1..];
      assert before[i + 1..] == before[i..][1..];
    }
    assert forall j :: 0 <= j < i + 1 ==> Sid(before[j]).Some?;
  }

  /** Changing one position leaves the rows before and after it as they were. */
  lemma OneChanged(prev: seq<Dict>, now: seq<Dict>, i: nat)
    requires |now| == |prev| && i < |now|
    requires forall j :: 0 <= j < |now| && j != i ==> now[j] == prev[j]
    ensures now[..i] == prev[..i] && now[i + 1..] == prev[i + 1..]
  {
  }

  /** The loop state after every row, when none raised. */
  lemma ProgressDone(before: seq<Dict>, now: seq<Dict>, changed: nat)
    requires Progress(before, now, |before|, changed)
    ensures forall j :: 0 <= j < |before| ==> Sid(before[j]).Some?
    ensures now == RelabelAll(before) && changed == Differing(before, now)
  {
    assert now == now[..|before|];
    assert before == before[..|before|];
    ChangedCountIsDiffering(before);
  }
}
