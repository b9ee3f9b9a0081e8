/**
 * The one-hop weakest-link report: each candidate row's effective bits are the minimum of
 * the security bits of the dependencies it names, resolved by exact `scheme::bench_name` id
 * or else by a bench name carried by exactly one row. The row's own bits are not included.
 */
module WeakestLinkReport {
  import opened Outcomes
  import opened Text
  import opened Decimal
  import opened Binary64
  import opened PyValues

  /** `record_id`: `scheme::bench_name`, with `unknown` for a missing key (a stored null prints `None`). */
  function RecordId(r: Dict): (id: string)
    ensures GetOr(r, "scheme", Str("unknown")).Str? && GetOr(r, "bench_name", Str("unknown")).Str? ==>
      id == GetOr(r, "scheme", Str("unknown")).s + "::" + GetOr(r, "bench_name", Str("unknown")).s
    ensures "scheme" !in r && "bench_name" !in r ==> id == "unknown::unknown"
    ensures "scheme" in r && r["scheme"].Null? ==> StartsWith(id, "None::")
  {
    ToStr(GetOr(r, "scheme", Str("unknown"))) + "::" + ToStr(GetOr(r, "bench_name", Str("unknown")))
  }

  /** The metric types whose value reads as bits. */
  predicate BitsMetric(t: Value)
  {
    t == Str("security_equiv_bits") || t == Str("lambda_eff") || t == Str("H_min")
  }

  /**
   * `pick_security_bits`: the metric value as a number when the metric type is one of the
   * three bit-like types and the value converts; truncated toward zero to an int.
   */
  function PickSecurityBits(r: Dict): (b: Option<int>)
    ensures b.Some? ==> BitsMetric(Get(r, "security_metric_type"))
    ensures b.Some? <==>
      BitsMetric(Get(r, "security_metric_type")) && FloatOf(Get(r, "security_metric_value")).Some? &&
      FloatOf(Get(r, "security_metric_value")).value.Finite?
  {
    var v := FloatOf(Get(r, "security_metric_value"));
    if v.None? then None
    else if BitsMetric(Get(r, "security_metric_type")) then
      match v.value
      case Finite(d) => Some(Truncate(d))
      case _ => None
    else None
  }

  /**
   * An integer metric value of a bit-like type, at most 2^53 in magnitude, is taken as is; one
   * too large for a float yields nothing, and so does any other metric type.
   */
  lemma PickSecurityBitsOfInt(r: Dict, n: int)
    requires Get(r, "security_metric_value") == Int(n)
    ensures BitsMetric(Get(r, "security_metric_type")) && Abs(n) <= MaxExact ==> PickSecurityBits(r) == Some(n)
    ensures Overflows(Dec(n, 0)) ==> PickSecurityBits(r).None?
    ensures !BitsMetric(Get(r, "security_metric_type")) ==> PickSecurityBits(r).None?
  {
    assert Truncate(Dec(n, 0)) == n;
  }

  /** `by_id`: the dict comprehension keyed by `record_id`, a later row overwriting an earlier one. */
  function ById(rows: seq<Dict>): (m: map<string, Dict>)
    ensures forall id :: id in m <==> exists k :: 0 <= k < |rows| && RecordId(rows[k]) == id
  {
    if |rows| == 0 then map[]
    else
      var prev := ById(rows[..|rows| - 1]);
      assert forall k :: 0 <= k < |rows| - 1 ==> rows[..|rows| - 1][k] == rows[k];
      prev[RecordId(rows[|rows| - 1]) := rows[|rows| - 1]]
  }

  /** `k` is the last position of a row whose id is `id`. */
  predicate LastWithId(rows: seq<Dict>, id: string, k: nat)
  {
    k < |rows| && RecordId(rows[k]) == id && forall j :: k < j < |rows| ==> RecordId(rows[j]) != id
  }

  /** `by_id` holds, for every id, the last row that carries it. */
  lemma {:induction false} ByIdKeepsLast(rows: seq<Dict>, id: string)
    requires id in ById(rows)
    ensures exists k: nat :: LastWithId(rows, id, k) && ById(rows)[id] == rows[k]
  {
    var n := |rows| - 1;
    if RecordId(rows[n]) != id {
      var prefix := rows[..n];
      assert ById(rows)[id] == ById(prefix)[id];
      ByIdKeepsLast(prefix, id);
      var k: nat :| LastWithId(prefix, id, k) && ById(prefix)[id] == prefix[k];
      LastWithIdExtends(rows, id, k);
    } else {
      assert LastWithId(rows, id, n);
    }
  }

  lemma LastWithIdExtends(rows: seq<Dict>, id: string, k: nat)
    requires |rows| > 0 && RecordId(rows[|rows| - 1]) != id
    requires LastWithId(rows[..|rows| - 1], id, k)
    ensures LastWithId(rows, id, k) && rows[..|rows| - 1][k] == rows[k]
  {
    var n := |rows| - 1;
    forall j | k < j < |rows| ensures RecordId(rows[j]) != id {
      if j < n {
        assert rows[..n][j] == rows[j];
      }
    }
  }

  /** `str(r.get("bench_name", ""))`. */
  function BenchName(r: Dict): string
  {
    ToStr(GetOr(r, "bench_name", Str("")))
  }

  /** The rows whose bench name is `bn`, in input order. */
  function RowsWithBench(rows: seq<Dict>, bn: string): seq<Dict>
  {
    if |rows| == 0 then []
    else
      var prev := RowsWithBench(rows[..|rows| - 1], bn);
      if BenchName(rows[|rows| - 1]) == bn then prev + [rows[|rows| - 1]] else prev
  }

  /** The non-empty bench names that occur. */
  function BenchNames(rows: seq<Dict>): set<string>
  {
    set k | 0 <= k < |rows| && BenchName(rows[k]) != "" :: BenchName(rows[k])
  }

  /** `by_bench` as a value: every non-empty bench name with its rows in input order. */
  function ByBench(rows: seq<Dict>): map<string, seq<Dict>>
  {
    map bn | bn in BenchNames(rows) :: RowsWithBench(rows, bn)
  }

  /** The `setdefault(bn, []).append(r)` loop that builds `by_bench`. */
  method IndexByBench(rows: seq<Dict>) returns (byBench: map<string, seq<Dict>>)
    ensures byBench == ByBench(rows)
  {
    byBench := map[];
    var i := 0;
    while i < |rows|
      invariant 0 <= i <= |rows|
      invariant BenchIndexed(rows[..i], byBench)
    {
      var r := rows[i];
      var bn := BenchName(r);
      var next := byBench;
      if bn != "" {
        var prev := if bn in byBench then byBench[bn] else [];
        next := byBench[bn := prev + [r]];
      }
      BenchIndexStep(rows, i, byBench, next);
      byBench := next;
      i := i + 1;
    }
    assert rows[..i] == rows;
    ByBenchMatches(rows, byBench);
  }

  /** The loop invariant of `IndexByBench`: the map built so far indexes `rows` exactly. */
  predicate BenchIndexed(rows: seq<Dict>, m: map<string, seq<Dict>>)
  {
    m.Keys == BenchNames(rows) && forall bn :: bn in m ==> m[bn] == RowsWithBench(rows, bn)
  }

  lemma BenchIndexStep(rows: seq<Dict>, i: nat, m: map<string, seq<Dict>>, next: map<string, seq<Dict>>)
    requires i < |rows| && BenchIndexed(rows[..i], m)
    requires BenchName(rows[i]) == "" ==> next == m
    requires BenchName(rows[i]) != "" ==>
      next == m[BenchName(rows[i]) := (if BenchName(rows[i]) in m then m[BenchName(rows[i])] else []) + [rows[i]]]
    ensures BenchIndexed(rows[..i + 1], next)
  {
    var bn := BenchName(rows[i]);
    if bn != "" && bn !in m {
      NoBenchNoRows(rows[..i], bn);
    }
    BenchNamesStep(rows, i);
    forall b | b in next ensures next[b] == RowsWithBench(rows[..i + 1], b) {
      RowsWithBenchStep(rows, i, b);
    }
  }

  /** One more row joins the rows of its own bench name and no other. */
  lemma RowsWithBenchStep(rows: seq<Dict>, i: nat, bn: string)
    requires i < |rows|
    ensures RowsWithBench(rows[..i + 1], bn) ==
      RowsWithBench(rows[..i], bn) + (if BenchName(rows[i]) == bn then [rows[i]] else [])
  {
    assert rows[..i + 1][..i] == rows[..i];
  }

  lemma {:induction false} ByBenchMatches(rows: seq<Dict>, m: map<string, seq<Dict>>)
    requires BenchIndexed(rows, m)
    ensures m == ByBench(rows)
  {
  }

  lemma BenchNamesStep(rows: seq<Dict>, i: nat)
    requires i < |rows|
    ensures BenchNames(rows[..i + 1]) ==
      BenchNames(rows[..i]) + (if BenchName(rows[i]) != "" then {BenchName(rows[i])} else {})
  {
    var a := rows[..i];
    var b := rows[..i + 1];
    assert forall k :: 0 <= k < i ==> b[k] == a[k];
    forall x | x in BenchNames(b) ensures x in BenchNames(a) || (BenchName(rows[i]) != "" && x == BenchName(rows[i])) {
      var k :| 0 <= k < |b| && BenchName(b[k]) != "" && BenchName(b[k]) == x;
      if k < i {
        assert BenchName(a[k]) == x;
      }
    }
    forall x | x in BenchNames(a) ensures x in BenchNames(b) {
      var k :| 0 <= k < |a| && BenchName(a[k]) != "" && BenchName(a[k]) == x;
      assert BenchName(b[k]) == x;
    }
  }

  lemma {:induction false} NoBenchNoRows(rows: seq<Dict>, bn: string)
    requires bn != "" && bn !in BenchNames(rows)
    ensures RowsWithBench(rows, bn) == []
  {
    if |rows| > 0 {
      var n := |rows| - 1;
      assert BenchNames(rows[..n]) <= BenchNames(rows) by {
        forall x | x in BenchNames(rows[..n]) ensures x in BenchNames(rows) {
          var k :| 0 <= k < n && BenchName(rows[..n][k]) != "" && BenchName(rows[..n][k]) == x;
          assert rows[..n][k] == rows[k];
        }
      }
      NoBenchNoRows(rows[..n], bn);
      assert BenchName(rows[n]) != bn;
    }
  }

  /** Every row in `by_bench[bn]` carries bench name `bn`, and every such row is there. */
  lemma {:induction false} RowsWithBenchMembers(rows: seq<Dict>, bn: string)
    ensures forall r :: r in RowsWithBench(rows, bn) <==> r in rows && BenchName(r) == bn
  {
    if |rows| > 0 {
      var n := |rows| - 1;
      RowsWithBenchMembers(rows[..n], bn);
      assert rows == rows[..n] + [rows[n]];
    }
  }

  /** A weakest-link candidate: `security_model == "weakest_link"` or a non-empty `depends_on` list. */
  predicate IsCandidate(r: Dict)
  {
    Get(r, "security_model") == Str("weakest_link") ||
    (Get(r, "depends_on").List? && |Get(r, "depends_on").items| > 0)
  }

  /** The candidates in input order. */
  function CandidatesOf(rows: seq<Dict>): (c: seq<Dict>)
    ensures forall r :: r in c <==> r in rows && IsCandidate(r)
    ensures |c| <= |rows|
  {
    if |rows| == 0 then []
    else
      var prev := CandidatesOf(rows[..|rows| - 1]);
      assert rows == rows[..|rows| - 1] + [rows[|rows| - 1]];
      if IsCandidate(rows[|rows| - 1]) then prev + [rows[|rows| - 1]] else prev
  }

  /** The loop that collects `wl_candidates`. */
  method Candidates(rows: seq<Dict>) returns (c: seq<Dict>)
    ensures c == CandidatesOf(rows)
  {
    c := [];
    for i := 0 to |rows|
      invariant c == CandidatesOf(rows[..i])
    {
      assert rows[..i + 1][..i] == rows[..i];
      if IsCandidate(rows[i]) {
        c := c + [rows[i]];
      }
    }
    assert rows[..|rows|] == rows;
  }

  /** `[str(x) for x in deps if isinstance(x, (str, int, float))]`; a bool is an int here. */
  function ScalarTexts(items: seq<Value>): (r: seq<string>)
    ensures |r| <= |items|
    ensures (forall k :: 0 <= k < |items| ==> items[k].Str?) ==>
      |r| == |items| && forall k :: 0 <= k < |items| ==> r[k] == items[k].s
  {
    if |items| == 0 then []
    else
      var rest := ScalarTexts(items[1..]);
      var x := items[0];
      if x.Str? || x.Int? || x.Float? || x.Bool? then [ToStr(x)] + rest else rest
  }

  /** The dependency tokens of a row: a non-list `depends_on` names none. */
  function DepsOf(r: Dict): (deps: seq<string>)
    ensures !GetOr(r, "depends_on", List([])).List? ==> deps == []
  {
    var raw := GetOr(r, "depends_on", List([]));
    if raw.List? then ScalarTexts(raw.items) else []
  }

  /**
   * The dependency lookup: the exact id first; else a bare bench name, but only when exactly
   * one row carries it; else nothing.
   */
  function Resolve(d: string, byId: map<string, Dict>, byBench: map<string, seq<Dict>>): (rec: Option<Dict>)
    ensures d in byId ==> rec == Some(byId[d])
    ensures d !in byId && d in byBench && |byBench[d]| == 1 ==> rec == Some(byBench[d][0])
    ensures d !in byId && (d !in byBench || |byBench[d]| != 1) ==> rec.None?
  {
    if d in byId then Some(byId[d])
    else if d in byBench && |byBench[d]| == 1 then Some(byBench[d][0])
    else None
  }

  /** A bench name that was measured twice, and is no exact id, resolves to nothing. */
  lemma RemeasuredBenchIsAmbiguous(rows: seq<Dict>, d: string, i: nat, j: nat)
    requires i < j < |rows| && BenchName(rows[i]) == d && BenchName(rows[j]) == d && d != ""
    requires forall k :: 0 <= k < |rows| ==> RecordId(rows[k]) != d
    ensures Resolve(d, ById(rows), ByBench(rows)).None?
  {
    assert d in BenchNames(rows);
    RowsWithBenchTwice(rows, d, i, j);
  }

  lemma {:induction false} RowsWithBenchTwice(rows: seq<Dict>, bn: string, i: nat, j: nat)
    requires i < j < |rows| && BenchName(rows[i]) == bn && BenchName(rows[j]) == bn
    ensures |RowsWithBench(rows, bn)| >= 2
  {
    var n := |rows| - 1;
    assert rows[..n][i] == rows[i];
    if j < n {
      assert rows[..n][j] == rows[j];
      RowsWithBenchTwice(rows[..n], bn, i, j);
    } else {
      RowsWithBenchMembers(rows[..n], bn);
      assert rows[i] in RowsWithBench(rows[..n], bn);
    }
  }

  /** Dependency `d` resolves to a row that has bit-like security. */
  predicate Contributes(d: string, byId: map<string, Dict>, byBench: map<string, seq<Dict>>)
  {
    Resolve(d, byId, byBench).Some? && PickSecurityBits(Resolve(d, byId, byBench).value).Some?
  }

  /** The bits a contributing dependency adds. */
  function BitsOfDep(d: string, byId: map<string, Dict>, byBench: map<string, seq<Dict>>): int
    requires Contributes(d, byId, byBench)
  {
    PickSecurityBits(Resolve(d, byId, byBench).value).value
  }

  /** The bits of every dependency that resolves to a row with bit-like security, in order. */
  function DepBits(deps: seq<string>, byId: map<string, Dict>, byBench: map<string, seq<Dict>>): (bits: seq<int>)
    ensures |bits| <= |deps|
  {
    if |deps| == 0 then []
    else
      var prev := DepBits(deps[..|deps| - 1], byId, byBench);
      var rec := Resolve(deps[|deps| - 1], byId, byBench);
      if rec.Some? && PickSecurityBits(rec.value).Some? then prev + [PickSecurityBits(rec.value).value] else prev
  }

  /** A dependency that resolves to a row with bits contributes those bits. */
  lemma {:induction false} DepBitsContains(deps: seq<string>, byId: map<string, Dict>, byBench: map<string, seq<Dict>>, k: nat)
    requires k < |deps|
    requires Resolve(deps[k], byId, byBench).Some? && PickSecurityBits(Resolve(deps[k], byId, byBench).value).Some?
    ensures PickSecurityBits(Resolve(deps[k], byId, byBench).value).value in DepBits(deps, byId, byBench)
  {
    var n := |deps| - 1;
    DepBitsLast(deps, byId, byBench);
    if k < n {
      assert deps[..n][k] == deps[k];
      DepBitsContains(deps[..n], byId, byBench, k);
    }
  }

  /** The last dependency adds its bits, if it contributes, after those of the others. */
  lemma DepBitsLast(deps: seq<string>, byId: map<string, Dict>, byBench: map<string, seq<Dict>>)
    requires |deps| > 0
    ensures var d := deps[|deps| - 1];
      DepBits(deps, byId, byBench) ==
        DepBits(deps[..|deps| - 1], byId, byBench) + (if Contributes(d, byId, byBench) then [BitsOfDep(d, byId, byBench)] else [])
  {
  }

  /**
   * Conversely, every collected value is the bits of some contributing dependency, and nothing
   * is collected exactly when no dependency contributes.
   */
  lemma {:induction false} DepBitsFrom(deps: seq<string>, byId: map<string, Dict>, byBench: map<string, seq<Dict>>)
    ensures forall x :: x in DepBits(deps, byId, byBench) ==>
      exists k :: 0 <= k < |deps| && Contributes(deps[k], byId, byBench) && BitsOfDep(deps[k], byId, byBench) == x
    ensures |DepBits(deps, byId, byBench)| == 0 <==> forall k :: 0 <= k < |deps| ==> !Contributes(deps[k], byId, byBench)
  {
    if |deps| > 0 {
      var n := |deps| - 1;
      var init := deps[..n];
      DepBitsFrom(init, byId, byBench);
      assert forall k :: 0 <= k < n ==> init[k] == deps[k];
      forall x | x in DepBits(deps, byId, byBench)
        ensures exists k :: 0 <= k < |deps| && Contributes(deps[k], byId, byBench) && BitsOfDep(deps[k], byId, byBench) == x
      {
        if x !in DepBits(init, byId, byBench) {
          assert Contributes(deps[n], byId, byBench) && BitsOfDep(deps[n], byId, byBench) == x;
        } else {
          var k :| 0 <= k < n && Contributes(init[k], byId, byBench) && BitsOfDep(init[k], byId, byBench) == x;
          assert deps[k] == init[k];
        }
      }
      if exists k :: 0 <= k < |deps| && Contributes(deps[k], byId, byBench) {
        var k :| 0 <= k < |deps| && Contributes(deps[k], byId, byBench);
        DepBitsContains(deps, byId, byBench, k);
      }
    }
  }

  /** Python's `min(bits) if bits else None`. */
  function MinSeq(s: seq<int>): (m: Option<int>)
    ensures m.None? <==> |s| == 0
    ensures m.Some? ==> m.value in s && forall k :: 0 <= k < |s| ==> m.value <= s[k]
  {
    if |s| == 0 then None
    else
      var rest := MinSeq(s[1..]);
      if rest.Some? && rest.value < s[0] then Some(rest.value) else Some(s[0])
  }

  /** The `for d in depends_on` loop: collect resolved bits, then take their minimum. */
  method EffectiveBits(deps: seq<string>, byId: map<string, Dict>, byBench: map<string, seq<Dict>>) returns (eff: Option<int>)
    ensures eff == MinSeq(DepBits(deps, byId, byBench))
  {
    var bits: seq<int> := [];
    for i := 0 to |deps|
      invariant bits == DepBits(deps[..i], byId, byBench)
    {
      assert deps[..i + 1][..i] == deps[..i];
      var rec := Resolve(deps[i], byId, byBench);
      if rec.Some? {
        var b := PickSecurityBits(rec.value);
        if b.Some? {
          bits := bits + [b.value];
        }
      }
    }
    assert deps[..|deps|] == deps;
    eff := MinSeq(bits);
  }

  /** One line of the report. */
  datatype WLRow = WLRow(rid: string, chainProfile: string, declaredBits: Option<int>, dependsOn: seq<string>, effectiveBits: Option<int>)

  /** The report line of a candidate row. */
  function RowFor(r: Dict, byId: map<string, Dict>, byBench: map<string, seq<Dict>>): WLRow
  {
    WLRow(RecordId(r), ToStr(GetOr(r, "chain_profile", Str("unknown"))), PickSecurityBits(r), DepsOf(r),
          MinSeq(DepBits(DepsOf(r), byId, byBench)))
  }

  /** The analysis part of `main`: one report line per candidate, in input order. */
  method Analyse(rows: seq<Dict>) returns (out: seq<WLRow>)
    ensures |out| == |CandidatesOf(rows)|
    ensures forall i :: 0 <= i < |out| ==> out[i] == RowFor(CandidatesOf(rows)[i], ById(rows), ByBench(rows))
  {
    var byId := ById(rows);
    var byBench := IndexByBench(rows);
    var cands := Candidates(rows);
    out := Lines(cands, byId, byBench);
  }

  /** The loop over the candidates: their report lines, in order. */
  method Lines(cands: seq<Dict>, byId: map<string, Dict>, byBench: map<string, seq<Dict>>) returns (out: seq<WLRow>)
    ensures |out| == |cands|
    ensures forall i :: 0 <= i < |out| ==> out[i] == RowFor(cands[i], byId, byBench)
  {
    out := [];
    for i := 0 to |cands|
      invariant |out| == i
      invariant forall j :: 0 <= j < i ==> out[j] == RowFor(cands[j], byId, byBench)
    {
      var line := LineFor(cands[i], byId, byBench);
      out := out + [line];
    }
  }

  /** The body of the loop: one candidate's report line, field by field. */
  method LineFor(r: Dict, byId: map<string, Dict>, byBench: map<string, seq<Dict>>) returns (line: WLRow)
    ensures line == RowFor(r, byId, byBench)
  {
    var deps := DepsOf(r);
    var eff := EffectiveBits(deps, byId, byBench);
    line := WLRow(RecordId(r), ToStr(GetOr(r, "chain_profile", Str("unknown"))), PickSecurityBits(r), deps, eff);
  }

  /**
   * A report line's effective bits are at most the bits of every dependency that resolves,
   * and are absent exactly when no dependency contributes bits.
   */
  lemma EffectiveBitsBound(r: Dict, byId: map<string, Dict>, byBench: map<string, seq<Dict>>, k: nat)
    requires k < |DepsOf(r)|
    requires Resolve(DepsOf(r)[k], byId, byBench).Some?
    requires PickSecurityBits(Resolve(DepsOf(r)[k], byId, byBench).value).Some?
    ensures RowFor(r, byId, byBench).effectiveBits.Some?
    ensures RowFor(r, byId, byBench).effectiveBits.value <=
      PickSecurityBits(Resolve(DepsOf(r)[k], byId, byBench).value).value
  {
    DepBitsContains(DepsOf(r), byId, byBench, k);
  }

  /**
   * A report line's effective bits are the least bits among the contributing dependencies:
   * absent exactly when none contributes, otherwise equal to the bits of one of them and at
   * most the bits of each. The record's own declared bits take no part.
   */
  lemma EffectiveBitsIsMinimum(r: Dict, byId: map<string, Dict>, byBench: map<string, seq<Dict>>)
    ensures var eff := RowFor(r, byId, byBench).effectiveBits;
      && (eff.None? <==> forall k :: 0 <= k < |DepsOf(r)| ==> !Contributes(DepsOf(r)[k], byId, byBench))
      && (eff.Some? ==>
            exists k :: 0 <= k < |DepsOf(r)| && Contributes(DepsOf(r)[k], byId, byBench) && eff.value == BitsOfDep(DepsOf(r)[k], byId, byBench))
      && (eff.Some? ==>
            forall k :: 0 <= k < |DepsOf(r)| && Contributes(DepsOf(r)[k], byId, byBench) ==> eff.value <= BitsOfDep(DepsOf(r)[k], byId, byBench))
  {
    var deps := DepsOf(r);
    DepBitsFrom(deps, byId, byBench);
    forall k | 0 <= k < |deps| && Contributes(deps[k], byId, byBench) {
      DepBitsContains(deps, byId, byBench, k);
    }
  }
}
