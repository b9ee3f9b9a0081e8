/**
 * Record normalisation of the protocol-readiness report: a loose JSON object becomes a
 * `Record` with a canonical id, a category, gas, security bits, an explicit or notes-derived
 * effective cap, a dependency list and a timestamp.
 */
module ReadinessRecord {
  import opened Outcomes
  import opened Text
  import opened Decimal
  import opened Binary64
  import opened PyValues

  /** One benchmark record; the raw object the source keeps as `meta` is only displayed and is left out. */
  datatype Record = Record(
    rid: string,
    category: string,
    gas: Option<int>,
    securityEquivBits: Option<int>,
    effectiveSecurityBits: Option<int>,
    dependsOn: seq<string>,
    ts: string)

  /**
   * The canonical id: `scheme::bench_name` (with `category` and `bench` as aliases), else an
   * explicit `id`/`name`/`bench_id`, else the bare bench name, else none. `surface` is never read.
   */
  function CanonicalRid(obj: Dict): (r: Option<string>)
    ensures r.Some? ==> r.value != ""
  {
    var scheme := Or(Get(obj, "scheme"), Get(obj, "category"));
    var bench := Or(Get(obj, "bench_name"), Get(obj, "bench"));
    var explicit := Or(Or(Get(obj, "id"), Get(obj, "name")), Get(obj, "bench_id"));
    if Truthy(scheme) && Truthy(bench) then Some(ToStr(scheme) + "::" + ToStr(bench))
    else if Truthy(explicit) then TruthyRendersNonEmpty(explicit); Some(ToStr(explicit))
    else if Truthy(bench) then TruthyRendersNonEmpty(bench); Some(ToStr(bench))
    else None
  }

  /**
   * The metric types under which `security_metric_value` is read: the listed names and any
   * other truthy type, but also no type or an empty one; only a falsy non-string type (`false`,
   * `0`, an empty list or dict) is refused.
   */
  predicate AcceptsMetricType(smt: Value)
  {
    Truthy(smt) || smt == Null || smt == Str("")
  }

  /**
   * The denominator bits: a coercible `security_equiv_bits` first, else
   * `security_metric_value` when the metric type is unset, empty, one of the bit-like names,
   * or any other truthy type.
   */
  function ParseSecurityBits(obj: Dict): (b: Option<int>)
    ensures AsInt(Get(obj, "security_equiv_bits")).Some? ==> b == AsInt(Get(obj, "security_equiv_bits"))
    ensures (AsInt(Get(obj, "security_equiv_bits")).None? && !Get(obj, "security_metric_value").Null? &&
             AcceptsMetricType(Get(obj, "security_metric_type"))) ==> b == AsInt(Get(obj, "security_metric_value"))
    ensures AsInt(Get(obj, "security_equiv_bits")).None? && Get(obj, "security_metric_value").Null? ==> b.None?
    ensures AsInt(Get(obj, "security_equiv_bits")).None? && !AcceptsMetricType(Get(obj, "security_metric_type")) ==> b.None?
  {
    var seb := Get(obj, "security_equiv_bits");
    var smt := Get(obj, "security_metric_type");
    var smv := Get(obj, "security_metric_value");
    if !seb.Null? && AsInt(seb).Some? then AsInt(seb)
    else if !smv.Null? && smt in {Null, Str(""), Str("lambda_eff"), Str("security_equiv_bits"), Str("H_min"), Str("bits"), Str("security_bits")} then AsInt(smv)
    else if !smv.Null? && Truthy(smt) then AsInt(smv)
    else None
  }

  /** End of the run of ASCII digits starting at `k`. */
  function DigitRun(s: string, k: nat): (e: nat)
    requires k <= |s|
    ensures k <= e <= |s| && AllDigits(s[k..e])
    ensures e == |s| || !IsDigit(s[e])
    decreases |s| - k
  {
    if k < |s| && IsDigit(s[k]) then
      var e := DigitRun(s, k + 1);
      assert s[k..e] == [s[k]] + s[k + 1..e];
      e
    else k
  }

  /** End of the run of whitespace starting at `k`. */
  function SpaceRun(s: string, k: nat): (e: nat)
    requires k <= |s|
    ensures k <= e <= |s|
    ensures e == |s| || !IsSpace(s[e])
    decreases |s| - k
  {
    if k < |s| && IsSpace(s[k]) then SpaceRun(s, k + 1) else k
  }

  /**
   * `eff\d+\s*=\s*(\d+)(?:\s|$)` anchored at `k`: the captured right-hand digits. Every
   * repetition is greedy and no shorter run can succeed, so the match is unique.
   */
  function EffAt(s: string, k: nat): (r: Option<string>)
    requires k <= |s|
    ensures r.Some? ==> |r.value| > 0 && AllDigits(r.value)
  {
    if !IsAt(s, "eff", k) then None
    else
      var e1 := DigitRun(s, k + 3);
      var s1 := SpaceRun(s, e1);
      if e1 == k + 3 || s1 == |s| || s[s1] != '=' then None
      else
        var s2 := SpaceRun(s, s1 + 1);
        var e2 := DigitRun(s, s2);
        if e2 == s2 || (e2 < |s| && !IsSpace(s[e2])) then None
        else Some(s[s2..e2])
  }

  /** The leftmost match of `(?:^|\s)eff…` at or after position `p`, trying `^` before `\s`. */
  function EffSearch(s: string, p: nat): (r: Option<string>)
    requires p <= |s|
    ensures r.Some? ==> |r.value| > 0 && AllDigits(r.value)
    decreases |s| - p
  {
    var anchored := if p == 0 then EffAt(s, 0) else None;
    var spaced := if p < |s| && IsSpace(s[p]) then EffAt(s, p + 1) else None;
    if anchored.Some? then anchored
    else if spaced.Some? then spaced
    else if p == |s| then None
    else EffSearch(s, p + 1)
  }

  /**
   * `_parse_eff_from_notes`: no notes or empty notes give no cap; otherwise the first match
   * decides, its digits read with `_as_int`, and no later match is tried.
   */
  function ParseEffFromNotes(notes: Option<string>): (r: Option<int>)
    ensures notes.None? || notes.value == "" ==> r.None?
    ensures r.Some? ==> notes.Some? && EffSearch(notes.value, 0).Some? && r == AsInt(Str(EffSearch(notes.value, 0).value))
  {
    if notes.None? || notes.value == "" then None
    else
      match EffSearch(notes.value, 0)
      case None => None
      case Some(g) => AsInt(Str(g))
  }

  /**
   * `depends_on or []`, a lone string wrapped, every element of a list passed through `str`,
   * the keys of a dict taken in insertion order; iterating anything else raises.
   */
  function DependsOnList(v: Value): (r: Result<seq<string>, string>)
    ensures !Truthy(v) ==> r == Ok([])
    ensures v.List? ==> r.Ok? && |r.value| == |v.items| && forall k :: 0 <= k < |v.items| ==> r.value[k] == ToStr(v.items[k])
    ensures v.Str? && v.s != "" ==> r == Ok([v.s])
    ensures v.Object? && v.fields != map[] ==> r == Ok(v.order)
    ensures v.Object? && KeysOrdered(v) && r.Ok? ==> forall k :: k in r.value <==> k in v.fields
    ensures r.Err? <==> Truthy(v) && (v.Bool? || v.Int? || v.Float?)
  {
    match Or(v, List([]))
    case Str(s) => Ok([s])
    case List(items) =>
      var strs := seq(|items|, k requires 0 <= k < |items| => ToStr(items[k]));
      assert |items| == 0 ==> strs == [];
      Ok(strs)
    case Object(_, order) => Ok(order)
    case _ => Err("depends_on is not iterable")
  }

  /** The category: `scheme` or `category`, else the id's text before the first `::`, else "unknown". */
  function Category(obj: Dict, rid: string): (c: string)
    ensures Truthy(Or(Get(obj, "scheme"), Get(obj, "category"))) ==> c == ToStr(Or(Get(obj, "scheme"), Get(obj, "category")))
    ensures !Truthy(Or(Get(obj, "scheme"), Get(obj, "category"))) && !Contains(rid, "::") ==> c == "unknown"
    ensures !Truthy(Or(Get(obj, "scheme"), Get(obj, "category"))) && Contains(rid, "::") ==>
      StartsWith(rid, c + "::") && forall j :: 0 <= j < |c| ==> !IsAt(rid, "::", j)
  {
    var c := Or(Get(obj, "scheme"), Get(obj, "category"));
    if Truthy(c) then ToStr(c)
    else match Find(rid, "::")
      case Some(k) =>
        assert rid[..k] + "::" == rid[..k + 2];
        rid[..k]
      case None => "unknown"
  }

  /** `_as_str(obj.get("notes"))`. */
  function NotesText(obj: Dict): Option<string>
  {
    if Get(obj, "notes").Null? then None else Some(ToStr(Get(obj, "notes")))
  }

  /** The effective cap: an explicit coercible `effective_security_bits`, else the notes' `effN=M`. */
  function EffectiveBits(obj: Dict): (e: Option<int>)
    ensures AsInt(Get(obj, "effective_security_bits")).Some? ==> e == AsInt(Get(obj, "effective_security_bits"))
    ensures AsInt(Get(obj, "effective_security_bits")).None? && Get(obj, "notes") in {Null, Str("")} ==> e.None?
    ensures e.Some? && AsInt(Get(obj, "effective_security_bits")).None? ==>
      !Get(obj, "notes").Null? && EffSearch(ToStr(Get(obj, "notes")), 0).Some? &&
      e == AsInt(Str(EffSearch(ToStr(Get(obj, "notes")), 0).value))
  {
    var explicit := AsInt(Get(obj, "effective_security_bits"));
    if explicit.Some? then explicit else ParseEffFromNotes(NotesText(obj))
  }

  /** The timestamp: the first truthy of `ts_utc`, `timestamp`, `ts`, `time`, as text. */
  function Timestamp(obj: Dict): (t: string)
    ensures t == "" <==> !Truthy(Get(obj, "ts_utc")) && !Truthy(Get(obj, "timestamp")) && !Truthy(Get(obj, "ts")) && !Truthy(Get(obj, "time"))
    ensures Truthy(Get(obj, "ts_utc")) ==> t == ToStr(Get(obj, "ts_utc"))
    ensures !Truthy(Get(obj, "ts_utc")) && Truthy(Get(obj, "timestamp")) ==> t == ToStr(Get(obj, "timestamp"))
  {
    var v := Or(Or(Or(Or(Get(obj, "ts_utc"), Get(obj, "timestamp")), Get(obj, "ts")), Get(obj, "time")), Str(""));
    if Truthy(v) then TruthyRendersNonEmpty(v); ToStr(v) else ToStr(v)
  }

  /** The gas: `gas`, else `gas_verify`, else `gas_surface` (the first that is not null), coerced. */
  function Gas(obj: Dict): (g: Option<int>)
    ensures !Get(obj, "gas").Null? ==> g == AsInt(Get(obj, "gas"))
    ensures Get(obj, "gas").Null? && !Get(obj, "gas_verify").Null? ==> g == AsInt(Get(obj, "gas_verify"))
    ensures Get(obj, "gas").Null? && Get(obj, "gas_verify").Null? ==> g == AsInt(Get(obj, "gas_surface"))
    ensures Get(obj, "gas").Null? && Get(obj, "gas_verify").Null? && Get(obj, "gas_surface").Null? ==> g.None?
  {
    var g := Get(obj, "gas");
    var g := if g.Null? then Get(obj, "gas_verify") else g;
    var g := if g.Null? then Get(obj, "gas_surface") else g;
    AsInt(g)
  }

  /**
   * `Record.from_json`: fails on a non-object (no `.get`), a missing canonical id, or a
   * `depends_on` that cannot be iterated.
   */
  function FromJson(v: Value): (r: Result<Record, string>)
    ensures r.Ok? <==> v.Object? && CanonicalRid(v.fields).Some? && DependsOnList(Get(v.fields, "depends_on")).Ok?
    ensures r.Ok? ==> r.value.rid == CanonicalRid(v.fields).value && r.value.rid != ""
    ensures r.Ok? ==> r.value.effectiveSecurityBits == EffectiveBits(v.fields)
    ensures r.Ok? ==> r.value.securityEquivBits == ParseSecurityBits(v.fields)
    ensures r.Ok? ==> r.value.dependsOn == DependsOnList(Get(v.fields, "depends_on")).value
    ensures r.Ok? ==> r.value.category == Category(v.fields, r.value.rid)
    ensures r.Ok? ==> r.value.gas == Gas(v.fields) && r.value.ts == Timestamp(v.fields)
  {
    if !v.Object? then Err("not an object")
    else
      var obj := v.fields;
      match CanonicalRid(obj)
      case None => Err("Missing canonical rid")
      case Some(rid) =>
        match DependsOnList(Get(obj, "depends_on"))
        case Err(e) => Err(e)
        case Ok(deps) =>
          Ok(Record(rid, Category(obj, rid), Gas(obj), ParseSecurityBits(obj), EffectiveBits(obj), deps, Timestamp(obj)))
  }

  // ---------------------------------------------------------------------------------------
  // Properties of the id policy

  lemma GetOther(obj: Dict, k: string, v: Value, other: string)
    requires other != k
    ensures Get(obj[k := v], other) == Get(obj, other)
  {
  }

  /** The `surface` field never influences the canonical id. */
  lemma RidIgnoresSurface(obj: Dict, v: Value)
    ensures CanonicalRid(obj["surface" := v]) == CanonicalRid(obj)
  {
    var o := obj["surface" := v];
    forall k | k in {"scheme", "category", "bench_name", "bench", "id", "name", "bench_id"}
      ensures Get(o, k) == Get(obj, k)
    {
      GetOther(obj, "surface", v, k);
    }
  }

  /** With a scheme and a bench name present, an explicit `id` is ignored. */
  lemma RidPrefersSchemeBench(obj: Dict, v: Value)
    requires Truthy(Or(Get(obj, "scheme"), Get(obj, "category")))
    requires Truthy(Or(Get(obj, "bench_name"), Get(obj, "bench")))
    ensures CanonicalRid(obj["id" := v]) == CanonicalRid(obj)
    ensures CanonicalRid(obj) == Some(ToStr(Or(Get(obj, "scheme"), Get(obj, "category"))) + "::" + ToStr(Or(Get(obj, "bench_name"), Get(obj, "bench"))))
  {
    var o := obj["id" := v];
    forall k | k in {"scheme", "category", "bench_name", "bench"}
      ensures Get(o, k) == Get(obj, k)
    {
      GetOther(obj, "id", v, k);
    }
  }

  /**
   * Without both a scheme and a bench name, the first truthy of `id`, `name` and `bench_id`
   * is the id, as text.
   */
  lemma RidExplicitId(obj: Dict)
    requires !(Truthy(Or(Get(obj, "scheme"), Get(obj, "category"))) && Truthy(Or(Get(obj, "bench_name"), Get(obj, "bench"))))
    ensures Truthy(Get(obj, "id")) ==> CanonicalRid(obj) == Some(ToStr(Get(obj, "id")))
    ensures !Truthy(Get(obj, "id")) && Truthy(Get(obj, "name")) ==> CanonicalRid(obj) == Some(ToStr(Get(obj, "name")))
    ensures !Truthy(Get(obj, "id")) && !Truthy(Get(obj, "name")) && Truthy(Get(obj, "bench_id")) ==>
      CanonicalRid(obj) == Some(ToStr(Get(obj, "bench_id")))
  {
  }

  /** The bare bench name is used only when there is neither a scheme nor an explicit id. */
  lemma RidBareBench(obj: Dict)
    requires !Truthy(Get(obj, "scheme")) && !Truthy(Get(obj, "category"))
    requires !Truthy(Get(obj, "id")) && !Truthy(Get(obj, "name")) && !Truthy(Get(obj, "bench_id"))
    ensures CanonicalRid(obj) == (if Truthy(Or(Get(obj, "bench_name"), Get(obj, "bench"))) then Some(ToStr(Or(Get(obj, "bench_name"), Get(obj, "bench")))) else None)
  {
  }

  /** The id-less record is rejected: `from_json` raises whenever no id is derivable. */
  lemma NoRidNoRecord(obj: Dict, order: seq<string>)
    requires CanonicalRid(obj).None?
    ensures FromJson(Object(obj, order)).Err?
  {
  }

  /** The category falls back to the id's scheme part. */
  lemma CategoryFromRid(obj: Dict, scheme: string, rest: string)
    requires !Truthy(Get(obj, "scheme")) && !Truthy(Get(obj, "category"))
    requires forall i :: 0 <= i < |scheme| ==> scheme[i] != ':'
    ensures Category(obj, scheme + "::" + rest) == scheme
  {
    var rid := scheme + "::" + rest;
    assert rid[|scheme|..|scheme| + 2] == "::";
    forall j | 0 <= j < |scheme| ensures !IsAt(rid, "::", j) {
      assert rid[j] == scheme[j];
    }
    FindIs(rid, "::", |scheme|);
    assert rid[..|scheme|] == scheme;
  }

  // ---------------------------------------------------------------------------------------
  // Properties of the effective cap

  /** An explicit coercible `effective_security_bits` wins over any notes. */
  lemma ExplicitEffWins(obj: Dict, notes: Value)
    requires AsInt(Get(obj, "effective_security_bits")).Some?
    ensures EffectiveBits(obj["notes" := notes]) == AsInt(Get(obj, "effective_security_bits"))
  {
    GetOther(obj, "notes", notes, "effective_security_bits");
  }

  lemma DigitRunAt(s: string, k: nat, e: nat)
    requires k <= e <= |s|
    requires forall j :: k <= j < e ==> IsDigit(s[j])
    requires e == |s| || !IsDigit(s[e])
    ensures DigitRun(s, k) == e
    decreases e - k
  {
    if k < e {
      DigitRunAt(s, k + 1, e);
    }
  }

  /** The anchored match on `eff<digits>=<digits>` captures the right-hand digits. */
  lemma EffAtRoundTrip(a: string, b: string, s: string)
    requires |a| > 0 && AllDigits(a) && |b| > 0 && AllDigits(b)
    requires s == "eff" + a + "=" + b
    ensures EffAt(s, 0) == Some(b)
  {
    var e1 := 3 + |a|;
    assert s[..3] == "eff";
    forall j | 3 <= j < e1 ensures IsDigit(s[j]) {
      assert s[j] == a[j - 3];
    }
    assert s[e1] == '=';
    DigitRunAt(s, 3, e1);
    assert SpaceRun(s, e1) == e1;
    forall j | e1 + 1 <= j < |s| ensures IsDigit(s[j]) {
      assert s[j] == b[j - e1 - 1];
    }
    assert s[e1 + 1] == b[0];
    assert SpaceRun(s, e1 + 1) == e1 + 1;
    DigitRunAt(s, e1 + 1, |s|);
    assert s[e1 + 1..|s|] == b;
  }

  /** `eff<digits>=<digits>` as the whole notes text yields the right-hand value, when it is at most 2^53. */
  lemma NotesCapRoundTrip(a: string, b: string)
    requires |a| > 0 && AllDigits(a) && |b| > 0 && AllDigits(b) && DigitsValue(b) <= MaxExact
    ensures ParseEffFromNotes(Some("eff" + a + "=" + b)) == Some(DigitsValue(b))
  {
    var s := "eff" + a + "=" + b;
    EffAtRoundTrip(a, b, s);
    AsIntOfDigits(b);
  }

  /** Without an explicit cap, a notes text `eff<N>=<M>` supplies `M`, for `M` at most 2^53. */
  lemma NotesCapFallback(obj: Dict, a: string, b: string)
    requires AsInt(Get(obj, "effective_security_bits")).None?
    requires |a| > 0 && AllDigits(a) && |b| > 0 && AllDigits(b) && DigitsValue(b) <= MaxExact
    requires Get(obj, "notes") == Str("eff" + a + "=" + b)
    ensures EffectiveBits(obj) == Some(DigitsValue(b))
  {
    NotesCapRoundTrip(a, b);
  }

  /** A cap of 2^1024 - 2^970 or more is infinite as a float, so `_as_int` fails and no cap is read. */
  lemma NotesCapOverflow(a: string, b: string)
    requires |a| > 0 && AllDigits(a) && |b| > 0 && AllDigits(b) && DigitsValue(b) >= OverflowThreshold
    ensures ParseEffFromNotes(Some("eff" + a + "=" + b)).None?
  {
    var s := "eff" + a + "=" + b;
    EffAtRoundTrip(a, b, s);
    DigitsOverflow(b);
  }

  /** Digits worth 2^1024 - 2^970 or more make `_as_int` fail. */
  lemma DigitsOverflow(b: string)
    requires |b| > 0 && AllDigits(b) && DigitsValue(b) >= OverflowThreshold
    ensures AsInt(Str(b)).None?
  {
    DigitsParse(b);
    assert Overflows(Dec(DigitsValue(b), 0));
    AsIntOfHugeText(b);
  }

  // ---------------------------------------------------------------------------------------
  // Properties of the other fields

  /** The named metric types add nothing: any non-null value counts unless the type is a falsy non-empty-string value. */
  lemma SecurityBitsGate(obj: Dict)
    ensures var seb := Get(obj, "security_equiv_bits");
      var smt := Get(obj, "security_metric_type");
      var smv := Get(obj, "security_metric_value");
      ParseSecurityBits(obj) ==
        if AsInt(seb).Some? then AsInt(seb)
        else if !smv.Null? && (smt.Null? || smt == Str("") || Truthy(smt)) then AsInt(smv)
        else None
  {
  }

  /** A lone string dependency becomes a one-element list. */
  lemma StringDependency(obj: Dict, s: string)
    requires Get(obj, "depends_on") == Str(s) && s != ""
    ensures DependsOnList(Get(obj, "depends_on")) == Ok([s])
  {
  }

  /** Dependencies keep their order; each becomes its `str()`. */
  lemma ListDependencies(obj: Dict, items: seq<Value>)
    requires Get(obj, "depends_on") == List(items)
    ensures DependsOnList(Get(obj, "depends_on")).Ok? && |DependsOnList(Get(obj, "depends_on")).value| == |items|
    ensures forall k :: 0 <= k < |items| ==> DependsOnList(Get(obj, "depends_on")).value[k] == ToStr(items[k])
  {
  }
}
