/**
 * The ingest normaliser: a raw benchmark record (already decoded from JSON) becomes one row of
 * the results log. Fields are looked up under alias keys, an upstream provenance object may
 * override the repository and commit, `scheme` and `bench_name` may come from a nested
 * `context` object and are required, and a few passthrough fields are copied only when they
 * carry something.
 */
module ParseBench {
  import opened Outcomes
  import opened Text
  import opened Decimal
  import opened Binary64
  import opened PyValues

  /** `k in d and d[k] is not None` */
  predicate Present(d: Dict, k: string)
  {
    k in d && d[k] != Null
  }

  /** `get_any`: the value of the first listed key that is present and not null, else the default. */
  function FirstPresent(d: Dict, keys: seq<string>, default: Value): (r: Value)
    ensures r == default || exists k :: k in keys && Present(d, k) && r == d[k]
  {
    if |keys| == 0 then default
    else if Present(d, keys[0]) then d[keys[0]]
    else FirstPresent(d, keys[1..], default)
  }

  /** The first key that is present decides, whatever the keys after it hold. */
  lemma {:induction false} FirstPresentPicksFirst(d: Dict, keys: seq<string>, default: Value, i: nat)
    requires i < |keys| && Present(d, keys[i])
    requires forall j :: 0 <= j < i ==> !Present(d, keys[j])
    ensures FirstPresent(d, keys, default) == d[keys[i]]
  {
    if i > 0 {
      assert !Present(d, keys[0]);
      FirstPresentPicksFirst(d, keys[1..], default, i - 1);
    }
  }

  /** With none of the keys present, the default is returned. */
  lemma {:induction false} FirstPresentDefault(d: Dict, keys: seq<string>, default: Value)
    requires forall i :: 0 <= i < |keys| ==> !Present(d, keys[i])
    ensures FirstPresent(d, keys, default) == default
  {
    if |keys| > 0 {
      assert !Present(d, keys[0]);
      FirstPresentDefault(d, keys[1..], default);
    }
  }

  /** The lookup loop of `get_any`. */
  method GetAny(d: Dict, keys: seq<string>, default: Value) returns (r: Value)
    ensures r == FirstPresent(d, keys, default)
  {
    for i := 0 to |keys|
      invariant FirstPresent(d, keys[i..], default) == FirstPresent(d, keys, default)
    {
      assert keys[i..][1..] == keys[i + 1..];
      if keys[i] in d && d[keys[i]] != Null {
        return d[keys[i]];
      }
    }
    return default;
  }

  /** The three optional override fields; each is a non-empty string when present. */
  datatype Override = Override(repo: Option<string>, commit: Option<string>, path: Option<string>)
  {
    /** `p_repo or p_commit or p_path` */
    predicate Any()
    {
      repo.Some? || commit.Some? || path.Some?
    }
  }

  /** The input's `provenance` object supplies `s` under `k`: a non-empty string. */
  predicate Supplied(raw: Dict, k: string, s: string)
  {
    Get(raw, "provenance").Object? && Get(Get(raw, "provenance").fields, k) == Str(s) && s != ""
  }

  /** One field of the override: a string that is not empty, or nothing. */
  function OverrideField(prov: Dict, k: string): Option<string>
  {
    var v := Get(prov, k);
    if v.Str? && v.s != "" then Some(v.s) else None
  }

  /**
   * `provenance_override`: no override unless `provenance` is an object; within it, values that
   * are not strings, and empty strings, count as absent.
   */
  function ProvenanceOverride(raw: Dict): (r: Override)
    ensures !Get(raw, "provenance").Object? ==> !r.Any()
    ensures r.repo.Some? ==> Supplied(raw, "repo", r.repo.value)
    ensures r.commit.Some? ==> Supplied(raw, "commit", r.commit.value)
    ensures r.path.Some? ==> Supplied(raw, "path", r.path.value)
    ensures forall s :: Supplied(raw, "repo", s) ==> r.repo == Some(s)
    ensures forall s :: Supplied(raw, "commit", s) ==> r.commit == Some(s)
    ensures forall s :: Supplied(raw, "path", s) ==> r.path == Some(s)
  {
    var prov := Get(raw, "provenance");
    if !prov.Object? then Override(None, None, None)
    else Override(OverrideField(prov.fields, "repo"), OverrideField(prov.fields, "commit"), OverrideField(prov.fields, "path"))
  }

  /** The values the caller supplies: the repository's name, its `HEAD` commit and the current time. */
  datatype Defaults = Defaults(repo: string, commit: string, tsUtc: string)

  /** Why a record is rejected. */
  datatype NormalizeError =
    | MissingRequired          // `scheme` or `bench_name` missing or falsy
    | GasNotInteger            // `int()` of the gas value raises
    | SecurityValueNotNumber   // `float()` of the security value raises
    | GasTooLargeForFloat      // `gas_verify / sec_val` raises: the int gas has no float value

  const SchemeKeys: seq<string> := ["scheme"]
  const BenchKeys: seq<string> := ["bench_name", "bench"]
  const GasKeys: seq<string> := ["gas_verify", "gas"]
  const SecurityValueKeys: seq<string> := ["security_metric_value", "security-value"]

  /** A required field: the top-level value, or the nested `context` object's when that one is falsy. */
  function Required(raw: Dict, keys: seq<string>): (v: Value)
    ensures Truthy(FirstPresent(raw, keys, Null)) ==> v == FirstPresent(raw, keys, Null)
    ensures Truthy(v) && v != FirstPresent(raw, keys, Null) ==>
      Get(raw, "context").Object? && v == FirstPresent(Get(raw, "context").fields, keys, Null)
    ensures !Truthy(FirstPresent(raw, keys, Null)) && Get(raw, "context").Object? ==>
      v == FirstPresent(Get(raw, "context").fields, keys, Null)
    ensures !Truthy(FirstPresent(raw, keys, Null)) && !Get(raw, "context").Object? ==> v == FirstPresent(raw, keys, Null)
  {
    var top := FirstPresent(raw, keys, Null);
    var context := Get(raw, "context");
    if !Truthy(top) && context.Object? then FirstPresent(context.fields, keys, Null) else top
  }

  /** `[str(x) for x in items]` */
  function Texts(items: seq<Value>): (r: seq<Value>)
    ensures |r| == |items| && forall j :: 0 <= j < |items| ==> r[j] == Str(ToStr(items[j]))
  {
    seq(|items|, j requires 0 <= j < |items| => Str(ToStr(items[j])))
  }

  /**
   * The `depends_on` written out: a non-empty list as the texts of its elements, a string with
   * something besides whitespace stripped, and nothing otherwise.
   */
  function DependsOnOut(v: Value): (r: Option<Value>)
    ensures r.Some? <==> (v.List? && v.items != []) || (v.Str? && Strip(v.s) != "")
    ensures r.Some? && v.List? ==> r.value == List(Texts(v.items))
    ensures r.Some? && v.Str? ==> r.value == Str(Strip(v.s))
  {
    if v.List? && v.items != [] then Some(List(Texts(v.items)))
    else if v.Str? && Strip(v.s) != "" then Some(Str(Strip(v.s)))
    else None
  }

  /** Writing out a written-out `depends_on` again changes nothing. */
  lemma DependsOnStable(v: Value)
    requires DependsOnOut(v).Some?
    ensures DependsOnOut(DependsOnOut(v).value) == DependsOnOut(v)
  {
    var w := DependsOnOut(v).value;
    if v.List? {
      assert Texts(w.items) == w.items;
    } else {
      StripStable(v.s);
    }
  }

  /** The nested provenance written out: the final repository and commit, and the path when given. */
  datatype Provenance = Provenance(repo: Value, commit: Value, path: Option<string>)

  /**
   * A written row. The always-present fields are values; the optional ones are `None` when
   * `normalize_row` leaves the key out. The two float-valued fields are not part of this model.
   */
  datatype Row = Row(
    tsUtc: Value, repo: Value, commit: Value, scheme: Value, benchName: Value,
    chainProfile: Value, gasVerify: int, securityMetricType: Value, hashProfile: Value, notes: Value,
    provenance: Option<Provenance>,
    surfaceClass: Option<string>, securityModel: Option<string>, aggregationMode: Option<string>,
    dependsOn: Option<Value>)

  /** `isinstance(v, str) and v` */
  function NonEmptyText(v: Value): (r: Option<string>)
    ensures r.Some? <==> v.Str? && v.s != ""
    ensures r.Some? ==> v == Str(r.value)
  {
    if v.Str? && v.s != "" then Some(v.s) else None
  }

  /** The row `normalize_row` writes once its checks have passed, with `gas` the result of `int()`. */
  function Assemble(raw: Dict, defaults: Defaults, gas: int): Row
  {
    var ov := ProvenanceOverride(raw);
    var repo := if ov.repo.Some? then Str(ov.repo.value) else FirstPresent(raw, ["repo"], Str(defaults.repo));
    var commit := if ov.commit.Some? then Str(ov.commit.value) else FirstPresent(raw, ["commit"], Str(defaults.commit));
    Row(
      FirstPresent(raw, ["ts_utc", "ts"], Str(defaults.tsUtc)), repo, commit,
      Required(raw, SchemeKeys), Required(raw, BenchKeys),
      FirstPresent(raw, ["chain_profile", "chain-profile"], Str("unknown")), gas,
      FirstPresent(raw, ["security_metric_type", "security-type"], Str("unknown")),
      FirstPresent(raw, ["hash_profile", "hash"], Str("unknown")),
      FirstPresent(raw, ["notes"], Str("")),
      if ov.Any() then Some(Provenance(repo, commit, ov.path)) else None,
      NonEmptyText(FirstPresent(raw, ["surface_class", "surface"], Null)),
      NonEmptyText(Get(raw, "security_model")),
      NonEmptyText(Get(raw, "aggregation_mode")),
      DependsOnOut(Get(raw, "depends_on")))
  }

  /**
   * `normalize_row`: a record is rejected for a missing scheme or bench name before anything
   * else, then for a gas value `int()` refuses, then for a security value `float()` refuses,
   * then for a gas of 2^1024 - 2^970 or more divided by a positive security value (the
   * division converts the gas to a float); a record that passes all four becomes the row
   * assembled from its integer gas.
   */
  function NormalizeRow(raw: Dict, defaults: Defaults): (r: Result<Row, NormalizeError>)
    ensures r == Err(MissingRequired) <==>
      !Truthy(Required(raw, SchemeKeys)) || !Truthy(Required(raw, BenchKeys))
    ensures r == Err(GasNotInteger) <==>
      Truthy(Required(raw, SchemeKeys)) && Truthy(Required(raw, BenchKeys)) && PyInt(FirstPresent(raw, GasKeys, Int(0))).None?
    ensures r == Err(SecurityValueNotNumber) <==>
      Truthy(Required(raw, SchemeKeys)) && Truthy(Required(raw, BenchKeys)) && PyInt(FirstPresent(raw, GasKeys, Int(0))).Some? &&
      FloatOf(FirstPresent(raw, SecurityValueKeys, Float("0.0"))).None?
    ensures r == Err(GasTooLargeForFloat) <==>
      Truthy(Required(raw, SchemeKeys)) && Truthy(Required(raw, BenchKeys)) && PyInt(FirstPresent(raw, GasKeys, Int(0))).Some? &&
      FloatOf(FirstPresent(raw, SecurityValueKeys, Float("0.0"))).Some? &&
      Positive(FloatOf(FirstPresent(raw, SecurityValueKeys, Float("0.0"))).value) &&
      Overflows(Dec(PyInt(FirstPresent(raw, GasKeys, Int(0))).value, 0))
    ensures r.Ok? ==>
      PyInt(FirstPresent(raw, GasKeys, Int(0))).Some? &&
      r.value == Assemble(raw, defaults, PyInt(FirstPresent(raw, GasKeys, Int(0))).value)
  {
    var scheme := Required(raw, SchemeKeys);
    var bench := Required(raw, BenchKeys);
    if !Truthy(scheme) || !Truthy(bench) then Err(MissingRequired)
    else
      var gas := PyInt(FirstPresent(raw, GasKeys, Int(0)));
      var sec := FloatOf(FirstPresent(raw, SecurityValueKeys, Float("0.0")));
      if gas.None? then Err(GasNotInteger)
      else if sec.None? then Err(SecurityValueNotNumber)
      else if Positive(sec.value) && Overflows(Dec(gas.value, 0)) then Err(GasTooLargeForFloat)
      else Ok(Assemble(raw, defaults, gas.value))
  }

  /** A non-empty override of the repository or commit wins over the record's own value and over the default. */
  lemma OverrideWins(raw: Dict, defaults: Defaults, gas: int)
    ensures var row := Assemble(raw, defaults, gas);
      && (forall s :: Supplied(raw, "repo", s) ==> row.repo == Str(s))
      && ((forall s :: !Supplied(raw, "repo", s)) ==> row.repo == FirstPresent(raw, ["repo"], Str(defaults.repo)))
      && (forall s :: Supplied(raw, "commit", s) ==> row.commit == Str(s))
      && ((forall s :: !Supplied(raw, "commit", s)) ==> row.commit == FirstPresent(raw, ["commit"], Str(defaults.commit)))
  {
    var ov := ProvenanceOverride(raw);
    if ov.repo.Some? {
      assert Supplied(raw, "repo", ov.repo.value);
    }
    if ov.commit.Some? {
      assert Supplied(raw, "commit", ov.commit.value);
    }
  }

  /** The nested provenance is written only when the record supplied an override, and `path` only when it gave one. */
  lemma ProvenanceOnlyWhenGiven(raw: Dict, defaults: Defaults, gas: int)
    ensures var row := Assemble(raw, defaults, gas); var ov := ProvenanceOverride(raw);
      && (row.provenance.Some? <==> ov.Any())
      && (row.provenance.Some? ==> row.provenance.value == Provenance(row.repo, row.commit, ov.path))
      && (row.provenance.Some? && row.provenance.value.path.Some? ==> Supplied(raw, "path", row.provenance.value.path.value))
      && (forall s :: Supplied(raw, "path", s) ==> row.provenance == Some(Provenance(row.repo, row.commit, Some(s))))
  {
  }

  /** The passthrough fields are copied only when they are non-empty strings; `depends_on` by its own rule. */
  lemma PassthroughRules(raw: Dict, defaults: Defaults, gas: int)
    ensures var row := Assemble(raw, defaults, gas); var m := Get(raw, "security_model"); var a := Get(raw, "aggregation_mode");
      && (row.securityModel.Some? <==> m.Str? && m.s != "")
      && (row.securityModel.Some? ==> m == Str(row.securityModel.value))
      && (row.aggregationMode.Some? <==> a.Str? && a.s != "")
      && (row.aggregationMode.Some? ==> a == Str(row.aggregationMode.value))
      && row.dependsOn == DependsOnOut(Get(raw, "depends_on"))
  {
  }

  /**
   * The surface class is read from `surface_class`, and from `surface` only when the former is
   * missing or null; a present but empty `surface_class` hides `surface`.
   */
  lemma SurfaceAliasOrder(raw: Dict, defaults: Defaults, gas: int)
    ensures Present(raw, "surface_class") ==> Assemble(raw, defaults, gas).surfaceClass == NonEmptyText(raw["surface_class"])
    ensures !Present(raw, "surface_class") ==> Assemble(raw, defaults, gas).surfaceClass == NonEmptyText(Get(raw, "surface"))
  {
    var keys := ["surface_class", "surface"];
    assert keys[1..] == ["surface"];
    if !Present(raw, "surface_class") {
      assert FirstPresent(raw, keys, Null) == FirstPresent(raw, ["surface"], Null);
      assert FirstPresent(raw, ["surface"], Null) == if Present(raw, "surface") then raw["surface"] else Null;
    }
  }

  /** The nested provenance object as written: `repo`, `commit`, then `path` when given. */
  function ProvenanceValue(p: Provenance): Value
  {
    var base := map["repo" := p.repo, "commit" := p.commit];
    if p.path.Some? then Object(base["path" := Str(p.path.value)], ["repo", "commit", "path"])
    else Object(base, ["repo", "commit"])
  }

  /** `out[k] = v` only when there is a `v`. */
  function PutIf(out: Dict, k: string, v: Option<Value>): Dict
  {
    if v.Some? then out[k := v.value] else out
  }

  function TextValue(t: Option<string>): Option<Value>
  {
    if t.Some? then Some(Str(t.value)) else None
  }

  /** The conditionally added keys of a written row. */
  function Extras(row: Row): Dict
  {
    var o1 := PutIf(map[], "provenance", if row.provenance.Some? then Some(ProvenanceValue(row.provenance.value)) else None);
    var o2 := PutIf(o1, "surface_class", TextValue(row.surfaceClass));
    var o3 := PutIf(o2, "security_model", TextValue(row.securityModel));
    var o4 := PutIf(o3, "aggregation_mode", TextValue(row.aggregationMode));
    PutIf(o4, "depends_on", row.dependsOn)
  }

  /** The JSON object appended to the results log for a written row: the fixed keys and the extras. */
  function Written(row: Row): Dict
  {
    Extras(row) + map[
      "ts_utc" := row.tsUtc, "repo" := row.repo, "commit" := row.commit,
      "scheme" := row.scheme, "bench_name" := row.benchName, "chain_profile" := row.chainProfile,
      "gas_verify" := Int(row.gasVerify), "security_metric_type" := row.securityMetricType,
      "hash_profile" := row.hashProfile, "notes" := row.notes]
  }

  /** The fixed keys hold the row's fields. */
  lemma WrittenFixed(row: Row)
    ensures var d := Written(row);
      && "ts_utc" in d && d["ts_utc"] == row.tsUtc
      && "repo" in d && d["repo"] == row.repo
      && "commit" in d && d["commit"] == row.commit
      && "scheme" in d && d["scheme"] == row.scheme
      && "bench_name" in d && d["bench_name"] == row.benchName
  {
  }

  /** The fixed keys hold the row's fields (continued). */
  lemma WrittenFixedRest(row: Row)
    ensures var d := Written(row);
      && "chain_profile" in d && d["chain_profile"] == row.chainProfile
      && "gas_verify" in d && d["gas_verify"] == Int(row.gasVerify)
      && "security_metric_type" in d && d["security_metric_type"] == row.securityMetricType
      && "hash_profile" in d && d["hash_profile"] == row.hashProfile
      && "notes" in d && d["notes"] == row.notes
  {
  }

  /** The nested provenance is written exactly when the row has one. */
  lemma WrittenProvenance(row: Row)
    ensures Get(Written(row), "provenance") == (if row.provenance.Some? then ProvenanceValue(row.provenance.value) else Null)
  {
    assert "provenance" != "bench_name" && "provenance" != "gas_verify";
    assert Get(Extras(row), "provenance") == if row.provenance.Some? then ProvenanceValue(row.provenance.value) else Null;
  }

  /** The surface class is written exactly when the row has one. */
  lemma WrittenSurfaceClass(row: Row)
    ensures Get(Written(row), "surface_class") == (if row.surfaceClass.Some? then Str(row.surfaceClass.value) else Null)
  {
    assert "surface_class" != "chain_profile";
    assert Get(Extras(row), "surface_class") == if row.surfaceClass.Some? then Str(row.surfaceClass.value) else Null;
  }

  /** The security model is written exactly when the row has one. */
  lemma WrittenSecurityModel(row: Row)
    ensures Get(Written(row), "security_model") == (if row.securityModel.Some? then Str(row.securityModel.value) else Null)
  {
    assert Get(Extras(row), "security_model") == if row.securityModel.Some? then Str(row.securityModel.value) else Null;
  }

  /** The aggregation mode is written exactly when the row has one. */
  lemma WrittenAggregationMode(row: Row)
    ensures Get(Written(row), "aggregation_mode") == (if row.aggregationMode.Some? then Str(row.aggregationMode.value) else Null)
  {
    assert Get(Extras(row), "aggregation_mode") == if row.aggregationMode.Some? then Str(row.aggregationMode.value) else Null;
  }

  /** The dependency list is written exactly when the row has one. */
  lemma WrittenDependsOn(row: Row)
    ensures Get(Written(row), "depends_on") == (if row.dependsOn.Some? then row.dependsOn.value else Null)
  {
    assert "depends_on" != "bench_name" && "depends_on" != "gas_verify";
    assert Get(Extras(row), "depends_on") == if row.dependsOn.Some? then row.dependsOn.value else Null;
  }

  /** The security value is not part of the written row in this model. */
  lemma WrittenNoSecurityValue(row: Row)
    ensures "security_metric_value" !in Written(row) && "security-value" !in Written(row)
  {
  }

  /** `surface`, an alias only read on input, is never written. */
  lemma WrittenNoSurface(row: Row)
    ensures "surface" !in Written(row)
  {
  }

  /** A written provenance repeats the row's repository and commit and carries at least one override. */
  ghost predicate ProvenanceConsistent(row: Row)
  {
    row.provenance.Some? ==>
      var p := row.provenance.value;
      && p.repo == row.repo && p.commit == row.commit
      && (p.path.Some? ==> p.path.value != "")
      && (p.path.Some? || NonEmptyText(row.repo).Some? || NonEmptyText(row.commit).Some?)
  }

  /** What every row `normalize_row` writes satisfies. */
  ghost predicate Canonical(row: Row)
  {
    && row.tsUtc != Null && row.repo != Null && row.commit != Null
    && Truthy(row.scheme) && Truthy(row.benchName)
    && row.chainProfile != Null && row.securityMetricType != Null && row.hashProfile != Null && row.notes != Null
    && ProvenanceConsistent(row)
    && (row.surfaceClass.Some? ==> row.surfaceClass.value != "")
    && (row.securityModel.Some? ==> row.securityModel.value != "")
    && (row.aggregationMode.Some? ==> row.aggregationMode.value != "")
    && (row.dependsOn.Some? ==> DependsOnOut(row.dependsOn.value) == row.dependsOn)
  }

  /** Every accepted record is written as a canonical row. */
  lemma NormalizedCanonical(raw: Dict, defaults: Defaults, gas: int)
    requires Truthy(Required(raw, SchemeKeys)) && Truthy(Required(raw, BenchKeys))
    ensures Canonical(Assemble(raw, defaults, gas))
  {
    var d := Get(raw, "depends_on");
    if DependsOnOut(d).Some? {
      DependsOnStable(d);
    }
  }

  /** `d` holds `row` as `Written` lays it out. */
  ghost predicate Encodes(d: Dict, row: Row)
  {
    && "ts_utc" in d && d["ts_utc"] == row.tsUtc
    && "repo" in d && d["repo"] == row.repo
    && "commit" in d && d["commit"] == row.commit
    && "scheme" in d && d["scheme"] == row.scheme
    && "bench_name" in d && d["bench_name"] == row.benchName
    && "chain_profile" in d && d["chain_profile"] == row.chainProfile
    && "gas_verify" in d && d["gas_verify"] == Int(row.gasVerify)
    && "security_metric_type" in d && d["security_metric_type"] == row.securityMetricType
    && "hash_profile" in d && d["hash_profile"] == row.hashProfile
    && "notes" in d && d["notes"] == row.notes
    && Get(d, "provenance") == (if row.provenance.Some? then ProvenanceValue(row.provenance.value) else Null)
    && Get(d, "surface_class") == (if row.surfaceClass.Some? then Str(row.surfaceClass.value) else Null)
    && Get(d, "security_model") == (if row.securityModel.Some? then Str(row.securityModel.value) else Null)
    && Get(d, "aggregation_mode") == (if row.aggregationMode.Some? then Str(row.aggregationMode.value) else Null)
    && Get(d, "depends_on") == (if row.dependsOn.Some? then row.dependsOn.value else Null)
    && "security_metric_value" !in d && "security-value" !in d && "surface" !in d
  }

  lemma WrittenEncodes(row: Row)
    ensures Encodes(Written(row), row)
  {
    WrittenFixed(row);
    WrittenFixedRest(row);
    WrittenProvenance(row);
    WrittenSurfaceClass(row);
    WrittenSecurityModel(row);
    WrittenAggregationMode(row);
    WrittenDependsOn(row);
    WrittenNoSecurityValue(row);
    WrittenNoSurface(row);
  }

  /** The required fields of a written row are found at the top level. */
  lemma ReingestRequired(row: Row, d: Dict)
    requires Truthy(row.scheme) && Truthy(row.benchName)
    requires "scheme" in d && d["scheme"] == row.scheme && "bench_name" in d && d["bench_name"] == row.benchName
    ensures Required(d, SchemeKeys) == row.scheme && Required(d, BenchKeys) == row.benchName
  {
    assert FirstPresent(d, SchemeKeys, Null) == row.scheme;
    assert FirstPresent(d, BenchKeys, Null) == row.benchName;
  }

  /** The gas of a written row converts back, and the absent security value reads as `0.0`. */
  lemma ReingestNumbers(row: Row, d: Dict)
    requires "gas_verify" in d && d["gas_verify"] == Int(row.gasVerify)
    requires "security_metric_value" !in d && "security-value" !in d
    ensures PyInt(FirstPresent(d, GasKeys, Int(0))) == Some(row.gasVerify)
    ensures FloatOf(FirstPresent(d, SecurityValueKeys, Float("0.0"))).Some?
    ensures !Positive(FloatOf(FirstPresent(d, SecurityValueKeys, Float("0.0"))).value)
  {
    assert FirstPresent(d, GasKeys, Int(0)) == Int(row.gasVerify);
    assert FirstPresent(d, SecurityValueKeys, Float("0.0")) == Float("0.0");
    DefaultSecurityValueParses();
  }

  /** The default security value `0.0` is a float Python accepts, and it is not positive. */
  lemma DefaultSecurityValueParses()
    ensures FloatOf(Float("0.0")) == Some(Finite(Dec(0, -1))) && !Positive(Finite(Dec(0, -1)))
  {
    ZeroPointZero();
    ZeroIsNotPositive("0.0", -1);
  }

  lemma ZeroPointZero()
    ensures ParseNumber("0.0") == Some(Dec(0, -1))
  {
    var t := "0.0";
    SignedFractionParses(false, "0", "0", t);
    var z := "0" + "0";
    assert z[..|z| - 1] == "0";
    assert DigitsValue(z) == 0;
    assert ParseNumber(t) == ApplySign(false, Some(Dec(DigitsValue(z), -1)));
  }

  lemma ReingestFixed(row: Row, d: Dict, defaults: Defaults)
    requires Canonical(row) && Encodes(d, row)
    ensures FirstPresent(d, ["ts_utc", "ts"], Str(defaults.tsUtc)) == row.tsUtc
    ensures FirstPresent(d, ["chain_profile", "chain-profile"], Str("unknown")) == row.chainProfile
    ensures FirstPresent(d, ["security_metric_type", "security-type"], Str("unknown")) == row.securityMetricType
    ensures FirstPresent(d, ["hash_profile", "hash"], Str("unknown")) == row.hashProfile
    ensures FirstPresent(d, ["notes"], Str("")) == row.notes
  {
  }

  lemma ReingestProvenance(row: Row, d: Dict, defaults: Defaults)
    requires Canonical(row) && Encodes(d, row)
    ensures var ov := ProvenanceOverride(d);
      && (if ov.repo.Some? then Str(ov.repo.value) else FirstPresent(d, ["repo"], Str(defaults.repo))) == row.repo
      && (if ov.commit.Some? then Str(ov.commit.value) else FirstPresent(d, ["commit"], Str(defaults.commit))) == row.commit
      && (ov.Any() <==> row.provenance.Some?)
      && (row.provenance.Some? ==> ov.path == row.provenance.value.path)
  {
  }

  lemma ReingestExtras(row: Row, d: Dict)
    requires Canonical(row) && Encodes(d, row)
    ensures NonEmptyText(FirstPresent(d, ["surface_class", "surface"], Null)) == row.surfaceClass
    ensures NonEmptyText(Get(d, "security_model")) == row.securityModel
    ensures NonEmptyText(Get(d, "aggregation_mode")) == row.aggregationMode
    ensures DependsOnOut(Get(d, "depends_on")) == row.dependsOn
  {
    assert FirstPresent(d, ["surface_class", "surface"], Null) == Get(d, "surface_class");
  }

  lemma ReingestFrom(row: Row, d: Dict, defaults: Defaults)
    requires Canonical(row) && Encodes(d, row)
    ensures NormalizeRow(d, defaults) == Ok(row)
  {
    ReingestRequired(row, d);
    ReingestNumbers(row, d);
    ReingestFixed(row, d, defaults);
    ReingestProvenance(row, d, defaults);
    ReingestExtras(row, d);
  }

  /** Ingesting a written row again, under any defaults, gives the same row. */
  lemma ReingestStable(row: Row, defaults: Defaults)
    requires Canonical(row)
    ensures NormalizeRow(Written(row), defaults) == Ok(row)
  {
    WrittenEncodes(row);
    ReingestFrom(row, Written(row), defaults);
  }

  /** Ingesting is idempotent: feeding a written row back in, under any defaults, reproduces it. */
  lemma IngestIdempotent(raw: Dict, defaults: Defaults, later: Defaults)
    requires NormalizeRow(raw, defaults).Ok?
    ensures NormalizeRow(Written(NormalizeRow(raw, defaults).value), later) == NormalizeRow(raw, defaults)
  {
    var row := NormalizeRow(raw, defaults).value;
    NormalizedCanonical(raw, defaults, row.gasVerify);
    ReingestStable(row, later);
  }

  /**
   * The ingest loop: every decoded record is normalised in order, and the first one rejected
   * aborts the whole batch, so that nothing is appended to the log.
   */
  method NormalizeBatch(raws: seq<Dict>, defaults: Defaults) returns (r: Result<seq<Row>, (nat, NormalizeError)>)
    ensures r.Ok? <==> forall i :: 0 <= i < |raws| ==> NormalizeRow(raws[i], defaults).Ok?
    ensures r.Ok? ==> |r.value| == |raws|
    ensures r.Ok? ==> forall i :: 0 <= i < |raws| ==> Ok(r.value[i]) == NormalizeRow(raws[i], defaults)
    ensures r.Err? ==> r.error.0 < |raws| && NormalizeRow(raws[r.error.0], defaults) == Err(r.error.1)
    ensures r.Err? ==> forall i :: 0 <= i < r.error.0 ==> NormalizeRow(raws[i], defaults).Ok?
  {
    r := AllOrFirstError(raws, raw => NormalizeRow(raw, defaults));
  }

  /**
   * The loop itself, for any per-record step `f`: the outcomes of every record, or the position
   * and error of the first record `f` rejects.
   */
  method AllOrFirstError<A, B, E>(xs: seq<A>, f: A -> Result<B, E>) returns (r: Result<seq<B>, (nat, E)>)
    ensures r.Ok? <==> forall i :: 0 <= i < |xs| ==> f(xs[i]).Ok?
    ensures r.Ok? ==> |r.value| == |xs| && forall i :: 0 <= i < |xs| ==> Ok(r.value[i]) == f(xs[i])
    ensures r.Err? ==> r.error.0 < |xs| && f(xs[r.error.0]) == Err(r.error.1)
    ensures r.Err? ==> forall i :: 0 <= i < r.error.0 ==> f(xs[i]).Ok?
  {
    var ys: seq<B> := [];
    ghost var outs := seq(|xs|, j requires 0 <= j < |xs| => f(xs[j]));
    for i := 0 to |xs|
      invariant |ys| == i && OkPrefix(outs, ys)
    {
      var n := f(xs[i]);
      if n.Err? {
        assert forall j :: 0 <= j < i ==> outs[j] == f(xs[j]);
        return Err((i, n.error));
      }
      OkPrefixStep(outs, ys, n.value);
      ys := ys + [n.value];
    }
    assert forall j :: 0 <= j < |xs| ==> outs[j] == f(xs[j]);
    return Ok(ys);
  }

  /** The values kept so far are the successful outcomes at the head of the batch. */
  ghost predicate OkPrefix<B, E>(outs: seq<Result<B, E>>, ys: seq<B>)
  {
    |ys| <= |outs| && forall j :: 0 <= j < |ys| ==> outs[j] == Ok(ys[j])
  }

  /** Keeping the next successful outcome extends the prefix. */
  lemma OkPrefixStep<B, E>(outs: seq<Result<B, E>>, ys: seq<B>, y: B)
    requires OkPrefix(outs, ys) && |ys| < |outs| && outs[|ys|] == Ok(y)
    ensures OkPrefix(outs, ys + [y])
  {
    var ys' := ys + [y];
    forall j | 0 <= j < |ys'| ensures outs[j] == Ok(ys'[j]) {
      if j < |ys| {
        assert ys'[j] == ys[j];
      }
    }
  }
}
