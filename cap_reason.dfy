/**
 * Explaining a cap in the protocol-readiness report: which dependency lowered a record's
 * effective bits, and the human-facing hint shown for it.
 */
module CapReason {
  import opened Outcomes
  import opened Text
  import opened ReadinessRecord
  import opened WeakestLink

  /** The marker returned when no single present dependency accounts for the cap. */
  const GenericCap := "depends_on"

  /** The position of the first dependency present in `records` whose value is `e`. */
  function FirstCapping(records: map<string, Record>, eff: map<string, int>, deps: seq<string>, e: int): (r: Option<nat>)
    ensures r.Some? ==> r.value < |deps| && deps[r.value] in records && Lookup(eff, deps[r.value]) == e
    ensures r.Some? ==> forall j :: 0 <= j < r.value ==> !(deps[j] in records && Lookup(eff, deps[j]) == e)
    ensures r.None? ==> forall j :: 0 <= j < |deps| ==> !(deps[j] in records && Lookup(eff, deps[j]) == e)
  {
    if |deps| == 0 then None
    else if deps[0] in records && Lookup(eff, deps[0]) == e then Some(0)
    else
      match FirstCapping(records, eff, deps[1..], e)
      case None => None
      case Some(k) => Some(k + 1)
  }

  /** The bits `find_cap_reason` compares against: the explicit or notes-derived cap, else the security-equivalent bits. */
  function DeclaredBits(r: Record): Option<int>
  {
    if r.effectiveSecurityBits.Some? then r.effectiveSecurityBits else r.securityEquivBits
  }

  /**
   * `find_cap_reason`: nothing when the record declares no bits or is not capped below them;
   * otherwise the first present dependency whose value equals the record's, else the generic
   * marker.
   */
  function FindCapReason(r: Record, eff: map<string, int>, records: map<string, Record>): (reason: Option<string>)
    ensures reason.None? <==> DeclaredBits(r).None? || Lookup(eff, r.rid) >= DeclaredBits(r).value
    ensures reason.Some? && reason.value != GenericCap ==>
      (exists k :: 0 <= k < |r.dependsOn| && r.dependsOn[k] == reason.value &&
         reason.value in records && Lookup(eff, reason.value) == Lookup(eff, r.rid) &&
         forall j :: 0 <= j < k ==> !(r.dependsOn[j] in records && Lookup(eff, r.dependsOn[j]) == Lookup(eff, r.rid)))
    ensures reason == Some(GenericCap) && (forall k :: 0 <= k < |r.dependsOn| ==> r.dependsOn[k] != GenericCap) ==>
      (forall k :: 0 <= k < |r.dependsOn| ==> !(r.dependsOn[k] in records && Lookup(eff, r.dependsOn[k]) == Lookup(eff, r.rid)))
  {
    var own := DeclaredBits(r);
    if own.None? then None
    else
      var e := Lookup(eff, r.rid);
      if e >= own.value then None
      else
        match FirstCapping(records, eff, r.dependsOn, e)
        case Some(k) => Some(r.dependsOn[k])
        case None => Some(GenericCap)
  }

  /**
   * Without cycles, a capped record is always explained by one of its own dependencies: the
   * reason is a present dependency carrying exactly the record's effective bits.
   */
  lemma AcyclicCapNamesDependency(records: map<string, Record>, rank: map<string, nat>, eff: map<string, int>, rid: string)
    requires Ranked(records, rank) && Satisfies(records, eff)
    requires rid in records && records[rid].rid == rid
    requires FindCapReason(records[rid], eff, records).Some?
    ensures exists k :: (0 <= k < |records[rid].dependsOn| &&
      records[rid].dependsOn[k] == FindCapReason(records[rid], eff, records).value &&
      records[rid].dependsOn[k] in records && eff[records[rid].dependsOn[k]] == eff[rid])
  {
    var r := records[rid];
    var deps := r.dependsOn;
    MinOverBounds(records, eff, deps, Own(r));
    assert DeclaredBits(r).value == Own(r);
    var k :| 0 <= k < |deps| && deps[k] in records && eff[rid] == Lookup(eff, deps[k]);
    assert FirstCapping(records, eff, deps, eff[rid]).Some?;
  }

  /**
   * With cycles allowed, the generic marker only appears for a record whose effective bits
   * the cycle cut to 0.
   */
  lemma GenericCapMeansCycleCut(records: map<string, Record>, eff: map<string, int>, rid: string)
    requires rid in records && rid in eff && records[rid].rid == rid
    requires Bounded(records, eff, rid)
    requires FirstCapping(records, eff, records[rid].dependsOn, eff[rid]).None?
    requires FindCapReason(records[rid], eff, records).Some?
    ensures FindCapReason(records[rid], eff, records) == Some(GenericCap)
    ensures eff[rid] == 0
  {
    var r := records[rid];
    assert DeclaredBits(r).value == Own(r);
    var deps := r.dependsOn;
    forall k | 0 <= k < |deps| && deps[k] in records && deps[k] in eff
      ensures eff[rid] != eff[deps[k]]
    {
      assert !(deps[k] in records && Lookup(eff, deps[k]) == eff[rid]);
    }
  }

  /** The hints, keyed by dependency prefix, in the order they are tried. */
  const BlockerHints: seq<(string, string)> := [
    ("ecdsa::l1_envelope_assumption",
     "Capped by L1 ECDSA envelope assumption (PQ not enshrined end-to-end)."),
    ("randao::l1_randao_mix_surface",
     "Measured gas; H_min denominator is a placeholder until threat model is fixed."),
    ("attestation::relay_attestation_surface",
     "Measured gas; H_min denominator is a placeholder until threat model is fixed.")
  ]

  /** The text of the first hint whose prefix `dep` starts with. */
  function FirstHint(hints: seq<(string, string)>, dep: string): (r: Option<string>)
    ensures r.Some? ==> exists i :: (0 <= i < |hints| && StartsWith(dep, hints[i].0) && r.value == hints[i].1 &&
      forall j :: 0 <= j < i ==> !StartsWith(dep, hints[j].0))
    ensures r.None? <==> forall i :: 0 <= i < |hints| ==> !StartsWith(dep, hints[i].0)
  {
    if |hints| == 0 then None
    else if StartsWith(dep, hints[0].0) then Some(hints[0].1)
    else
      var rest := FirstHint(hints[1..], dep);
      assert forall i :: 1 <= i < |hints| ==> hints[i] == hints[1..][i - 1];
      if rest.Some? then
        assert exists i :: (1 <= i < |hints| && StartsWith(dep, hints[i].0) && rest.value == hints[i].1 &&
          forall j :: 0 <= j < i ==> !StartsWith(dep, hints[j].0)) by {
          var i :| 0 <= i < |hints[1..]| && StartsWith(dep, hints[1..][i].0) && rest.value == hints[1..][i].1 &&
            forall j :: 0 <= j < i ==> !StartsWith(dep, hints[1..][j].0);
          assert forall j :: 1 <= j < i + 1 ==> hints[j] == hints[1..][j - 1];
        }
        rest
      else rest
  }

  /**
   * `blocker_text`: empty for no dependency, the matching hint for a known upstream cap,
   * else a sentence naming the dependency.
   */
  function BlockerText(dep: Option<string>): (t: string)
    ensures t == "" <==> dep.None? || dep.value == ""
    ensures dep.Some? && dep.value != "" && FirstHint(BlockerHints, dep.value).None? ==>
      t == "Capped by dependency: " + dep.value
    ensures dep.Some? && dep.value != "" && FirstHint(BlockerHints, dep.value).Some? ==>
      t == FirstHint(BlockerHints, dep.value).value
  {
    if dep.None? || dep.value == "" then ""
    else
      match FirstHint(BlockerHints, dep.value)
      case Some(txt) =>
        HintTextsNonEmpty(dep.value);
        txt
      case None => "Capped by dependency: " + dep.value
  }

  lemma HintTextsNonEmpty(dep: string)
    ensures FirstHint(BlockerHints, dep).Some? ==> FirstHint(BlockerHints, dep).value != ""
  {
  }

  /**
   * No hint prefix is a prefix of another, so a dependency matches at most one hint and the
   * order of the hint list does not matter.
   */
  lemma HintsMatchAtMostOnce(dep: string, i: nat, j: nat)
    requires i < j < |BlockerHints|
    requires StartsWith(dep, BlockerHints[i].0)
    ensures !StartsWith(dep, BlockerHints[j].0)
  {
    assert BlockerHints[i].0[0] != BlockerHints[j].0[0];
    assert dep[0] == BlockerHints[i].0[0];
  }

  /** A dependency under a known upstream prefix gets that prefix's hint. */
  lemma EnvelopeHint(rest: string)
    ensures BlockerText(Some("ecdsa::l1_envelope_assumption" + rest)) ==
      "Capped by L1 ECDSA envelope assumption (PQ not enshrined end-to-end)."
  {
    var dep := "ecdsa::l1_envelope_assumption" + rest;
    assert StartsWith(dep, BlockerHints[0].0) by {
      assert dep[..|BlockerHints[0].0|] == BlockerHints[0].0;
    }
  }
}
