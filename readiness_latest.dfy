/**
 * Latest-record selection of the protocol-readiness report: one record per canonical id,
 * the one with the greatest timestamp string, the later line winning ties. Lines that are
 * blank, not JSON, or not a record are skipped.
 */
module ReadinessLatest {
  import opened Outcomes
  import opened Lex
  import opened PyValues
  import opened Jsonl
  import opened ReadinessRecord

  /** The record a line yields: blank lines, undecodable lines and rejected objects yield none. */
  function ParseLine(l: Line): Option<Record>
  {
    if l.Parsed? && FromJson(l.v).Ok? then Some(FromJson(l.v).value) else None
  }

  /** The records of all lines, position by position. */
  function ParseAll(lines: seq<Line>): (recs: seq<Option<Record>>)
    ensures |recs| == |lines|
    ensures forall j :: 0 <= j < |lines| ==> recs[j] == ParseLine(lines[j])
  {
    seq(|lines|, j requires 0 <= j < |lines| => ParseLine(lines[j]))
  }

  /** Line `j` yields a record with id `rid`. */
  predicate HasRid(recs: seq<Option<Record>>, j: nat, rid: string)
  {
    j < |recs| && recs[j].Some? && recs[j].value.rid == rid
  }

  /** Some line among the first `n` yields a record with id `rid`. */
  ghost predicate Seen(recs: seq<Option<Record>>, n: nat, rid: string)
  {
    exists j: nat :: j < n && HasRid(recs, j, rid)
  }

  /**
   * Among the first `n` lines, line `k` holds the latest record for `rid`: no record for `rid`
   * has a greater timestamp, and every later one has a smaller timestamp.
   */
  ghost predicate IsLatest(recs: seq<Option<Record>>, n: nat, rid: string, k: nat)
  {
    k < n && HasRid(recs, k, rid) &&
    forall j: nat :: j < n && HasRid(recs, j, rid) ==>
      LessEq(recs[j].value.ts, recs[k].value.ts) &&
      (j > k ==> Less(recs[j].value.ts, recs[k].value.ts))
  }

  /** The ids of the first `n` lines in order of first appearance (the result dict's key order). */
  function FirstSeen(recs: seq<Option<Record>>, n: nat): seq<string>
    requires n <= |recs|
  {
    if n == 0 then []
    else
      var prefix := FirstSeen(recs, n - 1);
      var p := recs[n - 1];
      if p.Some? && p.value.rid !in prefix then prefix + [p.value.rid] else prefix
  }

  /** What the source keeps per id while scanning: timestamp, line index and record. */
  datatype Entry = Entry(ts: string, index: nat, rec: Record)

  /** The replacement test of the scan, as written with its three branches. */
  predicate Replaces(ts: string, i: nat, prevTs: string, prevI: nat)
  {
    (ts != "" && prevTs != "" && Less(prevTs, ts))
    || (ts != "" && prevTs == "")
    || (ts == prevTs && i > prevI)
    || (ts == "" && prevTs == "" && i > prevI)
  }

  /**
   * The three branches amount to one comparison: a later record replaces the kept one
   * exactly when its timestamp is not smaller. In particular an empty timestamp never
   * displaces a non-empty one, and equal timestamps go to the later line.
   */
  lemma ReplacesIffNotOlder(ts: string, i: nat, prevTs: string, prevI: nat)
    requires i > prevI
    ensures Replaces(ts, i, prevTs, prevI) <==> LessEq(prevTs, ts)
    ensures ts == "" && prevTs != "" ==> !Replaces(ts, i, prevTs, prevI)
  {
    EmptyLeast(ts);
    EmptyLeast(prevTs);
    if ts == "" && prevTs != "" {
      LessAsymmetric("", prevTs);
    }
  }

  /** The scan's state after `i` lines: exactly the ids seen, each with its latest line. */
  ghost predicate ScanState(recs: seq<Option<Record>>, i: nat, latest: map<string, Entry>)
  {
    (forall rid :: rid in latest <==> Seen(recs, i, rid)) &&
    forall rid :: rid in latest ==>
      IsLatest(recs, i, rid, latest[rid].index) &&
      latest[rid].rec == recs[latest[rid].index].value &&
      latest[rid].ts == latest[rid].rec.ts
  }

  /**
   * `load_latest_records` over already-read lines: the result maps every id that occurs to
   * its latest record, and `order` lists the ids in the order the result dict holds them.
   * Each line is parsed on its own, so parsing them all first changes nothing.
   */
  method LoadLatest(lines: seq<Line>) returns (records: map<string, Record>, order: seq<string>)
    ensures forall rid :: rid in records <==> Seen(ParseAll(lines), |lines|, rid)
    ensures forall rid :: rid in records ==>
      exists k: nat :: IsLatest(ParseAll(lines), |lines|, rid, k) && records[rid] == ParseAll(lines)[k].value
    ensures order == FirstSeen(ParseAll(lines), |lines|)
  {
    records, order := SelectLatest(ParseAll(lines));
  }

  /** The selection loop of `load_latest_records`, over the records the lines yield. */
  method SelectLatest(recs: seq<Option<Record>>) returns (records: map<string, Record>, order: seq<string>)
    ensures forall rid :: rid in records <==> Seen(recs, |recs|, rid)
    ensures forall rid :: rid in records ==>
      exists k: nat :: IsLatest(recs, |recs|, rid, k) && records[rid] == recs[k].value
    ensures order == FirstSeen(recs, |recs|)
  {
    var latest: map<string, Entry> := map[];
    order := [];
    var i := 0;
    while i < |recs|
      invariant 0 <= i <= |recs|
      invariant ScanState(recs, i, latest)
      invariant order == FirstSeen(recs, i)
    {
      latest, order := ScanStep(recs, i, latest, order);
      i := i + 1;
    }
    records := map rid | rid in latest :: latest[rid].rec;
  }

  /** One pass of the loop body: line `i`'s record is kept as new, replaces, is passed over, or is absent. */
  method ScanStep(recs: seq<Option<Record>>, i: nat, latest: map<string, Entry>, order: seq<string>)
    returns (latest': map<string, Entry>, order': seq<string>)
    requires i < |recs| && ScanState(recs, i, latest) && order == FirstSeen(recs, i)
    ensures ScanState(recs, i + 1, latest') && order' == FirstSeen(recs, i + 1)
  {
    latest', order' := latest, order;
    FirstSeenIds(recs, i);
    FirstSeenStep(recs, i);
    if recs[i].Some? {
      var r := recs[i].value;
      var ts := r.ts;
      if r.rid !in latest {
        StepNew(recs, i, latest);
        latest' := latest[r.rid := Entry(ts, i, r)];
        order' := order + [r.rid];
      } else {
        var prev := latest[r.rid];
        ReplacesIffNotOlder(ts, i, prev.ts, prev.index);
        if Replaces(ts, i, prev.ts, prev.index) {
          StepReplace(recs, i, latest);
          latest' := latest[r.rid := Entry(ts, i, r)];
        } else {
          StepKeep(recs, i, latest);
        }
      }
    } else {
      StepSkip(recs, i, latest);
    }
  }

  /** One more line extends the set of seen ids by that line's id, if any. */
  lemma SeenStep(recs: seq<Option<Record>>, i: nat, rid: string)
    ensures Seen(recs, i + 1, rid) <==> Seen(recs, i, rid) || HasRid(recs, i, rid)
  {
    if Seen(recs, i + 1, rid) && !HasRid(recs, i, rid) {
      var j: nat :| j < i + 1 && HasRid(recs, j, rid);
      assert j < i;
    }
    if Seen(recs, i, rid) {
      var j: nat :| j < i && HasRid(recs, j, rid);
      assert j < i + 1;
    }
    if HasRid(recs, i, rid) {
      assert i < i + 1;
    }
  }

  /** A line that yields no record changes nothing. */
  lemma StepSkip(recs: seq<Option<Record>>, i: nat, latest: map<string, Entry>)
    requires i < |recs| && recs[i].None?
    requires ScanState(recs, i, latest)
    ensures ScanState(recs, i + 1, latest)
  {
    forall rid {
      SeenStep(recs, i, rid);
    }
    forall rid | rid in latest ensures IsLatest(recs, i + 1, rid, latest[rid].index) {
      KeepsLatest(recs, i, rid, latest[rid].index);
    }
  }

  /** `k` stays the latest for `rid` when line `i` is about another id or has a smaller timestamp. */
  lemma KeepsLatest(recs: seq<Option<Record>>, i: nat, rid: string, k: nat)
    requires IsLatest(recs, i, rid, k)
    requires HasRid(recs, i, rid) ==> Less(recs[i].value.ts, recs[k].value.ts)
    ensures IsLatest(recs, i + 1, rid, k)
  {
    forall j: nat | j < i + 1 && HasRid(recs, j, rid)
      ensures LessEq(recs[j].value.ts, recs[k].value.ts)
      ensures j > k ==> Less(recs[j].value.ts, recs[k].value.ts)
    {
      if j < i {
        assert j < i && HasRid(recs, j, rid);
      }
    }
  }

  /** Every id other than line `i`'s keeps its selection. */
  lemma OthersKept(recs: seq<Option<Record>>, i: nat, latest: map<string, Entry>, latest': map<string, Entry>)
    requires i < |recs| && recs[i].Some?
    requires ScanState(recs, i, latest)
    requires recs[i].value.rid in latest'
    requires forall rid :: rid != recs[i].value.rid ==> (rid in latest' <==> rid in latest)
    requires forall rid :: rid in latest' && rid != recs[i].value.rid ==> latest'[rid] == latest[rid]
    requires IsLatest(recs, i + 1, recs[i].value.rid, latest'[recs[i].value.rid].index)
    requires latest'[recs[i].value.rid].rec == recs[latest'[recs[i].value.rid].index].value
    requires latest'[recs[i].value.rid].ts == latest'[recs[i].value.rid].rec.ts
    ensures ScanState(recs, i + 1, latest')
  {
    var r := recs[i].value.rid;
    forall rid {
      SeenStep(recs, i, rid);
    }
    assert HasRid(recs, i, r);
    forall rid | rid in latest' && rid != r ensures IsLatest(recs, i + 1, rid, latest'[rid].index) {
      KeepsLatest(recs, i, rid, latest[rid].index);
    }
  }

  /** The first record for an id is its latest so far. */
  lemma StepNew(recs: seq<Option<Record>>, i: nat, latest: map<string, Entry>)
    requires i < |recs| && recs[i].Some? && recs[i].value.rid !in latest
    requires ScanState(recs, i, latest)
    ensures ScanState(recs, i + 1, latest[recs[i].value.rid := Entry(recs[i].value.ts, i, recs[i].value)])
  {
    var rid := recs[i].value.rid;
    assert !Seen(recs, i, rid);
    LessEqReflexive(recs[i].value.ts);
    assert IsLatest(recs, i + 1, rid, i);
    OthersKept(recs, i, latest, latest[rid := Entry(recs[i].value.ts, i, recs[i].value)]);
  }

  lemma LessEqReflexive(a: string)
    ensures LessEq(a, a)
  {
  }

  /** A later record with a timestamp that is not smaller takes over. */
  lemma StepReplace(recs: seq<Option<Record>>, i: nat, latest: map<string, Entry>)
    requires i < |recs| && recs[i].Some? && recs[i].value.rid in latest
    requires ScanState(recs, i, latest)
    requires LessEq(latest[recs[i].value.rid].ts, recs[i].value.ts)
    ensures ScanState(recs, i + 1, latest[recs[i].value.rid := Entry(recs[i].value.ts, i, recs[i].value)])
  {
    var rid := recs[i].value.rid;
    var k := latest[rid].index;
    var ti := recs[i].value.ts;
    forall j: nat | j < i + 1 && HasRid(recs, j, rid)
      ensures LessEq(recs[j].value.ts, ti)
    {
      if j < i {
        assert j < i && HasRid(recs, j, rid);
        LessEqTransitive(recs[j].value.ts, recs[k].value.ts, ti);
      }
    }
    assert IsLatest(recs, i + 1, rid, i);
    OthersKept(recs, i, latest, latest[rid := Entry(ti, i, recs[i].value)]);
  }

  /** A later record with a smaller timestamp is ignored. */
  lemma StepKeep(recs: seq<Option<Record>>, i: nat, latest: map<string, Entry>)
    requires i < |recs| && recs[i].Some? && recs[i].value.rid in latest
    requires ScanState(recs, i, latest)
    requires !LessEq(latest[recs[i].value.rid].ts, recs[i].value.ts)
    ensures ScanState(recs, i + 1, latest)
  {
    var rid := recs[i].value.rid;
    NotLessEq(latest[rid].ts, recs[i].value.ts);
    KeepsLatest(recs, i, rid, latest[rid].index);
    OthersKept(recs, i, latest, latest);
  }

  lemma FirstSeenStep(recs: seq<Option<Record>>, i: nat)
    requires i < |recs|
    ensures recs[i].Some? && recs[i].value.rid !in FirstSeen(recs, i) ==>
      FirstSeen(recs, i + 1) == FirstSeen(recs, i) + [recs[i].value.rid]
    ensures recs[i].None? || recs[i].value.rid in FirstSeen(recs, i) ==>
      FirstSeen(recs, i + 1) == FirstSeen(recs, i)
  {
  }

  /** The ids listed by `FirstSeen` are exactly the ids seen so far. */
  lemma {:induction false} FirstSeenIds(recs: seq<Option<Record>>, n: nat)
    requires n <= |recs|
    ensures forall rid :: rid in FirstSeen(recs, n) <==> Seen(recs, n, rid)
  {
    if n > 0 {
      FirstSeenIds(recs, n - 1);
      forall rid ensures rid in FirstSeen(recs, n) <==> Seen(recs, n, rid) {
        SeenStep(recs, n - 1, rid);
      }
    }
  }

  /** `FirstSeen` never lists an id twice. */
  lemma {:induction false} FirstSeenDistinct(recs: seq<Option<Record>>, n: nat)
    requires n <= |recs|
    ensures forall a, b :: 0 <= a < b < |FirstSeen(recs, n)| ==> FirstSeen(recs, n)[a] != FirstSeen(recs, n)[b]
  {
    if n > 0 {
      FirstSeenDistinct(recs, n - 1);
      var prefix := FirstSeen(recs, n - 1);
      var s := FirstSeen(recs, n);
      forall a, b | 0 <= a < b < |s| ensures s[a] != s[b] {
        if b == |prefix| {
          assert s[a] == prefix[a];
          assert s[b] !in prefix;
        } else {
          assert s[a] == prefix[a] && s[b] == prefix[b];
        }
      }
    }
  }

  /** At most one line is the latest for an id: the selection is well defined. */
  lemma LatestUnique(recs: seq<Option<Record>>, n: nat, rid: string, k1: nat, k2: nat)
    requires IsLatest(recs, n, rid, k1) && IsLatest(recs, n, rid, k2)
    ensures k1 == k2
  {
    if k1 < k2 {
      assert k2 < n && HasRid(recs, k2, rid);
      LessAsymmetric(recs[k2].value.ts, recs[k1].value.ts);
    } else if k2 < k1 {
      assert k1 < n && HasRid(recs, k1, rid);
      LessAsymmetric(recs[k1].value.ts, recs[k2].value.ts);
    }
  }
}
