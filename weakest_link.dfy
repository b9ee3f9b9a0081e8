/**
 * The weakest-link computation of the protocol-readiness report: a record's effective
 * security is its own bits lowered by the effective security of every dependency present in
 * the data set. Absent dependencies never lower anything, and a dependency cycle is cut
 * by reading a record that is still being visited as 0 bits.
 */
module WeakestLink {
  import opened Outcomes
  import opened ReadinessRecord

  /** `own_bits`: the explicit (or notes-derived) cap, else the security-equivalent bits, else 0. */
  function Own(r: Record): (o: int)
    ensures r.effectiveSecurityBits.Some? ==> o == r.effectiveSecurityBits.value
    ensures r.effectiveSecurityBits.None? && r.securityEquivBits.Some? ==> o == r.securityEquivBits.value
    ensures r.effectiveSecurityBits.None? && r.securityEquivBits.None? ==> o == 0
  {
    if r.effectiveSecurityBits.Some? then r.effectiveSecurityBits.value
    else if r.securityEquivBits.Some? then r.securityEquivBits.value
    else 0
  }

  /** Python's `min(a, b)` on ints. */
  function Min(a: int, b: int): int
  {
    if b < a then b else a
  }

  /** `eff.get(k, 0)`. */
  function Lookup(eff: map<string, int>, k: string): int
  {
    if k in eff then eff[k] else 0
  }

  /** `min(own, eff[d1], eff[d2], ...)` over the dependencies present in `records`, in list order. */
  function MinOver(records: map<string, Record>, eff: map<string, int>, deps: seq<string>, own: int): int
  {
    if |deps| == 0 then own
    else
      var c := MinOver(records, eff, deps[..|deps| - 1], own);
      if deps[|deps| - 1] in records then Min(c, Lookup(eff, deps[|deps| - 1])) else c
  }

  /**
   * The weakest-link equation: every record has a value, and that value is its own bits
   * lowered by the values of its dependencies that are present.
   */
  predicate Satisfies(records: map<string, Record>, eff: map<string, int>)
  {
    eff.Keys == records.Keys &&
    forall x :: x in records ==> eff[x] == MinOver(records, eff, records[x].dependsOn, Own(records[x]))
  }

  /** `rank` orders the dependency graph: every present dependency ranks strictly below its dependant. */
  ghost predicate Ranked(records: map<string, Record>, rank: map<string, nat>)
  {
    forall x :: x in records ==>
      x in rank && forall d :: d in records[x].dependsOn && d in records ==> d in rank && rank[d] < rank[x]
  }

  /** No dependency cycle among the present records (self-dependencies included). */
  ghost predicate Acyclic(records: map<string, Record>)
  {
    exists rank :: Ranked(records, rank)
  }

  /** The minimum is at most the own bits and every present dependency's value, and is one of them. */
  lemma {:induction false} MinOverBounds(records: map<string, Record>, eff: map<string, int>, deps: seq<string>, own: int)
    ensures MinOver(records, eff, deps, own) <= own
    ensures forall k :: 0 <= k < |deps| && deps[k] in records ==> MinOver(records, eff, deps, own) <= Lookup(eff, deps[k])
    ensures MinOver(records, eff, deps, own) == own ||
      exists k :: 0 <= k < |deps| && deps[k] in records && MinOver(records, eff, deps, own) == Lookup(eff, deps[k])
  {
    if |deps| > 0 {
      var n := |deps| - 1;
      MinOverBounds(records, eff, deps[..n], own);
      assert forall k :: 0 <= k < n ==> deps[..n][k] == deps[k];
      var c := MinOver(records, eff, deps[..n], own);
      if MinOver(records, eff, deps, own) == c && c != own {
        var k :| 0 <= k < n && deps[..n][k] in records && c == Lookup(eff, deps[..n][k]);
        assert deps[k] in records && c == Lookup(eff, deps[k]);
      }
    }
  }

  /** The minimum reads the values of the present dependencies only. */
  lemma {:induction false} MinOverFrame(records: map<string, Record>, e1: map<string, int>, e2: map<string, int>, deps: seq<string>, own: int)
    requires forall k :: 0 <= k < |deps| && deps[k] in records ==> Lookup(e1, deps[k]) == Lookup(e2, deps[k])
    ensures MinOver(records, e1, deps, own) == MinOver(records, e2, deps, own)
  {
    if |deps| > 0 {
      var n := |deps| - 1;
      assert forall k :: 0 <= k < n ==> deps[..n][k] == deps[k];
      MinOverFrame(records, e1, e2, deps[..n], own);
    }
  }

  /** Dependencies absent from the data set never lower a record's value. */
  lemma {:induction false} MissingDependenciesIgnored(records: map<string, Record>, eff: map<string, int>, deps: seq<string>, own: int)
    requires forall k :: 0 <= k < |deps| ==> deps[k] !in records
    ensures MinOver(records, eff, deps, own) == own
  {
    if |deps| > 0 {
      var n := |deps| - 1;
      assert forall k :: 0 <= k < n ==> deps[..n][k] == deps[k];
      MissingDependenciesIgnored(records, eff, deps[..n], own);
    }
  }

  /** Without cycles the weakest-link equation has at most one solution. */
  lemma SatisfiesUnique(records: map<string, Record>, rank: map<string, nat>, e1: map<string, int>, e2: map<string, int>)
    requires Ranked(records, rank) && Satisfies(records, e1) && Satisfies(records, e2)
    ensures e1 == e2
  {
    forall x | x in records ensures e1[x] == e2[x] {
      AgreeBelow(records, rank, e1, e2, rank[x] + 1);
    }
  }

  lemma {:induction false} AgreeBelow(records: map<string, Record>, rank: map<string, nat>, e1: map<string, int>, e2: map<string, int>, n: nat)
    requires Ranked(records, rank) && Satisfies(records, e1) && Satisfies(records, e2)
    ensures forall x :: x in records && rank[x] < n ==> e1[x] == e2[x]
  {
    if n > 0 {
      AgreeBelow(records, rank, e1, e2, n - 1);
      forall x | x in records && rank[x] == n - 1 ensures e1[x] == e2[x] {
        var deps := records[x].dependsOn;
        forall k | 0 <= k < |deps| && deps[k] in records ensures Lookup(e1, deps[k]) == Lookup(e2, deps[k]) {
          assert deps[k] in records[x].dependsOn;
        }
        MinOverFrame(records, e1, e2, deps, Own(records[x]));
      }
    }
  }

  /**
   * What the scan guarantees for a finished record `x`, cycles included: its value is at most
   * its own bits, at most each present dependency's value unless it is already at or below 0,
   * at or below 0 when it depends on itself, and it is its own bits unless some present
   * dependency accounts for it, by its value or by a cycle cut to 0.
   */
  ghost predicate Bounded(records: map<string, Record>, eff: map<string, int>, x: string)
    requires x in records && x in eff
  {
    var deps := records[x].dependsOn;
    eff[x] <= Own(records[x]) &&
    (forall k :: 0 <= k < |deps| && deps[k] in records ==> deps[k] in eff && (eff[x] <= eff[deps[k]] || eff[x] <= 0)) &&
    (forall k :: 0 <= k < |deps| && deps[k] == x ==> eff[x] <= 0) &&
    (eff[x] == Own(records[x]) ||
     exists k :: 0 <= k < |deps| && deps[k] in records && deps[k] in eff && (eff[x] == eff[deps[k]] || eff[x] == 0))
  }

  /**
   * The memo while the scan runs: a record still being visited reads 0, as does an id that
   * is no record, and every finished record is `Bounded`.
   */
  ghost predicate Sound(records: map<string, Record>, memo: map<string, int>, visiting: set<string>)
  {
    (forall x :: x in memo && (x in visiting || x !in records) ==> memo[x] == 0) &&
    (forall x :: x in memo && x !in visiting && x in records ==> Bounded(records, memo, x))
  }

  /** Without cycles: only finished records are in the memo, each satisfying the equation. */
  ghost predicate AcyclicMemo(records: map<string, Record>, memo: map<string, int>, visiting: set<string>)
  {
    forall x :: x in memo ==>
      x in records && x !in visiting && memo[x] == MinOver(records, memo, records[x].dependsOn, Own(records[x]))
  }

  /** The ids of `order` before `i` stay in an extended memo, which now holds `order[i]` too. */
  lemma KeysKept(m: map<string, int>, m': map<string, int>, order: seq<string>, i: nat)
    requires i < |order| && Extends(m, m') && order[i] in m'
    requires forall j :: 0 <= j < i ==> order[j] in m
    ensures forall j :: 0 <= j < i + 1 ==> order[j] in m'
  {
  }

  /** `m'` keeps every entry of `m`. */
  ghost predicate Extends(m: map<string, int>, m': map<string, int>)
  {
    forall x :: x in m ==> x in m' && m'[x] == m[x]
  }

  /** A call of the scan ranks strictly below every record it is nested in. */
  ghost predicate RankedCall(records: map<string, Record>, rank: map<string, nat>, memo: map<string, int>, visiting: set<string>, rid: string)
    requires Ranked(records, rank)
  {
    AcyclicMemo(records, memo, visiting) && rid in records &&
    forall u :: u in visiting ==> u in records && rank[rid] < rank[u]
  }

  /**
   * `dfs(rid)`: memoised depth-first evaluation. `visiting` is passed by value because the
   * source removes `rid` again before returning. The returned value is what the memo holds
   * for `rid` afterwards; it is 0 when `rid` was being visited (a cycle), and without cycles
   * every memo entry satisfies the weakest-link equation.
   */
  method Dfs(records: map<string, Record>, rid: string, memo: map<string, int>, visiting: set<string>, ghost rank: map<string, nat>)
    returns (v: int, memo': map<string, int>)
    requires Sound(records, memo, visiting)
    requires Ranked(records, rank) ==> RankedCall(records, rank, memo, visiting, rid)
    ensures Sound(records, memo', visiting)
    ensures Extends(memo, memo') && rid in memo' && v == memo'[rid]
    ensures memo'.Keys <= memo.Keys + records.Keys + {rid}
    ensures rid in visiting ==> v == 0
    ensures Ranked(records, rank) ==> AcyclicMemo(records, memo', visiting)
    decreases records.Keys - visiting, 2
  {
    if rid in memo {
      return memo[rid], memo;
    }
    if rid in visiting {
      return 0, memo[rid := 0];
    }
    if rid !in records {
      return 0, memo[rid := 0];
    }
    var cap, m := CapByDependencies(records, rid, memo, visiting, rank);
    Finish(records, m, visiting, rid, cap);
    if Ranked(records, rank) {
      AcyclicFinish(records, rank, m, visiting, rid, cap);
    }
    memo' := m[rid := cap];
    v := cap;
  }

  /**
   * The running state of `cap` after the first `n` dependencies of `rid`: at most the own
   * bits, at most each present dependency's memo value unless already at or below 0, at or
   * below 0 once `rid` itself was met, and equal to the own bits unless a present dependency
   * met so far accounts for it.
   */
  ghost predicate CapState(records: map<string, Record>, rid: string, m: map<string, int>, cap: int, n: nat)
    requires rid in records && n <= |records[rid].dependsOn|
  {
    var deps := records[rid].dependsOn;
    cap <= Own(records[rid]) &&
    (forall j :: 0 <= j < n && deps[j] in records ==> deps[j] in m && (cap <= m[deps[j]] || cap <= 0)) &&
    (forall j :: 0 <= j < n && deps[j] == rid ==> cap <= 0) &&
    (cap == Own(records[rid]) ||
     exists j :: 0 <= j < n && deps[j] in records && deps[j] in m && (cap == m[deps[j]] || cap == 0))
  }

  /**
   * The `for dep in r.depends_on` loop of `dfs`: `cap` starts at the own bits and is lowered
   * by the scan of every present dependency, with `rid` marked as being visited.
   */
  method CapByDependencies(records: map<string, Record>, rid: string, memo: map<string, int>, visiting: set<string>, ghost rank: map<string, nat>)
    returns (cap: int, m: map<string, int>)
    requires rid in records && rid !in visiting && rid !in memo
    requires Sound(records, memo, visiting + {rid})
    requires Ranked(records, rank) ==> RankedCall(records, rank, memo, visiting, rid)
    ensures Sound(records, m, visiting + {rid})
    ensures Extends(memo, m)
    ensures m.Keys <= memo.Keys + records.Keys + {rid}
    ensures CapState(records, rid, m, cap, |records[rid].dependsOn|)
    ensures Ranked(records, rank) ==>
      AcyclicMemo(records, m, visiting + {rid}) && cap == MinOver(records, m, records[rid].dependsOn, Own(records[rid]))
    decreases records.Keys - visiting, 1
  {
    var deps := records[rid].dependsOn;
    cap := Own(records[rid]);
    m := memo;
    var k := 0;
    while k < |deps|
      invariant 0 <= k <= |deps|
      invariant Sound(records, m, visiting + {rid})
      invariant Extends(memo, m)
      invariant m.Keys <= memo.Keys + records.Keys + {rid}
      invariant CapState(records, rid, m, cap, k)
      invariant Ranked(records, rank) ==>
        AcyclicMemo(records, m, visiting + {rid}) && cap == MinOver(records, m, deps[..k], Own(records[rid]))
    {
      ghost var m0 := m;
      cap, m := VisitDependency(records, rid, visiting, rank, m, cap, k);
      ExtendsTransitive(memo, m0, m);
      k := k + 1;
    }
    assert deps[..k] == deps;
  }

  lemma ExtendsTransitive(a: map<string, int>, b: map<string, int>, c: map<string, int>)
    requires Extends(a, b) && Extends(b, c)
    ensures Extends(a, c)
  {
  }

  /** One turn of the loop: `cap = min(cap, dfs(dep))` for a present dependency, nothing for an absent one. */
  method VisitDependency(records: map<string, Record>, rid: string, visiting: set<string>, ghost rank: map<string, nat>,
                         m: map<string, int>, cap: int, k: nat)
    returns (cap': int, m': map<string, int>)
    requires rid in records && rid !in visiting && k < |records[rid].dependsOn|
    requires Sound(records, m, visiting + {rid})
    requires CapState(records, rid, m, cap, k)
    requires Ranked(records, rank) ==>
      (forall u :: u in visiting ==> u in records && rank[rid] < rank[u]) &&
      AcyclicMemo(records, m, visiting + {rid}) &&
      cap == MinOver(records, m, records[rid].dependsOn[..k], Own(records[rid]))
    ensures Sound(records, m', visiting + {rid})
    ensures Extends(m, m')
    ensures m'.Keys <= m.Keys + records.Keys
    ensures CapState(records, rid, m', cap', k + 1)
    ensures Ranked(records, rank) ==>
      AcyclicMemo(records, m', visiting + {rid}) &&
      cap' == MinOver(records, m', records[rid].dependsOn[..k + 1], Own(records[rid]))
    decreases records.Keys - visiting, 0
  {
    var deps := records[rid].dependsOn;
    var dep := deps[k];
    if dep in records {
      if Ranked(records, rank) {
        assert dep in records[rid].dependsOn;
      }
      var d;
      d, m' := Dfs(records, dep, m, visiting + {rid}, rank);
      cap' := Min(cap, d);
      CapStep(records, rid, m, m', cap, k, d);
      if Ranked(records, rank) {
        DfsStep(records, m, m', deps, k, Own(records[rid]), cap);
      }
    } else {
      cap', m' := cap, m;
      CapSkip(records, rid, m, cap, k);
      if Ranked(records, rank) {
        assert deps[..k + 1][..k] == deps[..k];
      }
    }
  }

  /** A present dependency's value lowers `cap` and keeps its running state. */
  lemma CapStep(records: map<string, Record>, rid: string, m: map<string, int>, m': map<string, int>, cap: int, k: nat, d: int)
    requires rid in records && k < |records[rid].dependsOn|
    requires records[rid].dependsOn[k] in records && records[rid].dependsOn[k] in m'
    requires d == m'[records[rid].dependsOn[k]]
    requires records[rid].dependsOn[k] == rid ==> d == 0
    requires Extends(m, m')
    requires CapState(records, rid, m, cap, k)
    ensures CapState(records, rid, m', Min(cap, d), k + 1)
  {
    var deps := records[rid].dependsOn;
    var c := Min(cap, d);
    if c == d {
      assert deps[k] in records && deps[k] in m' && c == m'[deps[k]];
    } else if c != Own(records[rid]) {
      var j :| 0 <= j < k && deps[j] in records && deps[j] in m && (cap == m[deps[j]] || cap == 0);
      assert deps[j] in m' && (c == m'[deps[j]] || c == 0);
    }
  }

  /** An absent dependency leaves `cap` alone. */
  lemma CapSkip(records: map<string, Record>, rid: string, m: map<string, int>, cap: int, k: nat)
    requires rid in records && k < |records[rid].dependsOn|
    requires records[rid].dependsOn[k] !in records
    requires CapState(records, rid, m, cap, k)
    ensures CapState(records, rid, m, cap, k + 1)
  {
    var deps := records[rid].dependsOn;
    if cap != Own(records[rid]) {
      var j :| 0 <= j < k && deps[j] in records && deps[j] in m && (cap == m[deps[j]] || cap == 0);
      assert j < k + 1;
    }
  }

  /** The running minimum after one more present dependency. */
  lemma DfsStep(records: map<string, Record>, m: map<string, int>, m': map<string, int>, deps: seq<string>, k: nat, own: int, cap: int)
    requires k < |deps| && deps[k] in records && deps[k] in m'
    requires Extends(m, m')
    requires forall j :: 0 <= j < k && deps[j] in records ==> deps[j] in m
    requires cap == MinOver(records, m, deps[..k], own)
    ensures Min(cap, m'[deps[k]]) == MinOver(records, m', deps[..k + 1], own)
  {
    assert deps[..k + 1][..k] == deps[..k];
    MinOverFrame(records, m, m', deps[..k], own);
  }

  /** Recording `rid`'s value keeps the scan's guarantees once `rid` is no longer visited. */
  lemma Finish(records: map<string, Record>, m: map<string, int>, visiting: set<string>, rid: string, cap: int)
    requires rid in records && rid !in visiting
    requires Sound(records, m, visiting + {rid})
    requires CapState(records, rid, m, cap, |records[rid].dependsOn|)
    ensures Sound(records, m[rid := cap], visiting)
  {
    var m' := m[rid := cap];
    var deps := records[rid].dependsOn;
    forall j | 0 <= j < |deps| && deps[j] in records
      ensures deps[j] in m' && (cap <= m'[deps[j]] || cap <= 0)
    {
    }
    if cap != Own(records[rid]) {
      var w :| 0 <= w < |deps| && deps[w] in records && deps[w] in m && (cap == m[deps[w]] || cap == 0);
      assert deps[w] in records && deps[w] in m' && (m'[rid] == m'[deps[w]] || m'[rid] == 0);
    }
    assert Bounded(records, m', rid);
    forall x | x in m' && x !in visiting && x in records && x != rid
      ensures Bounded(records, m', x)
    {
      assert Bounded(records, m, x);
      BoundedKept(records, m, x, rid, cap);
    }
  }

  /** Replacing a 0 entry keeps another finished record `Bounded`. */
  lemma BoundedKept(records: map<string, Record>, m: map<string, int>, x: string, rid: string, cap: int)
    requires x in records && x in m && x != rid
    requires rid in m ==> m[rid] == 0
    requires Bounded(records, m, x)
    ensures Bounded(records, m[rid := cap], x)
  {
    var m' := m[rid := cap];
    var deps := records[x].dependsOn;
    forall k | 0 <= k < |deps| && deps[k] in records
      ensures deps[k] in m' && (m'[x] <= m'[deps[k]] || m'[x] <= 0)
    {
    }
    if m[x] != Own(records[x]) {
      var k :| 0 <= k < |deps| && deps[k] in records && deps[k] in m && (m[x] == m[deps[k]] || m[x] == 0);
      assert deps[k] in m' && (m'[x] == m'[deps[k]] || m'[x] == 0);
    }
  }

  /** Without cycles, recording `rid`'s value keeps every memo entry a solution of the equation. */
  lemma AcyclicFinish(records: map<string, Record>, rank: map<string, nat>, m: map<string, int>, visiting: set<string>, rid: string, cap: int)
    requires Ranked(records, rank) && rid in records && rid !in visiting
    requires Sound(records, m, visiting + {rid})
    requires AcyclicMemo(records, m, visiting + {rid})
    requires forall j :: 0 <= j < |records[rid].dependsOn| && records[rid].dependsOn[j] in records ==>
      records[rid].dependsOn[j] in m
    requires cap == MinOver(records, m, records[rid].dependsOn, Own(records[rid]))
    ensures AcyclicMemo(records, m[rid := cap], visiting)
  {
    var m' := m[rid := cap];
    var deps := records[rid].dependsOn;
    forall j | 0 <= j < |deps| && deps[j] in records ensures Lookup(m, deps[j]) == Lookup(m', deps[j]) {
      assert deps[j] in records[rid].dependsOn;
      assert rank[deps[j]] < rank[rid];
    }
    MinOverFrame(records, m, m', deps, Own(records[rid]));
    forall x | x in m ensures m'[x] == MinOver(records, m', records[x].dependsOn, Own(records[x])) {
      assert x != rid && x !in visiting + {rid} && x in records;
      assert Bounded(records, m, x);
      MinOverFrame(records, m, m', records[x].dependsOn, Own(records[x]));
    }
  }

  /**
   * `compute_effective_security_bits`: runs the scan from every record, in the order of
   * `order` (the key order of the records dict). Every record gets a value that is `Bounded`;
   * without cycles the values solve the weakest-link equation, which then has no other solution.
   */
  method ComputeEffective(records: map<string, Record>, order: seq<string>) returns (eff: map<string, int>)
    requires forall x :: x in records <==> x in order
    ensures eff.Keys == records.Keys
    ensures forall x :: x in records ==> Bounded(records, eff, x)
    ensures Acyclic(records) ==> Satisfies(records, eff)
  {
    ghost var rank: map<string, nat> := map[];
    if Acyclic(records) {
      rank :| Ranked(records, rank);
    }
    eff := map[];
    for i := 0 to |order|
      invariant Sound(records, eff, {})
      invariant eff.Keys <= records.Keys
      invariant forall j :: 0 <= j < i ==> order[j] in eff
      invariant Ranked(records, rank) ==> AcyclicMemo(records, eff, {})
    {
      var _, e := Dfs(records, order[i], eff, {}, rank);
      KeysKept(eff, e, order, i);
      eff := e;
    }
    assert forall x :: x in records ==> x in eff by {
      forall x | x in records ensures x in eff {
        var j :| 0 <= j < |order| && order[j] == x;
      }
    }
  }

  /**
   * In a solution of the equation every record is at most its own bits and at most each
   * present dependency, and is its own bits unless some present dependency has exactly its value.
   */
  lemma SatisfiesExplained(records: map<string, Record>, eff: map<string, int>, x: string)
    requires Satisfies(records, eff) && x in records
    ensures eff[x] <= Own(records[x])
    ensures forall k :: 0 <= k < |records[x].dependsOn| && records[x].dependsOn[k] in records ==>
      eff[x] <= eff[records[x].dependsOn[k]]
    ensures eff[x] == Own(records[x]) ||
      exists k :: 0 <= k < |records[x].dependsOn| && records[x].dependsOn[k] in records &&
        eff[x] == eff[records[x].dependsOn[k]]
  {
    MinOverBounds(records, eff, records[x].dependsOn, Own(records[x]));
  }

  /** A record whose dependencies are all absent keeps its own bits. */
  lemma NoPresentDependency(records: map<string, Record>, eff: map<string, int>, x: string)
    requires Satisfies(records, eff) && x in records
    requires forall k :: 0 <= k < |records[x].dependsOn| ==> records[x].dependsOn[k] !in records
    ensures eff[x] == Own(records[x])
  {
    MissingDependenciesIgnored(records, eff, records[x].dependsOn, Own(records[x]));
  }

  function ExampleRecord(rid: string, bits: int, deps: seq<string>): Record
  {
    Record(rid, "example", None, Some(bits), None, deps, "")
  }

  /** `a` (128 bits) depends on `b` (80 bits) and on an id absent from the data; `b` depends on nothing. */
  function ChainRecords(): map<string, Record>
  {
    map["a" := ExampleRecord("a", 128, ["b", "missing"]), "b" := ExampleRecord("b", 80, [])]
  }

  /** The chain's only solution: `b` keeps 80 bits and caps `a` to 80; the absent id caps nothing. */
  lemma ChainExample(eff: map<string, int>)
    requires Satisfies(ChainRecords(), eff)
    ensures eff["b"] == 80 && eff["a"] == 80
  {
    var records := ChainRecords();
    assert "b" in records && "a" in records && "missing" !in records;
    assert records["b"].dependsOn == [];
    assert eff["b"] == MinOver(records, eff, [], 80) == 80;
    var deps := records["a"].dependsOn;
    assert deps == ["b", "missing"];
    assert deps[..1] == ["b"] && deps[..1][..0] == [];
    assert MinOver(records, eff, deps[..1], 128) == Min(128, Lookup(eff, "b")) == 80;
    assert eff["a"] == MinOver(records, eff, deps, 128) == MinOver(records, eff, deps[..1], 128);
  }

  /** The chain is acyclic, so the equation pins its solution down completely. */
  lemma ChainAcyclic()
    ensures Acyclic(ChainRecords())
  {
    var rank: map<string, nat> := map["a" := 1, "b" := 0];
    assert Ranked(ChainRecords(), rank);
  }
}
