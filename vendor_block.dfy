/**
 * What the Dilithium and Falcon vendor sections share: the pinned commit, taken from the first
 * bench in table order that has a kept row, and one table row for every bench in table order
 * whose kept row is non-empty.
 */
module VendorBlock {
  import opened Outcomes
  import opened Text
  import opened PyValues

  /** `str(r.get("commit") or "")`. */
  function CommitOf(r: Dict): (c: string)
    ensures Get(r, "commit").Str? && Get(r, "commit").s != "" ==> c == Get(r, "commit").s
    ensures !Truthy(Get(r, "commit")) ==> c == ""
  {
    ToStr(Or(Get(r, "commit"), Str("")))
  }

  /** `c[:11] if c else ""`: the commit as the section prints it. */
  function Short(c: string): (s: string)
    ensures |s| == if |c| <= 11 then |c| else 11
    ensures StartsWith(c, s)
    ensures s == "" <==> c == ""
  {
    if |c| <= 11 then c else c[..11]
  }

  /** The commit of the first bench of `order` that has a kept row; empty when none has. */
  function PinnedCommit(picked: map<string, Dict>, order: seq<string>): string
  {
    if |order| == 0 then ""
    else if order[0] in picked then CommitOf(picked[order[0]])
    else PinnedCommit(picked, order[1..])
  }

  /** The pinned commit is that of the first bench in order with a kept row, and empty without one. */
  lemma {:induction false} PinnedCommitIsFirst(picked: map<string, Dict>, order: seq<string>)
    ensures (forall k :: 0 <= k < |order| ==> order[k] !in picked) ==> PinnedCommit(picked, order) == ""
    ensures forall k :: 0 <= k < |order| && order[k] in picked && (forall m :: 0 <= m < k ==> order[m] !in picked) ==>
      PinnedCommit(picked, order) == CommitOf(picked[order[k]])
  {
    if |order| > 0 {
      PinnedCommitIsFirst(picked, order[1..]);
      assert forall k :: 1 <= k < |order| ==> order[k] == order[1..][k - 1];
      if order[0] !in picked {
        forall k | 1 <= k < |order| && order[k] in picked && (forall m :: 0 <= m < k ==> order[m] !in picked)
          ensures PinnedCommit(picked, order) == CommitOf(picked[order[k]])
        {
          assert forall m :: 0 <= m < k - 1 ==> order[1..][m] == order[m + 1];
        }
      }
    }
  }

  /** The commit loop of `_build_block`: stop at the first bench in order that has a kept row. */
  method FirstCommit(picked: map<string, Dict>, order: seq<string>) returns (full: string)
    ensures full == PinnedCommit(picked, order)
  {
    full := "";
    for k := 0 to |order|
      invariant PinnedCommit(picked, order) == PinnedCommit(picked, order[k..])
    {
      assert order[k..][1..] == order[k + 1..];
      if order[k] in picked {
        full := CommitOf(picked[order[k]]);
        return;
      }
    }
  }

  /** A kept row is shown when it is truthy, that is non-empty (`if not r: continue`). */
  predicate Shows(picked: map<string, Dict>, b: string)
  {
    b in picked && picked[b] != map[]
  }

  /** One table row: the bench and the kept row it shows. */
  datatype VendorRow = VendorRow(bench: string, row: Dict)

  /** The positions of `order` whose bench has a non-empty kept row, in increasing order. */
  function ShownPositions(picked: map<string, Dict>, order: seq<string>): (ix: seq<nat>)
    ensures forall k :: 0 <= k < |ix| ==> ix[k] < |order| && Shows(picked, order[ix[k]])
    ensures forall k1, k2 :: 0 <= k1 < k2 < |ix| ==> ix[k1] < ix[k2]
    ensures forall p :: 0 <= p < |order| && Shows(picked, order[p]) ==> p in ix
  {
    if |order| == 0 then []
    else
      var n := |order| - 1;
      var before := ShownPositions(picked, order[..n]);
      assert forall p :: 0 <= p < n ==> order[..n][p] == order[p];
      before + (if Shows(picked, order[n]) then [n] else [])
  }

  /**
   * The rows the table shows for `order`: one per position whose bench has a non-empty kept
   * row, in the order of those positions, and no other.
   */
  function Shown(picked: map<string, Dict>, order: seq<string>): (rows: seq<VendorRow>)
    ensures |rows| == |ShownPositions(picked, order)|
    ensures forall k :: 0 <= k < |rows| ==>
      rows[k].bench == order[ShownPositions(picked, order)[k]] && rows[k].row == picked[rows[k].bench]
    ensures forall k :: 0 <= k < |rows| ==>
      rows[k].bench in order && Shows(picked, rows[k].bench) && rows[k].row == picked[rows[k].bench]
    ensures forall b :: b in order && Shows(picked, b) ==> exists k :: 0 <= k < |rows| && rows[k].bench == b
  {
    if |order| == 0 then []
    else
      var init := order[..|order| - 1];
      var b := order[|order| - 1];
      var before := Shown(picked, init);
      assert order == init + [b];
      assert forall p :: 0 <= p < |init| ==> init[p] == order[p];
      var rows := before + (if Shows(picked, b) then [VendorRow(b, picked[b])] else []);
      CoversExtended(picked, init, b, before, rows);
      PositionsExtended(picked, order, before, rows);
      ShownMembers(picked, order, rows);
      rows
  }

  /** Rows lined up with the shown positions show benches of `order` with their kept rows. */
  lemma ShownMembers(picked: map<string, Dict>, order: seq<string>, rows: seq<VendorRow>)
    requires |rows| == |ShownPositions(picked, order)|
    requires forall k :: 0 <= k < |rows| ==>
      rows[k].bench == order[ShownPositions(picked, order)[k]] && rows[k].row == picked[rows[k].bench]
    ensures forall k :: 0 <= k < |rows| ==>
      rows[k].bench in order && Shows(picked, rows[k].bench) && rows[k].row == picked[rows[k].bench]
  {
    var pos := ShownPositions(picked, order);
    forall k | 0 <= k < |rows|
      ensures rows[k].bench in order && Shows(picked, rows[k].bench)
    {
      assert pos[k] < |order| && rows[k].bench == order[pos[k]];
    }
  }

  /** The rows shown for `order` line up with its shown positions when those for all but its last bench do. */
  lemma PositionsExtended(picked: map<string, Dict>, order: seq<string>, before: seq<VendorRow>, rows: seq<VendorRow>)
    requires |order| > 0
    requires |before| == |ShownPositions(picked, order[..|order| - 1])|
    requires forall k :: 0 <= k < |before| ==>
      before[k].bench == order[..|order| - 1][ShownPositions(picked, order[..|order| - 1])[k]] && before[k].row == picked[before[k].bench]
    requires rows == before + (if Shows(picked, order[|order| - 1]) then [VendorRow(order[|order| - 1], picked[order[|order| - 1]])] else [])
    ensures |rows| == |ShownPositions(picked, order)|
    ensures forall k :: 0 <= k < |rows| ==>
      rows[k].bench == order[ShownPositions(picked, order)[k]] && rows[k].row == picked[rows[k].bench]
  {
    var n := |order| - 1;
    var init := order[..n];
    var pos := ShownPositions(picked, order);
    var prior := ShownPositions(picked, init);
    assert pos == prior + (if Shows(picked, order[n]) then [n] else []);
    forall k | 0 <= k < |rows|
      ensures rows[k].bench == order[pos[k]] && rows[k].row == picked[rows[k].bench]
    {
      if k < |before| {
        assert rows[k] == before[k] && pos[k] == prior[k];
        assert init[prior[k]] == order[prior[k]];
      }
    }
  }

  lemma CoversExtended(picked: map<string, Dict>, init: seq<string>, b: string, before: seq<VendorRow>, rows: seq<VendorRow>)
    requires forall x :: x in init && Shows(picked, x) ==> exists k :: 0 <= k < |before| && before[k].bench == x
    requires rows == before + (if Shows(picked, b) then [VendorRow(b, picked[b])] else [])
    ensures forall x :: x in init + [b] && Shows(picked, x) ==> exists k :: 0 <= k < |rows| && rows[k].bench == x
  {
    forall x | x in init + [b] && Shows(picked, x)
      ensures exists k :: 0 <= k < |rows| && rows[k].bench == x
    {
      if x == b {
        assert rows[|rows| - 1].bench == x;
      } else {
        assert x in init;
        var k :| 0 <= k < |before| && before[k].bench == x;
        assert rows[k] == before[k];
      }
    }
  }

  /** The table loop of `_build_block`. */
  method TableRows(picked: map<string, Dict>, order: seq<string>) returns (rows: seq<VendorRow>)
    ensures rows == Shown(picked, order)
  {
    rows := [];
    for k := 0 to |order|
      invariant rows == Shown(picked, order[..k])
    {
      assert order[..k + 1][..k] == order[..k];
      var b := order[k];
      if b !in picked || picked[b] == map[] {
        continue;
      }
      rows := rows + [VendorRow(b, picked[b])];
    }
    assert order[..|order|] == order;
  }
}
