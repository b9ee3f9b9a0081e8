/**
 * Deduplicating the results log: of all rows that share the identity
 * (scheme, bench_name, repo, commit, chain_profile, security_metric_type), only the last
 * survives, and the survivors keep their input order.
 */
module Dedup {
  import opened Outcomes
  import opened PyValues
  import opened Jsonl
  import opened Decimal
  import opened Binary64

  /** The fields that identify a measurement. */
  const KeyFields: seq<string> := ["scheme", "bench_name", "repo", "commit", "chain_profile", "security_metric_type"]

  /**
   * A hashable key component, up to Python's equality: `True`, `1` and `1.0` are one number,
   * so bools, ints and integral floats that are exact doubles share `Num`.
   */
  datatype HKey =
    | NoneKey
    | Num(n: int)
    | FloatKey(repr: string)
    | StrKey(s: string)

  /** The exact value of `d` is the integer it truncates to. */
  predicate Integral(d: Dec)
  {
    d.exponent >= 0 || Truncate(d) * Pow10(-d.exponent) == d.mantissa
  }

  /** A float as a key component: an integral value of magnitude at most 2^53 equals that int. */
  function FloatPart(t: string): (k: HKey)
    ensures k.Num? ==> ParseNumber(t).Some? && Integral(ParseNumber(t).value) && k.n == Truncate(ParseNumber(t).value)
    ensures k.Num? ==> Abs(k.n) <= MaxExact
    ensures ParseNumber(t).Some? && Integral(ParseNumber(t).value) && Abs(Truncate(ParseNumber(t).value)) <= MaxExact ==> k.Num?
    ensures !k.Num? ==> k == FloatKey(t)
  {
    match ParseNumber(t)
    case Some(d) => if Integral(d) && Abs(Truncate(d)) <= MaxExact then Num(Truncate(d)) else FloatKey(t)
    case None => FloatKey(t)
  }

  /** Hashing one field of the key tuple: lists and dicts are unhashable (`None`). */
  function KeyPart(v: Value): (k: Option<HKey>)
    ensures k.None? <==> v.List? || v.Object?
    ensures v.Null? ==> k == Some(NoneKey)
    ensures v.Bool? ==> k == Some(Num(if v.b then 1 else 0))
    ensures v.Int? ==> k == Some(Num(v.i))
    ensures v.Str? ==> k == Some(StrKey(v.s))
  {
    match v
    case Null => Some(NoneKey)
    case Bool(b) => Some(Num(if b then 1 else 0))
    case Int(i) => Some(Num(i))
    case Float(t) => Some(FloatPart(t))
    case Str(s) => Some(StrKey(s))
    case _ => None
  }

  /**
   * `key_of` as a dict key: the six key fields in their fixed order, a missing field reading
   * as null; `None` when one of them is unhashable.
   */
  function Key(r: Dict): (k: Option<seq<HKey>>)
    ensures k.Some? <==> forall j :: 0 <= j < |KeyFields| ==> KeyPart(Get(r, KeyFields[j])).Some?
    ensures k.Some? ==> |k.value| == |KeyFields|
    ensures k.Some? ==> forall j :: 0 <= j < |KeyFields| ==> Some(k.value[j]) == KeyPart(Get(r, KeyFields[j]))
  {
    if forall j :: 0 <= j < |KeyFields| ==> KeyPart(Get(r, KeyFields[j])).Some? then
      Some(seq(|KeyFields|, j requires 0 <= j < |KeyFields| => KeyPart(Get(r, KeyFields[j])).value))
    else None
  }

  /** A row whose key can be put in a dict. */
  predicate Hashable(r: Dict)
  {
    Key(r).Some?
  }

  /** The identity of every row, position by position. */
  function KeysOf(rows: seq<Dict>): (keys: seq<Option<seq<HKey>>>)
    ensures |keys| == |rows| && forall i :: 0 <= i < |rows| ==> keys[i] == Key(rows[i])
  {
    seq(|rows|, i requires 0 <= i < |rows| => Key(rows[i]))
  }

  /** Position `i` is the last one carrying its key. */
  predicate Kept<K(==,!new)>(keys: seq<K>, i: nat)
  {
    i < |keys| && forall j :: i < j < |keys| ==> keys[j] != keys[i]
  }

  /** The rows at kept positions among the first `n`, in input order. */
  function KeptUpTo<T, K(==,!new)>(rows: seq<T>, keys: seq<K>, n: nat): seq<T>
    requires |keys| == |rows| && n <= |rows|
  {
    if n == 0 then []
    else KeptUpTo(rows, keys, n - 1) + (if Kept(keys, n - 1) then [rows[n - 1]] else [])
  }

  /** The deduplicated log: every row that is the last with its key, in input order. */
  function KeepLast(rows: seq<Dict>): seq<Dict>
  {
    KeptUpTo(rows, KeysOf(rows), |rows|)
  }

  /** The `seen` map after the first `i` positions: each key seen so far, with its last position. */
  ghost predicate SeenState<K(!new)>(keys: seq<K>, i: nat, seen: map<K, nat>)
    requires i <= |keys|
  {
    (forall k :: k in seen <==> exists j :: 0 <= j < i && keys[j] == k) &&
    (forall k :: k in seen ==>
       seen[k] < i && keys[seen[k]] == k && forall j :: seen[k] < j < i ==> keys[j] != k)
  }

  lemma SeenStep<K(!new)>(keys: seq<K>, i: nat, seen: map<K, nat>)
    requires i < |keys| && SeenState(keys, i, seen)
    ensures SeenState(keys, i + 1, seen[keys[i] := i])
  {
    var s := seen[keys[i] := i];
    forall k | k in s
      ensures s[k] < i + 1 && keys[s[k]] == k && forall j :: s[k] < j < i + 1 ==> keys[j] != k
    {
      if k != keys[i] {
        assert s[k] == seen[k];
      }
    }
    forall k ensures k in s <==> exists j :: 0 <= j < i + 1 && keys[j] == k {
      if k in s && k != keys[i] {
        var j :| 0 <= j < i && keys[j] == k;
      }
    }
  }

  /** At the end, the recorded positions are exactly the kept ones. */
  lemma SeenIsKept<K(!new)>(keys: seq<K>, seen: map<K, nat>, i: nat)
    requires SeenState(keys, |keys|, seen) && i < |keys|
    ensures i in seen.Values <==> Kept(keys, i)
  {
    var k := keys[i];
    if Kept(keys, i) {
      assert seen[k] == i;
    }
  }

  /**
   * `main`'s two loops: remember each key's last position, then keep the rows at those
   * positions. Storing an unhashable key raises `TypeError`: `Err` carries the first such row.
   */
  method DedupRows(rows: seq<Dict>) returns (out: Result<seq<Dict>, nat>)
    ensures out.Ok? <==> forall i :: 0 <= i < |rows| ==> Hashable(rows[i])
    ensures out.Ok? ==> out.value == KeepLast(rows)
    ensures out.Err? ==> out.error < |rows| && !Hashable(rows[out.error])
    ensures out.Err? ==> forall i :: 0 <= i < out.error ==> Hashable(rows[i])
  {
    var keys := KeysOf(rows);
    var seen: map<Option<seq<HKey>>, nat> := map[];
    for i := 0 to |rows|
      invariant SeenState(keys, i, seen)
      invariant forall j :: 0 <= j < i ==> keys[j].Some?
    {
      if keys[i].None? {
        return Err(i);
      }
      SeenStep(keys, i, seen);
      seen := seen[keys[i] := i];
    }
    forall i | 0 <= i < |rows| ensures i in seen.Values <==> Kept(keys, i) {
      SeenIsKept(keys, seen, i);
    }
    var kept := KeepAt(rows, keys, seen.Values);
    return Ok(kept);
  }

  /** The second loop: the rows at the recorded positions, in input order. */
  method KeepAt<K(==,!new)>(rows: seq<Dict>, keys: seq<K>, keepIdx: set<nat>) returns (kept: seq<Dict>)
    requires |keys| == |rows|
    requires forall i :: 0 <= i < |rows| ==> (i in keepIdx <==> Kept(keys, i))
    ensures kept == KeptUpTo(rows, keys, |rows|)
  {
    kept := [];
    for i := 0 to |rows|
      invariant kept == KeptUpTo(rows, keys, i)
    {
      if i in keepIdx {
        kept := kept + [rows[i]];
      }
    }
  }

  /** Why the log is left untouched. */
  datatype DedupError =
    | Undecodable(e: DecodeError)   // a line that is not a JSON object
    | Unhashable(row: nat)          // a row with a list or dict in a key field

  /**
   * The whole rewrite of the log: an absent file is left alone (`None`); a line that is not a
   * JSON object, or a row that cannot be hashed, aborts before anything is written; otherwise
   * the deduplicated rows are written.
   */
  method DedupFile(file: Option<seq<Line>>) returns (written: Option<Result<seq<Dict>, DedupError>>)
    ensures file.None? ==> written.None?
    ensures file.Some? ==> written.Some?
    ensures file.Some? && DecodeObjects(file.value, 1).Err? ==>
      written.value == Err(Undecodable(DecodeObjects(file.value, 1).error))
    ensures file.Some? && DecodeObjects(file.value, 1).Ok? ==>
      var rows := Objects(file.value);
      && (written.value.Ok? <==> forall i :: 0 <= i < |rows| ==> Hashable(rows[i]))
      && (written.value.Ok? ==> written.value.value == KeepLast(rows))
      && (written.value.Err? ==> written.value.error.Unhashable? && written.value.error.row < |rows| && !Hashable(rows[written.value.error.row]))
  {
    if file.None? {
      return None;
    }
    match DecodeObjects(file.value, 1)
    case Err(e) =>
      written := Some(Err(Undecodable(e)));
    case Ok(rows) =>
      var out := DedupRows(rows);
      match out
      case Ok(kept) => written := Some(Ok(kept));
      case Err(i) => written := Some(Err(Unhashable(i)));
  }

  /** The kept rows are exactly the rows at kept positions. */
  lemma {:induction false} KeptUpToMembers<T, K(!new)>(rows: seq<T>, keys: seq<K>, n: nat)
    requires |keys| == |rows| && n <= |rows|
    ensures forall x :: x in KeptUpTo(rows, keys, n) <==> exists i :: 0 <= i < n && Kept(keys, i) && rows[i] == x
  {
    if n > 0 {
      KeptUpToMembers(rows, keys, n - 1);
    }
  }

  /** The kept positions among the first `n`, in order. */
  function KeptIndices<K(==,!new)>(keys: seq<K>, n: nat): (ix: seq<nat>)
    requires n <= |keys|
    ensures forall a :: 0 <= a < |ix| ==> ix[a] < n && Kept(keys, ix[a])
    ensures forall a, b :: 0 <= a < b < |ix| ==> ix[a] < ix[b]
  {
    if n == 0 then []
    else KeptIndices(keys, n - 1) + (if Kept(keys, n - 1) then [n - 1] else [])
  }

  lemma {:induction false} KeptUpToIndices<T, K(!new)>(rows: seq<T>, keys: seq<K>, n: nat)
    requires |keys| == |rows| && n <= |rows|
    ensures |KeptUpTo(rows, keys, n)| == |KeptIndices(keys, n)|
    ensures forall a :: 0 <= a < |KeptIndices(keys, n)| ==> KeptUpTo(rows, keys, n)[a] == rows[KeptIndices(keys, n)[a]]
  {
    if n > 0 {
      KeptUpToIndices(rows, keys, n - 1);
    }
  }

  /** No two kept rows share a key. */
  lemma KeepLastDistinct(rows: seq<Dict>)
    ensures forall a, b :: 0 <= a < b < |KeepLast(rows)| ==> Key(KeepLast(rows)[a]) != Key(KeepLast(rows)[b])
  {
    var keys := KeysOf(rows);
    KeptUpToIndices(rows, keys, |rows|);
    var ix := KeptIndices(keys, |rows|);
    forall a, b | 0 <= a < b < |KeepLast(rows)| ensures Key(KeepLast(rows)[a]) != Key(KeepLast(rows)[b]) {
      assert Kept(keys, ix[a]) && ix[a] < ix[b];
    }
  }

  /**
   * Nothing is lost but duplicates: every key of the input survives, carried by the last row
   * that had it, and every output row comes from the input.
   */
  lemma KeepLastKeepsEveryKey(rows: seq<Dict>, i: nat)
    requires i < |rows|
    ensures exists j :: i <= j < |rows| && Kept(KeysOf(rows), j) && Key(rows[j]) == Key(rows[i]) && rows[j] in KeepLast(rows)
    ensures forall x :: x in KeepLast(rows) ==> x in rows
  {
    var keys := KeysOf(rows);
    KeptUpToMembers(rows, keys, |rows|);
    var j := LastWithKey(keys, i, i);
    assert rows[j] in KeepLast(rows);
  }

  /** The last position at or after `from` whose key is that of position `i`. */
  lemma {:induction false} LastWithKey<K(!new)>(keys: seq<K>, i: nat, from: nat) returns (j: nat)
    requires i <= from < |keys| && keys[from] == keys[i]
    ensures from <= j < |keys| && Kept(keys, j) && keys[j] == keys[i]
    decreases |keys| - from
  {
    if Kept(keys, from) {
      j := from;
    } else {
      var later :| from < later < |keys| && keys[later] == keys[from];
      j := LastWithKey(keys, i, later);
    }
  }

  /** Rows whose keys are already distinct are all kept. */
  lemma {:induction false} DistinctUnchanged<T, K(!new)>(rows: seq<T>, keys: seq<K>, n: nat)
    requires |keys| == |rows| && n <= |rows|
    requires forall a, b :: 0 <= a < b < |keys| ==> keys[a] != keys[b]
    ensures KeptUpTo(rows, keys, n) == rows[..n]
  {
    if n > 0 {
      DistinctUnchanged(rows, keys, n - 1);
      assert Kept(keys, n - 1);
      assert rows[..n] == rows[..n - 1] + [rows[n - 1]];
    }
  }

  /** Running the deduplication twice is the same as running it once. */
  lemma KeepLastIdempotent(rows: seq<Dict>)
    ensures KeepLast(KeepLast(rows)) == KeepLast(rows)
  {
    var once := KeepLast(rows);
    KeepLastDistinct(rows);
    var keys := KeysOf(once);
    DistinctUnchanged(once, keys, |once|);
    assert once[..|once|] == once;
  }

  /** `1`, `1.0` and `True` are one key component, as they are one dict key in Python. */
  lemma OneOneFloatTrueMerge()
    ensures KeyPart(Int(1)) == KeyPart(Float("1.0")) == KeyPart(Bool(true)) == Some(Num(1))
  {
    OnePointZero();
  }

  lemma OnePointZero()
    ensures FloatPart("1.0") == Num(1)
  {
    OnePointZeroParses();
    RangeOrder();
    IntegralFloatPart("1.0", Dec(10, -1));
  }

  /** A float literal whose value is an integer of magnitude at most 2^53 is that integer as a key. */
  lemma IntegralFloatPart(t: string, d: Dec)
    requires ParseNumber(t) == Some(d) && Integral(d) && Abs(Truncate(d)) <= MaxExact
    ensures FloatPart(t) == Num(Truncate(d))
  {
  }

  lemma OnePointZeroParses()
    ensures ParseNumber("1.0") == Some(Dec(10, -1))
  {
    var t := "1.0";
    SignedFractionParses(false, "1", "0", t);
    var z := "1" + "0";
    assert z[..|z| - 1] == "1";
    assert DigitsValue(z) == 10;
    assert ParseNumber(t) == ApplySign(false, Some(Dec(DigitsValue(z), -1)));
  }

  /** The six fields of `KeyFields`, by position. */
  lemma KeyFieldsAt(j: nat)
    requires j < |KeyFields|
    ensures j == 0 ==> KeyFields[j] == "scheme"
    ensures j == 1 ==> KeyFields[j] == "bench_name"
    ensures j == 2 ==> KeyFields[j] == "repo"
    ensures j == 3 ==> KeyFields[j] == "commit"
    ensures j == 4 ==> KeyFields[j] == "chain_profile"
    ensures j == 5 ==> KeyFields[j] == "security_metric_type"
  {
  }

  /** The key fields of a row whose six fields hash to `parts`, position by position. */
  lemma FieldParts(r: Dict, parts: seq<HKey>)
    requires |parts| == |KeyFields|
    requires KeyPart(Get(r, "scheme")) == Some(parts[0]) && KeyPart(Get(r, "bench_name")) == Some(parts[1])
    requires KeyPart(Get(r, "repo")) == Some(parts[2]) && KeyPart(Get(r, "commit")) == Some(parts[3])
    requires KeyPart(Get(r, "chain_profile")) == Some(parts[4])
    requires KeyPart(Get(r, "security_metric_type")) == Some(parts[5])
    ensures forall j :: 0 <= j < |KeyFields| ==> KeyPart(Get(r, KeyFields[j])) == Some(parts[j])
  {
    forall j | 0 <= j < |KeyFields|
      ensures KeyPart(Get(r, KeyFields[j])) == Some(parts[j])
    {
      KeyFieldsAt(j);
    }
  }

  /** A row whose key fields hash, position by position, to `parts` has the key `parts`. */
  lemma KeyOfSeq(r: Dict, parts: seq<HKey>)
    requires |parts| == |KeyFields|
    requires forall j :: 0 <= j < |KeyFields| ==> KeyPart(Get(r, KeyFields[j])) == Some(parts[j])
    ensures Key(r) == Some(parts)
  {
    assert Key(r).Some?;
    var k := Key(r).value;
    forall j | 0 <= j < |parts| ensures k[j] == parts[j] {
      assert Some(k[j]) == KeyPart(Get(r, KeyFields[j])) == Some(parts[j]);
    }
    assert k == parts;
  }

  /** A row carrying only a scheme is keyed by that scheme, every other field reading as null. */
  lemma SchemeOnlyKey(v: Value)
    requires KeyPart(v).Some?
    ensures Key(map["scheme" := v]) == Some([KeyPart(v).value, NoneKey, NoneKey, NoneKey, NoneKey, NoneKey])
  {
    var r := map["scheme" := v];
    assert r.Keys == {"scheme"};
    assert Get(r, "bench_name") == Get(r, "repo") == Get(r, "commit") == Null;
    assert Get(r, "chain_profile") == Get(r, "security_metric_type") == Null;
    var parts := [KeyPart(v).value, NoneKey, NoneKey, NoneKey, NoneKey, NoneKey];
    FieldParts(r, parts);
    KeyOfSeq(r, parts);
  }

  /** When every position shares the key of the last one, none before the last is kept. */
  lemma {:induction false} SameKeyNoneBefore<T, K(!new)>(rows: seq<T>, keys: seq<K>, n: nat)
    requires |keys| == |rows| && n < |rows|
    requires forall i :: 0 <= i < |keys| ==> keys[i] == keys[|keys| - 1]
    ensures KeptUpTo(rows, keys, n) == []
  {
    if n > 0 {
      SameKeyNoneBefore(rows, keys, n - 1);
      assert !Kept(keys, n - 1) by {
        assert keys[|keys| - 1] == keys[n - 1];
      }
    }
  }

  /** When every row shares the key of the last one, only the last is written. */
  lemma SameKeyKeepsLast(rows: seq<Dict>)
    requires 0 < |rows|
    requires forall i :: 0 <= i < |rows| ==> Key(rows[i]) == Key(rows[|rows| - 1])
    ensures KeepLast(rows) == [rows[|rows| - 1]]
  {
    var keys := KeysOf(rows);
    SameKeyNoneBefore(rows, keys, |rows| - 1);
    assert Kept(keys, |rows| - 1);
  }

  /** Three rows carrying only a scheme, whose schemes hash alike, collapse to the last. */
  lemma SchemesMerge(x: Value, y: Value, z: Value)
    requires KeyPart(x).Some? && KeyPart(x) == KeyPart(y) == KeyPart(z)
    ensures KeepLast([map["scheme" := x], map["scheme" := y], map["scheme" := z]]) == [map["scheme" := z]]
  {
    SchemeOnlyKey(x);
    SchemeOnlyKey(y);
    SchemeOnlyKey(z);
    var rows := [map["scheme" := x], map["scheme" := y], map["scheme" := z]];
    var k := Key(map["scheme" := z]);
    assert Key(rows[0]) == k && Key(rows[1]) == k && Key(rows[2]) == k;
    forall i | 0 <= i < |rows| ensures Key(rows[i]) == Key(rows[|rows| - 1]) {
      assert i == 0 || i == 1 || i == 2;
    }
    SameKeyKeepsLast(rows);
  }

  /** Of three rows whose only field is a scheme of `1`, `1.0` and `True`, only the last is written. */
  lemma NumericSchemesMerge()
    ensures KeepLast([map["scheme" := Int(1)], map["scheme" := Float("1.0")], map["scheme" := Bool(true)]])
      == [map["scheme" := Bool(true)]]
  {
    OneOneFloatTrueMerge();
    SchemesMerge(Int(1), Float("1.0"), Bool(true));
  }
}
