# gas-per-secure-bit: a verified model of the readiness scripts

gas-per-secure-bit measures what on-chain signature verification costs (gas) against the
security it buys (security-equivalent bits), and publishes a protocol-readiness report in
which every surface's effective security is capped by the weakest guarantee among the
records it depends on. This project models, in Dafny, the Python scripts that turn the
results log into that report and keep the log and the report tidy:

- `make_protocol_readiness.py`: record normalisation (canonical id, category, own bits,
  dependencies, timestamp), latest-record selection per canonical id, the weakest-link DFS
  with its memo map and visiting set, and the cap explanation with its blocker hints
  (modules `PyValues`, `Decimal`, `ReadinessRecord`, `ReadinessLatest`, `WeakestLink`,
  `CapReason`);
- `report_weakest_link.py`: the one-hop resolver with its exact-id / unique-bench-name rule
  (`WeakestLinkReport`);
- `dedup_results.py`: keep-last deduplication by the six-field identity (`Dedup`);
- the three vendor patchers for ML-DSA-65, Dilithium and Falcon: latest-by-timestamp pickers,
  the table and commit selection of each section, and the marker-delimited upserts
  (`Markers`, `VendorBlock`, `PatchMldsa`, `PatchDilithium`, `PatchFalcon`);
- `patch_surface_layer.py` and `patch_surface_id_exact.py`: the relabelling passes
  (`SurfaceLayer`, `SurfaceIdExact`);
- `rebuild_results_csv.py`: `depends_on` flattening and the CSV header order (`RebuildCsv`);
- `parse_bench.py`: alias lookup, provenance override and the required-field rules of the
  ingest normaliser (`ParseBench`).

Python's values, string order and stripping live in `PyValues`, `Lex` and `Text`; decimal literals and the range of a double in `Decimal` and `Binary64`; JSON-lines
input in `Jsonl`; `Option`/`Result` (Python's `None` and raised exceptions) in `Outcomes`.
Loops that update state in the scripts are methods with loop invariants, each proved against
a specification function or predicate; pure helpers are functions with lemmas.

Three points of the code shape the model:

- Own bits: the code takes an explicit `effective_security_bits` first, then an `effN=M`
  value in the notes, then `parse_security_bits` (`security_equiv_bits` and friends).
- Dependencies resolve by exact id only: `make_protocol_readiness.py` tests membership in
  the records map, and `report_weakest_link.py` accepts a bare bench name only when
  exactly one row carries it. Nothing matches by suffix or by category prefix.
- There is no recursion ceiling in the DFS; it terminates because of the visiting set alone.

## Model

| member | source | states |
|---|---|---|
| Dedup.Key | scripts/dedup_results.py:8-9 | the tuple of the six key fields in their fixed order, a missing field reading as None; it is hashable exactly when no field is a list or dict, and then each part is that field's hash key |
| Dedup.KeyPart | scripts/dedup_results.py:9 | a list or dict field has no hash key (TypeError), and only those; None, a string and an int hash as themselves, a bool as 0 or 1 |
| Dedup.FloatPart | scripts/dedup_results.py:25 | a float equal to an int of at most 2^53 in magnitude hashes as that int; any other float keeps its own key |
| Dedup.OneOneFloatTrueMerge | scripts/dedup_results.py:25 | `1`, `1.0` and `True` are one dict key |
| Dedup.NumericSchemesMerge | scripts/dedup_results.py:22-28 | three rows whose only key field is `1`, `1.0` and `True` collapse to the last of them |
| Dedup.SchemesMerge | scripts/dedup_results.py:22-28 | three rows whose only key field has the same hash key collapse to the last |
| Dedup.SchemeOnlyKey | scripts/dedup_results.py:8-9 | a row holding only a hashable `scheme` has the key of that value followed by five Nones |
| Dedup.SameKeyKeepsLast | scripts/dedup_results.py:22-28 | rows that all share one key leave only the last row |
| Dedup.SameKeyNoneBefore | scripts/dedup_results.py:22-28 | when every row shares the last row's key, no row before the last is kept |
| Dedup.KeysOf | scripts/dedup_results.py:25 | one key per row, position by position |
| Dedup.DedupRows | scripts/dedup_results.py:22-28 | fails exactly when some row has a list or dict key field, naming the first such row; otherwise the two loops (last position per key, then the rows at those positions) yield exactly the rows no later row shares a key with, in input order |
| Dedup.SeenStep | scripts/dedup_results.py:23-25 | after each step the `seen` map holds exactly the keys met so far, each at its last position so far |
| Dedup.SeenIsKept | scripts/dedup_results.py:27 | after the first loop a position is among `seen`'s values if and only if no later row carries its key |
| Dedup.DedupFile | scripts/dedup_results.py:12-30 | an absent log is left alone; a line that is not a JSON object, or a row with an unhashable key field, aborts before anything is written; otherwise the deduplicated rows are written |
| Dedup.KeptUpToMembers | scripts/dedup_results.py:27-28 | a row is in the output exactly when it sits at a position that is the last with its key |
| Dedup.KeptIndices | scripts/dedup_results.py:27-28 | the kept positions are strictly increasing and each is the last with its key: the output keeps input order |
| Dedup.KeptUpToIndices | scripts/dedup_results.py:27-28 | the output is, position by position, the input rows at the kept positions |
| Dedup.KeepLastDistinct | scripts/dedup_results.py:22-28 | no two output rows share a key |
| Dedup.KeepLastKeepsEveryKey | scripts/dedup_results.py:22-28 | nothing but duplicates is dropped: every input key survives, carried by the last row that had it, and every output row is an input row |
| Dedup.LastWithKey | scripts/dedup_results.py:24-25 | every position has a last position at or after it with the same key |
| Dedup.DistinctUnchanged | scripts/dedup_results.py:22-28 | a log whose keys are already distinct is left exactly as it is |
| Dedup.KeepLastIdempotent | scripts/dedup_results.py:22-30 | deduplicating an already deduplicated log changes nothing |
| Jsonl.DecodeObjects | scripts/dedup_results.py:16-19 | the strict reader succeeds exactly when every line is blank or one JSON object, yields the objects of the non-blank lines in order, and otherwise names a line of the input |
| Jsonl.BlankLinesIgnored | scripts/dedup_results.py:17-18 | a blank line anywhere changes nothing in what is read |
| Jsonl.ObjectsAppend | scripts/dedup_results.py:16-19 | reading is line by line: the objects of two concatenated inputs concatenate |
| Jsonl.FirstBadLine | scripts/dedup_results.py:19 | the read aborts at the first line that is not valid JSON or not an object, and names that line |
| PyValues.AsInt | scripts/make_protocol_readiness.py:68-80 | `_as_int`: None, a list and a dict give none, a bool gives 0 or 1, an int itself; a float or other value goes through `int(float(str(x)))` |
| PyValues.TruncText | scripts/make_protocol_readiness.py:78 | `int(float(text))` succeeds exactly when the text is a decimal literal whose value is below the binary64 overflow threshold; `nan` and `inf` fail |
| PyValues.Get | scripts/make_protocol_readiness.py:126-127 | `d.get(k)`: the stored value, or None for a missing key |
| PyValues.GetOr | scripts/report_weakest_link.py:29 | `d.get(k, default)`: the default only when the key is missing |
| PyValues.Or | scripts/make_protocol_readiness.py:126-127 | `a or b`: `a` when truthy, else `b` |
| PyValues.StrRepr | scripts/make_protocol_readiness.py:191 | `repr` of a string: quoted at both ends, with the text between the quotes the escaped string |
| PyValues.StrReprRoundTrip | scripts/make_protocol_readiness.py:191 | the text between `repr`'s quotes unescapes to the string: a rendered string element is unambiguous |
| PyValues.ToStr | scripts/make_protocol_readiness.py:191 | `str()` of a string is that string |
| PyValues.ToStrReadsBack | scripts/make_protocol_readiness.py:191 | `str()` of an int reads back as that int; a list prints bracketed and a dict braced |
| PyValues.FloatText | scripts/parse_bench.py:132 | `float(text)`: every decimal literal is accepted; past the overflow threshold it is an infinity of its sign; a finite result comes from an in-range literal |
| PyValues.FloatOf | scripts/parse_bench.py:132 | `float(x)`: None, a list and a dict fail; an int fails exactly past the overflow threshold and is itself up to 2^53 |
| PyValues.ZeroIsNotPositive | scripts/parse_bench.py:134 | a zero security value converts to a float that is not positive, so no division happens |
| PyValues.PyInt | scripts/parse_bench.py:129 | `int(x)`: None, a list and a dict fail; an int is itself, a bool 0 or 1 |
| PyValues.PyIntOfIntText | scripts/parse_bench.py:129 | `int(str(n))` is `n` for every int |
| PyValues.TruncTextOf | scripts/make_protocol_readiness.py:78 | `int(float(text))` of an in-range literal is its value truncated toward zero |
| PyValues.AsIntOfText | scripts/make_protocol_readiness.py:78 | `_as_int` of a text is `int(float(text))` |
| PyValues.AsIntOfHugeText | scripts/make_protocol_readiness.py:76-80 | a literal at or past the overflow threshold makes `_as_int` fail (`int(inf)` raises) and `float()` give an infinity |
| PyValues.TruthyRendersNonEmpty | scripts/make_protocol_readiness.py:131-133 | a truthy value never renders as the empty id |
| PyValues.AsIntOfIntText | scripts/make_protocol_readiness.py:68-80 | `_as_int` reads the decimal text of an int of at most 2^53 in magnitude back as that int |
| PyValues.AsIntOfDecimalText | scripts/make_protocol_readiness.py:76-78 | `_as_int` truncates a decimal text or float of at most fifteen digits toward zero, on both signs |
| PyValues.AsIntOfDigits | scripts/make_protocol_readiness.py:103 | digits captured from the notes, worth at most 2^53, are read as their decimal value |
| ReadinessRecord.CanonicalRid | scripts/make_protocol_readiness.py:117-138 | a canonical id, when there is one, is never empty |
| ReadinessRecord.RidIgnoresSurface | scripts/make_protocol_readiness.py:22-25 | the `surface` field never influences the canonical id |
| ReadinessRecord.RidPrefersSchemeBench | scripts/make_protocol_readiness.py:126-129 | with a scheme (or category) and a bench name present, the id is `scheme::bench_name` and an explicit `id` is ignored |
| ReadinessRecord.RidBareBench | scripts/make_protocol_readiness.py:131-138 | without scheme and explicit id, the id is the bare bench name, or none |
| ReadinessRecord.RidExplicitId | scripts/make_protocol_readiness.py:131-133 | without both a scheme and a bench name, the first truthy of `id`, `name`, `bench_id` is the id, as its `str()` |
| ReadinessRecord.NoRidNoRecord | scripts/make_protocol_readiness.py:162-164 | an object without a derivable id is rejected |
| ReadinessRecord.CategoryFromRid | scripts/make_protocol_readiness.py:166-169 | without scheme or category, the category is the id's text before the first `::` |
| ReadinessRecord.Category | scripts/make_protocol_readiness.py:166-169 | a truthy scheme or category is the category; otherwise the id's text before the first `::`, or `unknown` without one |
| ReadinessRecord.Gas | scripts/make_protocol_readiness.py:171-176 | the first of `gas`, `gas_verify`, `gas_surface` that is not None decides, even when it does not convert |
| ReadinessRecord.ParseSecurityBits | scripts/make_protocol_readiness.py:141-158 | a coercible `security_equiv_bits` wins; otherwise a non-None metric value of an accepted type gives its `_as_int`, and a None value or a falsy non-empty type gives none |
| ReadinessRecord.EffectiveBits | scripts/make_protocol_readiness.py:180-186 | an explicit coercible cap wins; None or empty notes give none; a cap from the notes is the leftmost match's capture |
| ReadinessRecord.Timestamp | scripts/make_protocol_readiness.py:193 | empty exactly when all four timestamp fields are falsy; `ts_utc` wins, then `timestamp` |
| ReadinessRecord.DigitRun | scripts/make_protocol_readiness.py:65 | a greedy `\d+` run over ASCII digits: all digits, and stops at a non-digit or the end |
| ReadinessRecord.EffAt | scripts/make_protocol_readiness.py:65 | a match anchored at a position captures a non-empty run of ASCII digits |
| ReadinessRecord.EffSearch | scripts/make_protocol_readiness.py:65 | the leftmost match captures a non-empty digit run |
| ReadinessRecord.ParseEffFromNotes | scripts/make_protocol_readiness.py:92-99 | absent or empty notes give no cap |
| ReadinessRecord.DependsOnList | scripts/make_protocol_readiness.py:188-191 | a falsy `depends_on` gives no dependencies; a string gives itself; a list one `str()` per element; a dict its keys in order, each key once; only a truthy bool or number cannot be iterated |
| ReadinessRecord.FromJson | scripts/make_protocol_readiness.py:160-204 | a record is built exactly for an object with a derivable id and an iterable `depends_on`; it carries that id, its category, gas, security bits, the explicit-or-notes cap, the dependency list and the timestamp |
| ReadinessRecord.ExplicitEffWins | scripts/make_protocol_readiness.py:180-186 | a coercible `effective_security_bits` wins over any notes |
| ReadinessRecord.EffAtRoundTrip | scripts/make_protocol_readiness.py:65 | the pattern anchored on `eff<N>=<M>` captures `M` |
| ReadinessRecord.NotesCapRoundTrip | scripts/make_protocol_readiness.py:92-103 | notes reading `eff<N>=<M>`, `M` at most 2^53, yield the cap `M` |
| ReadinessRecord.NotesCapOverflow | scripts/make_protocol_readiness.py:92-103 | notes `eff<N>=<M>` with `M` at or past the overflow threshold yield no cap |
| ReadinessRecord.DigitsOverflow | scripts/make_protocol_readiness.py:78 | digits worth the overflow threshold or more make `_as_int` fail |
| ReadinessRecord.NotesCapFallback | scripts/make_protocol_readiness.py:183-186 | without an explicit cap, notes `eff<N>=<M>` supply `M`, for `M` at most 2^53 |
| ReadinessRecord.SecurityBitsGate | scripts/make_protocol_readiness.py:141-158 | a coercible `security_equiv_bits` wins; otherwise any non-null metric value counts unless the type is falsy but not null or empty |
| ReadinessRecord.StringDependency | scripts/make_protocol_readiness.py:189-190 | a lone string dependency becomes a one-element list |
| ReadinessRecord.ListDependencies | scripts/make_protocol_readiness.py:191 | dependencies keep their order, each becoming its `str()` |
| ReadinessLatest.ParseAll | scripts/make_protocol_readiness.py:214-226 | each line yields its record, or none when blank, undecodable or rejected |
| ReadinessLatest.ReplacesIffNotOlder | scripts/make_protocol_readiness.py:236-241 | the three replacement branches amount to one test: a later record replaces exactly when its timestamp is not smaller, so an empty timestamp never displaces a non-empty one |
| ReadinessLatest.LoadLatest | scripts/make_protocol_readiness.py:207-243 | the result maps exactly the ids that occur, each to its latest record (greatest timestamp, later line on ties), in first-appearance order |
| ReadinessLatest.SelectLatest | scripts/make_protocol_readiness.py:211-243 | the selection loop keeps exactly the ids seen, each with its latest record, listed in first-appearance order |
| ReadinessLatest.ScanStep | scripts/make_protocol_readiness.py:228-241 | one line keeps the scan's invariant: exactly the ids seen, each with its latest line |
| ReadinessLatest.SeenStep | scripts/make_protocol_readiness.py:229-232 | one more line adds its id, if any, to the ids seen |
| ReadinessLatest.StepSkip | scripts/make_protocol_readiness.py:215-226 | a line that yields no record changes nothing |
| ReadinessLatest.KeepsLatest | scripts/make_protocol_readiness.py:236-241 | a line about another id, or with a smaller timestamp, leaves the latest line in place |
| ReadinessLatest.OthersKept | scripts/make_protocol_readiness.py:229-241 | updating one id keeps every other id's selection |
| ReadinessLatest.StepNew | scripts/make_protocol_readiness.py:230-232 | the first record for an id is its latest so far |
| ReadinessLatest.StepReplace | scripts/make_protocol_readiness.py:236-241 | a later record with a timestamp that is not smaller becomes the latest |
| ReadinessLatest.StepKeep | scripts/make_protocol_readiness.py:236-241 | a later record with a smaller timestamp is ignored |
| ReadinessLatest.FirstSeenStep | scripts/make_protocol_readiness.py:230-231 | the id order grows by a line's id exactly when that id is new |
| ReadinessLatest.FirstSeenIds | scripts/make_protocol_readiness.py:243 | the listed ids are exactly the ids seen |
| ReadinessLatest.FirstSeenDistinct | scripts/make_protocol_readiness.py:243 | no id is listed twice |
| ReadinessLatest.LatestUnique | scripts/make_protocol_readiness.py:209 | at most one line is the latest for an id: the selection is well defined |
| WeakestLink.MinOverBounds | scripts/make_protocol_readiness.py:279-284 | the running minimum is at most the own bits and every present dependency's value, and equals one of them |
| WeakestLink.Own | scripts/make_protocol_readiness.py:258-263 | the effective bits when present, else the security bits, else 0 |
| WeakestLink.MinOverFrame | scripts/make_protocol_readiness.py:280-284 | the minimum reads only the values of dependencies present in the data set |
| WeakestLink.MissingDependenciesIgnored | scripts/make_protocol_readiness.py:281-283 | dependencies absent from the data set never lower a record's value (no false 0-bit cap) |
| WeakestLink.SatisfiesUnique | scripts/make_protocol_readiness.py:246-253 | without dependency cycles the weakest-link equation has exactly one solution, whatever the evaluation order |
| WeakestLink.AgreeBelow | scripts/make_protocol_readiness.py:246-253 | two solutions agree on every record, by induction on a ranking of the dependency graph |
| WeakestLink.KeysKept | scripts/make_protocol_readiness.py:290-291 | each record the outer loop has visited stays in the memo |
| WeakestLink.Dfs | scripts/make_protocol_readiness.py:265-288 | `dfs` returns what the memo then holds for the id, keeps every earlier memo entry, returns 0 for an id being visited (a cycle cut), keeps every finished entry within the weakest-link bounds, and without cycles every entry solves the equation |
| WeakestLink.CapByDependencies | scripts/make_protocol_readiness.py:279-285 | the dependency loop leaves `cap` at most the own bits and at most each present dependency's value (unless a cycle cut it to 0), and equal to the minimum over present dependencies without cycles |
| WeakestLink.VisitDependency | scripts/make_protocol_readiness.py:280-284 | one turn lowers `cap` to `min(cap, dfs(dep))` for a present dependency and leaves it for an absent one |
| WeakestLink.CapStep | scripts/make_protocol_readiness.py:284 | a present dependency's value lowers `cap` and keeps its running guarantees |
| WeakestLink.CapSkip | scripts/make_protocol_readiness.py:281-283 | an absent dependency leaves `cap` alone |
| WeakestLink.DfsStep | scripts/make_protocol_readiness.py:284 | after one more present dependency `cap` is the minimum over the dependencies met so far |
| WeakestLink.Finish | scripts/make_protocol_readiness.py:286-288 | recording the value and leaving `visiting` keeps the memo's guarantees |
| WeakestLink.BoundedKept | scripts/make_protocol_readiness.py:265-286 | overwriting a cycle's 0 entry keeps every other finished record's guarantees |
| WeakestLink.AcyclicFinish | scripts/make_protocol_readiness.py:286-288 | without cycles, recording the minimum keeps every memo entry a solution of the equation |
| WeakestLink.ComputeEffective | scripts/make_protocol_readiness.py:246-292 | every record gets a value; it never exceeds the own bits nor any present dependency's value unless a cycle cut it to 0; without cycles the values are the unique solution of the weakest-link equation |
| WeakestLink.SatisfiesExplained | scripts/make_protocol_readiness.py:248 | in a solution a record is at most its own bits and each present dependency, and equals its own bits unless some present dependency has exactly its value |
| WeakestLink.NoPresentDependency | scripts/make_protocol_readiness.py:251-252 | a record whose dependencies are all absent keeps its own bits |
| WeakestLink.ChainExample | scripts/make_protocol_readiness.py:246-253 | a 128-bit record depending on an 80-bit one and on an absent id is capped to 80 |
| WeakestLink.ChainAcyclic | scripts/make_protocol_readiness.py:246-253 | that chain has no cycle, so its solution is the one the scan computes |
| CapReason.FirstCapping | scripts/make_protocol_readiness.py:306-308 | the first dependency in list order that is present and carries the given value, or none such |
| CapReason.FindCapReason | scripts/make_protocol_readiness.py:295-309 | no reason exactly when the record declares no bits or is not capped below them; a named reason is the first present dependency carrying the record's effective bits; the generic marker only when no dependency does |
| CapReason.AcyclicCapNamesDependency | scripts/make_protocol_readiness.py:295-309 | without cycles a capped record is always explained by one of its own present dependencies, never by the generic marker |
| CapReason.GenericCapMeansCycleCut | scripts/make_protocol_readiness.py:295-309 | with cycles, the generic marker appears only for a record that a cycle cut to 0 bits |
| CapReason.FirstHint | scripts/make_protocol_readiness.py:315-317 | the text of the first hint whose prefix the dependency starts with, or none when no prefix matches |
| CapReason.BlockerText | scripts/make_protocol_readiness.py:312-318 | empty exactly for no dependency; a known prefix gives its hint, any other dependency the sentence naming it |
| CapReason.HintTextsNonEmpty | scripts/make_protocol_readiness.py:55-62 | every hint text is non-empty, so a matched hint is visible |
| CapReason.HintsMatchAtMostOnce | scripts/make_protocol_readiness.py:55-62 | no hint prefix is a prefix of another, so a dependency matches at most one hint and their order does not matter |
| CapReason.EnvelopeHint | scripts/make_protocol_readiness.py:56-57 | a dependency under the L1 ECDSA envelope prefix gets the envelope hint |
| VendorBlock.CommitOf | scripts/patch_protocol_readiness_dilithium.py:109 | a non-empty string commit is kept as it is; a falsy one gives the empty text |
| VendorBlock.Short | scripts/patch_protocol_readiness_dilithium.py:111 | the printed commit is the first 11 characters (all when shorter), and empty exactly for an empty commit |
| VendorBlock.PinnedCommitIsFirst | scripts/patch_protocol_readiness_dilithium.py:106-110 | the pinned commit is that of the first bench in table order with a kept row, and empty without one |
| VendorBlock.FirstCommit | scripts/patch_protocol_readiness_falcon.py:73-77 | the commit loop stops at the first bench in order with a kept row |
| VendorBlock.Shown | scripts/patch_protocol_readiness_falcon.py:99-102 | one row per bench in order whose kept row is non-empty, at strictly increasing positions of the bench order, and no other |
| VendorBlock.ShownPositions | scripts/patch_protocol_readiness_falcon.py:99-102 | the positions of the shown benches: in range, strictly increasing, and every showing position among them |
| VendorBlock.CoversExtended | scripts/patch_protocol_readiness_dilithium.py:135-138 | one more bench keeps every shown bench covered |
| VendorBlock.TableRows | scripts/patch_protocol_readiness_dilithium.py:135-138 | the table loop produces exactly the shown rows |
| WeakestLinkReport.RecordId | scripts/report_weakest_link.py:27-29 | two string fields give `scheme::bench_name`; a row with neither gets `unknown::unknown`; a None scheme prints as `None` |
| WeakestLinkReport.PickSecurityBits | scripts/report_weakest_link.py:39-54 | bits exist exactly when the metric type is one of the three bit-like types and the value converts to a finite number |
| WeakestLinkReport.PickSecurityBitsOfInt | scripts/report_weakest_link.py:48-54 | an integer metric value of a bit-like type is taken as is when at most 2^53, and gives nothing at or past the overflow threshold (`float(n)` raises); any other type yields nothing |
| WeakestLinkReport.ById | scripts/report_weakest_link.py:72 | the index holds exactly the ids that occur in the rows |
| WeakestLinkReport.ByIdKeepsLast | scripts/report_weakest_link.py:72 | each id maps to the last row that carries it |
| WeakestLinkReport.LastWithIdExtends | scripts/report_weakest_link.py:72 | a trailing row with another id does not change which row is last for an id |
| WeakestLinkReport.IndexByBench | scripts/report_weakest_link.py:74-78 | the `setdefault(...).append` loop maps every non-empty bench name to all its rows in input order, and holds no other key |
| WeakestLinkReport.BenchIndexStep | scripts/report_weakest_link.py:75-78 | one row extends the index of the rows before it to an index of the rows through it |
| WeakestLinkReport.ByBenchMatches | scripts/report_weakest_link.py:74-78 | an index of all rows is the bench index |
| WeakestLinkReport.BenchNamesStep | scripts/report_weakest_link.py:76-77 | one more row adds its bench name to the names met, when non-empty |
| WeakestLinkReport.NoBenchNoRows | scripts/report_weakest_link.py:76-78 | a bench name that no row carries has no rows |
| WeakestLinkReport.RowsWithBenchMembers | scripts/report_weakest_link.py:76-78 | the rows listed under a bench name are exactly the rows carrying it |
| WeakestLinkReport.CandidatesOf | scripts/report_weakest_link.py:80-88 | the candidates are exactly the input rows with `security_model == "weakest_link"` or a non-empty `depends_on` list |
| WeakestLinkReport.Candidates | scripts/report_weakest_link.py:83-88 | the collection loop yields the candidates in input order |
| WeakestLinkReport.ScalarTexts | scripts/report_weakest_link.py:125 | non-scalar elements are dropped; a list of strings is kept as it is |
| WeakestLinkReport.DepsOf | scripts/report_weakest_link.py:122-125 | a `depends_on` that is not a list names no dependency |
| WeakestLinkReport.Resolve | scripts/report_weakest_link.py:129-140 | the exact id wins; else a bare bench name resolves only when exactly one row carries it; else nothing |
| WeakestLinkReport.RemeasuredBenchIsAmbiguous | scripts/report_weakest_link.py:134-136 | a bench name measured twice, and no exact id, resolves to nothing |
| WeakestLinkReport.RowsWithBenchTwice | scripts/report_weakest_link.py:134-136 | two rows with a bench name put at least two rows under it |
| WeakestLinkReport.DepBitsContains | scripts/report_weakest_link.py:142-144 | a dependency that resolves to a row with bits contributes those bits |
| WeakestLinkReport.DepBits | scripts/report_weakest_link.py:127-144 | at most one bits value per dependency |
| WeakestLinkReport.DepBitsFrom | scripts/report_weakest_link.py:127-144 | every collected value is the bits of a dependency that resolves to a row with bits, and none are collected exactly when no dependency contributes |
| WeakestLinkReport.MinSeq | scripts/report_weakest_link.py:146 | no minimum exactly for no bits; otherwise a member of the bits at most every one of them |
| WeakestLinkReport.EffectiveBits | scripts/report_weakest_link.py:127-146 | the dependency loop yields the minimum of the bits of the dependencies that resolve, or none |
| WeakestLinkReport.Analyse | scripts/report_weakest_link.py:115-147 | one report line per candidate, in input order, each computed from the id and bench indexes of all rows |
| WeakestLinkReport.EffectiveBitsBound | scripts/report_weakest_link.py:101-103 | a line's effective bits exist once any dependency contributes bits, and are at most the bits of each such dependency |
| WeakestLinkReport.EffectiveBitsIsMinimum | scripts/report_weakest_link.py:127-146 | the effective bits are none exactly when no dependency contributes; otherwise they are one contributor's bits and at most every contributor's bits |
| RebuildCsv.PreferredDistinct | scripts/rebuild_results_csv.py:14-22 | no preferred column is listed twice |
| RebuildCsv.NormalizeDependsOn | scripts/rebuild_results_csv.py:24-31 | only `depends_on` changes and it always becomes text: a list its elements' texts joined with `;`, null or missing the empty text, a string itself; every other field is kept |
| RebuildCsv.NormalizeIdempotent | scripts/rebuild_results_csv.py:24-31 | normalising a normalised row changes nothing |
| RebuildCsv.JoinedTextsOfStrings | scripts/rebuild_results_csv.py:27 | a list of strings is joined as those strings, separated by `;` |
| RebuildCsv.NormalizeAll | scripts/rebuild_results_csv.py:52-53 | every kept row is its object with `depends_on` normalised, position by position |
| RebuildCsv.KeysOfMembers | scripts/rebuild_results_csv.py:54 | a key is collected exactly when some row has it |
| RebuildCsv.Filter | scripts/rebuild_results_csv.py:57 | the preferred columns kept are exactly those some row has |
| RebuildCsv.FilterDistinct | scripts/rebuild_results_csv.py:57 | the kept preferred columns have no repetition |
| RebuildCsv.HeaderExact | scripts/rebuild_results_csv.py:56-57 | the header names every key of every row exactly once, and nothing else |
| RebuildCsv.HeaderUnique | scripts/rebuild_results_csv.py:56-57 | the header is determined by the set of keys alone, not by row order |
| RebuildCsv.AllPreferredLead | scripts/rebuild_results_csv.py:57 | when every preferred column occurs, the header starts with all of them in preferred order |
| RebuildCsv.FilterAll | scripts/rebuild_results_csv.py:57 | filtering by a set that holds every preferred column keeps them all |
| RebuildCsv.Cells | scripts/rebuild_results_csv.py:64 | a row has one cell per header column |
| RebuildCsv.CellsKeepFields | scripts/rebuild_results_csv.py:61-64 | no field is dropped: every key of a row has a column whose cell holds the row's value |
| RebuildCsv.CellsDefault | scripts/rebuild_results_csv.py:64 | a column the row lacks holds the empty string |
| RebuildCsv.ReadStep | scripts/rebuild_results_csv.py:40-54 | a blank line changes nothing; an object is normalised, kept and its keys collected |
| RebuildCsv.ReadFails | scripts/rebuild_results_csv.py:44-50 | the first line that is not JSON, or not an object, aborts with its 1-based line number |
| RebuildCsv.ReadDone | scripts/rebuild_results_csv.py:40-54 | after every line the loop holds the normalised objects and the union of their keys |
| RebuildCsv.ReadRows | scripts/rebuild_results_csv.py:37-54 | the reading loop fails exactly where the strict reader fails, with the same line; otherwise it keeps every object normalised, in order, with the union of their keys |
| RebuildCsv.LeadColumns | scripts/rebuild_results_csv.py:57 | the preferred columns some row has, in preferred order |
| RebuildCsv.RestColumns | scripts/rebuild_results_csv.py:56 | the other keys, strictly sorted, each once |
| RebuildCsv.BuildHeader | scripts/rebuild_results_csv.py:56-57 | the header is the preferred keys present in fixed order, then the rest sorted |
| RebuildCsv.WriteRows | scripts/rebuild_results_csv.py:63-64 | one row of cells per object, in order |
| RebuildCsv.Rebuild | scripts/rebuild_results_csv.py:33-64 | the rebuild aborts exactly on the first bad line; otherwise it writes the header of the normalised rows' keys and one row of cells per object, in input order |
| Lex.LessIrreflexive | scripts/make_protocol_readiness.py:236 | no timestamp is newer than itself |
| Lex.LessTransitive | scripts/make_protocol_readiness.py:236 | string order is transitive |
| Lex.LessTotal | scripts/make_protocol_readiness.py:236-241 | any two timestamps are equal or compare one way |
| Lex.LessAsymmetric | scripts/make_protocol_readiness.py:236 | string order is asymmetric |
| Lex.NotLessEq | scripts/make_protocol_readiness.py:236-241 | `not a <= b` exactly when `b < a` |
| Lex.LessEqTransitive | scripts/make_protocol_readiness.py:236-241 | `<=` on strings is transitive |
| Lex.LessEqLess | scripts/make_protocol_readiness.py:236-241 | `a <= b < c` gives `a < c` |
| Lex.LessEqAntisymmetric | scripts/make_protocol_readiness.py:236-241 | `<=` both ways means equal |
| Lex.EmptyLeast | scripts/make_protocol_readiness.py:238 | the empty timestamp is below every other one |
| Lex.Insert | scripts/rebuild_results_csv.py:56 | inserting into a strictly sorted list keeps it strictly sorted and adds exactly the new key |
| Lex.SortedUnique | scripts/rebuild_results_csv.py:56 | a set has only one strictly sorted arrangement |
| Decimal.NatToString | scripts/make_protocol_readiness.py:78 | `str(n)` is digits whose value is `n` |
| Decimal.DigitsValueAppend | scripts/make_protocol_readiness.py:78 | the value of two digit strings put together |
| Decimal.DigitsValueBound | scripts/make_protocol_readiness.py:78 | `k` digits are worth less than `10^k` |
| Decimal.DropDigitsOfShifted | scripts/make_protocol_readiness.py:77-78 | dropping the `k` fraction digits of `v.f` leaves `v` |
| Decimal.IntToStringParses | scripts/make_protocol_readiness.py:78 | `str(n)`, read as a decimal literal, has the exact value `n` |
| Decimal.IntToStringIsInteger | scripts/parse_bench.py:129 | `int(str(n))` is `n` |
| Decimal.DigitsParse | scripts/make_protocol_readiness.py:103 | a plain digit string reads back as its value |
| Decimal.SignedFractionParses | scripts/make_protocol_readiness.py:78 | a signed `digits.frac` literal is read as the signed value of `digits + frac` scaled by its fraction length |
| Decimal.TruncateFraction | scripts/make_protocol_readiness.py:77-78 | the exact value of `±digits.frac` truncates to `±digits` |
| Decimal.SignedFractionTruncates | scripts/make_protocol_readiness.py:77-78 | a signed `digits.frac` literal truncates to its signed integer part |
| Decimal.DecimalTruncates | scripts/make_protocol_readiness.py:76-78 | the exact value of `<n>.<frac>` truncates toward zero to `n`, on both signs |
| Binary64.MaxExactIsPow2 | scripts/make_protocol_readiness.py:78 | every int of at most 2^53 in magnitude is a double exactly, and 2^53 is that bound |
| Binary64.OverflowThresholdIsPow2 | scripts/make_protocol_readiness.py:78 | `float()` overflows from 2^1024 - 2^970 on, the midpoint between the largest double and 2^1024 |
| Binary64.UnderflowScaleIsPow2 | scripts/make_protocol_readiness.py:78 | `float()` rounds to zero at or below 2^-1075, half the smallest subnormal |
| ParseBench.FirstPresent | scripts/parse_bench.py:71-75 | the result is the default or the value of one of the listed keys that is present and not null |
| ParseBench.FirstPresentPicksFirst | scripts/parse_bench.py:71-75 | the first listed key that is present and not null decides, whatever the later keys hold |
| ParseBench.FirstPresentDefault | scripts/parse_bench.py:75 | with none of the keys present, the default is returned |
| ParseBench.GetAny | scripts/parse_bench.py:71-75 | the lookup loop returns the first present value, else the default |
| ParseBench.ProvenanceOverride | scripts/parse_bench.py:78-101 | no override unless `provenance` is an object; each field overrides exactly when it is a non-empty string there |
| ParseBench.Required | scripts/parse_bench.py:117-123 | a truthy top-level value is used as is; otherwise, when `context` is an object, the value found there; otherwise the falsy top-level value |
| ParseBench.Texts | scripts/parse_bench.py:177 | each element becomes its `str()`, position by position |
| ParseBench.DependsOnOut | scripts/parse_bench.py:175-179 | `depends_on` is written exactly for a non-empty list (as its elements' texts) or a string with something besides whitespace (stripped) |
| ParseBench.DependsOnStable | scripts/parse_bench.py:175-179 | writing out a written-out `depends_on` again changes nothing |
| ParseBench.NonEmptyText | scripts/parse_bench.py:164-173 | a passthrough value counts exactly when it is a non-empty string |
| ParseBench.NormalizeRow | scripts/parse_bench.py:104-181 | a record is rejected for a missing scheme or bench name first, then for a gas `int()` refuses, then for a security value `float()` refuses, then for a gas too large for a float divided by a positive security value, each if and only if; otherwise it becomes the row assembled from its integer gas |
| ParseBench.OverrideWins | scripts/parse_bench.py:106-114 | a non-empty override of repository or commit wins over the record's own value and the default; without one the record's value, then the default, is used |
| ParseBench.ProvenanceOnlyWhenGiven | scripts/parse_bench.py:156-160 | the nested provenance is written only when the record supplied an override, with `path` only when it gave one, and repeats the final repository and commit |
| ParseBench.PassthroughRules | scripts/parse_bench.py:167-179 | security model and aggregation mode are copied only when they are non-empty strings; `depends_on` by its own rule |
| ParseBench.SurfaceAliasOrder | scripts/parse_bench.py:163-165 | the surface class comes from `surface_class`, and from `surface` only when the former is missing or null |
| ParseBench.WrittenFixed | scripts/parse_bench.py:141-154 | the fixed keys of the written object hold the row's fields |
| ParseBench.WrittenFixedRest | scripts/parse_bench.py:141-154 | the remaining fixed keys hold the row's fields |
| ParseBench.WrittenProvenance | scripts/parse_bench.py:157-160 | the provenance key is written exactly when the row has one |
| ParseBench.WrittenSurfaceClass | scripts/parse_bench.py:164-165 | the surface class key is written exactly when the row has one |
| ParseBench.WrittenSecurityModel | scripts/parse_bench.py:168-169 | the security model key is written exactly when the row has one |
| ParseBench.WrittenAggregationMode | scripts/parse_bench.py:172-173 | the aggregation mode key is written exactly when the row has one |
| ParseBench.WrittenDependsOn | scripts/parse_bench.py:175-179 | the dependency key is written exactly when the row has one |
| ParseBench.WrittenNoSurface | scripts/parse_bench.py:163-165 | `surface`, an input alias, is never written |
| ParseBench.WrittenNoSecurityValue | scripts/parse_bench.py:141-154 | neither security value key is written |
| ParseBench.NormalizedCanonical | scripts/parse_bench.py:141-181 | every accepted record is written as a canonical row: required fields truthy, optional fields non-empty, provenance consistent |
| ParseBench.WrittenEncodes | scripts/parse_bench.py:141-181 | the written object lays out every field of the row under its canonical key |
| ParseBench.ReingestRequired | scripts/parse_bench.py:117-126 | the required fields of a written row are found again at the top level |
| ParseBench.ReingestNumbers | scripts/parse_bench.py:129-132 | the integer gas of a written row converts back to itself, and the security value reading does not fail |
| ParseBench.DefaultSecurityValueParses | scripts/parse_bench.py:132 | the default `0.0` is a float Python accepts |
| ParseBench.ReingestFixed | scripts/parse_bench.py:128-139 | each fixed field of a written row is read back as itself, under any defaults |
| ParseBench.ReingestProvenance | scripts/parse_bench.py:106-114 | a written row's provenance yields its own repository and commit again |
| ParseBench.ReingestExtras | scripts/parse_bench.py:163-179 | the passthrough fields of a written row are read back as themselves |
| ParseBench.ReingestFrom | scripts/parse_bench.py:104-181 | any object laying out a canonical row normalises to that row |
| ParseBench.ReingestStable | scripts/parse_bench.py:104-181 | a written canonical row, ingested again under any defaults, gives the same row |
| ParseBench.IngestIdempotent | scripts/parse_bench.py:104-181 | ingesting is idempotent: feeding a written row back in, under any defaults, reproduces it |
| ParseBench.NormalizeBatch | scripts/parse_bench.py:310-317 | the batch succeeds exactly when every record normalises, giving their rows in order; otherwise it names the first rejected record and its reason, and nothing is appended |
| ParseBench.OkPrefixStep | scripts/parse_bench.py:313-314 | keeping the next successful outcome extends the rows kept so far |
| SurfaceLayer.LayerFor | scripts/patch_surface_layer.py:18-31 | each layer is chosen exactly when the id starts with one of that layer's prefixes, and none when it starts with none of them |
| SurfaceLayer.PrefixGroupsDisjoint | scripts/patch_surface_layer.py:18-31 | no id starts with prefixes of two layers, so the order of the three tests does not matter |
| SurfaceLayer.SetIfMissing | scripts/patch_surface_layer.py:8-12 | the layer is written, and 1 returned, exactly when it is absent, not a string, or blank; no other row changes |
| SurfaceLayer.RelabelAll | scripts/patch_surface_layer.py:15-31 | every row is replaced by its relabelled self, in order |
| SurfaceLayer.DifferingSelf | scripts/patch_surface_layer.py:14 | identical row lists differ nowhere |
| SurfaceLayer.LayerNotBlank | scripts/patch_surface_layer.py:20-30 | a layer name is never blank |
| SurfaceLayer.WriteLayer | scripts/patch_surface_layer.py:9-10 | writing a non-blank layer into a row that lacks one changes the row, fills its layer, and keeps its surface id |
| SurfaceLayer.RelabelledChanges | scripts/patch_surface_layer.py:15-31 | a row changes exactly when its id names a layer and it has none; afterwards it has one, and its surface id is kept |
| SurfaceLayer.SecondPassChangesNothing | scripts/patch_surface_layer.py:8-31 | the pass is idempotent: a second run changes no row |
| SurfaceLayer.CountStep | scripts/patch_surface_layer.py:20-30 | the count grows by one exactly for a row the pass changes |
| SurfaceLayer.RelabelStep | scripts/patch_surface_layer.py:15 | relabelling one more row extends the relabelled prefix |
| SurfaceLayer.ChangesIffDiffers | scripts/patch_surface_layer.py:8-12 | a row is counted exactly when the pass changes it |
| SurfaceLayer.ChangedCountIsDiffering | scripts/patch_surface_layer.py:14-33 | the reported count is the number of rows at which output and input differ |
| SurfaceLayer.PatchRow | scripts/patch_surface_layer.py:16-31 | one turn relabels its row and counts a change, fails only where stripping the id raises, and leaves the other rows alone |
| SurfaceLayer.PatchLayers | scripts/patch_surface_layer.py:14-34 | after the loop every row is relabelled and the count is the number of changed rows; a row whose id cannot be stripped stops the pass with the rows before it patched and the rest untouched |
| SurfaceLayer.PatchFile | scripts/patch_surface_layer.py:5-34 | a line that is not JSON or not an object stops the script; otherwise it stops exactly when some row's id cannot be stripped, and else writes back every row relabelled with the count of changed rows |
| SurfaceLayer.ProgressStep | scripts/patch_surface_layer.py:15-31 | one more row keeps the loop state: rows so far relabelled and counted, the rest untouched |
| SurfaceLayer.OneChanged | scripts/patch_surface_layer.py:15 | changing one row leaves the rows before and after it as they were |
| SurfaceLayer.ProgressDone | scripts/patch_surface_layer.py:15-33 | after every row, all are relabelled and the count is the number of rows that differ |
| SurfaceIdExact.KeyOf | scripts/patch_surface_id_exact.py:33 | the key exists exactly when both fields strip without raising, and is their stripped texts |
| SurfaceIdExact.Decide | scripts/patch_surface_id_exact.py:28-41 | a row is skipped exactly when its stripped id is not legacy; it is reported when legacy with no mapping; it is rewritten to the mapped id when legacy and mapped |
| SurfaceIdExact.RewriteAll | scripts/patch_surface_id_exact.py:28-41 | every row is replaced by its rewritten self, in order |
| SurfaceIdExact.MissingOf | scripts/patch_surface_id_exact.py:35-37 | at most one unmapped report per row |
| SurfaceIdExact.StripEnds | scripts/patch_surface_id_exact.py:29 | a text with no white space at either end strips to itself |
| SurfaceIdExact.MappedIdsStrip1 | scripts/patch_surface_id_exact.py:7-9 | the first three mapped ids strip to themselves |
| SurfaceIdExact.MappedIdsStrip2 | scripts/patch_surface_id_exact.py:10-12 | the next three mapped ids strip to themselves |
| SurfaceIdExact.MappedIdsStrip3 | scripts/patch_surface_id_exact.py:13-18 | the last three mapped ids strip to themselves |
| SurfaceIdExact.MapValues | scripts/patch_surface_id_exact.py:6-19 | every value of the mapping is one of the nine assigned ids |
| SurfaceIdExact.MappedIdNotLegacy | scripts/patch_surface_id_exact.py:6-19 | no assigned id is empty or legacy |
| SurfaceIdExact.MappedIdStrips | scripts/patch_surface_id_exact.py:6-19 | every assigned id strips to itself |
| SurfaceIdExact.MapIdsFinal | scripts/patch_surface_id_exact.py:34-35 | every key of the mapping looks up its id, which strips to itself and is not legacy |
| SurfaceIdExact.RewriteChanges | scripts/patch_surface_id_exact.py:39-41 | a mapped legacy row always differs from its new id, so it is changed and counted |
| SurfaceIdExact.RewrittenSkipped | scripts/patch_surface_id_exact.py:30-31 | a rewritten row is no longer legacy, so the pass then skips it |
| SurfaceIdExact.RewrittenIs | scripts/patch_surface_id_exact.py:28-41 | a row changes exactly when it is a mapped legacy row, and then only its surface id changes |
| SurfaceIdExact.CountStep | scripts/patch_surface_id_exact.py:33-41 | one more row adds to the count exactly when rewritten and to the report exactly when unmapped |
| SurfaceIdExact.RewriteStep | scripts/patch_surface_id_exact.py:28 | rewriting one more row extends the rewritten prefix |
| SurfaceIdExact.RewriteCountIsDiffering | scripts/patch_surface_id_exact.py:39-41 | the reported count is the number of rows the pass changes |
| SurfaceIdExact.SecondRunChangesNothing | scripts/patch_surface_id_exact.py:21-43 | a second run over the output changes nothing, counts 0 and reports the same unmapped rows |
| SurfaceIdExact.RewriteRow | scripts/patch_surface_id_exact.py:29-41 | one turn decides its row as `Decide` does, rewrites only that row, and leaves it alone where it raises |
| SurfaceIdExact.ProgressStep | scripts/patch_surface_id_exact.py:28-41 | one more row keeps the loop state: rows so far rewritten, counted and reported |
| SurfaceIdExact.ProgressDone | scripts/patch_surface_id_exact.py:28-41 | after every row, all are rewritten, the count is that of the changed rows, and the report lists every unmapped legacy row |
| SurfaceIdExact.RewriteIds | scripts/patch_surface_id_exact.py:21-43 | the loop rewrites every mapped legacy row, counts exactly the changed rows and reports the unmapped ones in order; a row that raises stops the pass with the rows before it done and the rest untouched |
| SurfaceIdExact.RewriteFile | scripts/patch_surface_id_exact.py:21-45 | a line that is not JSON or not an object stops `main`; otherwise it stops exactly when some row raises, and else writes back every row rewritten, with the count of rewrites and the unmapped legacy rows |
| Markers.Splice | scripts/patch_protocol_readiness_dilithium.py:161-166 | the split-and-join splice succeeds exactly when a BEGIN occurs and an END follows it |
| Markers.NoneBeforeFirst | scripts/patch_protocol_readiness_falcon.py:118-133 | the text before a first occurrence holds none |
| Markers.NoneInPrefix | scripts/patch_protocol_readiness_falcon.py:118-133 | a prefix of a text without a marker holds none |
| Markers.IsAtShift | scripts/patch_protocol_readiness_dilithium.py:163-165 | an occurrence inside the middle of `x + b + y` is an occurrence in `b` |
| Markers.FindAcrossBreak | scripts/patch_protocol_readiness_dilithium.py:165-166 | a line break separates occurrences: a one-line marker absent before the break is first found where it is first found after it |
| Markers.NoneUpToBreak | scripts/patch_protocol_readiness_dilithium.py:165-166 | no occurrence of a one-line marker starts at or before the break |
| Markers.ShiftedPastBreak | scripts/patch_protocol_readiness_dilithium.py:165-166 | past the break the occurrences are those of the text after it, shifted |
| Markers.BreakBlocks | scripts/patch_protocol_readiness_dilithium.py:165-166 | a one-line marker cannot start before a break and run over it |
| Markers.JoinAvoids | scripts/patch_protocol_readiness_dilithium.py:158 | a one-line marker found in no line is not found in their join |
| Markers.JoinSnoc | scripts/patch_protocol_readiness_dilithium.py:158 | joining one more line appends a break and the line |
| Markers.JoinHead | scripts/patch_protocol_readiness_dilithium.py:158 | the join starts with its first line |
| Markers.MarkerAvoids | scripts/patch_protocol_readiness_dilithium.py:24-25 | a marker that does not start with another holds no occurrence of it |
| Markers.FrameFramed | scripts/patch_protocol_readiness_dilithium.py:122-158 | the block the scripts build starts with BEGIN and its first END is its end, when no body line holds END |
| Markers.FrameSplit | scripts/patch_protocol_readiness_dilithium.py:158 | the block is BEGIN, a break, and the body lines and END joined |
| Markers.TailEndsOnce | scripts/patch_protocol_readiness_dilithium.py:157-158 | the joined body lines and END hold END only at their end |
| Markers.FrameEndsOnce | scripts/patch_protocol_readiness_dilithium.py:122-158 | the END closing a built block is the first END in it |
| Markers.FindBeginFramed | scripts/patch_protocol_readiness_dilithium.py:163 | with no BEGIN before a framed block, the block's BEGIN is the one found, whatever follows |
| Markers.SpliceFramed | scripts/patch_protocol_readiness_falcon.py:118-133 | splicing into a text holding a framed block replaces exactly that block |
| Markers.SpliceStable | scripts/patch_protocol_readiness_falcon.py:118-133 | re-splicing the block a splice produced changes nothing |
| Markers.NoneAfterBreak | scripts/patch_protocol_readiness_dilithium.py:166 | appending a break adds no occurrence of a one-line marker |
| Markers.FindBothFramed | scripts/patch_protocol_readiness_dilithium.py:163-164 | with neither marker before a closed block, the first of each marker is the block's |
| Markers.FrameClosed | scripts/patch_protocol_readiness_dilithium.py:122-158 | a built block whose body lines hold no END is closed: BEGIN first and END only at its end |
| PatchDilithium.MarkersWellFormed | scripts/patch_protocol_readiness_dilithium.py:24-25 | both markers are one-line HTML comments and neither contains the other |
| PatchDilithium.CountsOf | scripts/patch_protocol_readiness_dilithium.py:87-93 | a line counts for a bench exactly when it is a row of the vendor repository, scheme `dilithium`, for that bench |
| PatchDilithium.TsOf | scripts/patch_protocol_readiness_dilithium.py:95 | every line's timestamp as text, empty when missing |
| PatchDilithium.LatestForBench | scripts/patch_protocol_readiness_dilithium.py:76-102 | a decoded non-object aborts the run; otherwise nothing is kept exactly when no row counts, and the kept row has the greatest timestamp, the last of equal non-empty ones and the first when all are empty |
| PatchDilithium.StepSkip | scripts/patch_protocol_readiness_dilithium.py:87-92 | a line that does not count leaves the scan state |
| PatchDilithium.StepTake | scripts/patch_protocol_readiness_dilithium.py:95-98 | a counting row with a non-empty timestamp not older than the kept one, or the first counting row, becomes the kept row |
| PatchDilithium.StepKeep | scripts/patch_protocol_readiness_dilithium.py:96 | a counting row with an empty or older timestamp is passed over |
| PatchDilithium.LatestUnique | scripts/patch_protocol_readiness_dilithium.py:76-102 | at most one row is the latest: the selection is well defined |
| PatchDilithium.LatestHasTimestamp | scripts/patch_protocol_readiness_dilithium.py:96 | a timestamped row beats every row without one |
| PatchDilithium.PickAll | scripts/patch_protocol_readiness_dilithium.py:180-184 | the picked benches are exactly the section's benches with a counting row, each with its latest row; a non-object line aborts |
| PatchDilithium.NoteFor | scripts/patch_protocol_readiness_dilithium.py:114-120 | a fixed note exists exactly for the section's two benches |
| PatchDilithium.JoinNotes | scripts/patch_protocol_readiness_dilithium.py:144-147 | both the recorded notes and the fixed note survive, the fixed one last, with no separator when either is empty |
| PatchDilithium.SecurityModelCell | scripts/patch_protocol_readiness_dilithium.py:143 | `security_model`, else `security_model_type`, else `standalone` |
| PatchDilithium.BuildSection | scripts/patch_protocol_readiness_dilithium.py:105-158 | the section pins the first picked bench's commit, shortened; it shows the placeholder row exactly when nothing was picked, else one row per shown bench in order |
| PatchDilithium.FirstRunShape | scripts/patch_protocol_readiness_dilithium.py:161-166 | both upserts of an ordered report give a marker-free prefix, the block, and the old text after END |
| PatchDilithium.UpsertAsWritten | scripts/patch_protocol_readiness_dilithium.py:161-166 | with both markers: the text before BEGIN, the block, then everything after END; otherwise the text right-stripped, a blank line and the block |
| PatchDilithium.Upsert | scripts/patch_protocol_readiness_dilithium.py:161-166 | the corrected upsert: the same, but the line break right after END is dropped |
| PatchDilithium.SplitAt | scripts/patch_protocol_readiness_dilithium.py:163-164 | in a report holding a closed block after a marker-free prefix, the markers found are the block's |
| PatchDilithium.UpsertAt | scripts/patch_protocol_readiness_dilithium.py:161-166 | upserting a block into a report holding that block: as written adds a line break, corrected gives the report back |
| PatchDilithium.AsWrittenGrowsFor | scripts/patch_protocol_readiness_dilithium.py:161-166 | as written, rerunning on the report a run produced never leaves it unchanged |
| PatchDilithium.AsWrittenGrows | scripts/patch_protocol_readiness_dilithium.py:161-166 | the as-written upsert with the real markers grows the report on every rerun |
| PatchDilithium.UpsertRerunFor | scripts/patch_protocol_readiness_dilithium.py:161-166 | the corrected upsert is idempotent |
| PatchDilithium.UpsertOrderedFor | scripts/patch_protocol_readiness_dilithium.py:161-166 | the corrected upsert leaves a report holding both markers in order |
| PatchDilithium.ShapeOrdered | scripts/patch_protocol_readiness_dilithium.py:161-166 | a marker-free prefix followed by a closed block is an ordered report holding BEGIN |
| PatchDilithium.UpsertRerun | scripts/patch_protocol_readiness_dilithium.py:161-196 | rerunning the script with the same measurements leaves the report as the first run left it, with both markers in order |
| PatchDilithium.UpsertsAgree | scripts/patch_protocol_readiness_dilithium.py:161-166 | where the text after the old END does not start a new line, the corrected upsert equals the one written |
| PatchFalcon.MarkersWellFormed | scripts/patch_protocol_readiness_falcon.py:9-10 | both markers are one-line HTML comments and neither contains the other |
| PatchFalcon.Decoded | scripts/patch_protocol_readiness_falcon.py:40-52 | the values kept are exactly those of the lines that decode, at most one per line |
| PatchFalcon.ReadJsonl | scripts/patch_protocol_readiness_falcon.py:40-52 | the reading loop keeps the decoded values in order, skipping blank and undecodable lines |
| PatchFalcon.QaRows | scripts/patch_protocol_readiness_falcon.py:141 | the filter fails exactly when a decoded value is not an object; otherwise it keeps exactly the QuantumAccount Falcon rows |
| PatchFalcon.ParseTsCases | scripts/patch_protocol_readiness_falcon.py:54-62 | a missing or empty timestamp is `datetime.min`; a trailing `Z` reads as `+00:00`; an unparsable one is `datetime.min` |
| PatchFalcon.ParseTs | scripts/patch_protocol_readiness_falcon.py:54-62 | a non-string or empty timestamp is `datetime.min`; a parsable text without `Z` is its parse; any result other than `datetime.min` is the parse of the text or, for a trailing `Z`, of the text with `+00:00` in its place |
| PatchFalcon.Candidates | scripts/patch_protocol_readiness_falcon.py:65 | the candidates are exactly the rows for the bench |
| PatchFalcon.StampsOf | scripts/patch_protocol_readiness_falcon.py:68 | each candidate's parsed timestamp, position by position |
| PatchFalcon.FirstMax | scripts/patch_protocol_readiness_falcon.py:68-69 | the position a stable descending sort puts first: no later timestamp anywhere, and every earlier position strictly earlier |
| PatchFalcon.SecondsOf | scripts/patch_protocol_readiness_falcon.py:68 | each stamp's seconds, position by position |
| PatchFalcon.PickLatestAsWritten | scripts/patch_protocol_readiness_falcon.py:64-69 | as written: no candidate gives none, and the sort raises exactly when naive and aware timestamps are mixed |
| PatchFalcon.MissingTimestampRaises | scripts/patch_protocol_readiness_falcon.py:54-69 | a `Z`-timestamped row and an undated row for one bench make the pick raise instead of choosing the dated row |
| PatchFalcon.BothCandidates | scripts/patch_protocol_readiness_falcon.py:65 | two rows for a bench are both candidates, in order |
| PatchFalcon.PickLatest | scripts/patch_protocol_readiness_falcon.py:64-69 | the corrected pick gives none exactly without candidates, else an input row for that bench |
| PatchFalcon.PickLatestIsLatest | scripts/patch_protocol_readiness_falcon.py:68-69 | the corrected pick is the first candidate with the latest timestamp |
| PatchFalcon.PicksAgree | scripts/patch_protocol_readiness_falcon.py:64-69 | wherever the script as written does not raise, the corrected pick is its pick |
| PatchFalcon.PickAll | scripts/patch_protocol_readiness_falcon.py:143-147 | the picked benches are exactly the section's benches with a candidate, each with its latest row by the corrected pick (`PatchFalcon.PickLatest`), not the raising sort as written |
| PatchFalcon.BuildSection | scripts/patch_protocol_readiness_falcon.py:71-116 | the section pins the first picked bench's commit, shortened, and shows one row per bench in order with a non-empty kept row |
| PatchFalcon.RepoAt | scripts/patch_protocol_readiness_falcon.py:79 | the repository alone without a commit, and ending in `@` and the commit with one |
| PatchFalcon.UpsertFor | scripts/patch_protocol_readiness_falcon.py:118-134 | the upsert fails exactly when both markers occur but no END follows the first BEGIN |
| PatchFalcon.Upsert | scripts/patch_protocol_readiness_falcon.py:118-134 | fails exactly when both markers occur and the splice fails; with both markers it is the splice; with neither markers nor anchors the report is kept as a prefix and ends with the block on its own line |
| PatchFalcon.UpsertShape | scripts/patch_protocol_readiness_falcon.py:118-134 | each of the four ways leaves the block after a prefix holding no BEGIN, unless the report had a BEGIN without END |
| PatchFalcon.SpliceShape | scripts/patch_protocol_readiness_falcon.py:120-123 | a splice leaves the block after a prefix holding no BEGIN |
| PatchFalcon.BeforeShape | scripts/patch_protocol_readiness_falcon.py:126-127 | insertion before the Dilithium anchor leaves the block after a prefix holding no BEGIN |
| PatchFalcon.AfterShape | scripts/patch_protocol_readiness_falcon.py:129-130 | insertion after the ML-DSA anchor leaves the block after a prefix holding no BEGIN |
| PatchFalcon.AppendShape | scripts/patch_protocol_readiness_falcon.py:133-134 | appending leaves the block after a prefix holding no BEGIN |
| PatchFalcon.UpsertAt | scripts/patch_protocol_readiness_falcon.py:120-123 | upserting a block into a text holding it after a BEGIN-free prefix changes nothing |
| PatchFalcon.UpsertRerun | scripts/patch_protocol_readiness_falcon.py:118-153 | rerunning with the same measurements leaves the report as the first run left it, unless it held a BEGIN without END |
| PatchMldsa.MarkersWellFormed | scripts/patch_protocol_readiness_mldsa.py:9-10 | both markers are one-line HTML comments and neither contains the other |
| PatchMldsa.PickLatestByTs | scripts/patch_protocol_readiness_mldsa.py:42-57 | only wanted benches are kept; a bench is kept exactly when some row names it with scheme `mldsa65`; its row has no eligible row with a greater timestamp string and is the first among equals |
| PatchMldsa.PickLatestFromLines | scripts/patch_protocol_readiness_mldsa.py:19-57 | a line that is not JSON or not an object aborts the run; otherwise the picks are those of `_pick_latest_by_ts` over the decoded rows |
| PatchMldsa.PickStep | scripts/patch_protocol_readiness_mldsa.py:46-56 | one row of the scan (taken, replacing, or passed over) keeps the scan's state: benches seen, and each kept row the pick so far |
| PatchMldsa.PickStateDone | scripts/patch_protocol_readiness_mldsa.py:57 | after the last row, every kept bench is wanted and its row is the pick among all rows |
| PatchMldsa.SeenStep | scripts/patch_protocol_readiness_mldsa.py:46-52 | a bench has been seen after one more row exactly when it had been seen before or that row counts for it |
| PatchMldsa.KeepsPick | scripts/patch_protocol_readiness_mldsa.py:55 | a row that does not count for the bench, or whose timestamp is not greater, leaves the pick in place |
| PatchMldsa.NewerPick | scripts/patch_protocol_readiness_mldsa.py:55-56 | a counting row with a strictly greater timestamp becomes the pick |
| PatchMldsa.PresenceStep | scripts/patch_protocol_readiness_mldsa.py:55-56 | storing a row under the one bench it counts for keeps "kept exactly when seen" |
| PatchMldsa.PresenceKept | scripts/patch_protocol_readiness_mldsa.py:55 | a row whose bench is already kept adds no bench |
| PatchMldsa.PicksStep | scripts/patch_protocol_readiness_mldsa.py:55-56 | storing a new pick for one bench leaves every other bench's pick standing |
| PatchMldsa.PicksKeep | scripts/patch_protocol_readiness_mldsa.py:55 | a row no newer than its bench's pick leaves every pick standing |
| PatchMldsa.OthersKept | scripts/patch_protocol_readiness_mldsa.py:55-56 | a stored pick for one bench keeps the whole scan state |
| PatchMldsa.StepNew | scripts/patch_protocol_readiness_mldsa.py:55-56 | the first counting row for a bench becomes its pick |
| PatchMldsa.StepReplace | scripts/patch_protocol_readiness_mldsa.py:55-56 | a counting row newer than the pick replaces it and the scan state holds |
| PatchMldsa.StepKeep | scripts/patch_protocol_readiness_mldsa.py:55 | a counting row not newer than the pick is passed over and the scan state holds |
| PatchMldsa.StepSkip | scripts/patch_protocol_readiness_mldsa.py:48-52 | a row counting for no bench is passed over and the scan state holds |
| PatchMldsa.EligibleOnlyFor | scripts/patch_protocol_readiness_mldsa.py:48-52 | a row counts for the bench it names and no other |
| PatchMldsa.EligibleOnce | scripts/patch_protocol_readiness_mldsa.py:48-52 | a row counts for at most one bench |
| PatchMldsa.PickUnique | scripts/patch_protocol_readiness_mldsa.py:55 | the pick for a bench is unique |
| PatchMldsa.EnsureMarkersFor | scripts/patch_protocol_readiness_mldsa.py:59-78 | refused exactly when BEGIN is present without END; with neither marker the result is the text ending in a line break, a blank line, and the two markers on their own lines; otherwise unchanged |
| PatchMldsa.EnsureMarkers | scripts/patch_protocol_readiness_mldsa.py:59-78 | the same three cases for the ML-DSA-65 markers |
| PatchMldsa.PatchBetweenFor | scripts/patch_protocol_readiness_mldsa.py:163-172 | succeeds exactly when both markers are found and the first BEGIN is not after the first END |
| PatchMldsa.PatchBetweenMarkers | scripts/patch_protocol_readiness_mldsa.py:163-172 | the same condition for the ML-DSA-65 markers |
| PatchMldsa.Patch | scripts/patch_protocol_readiness_mldsa.py:191-195 | BEGIN without END is refused by the scaffolding, END without BEGIN by the patch, and with both markers the result is the patch between them |
| PatchMldsa.RStripAppended | scripts/patch_protocol_readiness_mldsa.py:169 | `rstrip("\n")` removes exactly the line breaks appended to a text not ending in one |
| PatchMldsa.LStripPrepended | scripts/patch_protocol_readiness_mldsa.py:170 | `lstrip("\n")` removes exactly the line breaks put before a text not starting with one |
| PatchMldsa.PrefixClean | scripts/patch_protocol_readiness_mldsa.py:169 | the stripped text before the first BEGIN, with its blank line, contains neither marker |
| PatchMldsa.PatchedShape | scripts/patch_protocol_readiness_mldsa.py:163-172 | a patched report is a marker-free prefix, a blank line, the block, a blank line, and a suffix starting without a line break |
| PatchMldsa.ReplacedParts | scripts/patch_protocol_readiness_mldsa.py:169-172 | the replacement regrouped as prefix, block and suffix |
| PatchMldsa.PatchAt | scripts/patch_protocol_readiness_mldsa.py:163-172 | with the markers at known positions, the patch replaces BEGIN through the end of END |
| PatchMldsa.StripSeams | scripts/patch_protocol_readiness_mldsa.py:169-170 | the blank lines a patch adds around the block are what a later patch strips |
| PatchMldsa.Reassemble | scripts/patch_protocol_readiness_mldsa.py:172 | the joined pieces regroup around the block |
| PatchMldsa.PatchedMarkers | scripts/patch_protocol_readiness_mldsa.py:164-165 | in a patched report the first BEGIN and first END found are the block's own |
| PatchMldsa.PatchFixes | scripts/patch_protocol_readiness_mldsa.py:163-172 | patching a report already holding the block gives it back unchanged |
| PatchMldsa.ReplacedFixed | scripts/patch_protocol_readiness_mldsa.py:169-172 | replacing a block by itself in a patched report changes nothing |
| PatchMldsa.PatchIdempotentFor | scripts/patch_protocol_readiness_mldsa.py:163-172 | patching twice with the same block is patching once, for any well-formed marker pair |
| PatchMldsa.PatchIdempotent | scripts/patch_protocol_readiness_mldsa.py:163-172 | patching twice with the same section is patching once, when no body line contains the END marker |
| PatchMldsa.ScaffoldClosed | scripts/patch_protocol_readiness_mldsa.py:75 | the appended marker pair is a block with BEGIN first and END last |
| PatchMldsa.ScaffoldShape | scripts/patch_protocol_readiness_mldsa.py:70-75 | scaffolding succeeds on a report with neither marker and appends the pair after a marker-free prefix |
| PatchMldsa.ScaffoldRegroup | scripts/patch_protocol_readiness_mldsa.py:75 | the appended text regroups as a line break, the pair, and a line break |
| PatchMldsa.ScaffoldedPatchesFor | scripts/patch_protocol_readiness_mldsa.py:192-195 | a report with neither marker is scaffolded and then patched without refusal |
| PatchMldsa.ScaffoldedPatches | scripts/patch_protocol_readiness_mldsa.py:192-195 | the same for the ML-DSA-65 section: `main` never refuses such a report |
| PatchMldsa.PatchedKeepsMarkers | scripts/patch_protocol_readiness_mldsa.py:59-78 | a patched report holds both markers, so a later scaffolding step leaves it alone |
| PatchMldsa.PatchRerun | scripts/patch_protocol_readiness_mldsa.py:174-198 | running the script a second time with the same measurements leaves the report as the first run left it |
| PatchMldsa.ShortCommit | scripts/patch_protocol_readiness_mldsa.py:143 | the commit shown is the first 12 characters of the row's commit text, or all of it when it is shorter |
| PatchMldsa.TableRows | scripts/patch_protocol_readiness_mldsa.py:133-158 | one row per wanted bench in order; a placeholder exactly when the bench has no kept row or it is empty, otherwise that kept row |
| PatchMldsa.PackSource | scripts/patch_protocol_readiness_mldsa.py:100-119 | the first wanted bench whose kept row has a truthy vector-pack reference; none when no kept row has one |

## Left out

- File reading and writing, command-line arguments and everything the scripts print: inputs are values (lines already read, report text) and outputs are returned.
- JSON decoding: each line of a JSON-lines file arrives already classified as blank, malformed or a decoded value (`Jsonl.Line`).
- Floating-point arithmetic: a JSON float is kept as the text Python's `repr` gives it. `float()` is modelled on the exact decimal value of a literal, with the binary64 range (overflow to an infinity at 2^1024 - 2^970, underflow to zero at or below 2^-1075) and `inf`/`nan`, but without rounding to the nearest double.
- PyValues.AsInt: `int(float(str(x)))` truncates the exact decimal value, not the nearest double, so a literal past 2^53 or with more than fifteen significant digits can differ from Python (`_as_int("9007199254740993")` is 9007199254740992 in Python, `_as_int("0.99999999999999999")` is 1); `_` digit separators and non-ASCII digits are not accepted.
- PyValues.TruncText: the same rounding gap as `PyValues.AsInt`; the overflow to infinity and the `nan`/`inf` failures are modelled.
- PyValues.FloatText: no rounding to the nearest double, and no `_` separators or non-ASCII digits.
- PyValues.FloatOf: an int is converted exactly rather than rounded once it is past 2^53; the `OverflowError` past the overflow threshold is modelled.
- PyValues.PyInt: `int()` of a string accepts ASCII digits only, not `_` separators or non-ASCII digits.
- PyValues.AsIntOfIntText: promised only up to 2^53, where Python's round trip through a double is exact.
- PyValues.AsIntOfDecimalText: promised only for at most fifteen digits, where a double keeps every digit.
- PyValues.AsIntOfDigits: promised only up to 2^53.
- ReadinessRecord.NotesCapRoundTrip: promised only for a cap of at most 2^53; past the overflow threshold `ReadinessRecord.NotesCapOverflow` states the failure, and in between Python rounds.
- ReadinessRecord.NotesCapFallback: promised only for a cap of at most 2^53, as above.
- WeakestLinkReport.PickSecurityBitsOfInt: promised only up to 2^53 and from the overflow threshold on; in between Python rounds the int to a double.
- Decimal.IntToStringParses: states the exact decimal value of `str(n)`; that a double holds it exactly is `PyValues.AsIntOfIntText`, up to 2^53.
- Decimal.DecimalTruncates: states the truncation of the exact decimal value; `PyValues.AsIntOfDecimalText` carries it to `_as_int` for at most fifteen digits.
- Dedup.Key: hash keys merge `1`, `1.0` and `True` and every float equal to an int of at most 2^53; a float past 2^53 is not merged with the equal int, and two `nan` fields, which never compare equal in Python, share one key in the model.
- PyValues.Render: characters other than the ones listed in `PyValues.HexEscaped` that `repr` shows as `\u`/`\U` escapes (non-printable characters beyond Latin-1) are written as they are.
- WeakestLinkReport.PickSecurityBits: the bits are truncated to an int, and `inf`/`nan` count as no bits; the script keeps the float itself, so the min it reports may carry a fraction the model drops.
- ParseBench.NormalizeRow: `security_metric_value` and `gas_per_secure_bit` are floats computed by the script and are not part of the written row; only the `float()` refusal and the `OverflowError` of the gas division that abort a record are modelled. `int()` and `float()` accept what `PyValues.PyInt` and `PyValues.FloatText` accept.
- ReadinessRecord.DigitRun: `\d` is taken as the ASCII digits; Python's `\d` on text also matches other Unicode decimal digits (full-width `１２８`), which `_as_int` would then accept, so such a notes cap is found by the script and not by the model.
- ReadinessRecord.EffAt: inherits the ASCII-only digits of `ReadinessRecord.DigitRun`.
- PatchMldsa.PickLatestFromLines: when a line that is not an object comes before a line that is not JSON, the script raises on the JSON line (it decodes the whole file first) and the model names the earlier line; either way nothing is written.
- SurfaceLayer.PatchFile: the model reports a bad line before any row whose id cannot be stripped, while the script raises at whichever of a non-object row and such a row comes first; either way nothing is written.
- SurfaceIdExact.RewriteFile: the same ordering of the two aborts as `SurfaceLayer.PatchFile`; either way nothing is written.
- Markdown text of the reports (`_fmt_*` helpers, the headings, the `gpb192` column, `notes[:90]`, the vector-pack lines): the sections are modelled as sequences of table rows plus the marker framing, with the row and commit selection in full.
- `datetime.fromisoformat` in the Falcon patcher is the parameter `fromIso` (its parsing rules are not modelled); a datetime is a count of seconds, naive or aware (`PatchFalcon.Stamp`), without sub-second precision.
- The git commit, the clock and the repository name that `parse_bench.py` falls back to are the `Defaults` parameter.
- `parse_input`, `regen_csv_from_jsonl` and `_normalize_provenance_for_csv` of `parse_bench.py` (raw tool-log parsing and CSV regeneration) are not part of this model.
- The raw object a readiness record keeps as `meta` is only displayed, and is not kept in `ReadinessRecord.Record`.

## Findings

| source | as written | input that shows it | evidently intended | confidence | as-written member | corrected member |
|---|---|---|---|---|---|---|
| scripts/patch_protocol_readiness_dilithium.py:161-166 | `_upsert_block` keeps everything after the END marker, including the line break after it, while the block itself ends with END and a line break | any report that already holds the section: every rerun adds one more line break after the section | rerunning with the same block leaves the report as it is | high (proved; not executed) | PatchDilithium.AsWrittenGrows | PatchDilithium.UpsertRerun |
| scripts/patch_protocol_readiness_falcon.py:54-69 | `_parse_ts` turns a missing or unparsable timestamp into the naive `datetime.min`, while a `Z` timestamp parses to an aware datetime | two candidate rows for one bench, one with `ts_utc` missing and one with `2025-01-01T00:00:00Z`: the sort compares naive with aware and raises `TypeError` | a missing timestamp ranks lowest and the latest row is picked | high (proved; not executed) | PatchFalcon.MissingTimestampRaises | PatchFalcon.PickLatestIsLatest |
