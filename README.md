# hyperbee-diff-stream: the merge-join reconciler, in Dafny

This project models `getDiffs` from `index.js` of hyperbee-diff-stream, in its early form. `getDiffs` computes the logical diff between two snapshots of a Hyperbee whose history past a checkpoint may have been rewritten. The checkpoint is the old snapshot's indexed length. The function takes two directional diff streams, both starting at that checkpoint:

- the **undo** stream of the old snapshot;
- the **apply** stream of the new snapshot.

It merges them with a sorted union. Records are ordered by unsigned lexicographic comparison of their key bytes. A `map` callback decides what each key yields.

The model is pure, as the source is:

- `wrappers.dfy`: `Option`, standing for a present object or JavaScript's `null`.
- `bytes.dfy` (module `Bytes`): byte strings. `Compare` models `b4a.compare`, `Equals` models `b4a.equals`, and `Less` is the merge order. The lemmas prove `Less` is a strict total order and agrees with an independent prefix/first-difference definition, `LexLess`.
- `entries.dfy` (module `Entries`): the two record types. `Entry` is `{seq, key, value}` and `DiffEntry` is `{seq, left, right}`; the field `seq` is spelled `seqNo` because `seq` is a keyword in Dafny. The module also has `getKey` (`GetKey`), `areEqual` (`AreEqual`), the reversal of line 32 (`Swap`), and the callback's answer type `MapResult`, which is `null` (`Suppressed`), a record (`Emit`) or a boolean (`Flag`).
- `union.dfy` (module `SortedUnion`): the sorted union as a recursive merge of two sequences, generic in the `map` callback. `UnionKeys` is a ghost trace giving the key of each yielded value. `UnionIsKeywise` is the main theorem. On two strictly ascending streams, the union yields, in strictly ascending key order and so at most once per key, exactly the keys of either stream whose `map` answer is not `null`. Each key comes with that answer, computed from the records the two streams hold for it.
- `diffs.dfy` (module `DiffStream`): the `map` callback (`Reconcile`), `getDiffs` (`GetDiffs`), what they yield key by key, and these properties:
  - the records are sorted;
  - with an empty undo stream, the output is the apply stream itself;
  - a stream diffed against itself yields nothing;
  - exchanging the two streams reverses every output;
  - the finding about line 36, below.

Later forms of this component differ from this code in three places. The model follows this code:

- When both streams changed a key, the later form compares the two current values and emits the new one. The code compares both sides and, on any difference, returns the boolean `rightEq` (index.js:36).
- The later form takes the checkpoint as the minimum of both snapshots' confirmed lengths. The code uses the old snapshot's indexed length only.
- The later form drops candidates whose old and new values are identical. The code has no such filter.

## Model

| member | source | states |
|---|---|---|
| `Bytes.Compare` | index.js:28 | the comparator answers -1, 0 or 1, and 0 exactly when the two key byte strings are equal |
| `Bytes.CompareAntisymmetric` | index.js:28 | comparing in the other order negates the answer |
| `Bytes.LessTransitive` | index.js:28 | the order `compare(a, b) < 0` is transitive |
| `Bytes.LessIsStrictTotalOrder` | index.js:28 | the merge order on keys is irreflexive, asymmetric, transitive, and relates any two distinct keys one way or the other |
| `Bytes.LessIsLexLess` | index.js:28 | `compare` answers -1 exactly when the first key is a proper prefix of the second, or has the smaller unsigned byte at the first difference |
| `Bytes.Equals` | index.js:12 | `b4a.equals` on values holds exactly when the two byte sequences are equal |
| `Bytes.Less` | index.js:28 | the merge order `compare(a, b) < 0` relates only distinct keys; when it holds, comparing the other way is positive; on distinct keys where it fails, the other way holds (with `LessTransitive` and `LessIsStrictTotalOrder`, a strict total order) |
| `Entries.GetKey` | index.js:4-7 | `getKey` answers the left entry's key when there is a left entry, and otherwise the right entry's key; it needs at least one side present |
| `Entries.AreEqual` | index.js:9-13 | `areEqual` holds for two nulls, fails when exactly one side is null, and otherwise is byte equality of the values (seq and key are not compared) |
| `Entries.AreEqualSymmetric` | index.js:9-13 | `areEqual` is symmetric |
| `Entries.Swap` | index.js:32 | reversing a record keeps it keyed exactly when it was keyed |
| `Entries.SwapInvolution` | index.js:32 | reversing a record twice gives the record back |
| `Entries.SwapKeepsKey` | index.js:32 | a reversed record has the same `getKey` as the original when its two sides name the same key |
| `SortedUnion.Order` | index.js:28 | the step's comparison: 0 only on equal head keys; negative only when the old head is smaller or the new stream is exhausted; positive symmetrically |
| `SortedUnion.OrderAntisymmetric` | index.js:28 | comparing the two heads the other way round negates the step's comparison |
| `SortedUnion.Union` | index.js:24-41 | the union never yields a `null` answer of `map`, and yields at most one value per input record |
| `SortedUnion.UnionKeys` | index.js:24-41 | there is exactly one trace key per value the union yields |
| `SortedUnion.Lookup` | index.js:24-41 | the record found for a key is a record of the stream with that `getKey`; none is found only when no record has that key |
| `SortedUnion.UnionIsKeywise` | index.js:24-41 | on strictly ascending streams the union yields strictly ascending keys; each yielded value is `map(old record for the key, new record for the key)` for a key of either stream; every key whose `map` answer is not `null` is yielded |
| `DiffStream.Reconcile` | index.js:29-39 | the `map` callback answers `null` exactly when both records are absent or both are present with both sides byte-equal; it answers a record only when one side of the merge is absent: the apply record itself when the undo stream has none, the undo record reversed (same seq) when the apply stream has none; otherwise it answers the boolean `rightEq` (what each case yields per key is `GetDiffsKeywise`) |
| `DiffStream.GetDiffs` | index.js:15-44 | the diff stream never yields `null` and yields at most one value per input record (its key-by-key meaning is `GetDiffsKeywise`, its symmetry `GetDiffsSymmetric`) |
| `DiffStream.GetDiffsKeywise` | index.js:29-38 | key by key: a key only in the apply stream yields exactly its record; a key only in the undo stream yields the record reversed with the undo seq; a key in both yields `Flag(rightEq)` if the records differ and nothing if both sides are byte-equal; keys ascend and none is missed |
| `DiffStream.GetDiffsRecordsAscending` | index.js:24-41 | the records yielded are strictly ascending by `getKey`, so there is at most one per key, when undo records name one key on both sides |
| `DiffStream.ForwardDiff` | index.js:30 | with an empty undo stream the output is the apply stream record for record, the forward diff that test/complex.js compares against |
| `DiffStream.SelfDiffEmpty` | index.js:34-38 | a stream merged with itself yields nothing, because every key converges |
| `DiffStream.Reverse` | index.js:32 | the reversal of an output keeps its kind |
| `DiffStream.GetDiffsSymmetric` | index.js:29-38 | exchanging the undo and apply streams yields the same number of values, each reversed, with seq numbers kept |
| `DiffStream.DivergentEditYieldsFlag` | index.js:34-36 | a key both histories moved from a shared checkpoint value to different current values yields `true` and not a record |
| `DiffStream.DivergentEditExample` | index.js:36 | a concrete instance: checkpoint "1", an old edit to "2" and a new edit to "3" yield just `[true]` |
| `DiffStream.ReconcileIntended` | index.js:29-39 | with line 36 corrected, the callback never answers a boolean; it answers `null` exactly as the code does; any record it answers has the new snapshot's entry on the left (the apply record's left, else the undo record's checkpoint side) and the old snapshot's entry on the right, and carries the apply record's seq when there is one, else the undo record's |
| `DiffStream.GetDiffsIntended` | index.js:15-44 | with line 36 corrected, the diff stream yields change records only, at most one per input record |
| `DiffStream.IntendedYieldsRecords` | index.js:24-41 | with line 36 corrected, every value the union yields is a change record, for all keyed streams |
| `DiffStream.GetDiffsIntendedStates` | index.js:29-38 | with line 36 corrected, every output is a record from the key's entry in the old snapshot (right) to its entry in the new snapshot (left), in ascending key order; no key is missed; exactly the converged keys are dropped |

## Left out

- Snapshot creation and re-encoding to binary keys and values (index.js:17-18) are calls into Hyperbee. So are reading `core.indexedLength` (index.js:20) and `createDiffStream` (index.js:21-22). Their results, the two streams, are the inputs to `GetDiffs`. The checkpoint appears only in the meaning given to each record's sides.
- The union library is not part of this model. Its streaming, backpressure and asynchronous reads are left out. Its merge semantics are modelled as a recursive walk over two sequences. The model assumes the library drops only `null` answers of `map` and yields every other answer, including `false`.
- `Union`: requires every record of both streams to have at least one side. In the source, `getKey` throws a TypeError on a record with neither side, but only when that record reaches `compare`. The model does not reproduce that error path. Directional diff streams never produce such a record.
- `Entries.Entry`: values are byte strings. A `null` value, on which `b4a.equals` would fail, is not modelled.
- Range bounds, key and value codecs, decoding of results, snapshot closing, and the identical-value filter belong to the later form of the component and are not in this code.
- The test files, the example, Autobase replication, timing, and console output are I/O and integration plumbing and are out of scope. Only the equality assertion of test/complex.js:55 informs a property (`ForwardDiff`).

## Findings

| source | as written | input that shows it | evidently intended | confidence | as-written member | corrected member |
|---|---|---|---|---|---|---|
| index.js:36 | when a key changed in both histories and the records differ, `map` returns the boolean `rightEq` | checkpoint value "1" for key "k", the old snapshot sets "2", the new sets "3": the stream yields `true` instead of a record from "2" to "3" | return a record with the apply record's seq, the new entry on the left and the old snapshot's entry on the right | medium (not executed) | `DiffStream.DivergentEditYieldsFlag` | `DiffStream.GetDiffsIntendedStates` |

`Reconcile` and `GetDiffs` model the code as written. `ReconcileIntended` and `GetDiffsIntended` change only line 36. `GetDiffsIntendedStates` proves that the corrected version yields records only, each from the key's old entry to its new one.
