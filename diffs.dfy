/**
  `getDiffs` of index.js: the undo stream of the old snapshot and the apply
  stream of the new snapshot, both diffed against the old snapshot's
  indexed length, merged by the sorted union with the `map` callback below.
  The snapshots, the checkpoint and the two `createDiffStream` calls are
  outside the model: the two streams are the inputs.
*/
module DiffStream {
  import opened Wrappers
  import opened Bytes
  import opened Entries
  import opened SortedUnion

  /**
    The `map` callback. `oldEntry` is the undo-stream record for the key,
    `newEntry` the apply-stream record; `None` stands for JavaScript's `null`.
    A key changed on both sides with some difference yields the boolean
    `rightEq` rather than a record: modelled as written, with `Flag`.
  */
  function Reconcile(oldEntry: Option<DiffEntry>, newEntry: Option<DiffEntry>): (r: MapResult)
    ensures r.Suppressed? <==>
      (oldEntry.None? && newEntry.None?) || (oldEntry.Some? && newEntry.Some? && Converged(oldEntry.value, newEntry.value))
    ensures r.Emit? ==> oldEntry.None? || newEntry.None?
    ensures oldEntry.None? && newEntry.Some? ==> r == Emit(newEntry.value)
    ensures oldEntry.Some? && newEntry.None? ==> r == Emit(Swap(oldEntry.value))
    ensures r.Flag? ==> oldEntry.Some? && newEntry.Some? && r.flag == AreEqual(oldEntry.value.right, newEntry.value.right)
  {
    if oldEntry.None? then
      (if newEntry.None? then Suppressed else Emit(newEntry.value))
    else if newEntry.None? then
      // Old entries require undoing, so reverse.
      Emit(Swap(oldEntry.value))
    else
      var leftEq := AreEqual(oldEntry.value.left, newEntry.value.left);
      var rightEq := AreEqual(oldEntry.value.right, newEntry.value.right);
      if !(leftEq && rightEq) then Flag(rightEq)
      // Otherwise already reported by an earlier diff, so filtered out.
      else Suppressed
  }

  /** `getDiffs` on the two directional streams: what the union stream yields. */
  function GetDiffs(undo: seq<DiffEntry>, apply: seq<DiffEntry>): (r: seq<MapResult>)
    requires Keyed(undo) && Keyed(apply)
    ensures forall i :: 0 <= i < |r| ==> !r[i].Suppressed?
    ensures |r| <= |undo| + |apply|
  {
    Union(undo, apply, Reconcile)
  }

  /** Both sides of a record pairwise byte-equal in value, as the `map` callback tests them. */
  predicate Converged(u: DiffEntry, a: DiffEntry) {
    AreEqual(u.left, a.left) && AreEqual(u.right, a.right)
  }

  /**
    Key by key: a key only the apply stream changed comes out as that very
    record; a key only the undo stream changed comes out reversed, with the
    undo record's seq; a key both changed comes out as the boolean `rightEq`
    when the records differ and not at all when they converged. The keys
    come out strictly ascending, so at most once each, and none is missed.
  */
  lemma {:induction false} GetDiffsKeywise(undo: seq<DiffEntry>, apply: seq<DiffEntry>)
    requires Ascending(undo) && Ascending(apply)
    ensures
      var ks, r := UnionKeys(undo, apply, Reconcile), GetDiffs(undo, apply);
      && |ks| == |r|
      && AscendingKeys(ks)
      && (forall i :: 0 <= i < |r| && Lookup(undo, ks[i]).None? ==>
            Lookup(apply, ks[i]).Some? && r[i] == Emit(Lookup(apply, ks[i]).value))
      && (forall i :: 0 <= i < |r| && Lookup(apply, ks[i]).None? ==>
            && Lookup(undo, ks[i]).Some?
            && r[i].Emit?
            && r[i].entry.seqNo == Lookup(undo, ks[i]).value.seqNo
            && r[i].entry.left == Lookup(undo, ks[i]).value.right
            && r[i].entry.right == Lookup(undo, ks[i]).value.left)
      && (forall i :: 0 <= i < |r| && Lookup(undo, ks[i]).Some? && Lookup(apply, ks[i]).Some? ==>
            && !Converged(Lookup(undo, ks[i]).value, Lookup(apply, ks[i]).value)
            && r[i] == Flag(AreEqual(Lookup(undo, ks[i]).value.right, Lookup(apply, ks[i]).value.right)))
      && (forall k :: Lookup(undo, k).Some? != Lookup(apply, k).Some? ==> k in ks)
      && (forall k ::
            (Lookup(undo, k).Some? && Lookup(apply, k).Some?
             && !Converged(Lookup(undo, k).value, Lookup(apply, k).value)) ==> k in ks)
  {
    UnionIsKeywise(undo, apply, Reconcile);
  }

  /**
    The records the merge yields are strictly ascending by `getKey`, hence
    at most one per key, provided the undo records' two sides name the same
    key (as a bee's diff records do).
  */
  lemma {:induction false} GetDiffsRecordsAscending(undo: seq<DiffEntry>, apply: seq<DiffEntry>)
    requires Ascending(undo) && Ascending(apply)
    requires forall i :: 0 <= i < |undo| ==> SidesAgree(undo[i])
    ensures
      var r := GetDiffs(undo, apply);
      forall i, j :: 0 <= i < j < |r| && r[i].Emit? && r[j].Emit? ==>
        HasKey(r[i].entry) && HasKey(r[j].entry) && Less(GetKey(r[i].entry), GetKey(r[j].entry))
  {
    var ks, r := UnionKeys(undo, apply, Reconcile), GetDiffs(undo, apply);
    GetDiffsKeywise(undo, apply);
    forall i | 0 <= i < |r| && r[i].Emit? ensures HasKey(r[i].entry) && GetKey(r[i].entry) == ks[i] {
      if Lookup(apply, ks[i]).None? {
        SwapKeepsKey(Lookup(undo, ks[i]).value);
      }
    }
  }

  /** With nothing to undo (an empty undo stream), the merge is the apply stream itself. */
  lemma {:induction false} ForwardDiff(apply: seq<DiffEntry>)
    requires Keyed(apply)
    ensures GetDiffs([], apply) == seq(|apply|, i requires 0 <= i < |apply| => Emit(apply[i]))
    decreases |apply|
  {
    if |apply| > 0 {
      ForwardDiff(apply[1..]);
    }
  }

  /** Diffing a stream against itself yields nothing. */
  lemma {:induction false} SelfDiffEmpty(s: seq<DiffEntry>)
    requires Keyed(s)
    ensures GetDiffs(s, s) == []
    decreases |s|
  {
    if |s| > 0 {
      SelfDiffEmpty(s[1..]);
    }
  }

  /** A yielded value seen from the other side: records reversed, booleans unchanged. */
  function Reverse(v: MapResult): (w: MapResult)
    ensures w.Emit? == v.Emit? && w.Flag? == v.Flag?
  {
    match v
    case Emit(e) => Emit(Swap(e))
    case _ => v
  }

  /** Exchanging the two streams reverses every yielded value, seq numbers included. */
  lemma {:induction false} GetDiffsSymmetric(undo: seq<DiffEntry>, apply: seq<DiffEntry>)
    requires Keyed(undo) && Keyed(apply)
    ensures
      var r, r' := GetDiffs(undo, apply), GetDiffs(apply, undo);
      |r'| == |r| && forall i :: 0 <= i < |r| ==> r'[i] == Reverse(r[i])
    decreases |undo| + |apply|
  {
    if |undo| > 0 || |apply| > 0 {
      OrderAntisymmetric(undo, apply);
      var c := Order(undo, apply);
      if c < 0 {
        GetDiffsSymmetric(undo[1..], apply);
      } else if c > 0 {
        GetDiffsSymmetric(undo, apply[1..]);
      } else {
        AreEqualSymmetric(undo[0].left, apply[0].left);
        AreEqualSymmetric(undo[0].right, apply[0].right);
        GetDiffsSymmetric(undo[1..], apply[1..]);
      }
    }
  }

  // Line 36 of index.js returns `rightEq`, a boolean, where a change record
  // is evidently meant. The two members below exhibit it; `ReconcileIntended`
  // and `GetDiffsIntended` model the callback with that line corrected.

  /**
    Both histories changed key `k` from a shared checkpoint value to
    different current values: the merge yields `true` for `k`, not a record.
  */
  lemma {:induction false} DivergentEditYieldsFlag(undo: seq<DiffEntry>, apply: seq<DiffEntry>, k: Bytes)
    requires Ascending(undo) && Ascending(apply)
    requires Lookup(undo, k).Some? && Lookup(apply, k).Some?
    requires AreEqual(Lookup(undo, k).value.right, Lookup(apply, k).value.right)
    requires !AreEqual(Lookup(undo, k).value.left, Lookup(apply, k).value.left)
    ensures
      var ks, r := UnionKeys(undo, apply, Reconcile), GetDiffs(undo, apply);
      exists i :: 0 <= i < |r| && ks[i] == k && r[i] == Flag(true)
  {
    var ks, r := UnionKeys(undo, apply, Reconcile), GetDiffs(undo, apply);
    GetDiffsKeywise(undo, apply);
    var i :| 0 <= i < |ks| && ks[i] == k;
    assert r[i] == Flag(true);
  }

  /**
    A concrete instance: checkpoint value "1" for key "k", the old snapshot
    set it to "2" and the new one to "3". The merge yields just `true`.
  */
  lemma DivergentEditExample()
    ensures
      var key: Bytes := [0x6b];
      var base := Entry(1, key, [0x31]);
      var undo := DiffEntry(2, Some(Entry(2, key, [0x32])), Some(base));
      var apply := DiffEntry(3, Some(Entry(3, key, [0x33])), Some(base));
      GetDiffs([undo], [apply]) == [Flag(true)]
  {
  }

  /**
    The `map` callback with line 36 corrected: a key both sides changed with
    some difference yields the new snapshot's entry on the left and the old
    snapshot's own current entry on the right, with the apply record's seq.
  */
  function ReconcileIntended(oldEntry: Option<DiffEntry>, newEntry: Option<DiffEntry>): (r: MapResult)
    ensures !r.Flag?
    ensures r.Suppressed? <==>
      (oldEntry.None? && newEntry.None?) || (oldEntry.Some? && newEntry.Some? && Converged(oldEntry.value, newEntry.value))
    ensures r.Emit? ==>
      && r.entry.left == (if newEntry.Some? then newEntry.value.left else oldEntry.value.right)
      && r.entry.right == (if oldEntry.Some? then oldEntry.value.left else newEntry.value.right)
      && r.entry.seqNo == (if newEntry.Some? then newEntry.value.seqNo else oldEntry.value.seqNo)
  {
    if oldEntry.None? then
      (if newEntry.None? then Suppressed else Emit(newEntry.value))
    else if newEntry.None? then
      Emit(Swap(oldEntry.value))
    else if !Converged(oldEntry.value, newEntry.value) then
      Emit(DiffEntry(newEntry.value.seqNo, newEntry.value.left, oldEntry.value.left))
    else
      Suppressed
  }

  function GetDiffsIntended(undo: seq<DiffEntry>, apply: seq<DiffEntry>): (r: seq<MapResult>)
    requires Keyed(undo) && Keyed(apply)
    ensures forall i :: 0 <= i < |r| ==> r[i].Emit?
    ensures |r| <= |undo| + |apply|
  {
    IntendedYieldsRecords(undo, apply);
    Union(undo, apply, ReconcileIntended)
  }

  /** With line 36 corrected, the union yields change records and nothing else. */
  lemma {:induction false} IntendedYieldsRecords(undo: seq<DiffEntry>, apply: seq<DiffEntry>)
    requires Keyed(undo) && Keyed(apply)
    ensures forall i :: 0 <= i < |Union(undo, apply, ReconcileIntended)| ==> Union(undo, apply, ReconcileIntended)[i].Emit?
    decreases |undo| + |apply|
  {
    if |undo| > 0 || |apply| > 0 {
      var c := Order(undo, apply);
      if c < 0 {
        IntendedYieldsRecords(undo[1..], apply);
      } else if c > 0 {
        IntendedYieldsRecords(undo, apply[1..]);
      } else {
        IntendedYieldsRecords(undo[1..], apply[1..]);
      }
    }
  }

  /**
    The key's entry in the new snapshot: the apply record's left side, or,
    when only the old history changed it, its checkpoint entry (the undo
    record's right side).
  */
  ghost function NewState(undo: seq<DiffEntry>, apply: seq<DiffEntry>, k: Bytes): Option<Entry>
    requires Keyed(undo) && Keyed(apply)
  {
    if Lookup(apply, k).Some? then Lookup(apply, k).value.left
    else if Lookup(undo, k).Some? then Lookup(undo, k).value.right
    else None
  }

  /** The key's entry in the old snapshot, symmetrically. */
  ghost function OldState(undo: seq<DiffEntry>, apply: seq<DiffEntry>, k: Bytes): Option<Entry>
    requires Keyed(undo) && Keyed(apply)
  {
    if Lookup(undo, k).Some? then Lookup(undo, k).value.left
    else if Lookup(apply, k).Some? then Lookup(apply, k).value.right
    else None
  }

  /**
    With line 36 corrected, the merge yields only records, one per key in
    ascending key order, each going from the key's entry in the old
    snapshot (right) to its entry in the new snapshot (left); it leaves out
    exactly the keys both histories changed to converged records.
  */
  lemma {:induction false} GetDiffsIntendedStates(undo: seq<DiffEntry>, apply: seq<DiffEntry>)
    requires Ascending(undo) && Ascending(apply)
    ensures
      var ks, r := UnionKeys(undo, apply, ReconcileIntended), GetDiffsIntended(undo, apply);
      && |ks| == |r|
      && AscendingKeys(ks)
      && (forall i :: 0 <= i < |r| ==>
            && r[i].Emit?
            && r[i].entry.left == NewState(undo, apply, ks[i])
            && r[i].entry.right == OldState(undo, apply, ks[i]))
      && (forall k :: Lookup(undo, k).Some? != Lookup(apply, k).Some? ==> k in ks)
      && (forall i :: 0 <= i < |r| && Lookup(undo, ks[i]).Some? && Lookup(apply, ks[i]).Some? ==>
            !Converged(Lookup(undo, ks[i]).value, Lookup(apply, ks[i]).value))
      && (forall k ::
            (Lookup(undo, k).Some? && Lookup(apply, k).Some?
             && !Converged(Lookup(undo, k).value, Lookup(apply, k).value)) ==> k in ks)
  {
    UnionIsKeywise(undo, apply, ReconcileIntended);
  }
}
