/**
  The records the two directional diff streams carry, and the helpers
  `getKey` and `areEqual` of index.js. Keys and values are raw bytes: the
  reconciler re-opens both snapshots with binary key and value encodings.
*/
module Entries {
  import opened Wrappers
  import opened Bytes

  /** A bee node as a diff stream reports it: `{seq, key, value}`. */
  datatype Entry = Entry(seqNo: nat, key: Bytes, value: Bytes)

  /**
    One change record `{seq, left, right}`. In a bee's diff stream `left`
    is the key's entry in the snapshot itself and `right` its entry at the
    version diffed against; either is `null` when the key is absent there.
  */
  datatype DiffEntry = DiffEntry(seqNo: nat, left: Option<Entry>, right: Option<Entry>)

  /**
    What the union's `map` callback returns: `null` (the key is filtered
    out), a change record, or a bare boolean (see `Reconcile`).
  */
  datatype MapResult = Suppressed | Emit(entry: DiffEntry) | Flag(flag: bool)

  /** `getKey` reads `left.key` or `right.key`; with both sides `null` it throws. */
  predicate HasKey(d: DiffEntry) {
    d.left.Some? || d.right.Some?
  }

  /** Both sides, when present, describe the same key (true of every bee diff record). */
  predicate SidesAgree(d: DiffEntry) {
    d.left.Some? && d.right.Some? ==> d.left.value.key == d.right.value.key
  }

  /** `getKey`: the key of the left entry if there is one, else of the right. */
  function GetKey(d: DiffEntry): (k: Bytes)
    requires HasKey(d)
    ensures d.left.Some? ==> k == d.left.value.key
    ensures d.left.None? ==> k == d.right.value.key
  {
    if d.left.Some? then d.left.value.key else d.right.value.key
  }

  /**
    `areEqual`: two nulls are equal, a null never equals an entry, two
    entries compare by value bytes; seq and key are never looked at.
  */
  predicate AreEqual(x: Option<Entry>, y: Option<Entry>)
    ensures AreEqual(x, y) <==>
      (x.None? && y.None?) || (x.Some? && y.Some? && x.value.value == y.value.value)
  {
    if x.None? && y.None? then true
    else if x.None? || y.None? then false
    else Equals(x.value.value, y.value.value)
  }

  /** The record the union emits for a key only the undo stream changed (index.js:32). */
  function Swap(d: DiffEntry): (r: DiffEntry)
    ensures HasKey(r) == HasKey(d)
  {
    DiffEntry(d.seqNo, d.right, d.left)
  }

  lemma AreEqualSymmetric(x: Option<Entry>, y: Option<Entry>)
    ensures AreEqual(x, y) == AreEqual(y, x)
  {
  }

  lemma SwapInvolution(d: DiffEntry)
    ensures Swap(Swap(d)) == d
  {
  }

  /** A swapped record still answers `getKey` with the same key, provided its sides agree. */
  lemma SwapKeepsKey(d: DiffEntry)
    requires HasKey(d) && SidesAgree(d)
    ensures GetKey(Swap(d)) == GetKey(d)
  {
  }
}
