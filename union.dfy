/**
  The sorted union that `getDiffs` hands its two streams to. The library
  that implements it is not part of this model; its merge semantics are
  modelled here as a recursive walk over two sequences. At each step the
  heads are compared with the `compare` callback (an exhausted side counts
  as the larger); the smaller head is passed to `map` alone, in its own
  argument position, and equal heads are passed together and both
  consumed. A `null` answer from `map` is dropped, every other answer is
  emitted.
*/
module SortedUnion {
  import opened Wrappers
  import opened Bytes
  import opened Entries

  /** The `map` callback: its first argument comes from the first stream, its second from the second. */
  type MapFn = (Option<DiffEntry>, Option<DiffEntry>) -> MapResult

  predicate Keyed(s: seq<DiffEntry>) {
    forall i :: 0 <= i < |s| ==> HasKey(s[i])
  }

  /** A directional diff stream: strictly ascending keys, hence one record per key. */
  predicate Ascending(s: seq<DiffEntry>) {
    && Keyed(s)
    && forall i, j :: 0 <= i < j < |s| ==> Less(GetKey(s[i]), GetKey(s[j]))
  }

  predicate AscendingKeys(ks: seq<Bytes>) {
    forall i, j :: 0 <= i < j < |ks| ==> Less(ks[i], ks[j])
  }

  /** The `compare` callback on the two heads, with an exhausted side ranked last. */
  function Order(olds: seq<DiffEntry>, news: seq<DiffEntry>): (c: int)
    requires Keyed(olds) && Keyed(news)
    requires |olds| > 0 || |news| > 0
    ensures -1 <= c <= 1
    ensures c == 0 ==> |olds| > 0 && |news| > 0 && GetKey(olds[0]) == GetKey(news[0])
    ensures c < 0 ==> |olds| > 0 && (|news| == 0 || Less(GetKey(olds[0]), GetKey(news[0])))
    ensures c > 0 ==> |news| > 0 && (|olds| == 0 || Less(GetKey(news[0]), GetKey(olds[0])))
  {
    if |olds| == 0 then 1
    else if |news| == 0 then -1
    else
      CompareAntisymmetric(GetKey(olds[0]), GetKey(news[0]));
      Compare(GetKey(olds[0]), GetKey(news[0]))
  }

  /** Comparing the heads the other way round negates the step's answer. */
  lemma OrderAntisymmetric(olds: seq<DiffEntry>, news: seq<DiffEntry>)
    requires Keyed(olds) && Keyed(news) && (|olds| > 0 || |news| > 0)
    ensures Order(news, olds) == -Order(olds, news)
  {
    if |olds| > 0 && |news| > 0 {
      CompareAntisymmetric(GetKey(olds[0]), GetKey(news[0]));
    }
  }

  /** The output of one step: `map`'s answer unless it is `null`. */
  function Keep(r: MapResult): (out: seq<MapResult>)
    ensures out == [] <==> r.Suppressed?
    ensures forall i :: 0 <= i < |out| ==> out[i] == r
  {
    if r.Suppressed? then [] else [r]
  }

  /** The union stream, as the sequence of values it yields. */
  function Union(olds: seq<DiffEntry>, news: seq<DiffEntry>, m: MapFn): (r: seq<MapResult>)
    requires Keyed(olds) && Keyed(news)
    ensures forall i :: 0 <= i < |r| ==> !r[i].Suppressed?
    ensures |r| <= |olds| + |news|
    decreases |olds| + |news|
  {
    if |olds| == 0 && |news| == 0 then []
    else
      var c := Order(olds, news);
      if c < 0 then Keep(m(Some(olds[0]), None)) + Union(olds[1..], news, m)
      else if c > 0 then Keep(m(None, Some(news[0]))) + Union(olds, news[1..], m)
      else Keep(m(Some(olds[0]), Some(news[0]))) + Union(olds[1..], news[1..], m)
  }

  /** For each value `Union` yields, the key of the step that produced it. */
  ghost function UnionKeys(olds: seq<DiffEntry>, news: seq<DiffEntry>, m: MapFn): (ks: seq<Bytes>)
    requires Keyed(olds) && Keyed(news)
    ensures |ks| == |Union(olds, news, m)|
    decreases |olds| + |news|
  {
    if |olds| == 0 && |news| == 0 then []
    else
      var c := Order(olds, news);
      if c < 0 then
        (if m(Some(olds[0]), None).Suppressed? then [] else [GetKey(olds[0])]) + UnionKeys(olds[1..], news, m)
      else if c > 0 then
        (if m(None, Some(news[0])).Suppressed? then [] else [GetKey(news[0])]) + UnionKeys(olds, news[1..], m)
      else
        (if m(Some(olds[0]), Some(news[0])).Suppressed? then [] else [GetKey(olds[0])])
          + UnionKeys(olds[1..], news[1..], m)
  }

  /** The record a stream holds for key `k`, if any. */
  function Lookup(s: seq<DiffEntry>, k: Bytes): (r: Option<DiffEntry>)
    requires Keyed(s)
    ensures r.Some? ==> r.value in s && HasKey(r.value) && GetKey(r.value) == k
    ensures r.None? ==> forall i :: 0 <= i < |s| ==> GetKey(s[i]) != k
  {
    if |s| == 0 then None
    else if GetKey(s[0]) == k then Some(s[0])
    else Lookup(s[1..], k)
  }

  /** True of every key below the first key of an ascending stream. */
  ghost predicate Below(k: Bytes, s: seq<DiffEntry>)
    requires Keyed(s)
  {
    forall i :: 0 <= i < |s| ==> Less(k, GetKey(s[i]))
  }

  lemma BelowHead(k: Bytes, s: seq<DiffEntry>)
    requires Ascending(s)
    requires |s| == 0 || Less(k, GetKey(s[0]))
    ensures Below(k, s)
  {
    forall i | 0 < i < |s| ensures Less(k, GetKey(s[i])) {
      LessTransitive(k, GetKey(s[0]), GetKey(s[i]));
    }
  }

  lemma BelowNotFound(k: Bytes, s: seq<DiffEntry>)
    requires Keyed(s) && Below(k, s)
    ensures Lookup(s, k) == None
  {
    LessIsStrictTotalOrder();
  }

  /** Every key the union yields lies above any bound both inputs lie above. */
  lemma {:induction false} UnionKeysAbove(b: Bytes, olds: seq<DiffEntry>, news: seq<DiffEntry>, m: MapFn)
    requires Keyed(olds) && Keyed(news) && Below(b, olds) && Below(b, news)
    ensures forall i :: 0 <= i < |UnionKeys(olds, news, m)| ==> Less(b, UnionKeys(olds, news, m)[i])
    decreases |olds| + |news|
  {
    if |olds| == 0 && |news| == 0 {
    } else {
      var c := Order(olds, news);
      if c < 0 {
        UnionKeysAbove(b, olds[1..], news, m);
      } else if c > 0 {
        UnionKeysAbove(b, olds, news[1..], m);
      } else {
        UnionKeysAbove(b, olds[1..], news[1..], m);
      }
    }
  }

  /** Each yielded value is `map`'s answer for its key, a key one of the streams holds. */
  ghost predicate Sound(olds: seq<DiffEntry>, news: seq<DiffEntry>, m: MapFn, ks: seq<Bytes>, r: seq<MapResult>)
    requires Keyed(olds) && Keyed(news)
  {
    && |ks| == |r|
    && forall i :: 0 <= i < |ks| ==>
         && (Lookup(olds, ks[i]).Some? || Lookup(news, ks[i]).Some?)
         && r[i] == m(Lookup(olds, ks[i]), Lookup(news, ks[i]))
  }

  /** Every key of either stream whose `map` answer is not `null` is yielded. */
  ghost predicate Complete(olds: seq<DiffEntry>, news: seq<DiffEntry>, m: MapFn, ks: seq<Bytes>)
    requires Keyed(olds) && Keyed(news)
  {
    forall k :: ((Lookup(olds, k).Some? || Lookup(news, k).Some?)
      && !m(Lookup(olds, k), Lookup(news, k)).Suppressed?) ==> k in ks
  }

  /** What `Union` means key by key: the keys with a non-null answer of `map`, ascending, each with that answer. */
  ghost predicate KeywiseUnion(olds: seq<DiffEntry>, news: seq<DiffEntry>, m: MapFn, ks: seq<Bytes>, r: seq<MapResult>)
    requires Keyed(olds) && Keyed(news)
  {
    AscendingKeys(ks) && Sound(olds, news, m, ks, r) && Complete(olds, news, m, ks)
  }

  /** The keys of the streams after one step agree with those before on every key but the head key. */
  ghost predicate SameElsewhere(olds: seq<DiffEntry>, news: seq<DiffEntry>, k0: Bytes, olds': seq<DiffEntry>, news': seq<DiffEntry>)
    requires Keyed(olds) && Keyed(news) && Keyed(olds') && Keyed(news')
  {
    forall k :: k != k0 ==> Lookup(olds, k) == Lookup(olds', k) && Lookup(news, k) == Lookup(news', k)
  }

  lemma LookupTail(s: seq<DiffEntry>, k0: Bytes)
    requires Keyed(s) && |s| > 0 && GetKey(s[0]) == k0
    ensures Keyed(s[1..])
    ensures Lookup(s, k0) == Some(s[0])
    ensures forall k :: k != k0 ==> Lookup(s, k) == Lookup(s[1..], k)
  {
  }

  lemma ConsSound(
    olds: seq<DiffEntry>, news: seq<DiffEntry>, m: MapFn, k0: Bytes,
    olds': seq<DiffEntry>, news': seq<DiffEntry>, ks': seq<Bytes>, r': seq<MapResult>)
    requires Keyed(olds) && Keyed(news) && Keyed(olds') && Keyed(news')
    requires SameElsewhere(olds, news, k0, olds', news')
    requires Lookup(olds, k0).Some? || Lookup(news, k0).Some?
    requires Sound(olds', news', m, ks', r')
    requires forall i :: 0 <= i < |ks'| ==> ks'[i] != k0
    ensures
      var v := m(Lookup(olds, k0), Lookup(news, k0));
      Sound(olds, news, m, (if v.Suppressed? then [] else [k0]) + ks', Keep(v) + r')
  {
    var v := m(Lookup(olds, k0), Lookup(news, k0));
    var ks := (if v.Suppressed? then [] else [k0]) + ks';
    var r := Keep(v) + r';
    forall i | 0 <= i < |ks| ensures
      && (Lookup(olds, ks[i]).Some? || Lookup(news, ks[i]).Some?)
      && r[i] == m(Lookup(olds, ks[i]), Lookup(news, ks[i]))
    {
      if v.Suppressed? || i > 0 {
        var j := if v.Suppressed? then i else i - 1;
        assert ks[i] == ks'[j] && r[i] == r'[j];
      }
    }
  }

  lemma ConsComplete(
    olds: seq<DiffEntry>, news: seq<DiffEntry>, m: MapFn, k0: Bytes,
    olds': seq<DiffEntry>, news': seq<DiffEntry>, ks': seq<Bytes>)
    requires Keyed(olds) && Keyed(news) && Keyed(olds') && Keyed(news')
    requires SameElsewhere(olds, news, k0, olds', news')
    requires Complete(olds', news', m, ks')
    ensures
      var v := m(Lookup(olds, k0), Lookup(news, k0));
      Complete(olds, news, m, (if v.Suppressed? then [] else [k0]) + ks')
  {
  }

  lemma ConsAscending(k0: Bytes, ks': seq<Bytes>, head: seq<Bytes>)
    requires AscendingKeys(ks')
    requires head == [] || head == [k0]
    requires forall i :: 0 <= i < |ks'| ==> Less(k0, ks'[i])
    ensures AscendingKeys(head + ks')
    ensures forall i :: 0 <= i < |ks'| ==> ks'[i] != k0
  {
    LessIsStrictTotalOrder();
  }

  /** Puts one step in front of a tail that already satisfies the key-by-key description. */
  lemma {:induction false} ConsStep(
    olds: seq<DiffEntry>, news: seq<DiffEntry>, m: MapFn, k0: Bytes,
    olds': seq<DiffEntry>, news': seq<DiffEntry>, ks': seq<Bytes>, r': seq<MapResult>)
    requires Keyed(olds) && Keyed(news) && Keyed(olds') && Keyed(news')
    requires SameElsewhere(olds, news, k0, olds', news')
    requires Lookup(olds, k0).Some? || Lookup(news, k0).Some?
    requires KeywiseUnion(olds', news', m, ks', r')
    requires forall i :: 0 <= i < |ks'| ==> Less(k0, ks'[i])
    ensures
      var v := m(Lookup(olds, k0), Lookup(news, k0));
      KeywiseUnion(olds, news, m, (if v.Suppressed? then [] else [k0]) + ks', Keep(v) + r')
  {
    var v := m(Lookup(olds, k0), Lookup(news, k0));
    ConsAscending(k0, ks', if v.Suppressed? then [] else [k0]);
    ConsSound(olds, news, m, k0, olds', news', ks', r');
    ConsComplete(olds, news, m, k0, olds', news', ks');
  }

  lemma AscendingTail(s: seq<DiffEntry>)
    requires Ascending(s) && |s| > 0
    ensures Ascending(s[1..])
  {
    assert forall i :: 0 <= i < |s| - 1 ==> s[1..][i] == s[i + 1];
  }

  /**
    The union of two ascending streams yields, in ascending key order and
    at most once per key, exactly the keys of either stream whose `map`
    answer is not `null`, each with that answer.
  */
  lemma {:induction false} UnionIsKeywise(olds: seq<DiffEntry>, news: seq<DiffEntry>, m: MapFn)
    requires Ascending(olds) && Ascending(news)
    ensures KeywiseUnion(olds, news, m, UnionKeys(olds, news, m), Union(olds, news, m))
    decreases |olds| + |news|
  {
    if |olds| == 0 && |news| == 0 {
    } else {
      var c := Order(olds, news);
      if c < 0 {
        var k0 := GetKey(olds[0]);
        AscendingTail(olds);
        LookupTail(olds, k0);
        BelowHead(k0, olds[1..]);
        BelowHead(k0, news);
        BelowNotFound(k0, news);
        UnionIsKeywise(olds[1..], news, m);
        UnionKeysAbove(k0, olds[1..], news, m);
        ConsStep(olds, news, m, k0, olds[1..], news, UnionKeys(olds[1..], news, m), Union(olds[1..], news, m));
      } else if c > 0 {
        var k0 := GetKey(news[0]);
        AscendingTail(news);
        LookupTail(news, k0);
        BelowHead(k0, olds);
        BelowHead(k0, news[1..]);
        BelowNotFound(k0, olds);
        UnionIsKeywise(olds, news[1..], m);
        UnionKeysAbove(k0, olds, news[1..], m);
        ConsStep(olds, news, m, k0, olds, news[1..], UnionKeys(olds, news[1..], m), Union(olds, news[1..], m));
      } else {
        var k0 := GetKey(olds[0]);
        AscendingTail(olds);
        AscendingTail(news);
        LookupTail(olds, k0);
        LookupTail(news, k0);
        BelowHead(k0, olds[1..]);
        BelowHead(k0, news[1..]);
        UnionIsKeywise(olds[1..], news[1..], m);
        UnionKeysAbove(k0, olds[1..], news[1..], m);
        ConsStep(olds, news, m, k0, olds[1..], news[1..], UnionKeys(olds[1..], news[1..], m), Union(olds[1..], news[1..], m));
      }
    }
  }
}
