/**
  Byte strings and the two b4a helpers the reconciler uses on them:
  `b4a.compare`, which orders buffers by unsigned lexicographic byte
  comparison (a proper prefix sorts first) and answers -1, 0 or 1, and
  `b4a.equals`, byte-for-byte equality.
*/
module Bytes {

  newtype Byte = x: int | 0 <= x < 256

  type Bytes = seq<Byte>

  /** `b4a.compare(a, b)`: the sign of the first differing byte, else of the length difference. */
  function Compare(a: Bytes, b: Bytes): (r: int)
    ensures -1 <= r <= 1
    ensures r == 0 <==> a == b
  {
    if |a| == 0 then (if |b| == 0 then 0 else -1)
    else if |b| == 0 then 1
    else if a[0] < b[0] then -1
    else if a[0] > b[0] then 1
    else
      assert a == [a[0]] + a[1..] && b == [b[0]] + b[1..];
      Compare(a[1..], b[1..])
  }

  /** `b4a.equals(a, b)`: byte-for-byte equality. */
  predicate Equals(a: Bytes, b: Bytes)
    ensures Equals(a, b) <==> a == b
  {
    Compare(a, b) == 0
  }

  /** The strict order the merge sorts by: `compare(a, b) < 0`. */
  predicate Less(a: Bytes, b: Bytes)
    ensures Less(a, b) ==> a != b
    ensures Less(a, b) ==> Compare(b, a) > 0
    ensures a != b && !Less(a, b) ==> Compare(b, a) < 0
  {
    CompareAntisymmetric(a, b);
    Compare(a, b) < 0
  }

  /**
    An independent description of unsigned lexicographic order: `a` is a
    proper prefix of `b`, or at the first position where they differ the
    byte of `a` is smaller.
  */
  ghost predicate LexLess(a: Bytes, b: Bytes) {
    || (|a| < |b| && a == b[..|a|])
    || exists i :: 0 <= i < |a| && i < |b| && a[..i] == b[..i] && a[i] < b[i]
  }

  lemma {:induction false} CompareAntisymmetric(a: Bytes, b: Bytes)
    ensures Compare(b, a) == -Compare(a, b)
  {
    if |a| > 0 && |b| > 0 && a[0] == b[0] {
      CompareAntisymmetric(a[1..], b[1..]);
    }
  }

  lemma {:induction false} LessTransitive(a: Bytes, b: Bytes, c: Bytes)
    requires Less(a, b) && Less(b, c)
    ensures Less(a, c)
  {
    if |a| > 0 && |b| > 0 && |c| > 0 && a[0] == b[0] && b[0] == c[0] {
      LessTransitive(a[1..], b[1..], c[1..]);
    }
  }

  /** `Less` is a strict total order on byte strings: irreflexive, asymmetric, transitive and connected. */
  lemma LessIsStrictTotalOrder()
    ensures forall a :: !Less(a, a)
    ensures forall a, b :: Less(a, b) ==> !Less(b, a)
    ensures forall a, b, c :: Less(a, b) && Less(b, c) ==> Less(a, c)
    ensures forall a, b :: a != b ==> Less(a, b) || Less(b, a)
  {
    forall a, b ensures Compare(b, a) == -Compare(a, b) {
      CompareAntisymmetric(a, b);
    }
    forall a, b, c | Less(a, b) && Less(b, c) ensures Less(a, c) {
      LessTransitive(a, b, c);
    }
  }

  /** `compare` answers -1 exactly on lexicographically smaller byte strings. */
  lemma {:induction false} LessIsLexLess(a: Bytes, b: Bytes)
    ensures Less(a, b) <==> LexLess(a, b)
  {
    if |a| == 0 {
      if |b| > 0 {
        assert a == b[..0];
      } else {
        assert !LexLess(a, b);
      }
    } else if |b| == 0 {
      assert !LexLess(a, b);
    } else if a[0] < b[0] {
      assert a[..0] == b[..0];
    } else if a[0] > b[0] {
      assert forall i :: 0 < i <= |a| && i <= |b| && a[..i] == b[..i] ==> a[..i][0] == b[..i][0];
    } else {
      LessIsLexLess(a[1..], b[1..]);
      assert Less(a, b) == Less(a[1..], b[1..]);
      LexLessTail(a, b);
    }
  }

  lemma LexLessTail(a: Bytes, b: Bytes)
    requires |a| > 0 && |b| > 0 && a[0] == b[0]
    ensures LexLess(a, b) <==> LexLess(a[1..], b[1..])
  {
    var a', b' := a[1..], b[1..];
    if LexLess(a', b') {
      if |a'| < |b'| && a' == b'[..|a'|] {
        assert a == [a[0]] + a' && b[..|a|] == [b[0]] + b'[..|a'|];
      } else {
        var i :| 0 <= i < |a'| && i < |b'| && a'[..i] == b'[..i] && a'[i] < b'[i];
        assert a[..i + 1] == [a[0]] + a'[..i] && b[..i + 1] == [b[0]] + b'[..i];
        assert a[i + 1] < b[i + 1];
      }
    }
    if LexLess(a, b) {
      if |a| < |b| && a == b[..|a|] {
        assert a' == b'[..|a'|];
      } else {
        var i :| 0 <= i < |a| && i < |b| && a[..i] == b[..i] && a[i] < b[i];
        if i == 0 {
          assert false;
        } else {
          assert a'[..i - 1] == a[..i][1..] && b'[..i - 1] == b[..i][1..];
          assert a'[i - 1] < b'[i - 1];
        }
      }
    }
  }
}
