/** Order-preserving selection from a sequence. */
module Sequences {

  /** `a` is obtained from `b` by deleting elements, so `a` keeps `b`'s order. */
  predicate Subseq<T(==)>(a: seq<T>, b: seq<T>)
    decreases |b|
  {
    |a| == 0 ||
    (|b| > 0 &&
     ((a[|a| - 1] == b[|b| - 1] && Subseq(a[..|a| - 1], b[..|b| - 1])) ||
      Subseq(a, b[..|b| - 1])))
  }

  lemma {:induction false} SubseqRefl<T>(s: seq<T>)
    ensures Subseq(s, s)
  {
    if |s| > 0 {
      SubseqRefl(s[..|s| - 1]);
    }
  }

  /** Every element of a sub-sequence comes from the sequence it was taken from. */
  lemma {:induction false} SubseqMembers<T>(a: seq<T>, b: seq<T>, x: T)
    requires Subseq(a, b) && x in a
    ensures x in b
    decreases |b|
  {
    if a[|a| - 1] == b[|b| - 1] && Subseq(a[..|a| - 1], b[..|b| - 1]) {
      if x != a[|a| - 1] {
        assert x in a[..|a| - 1];
        SubseqMembers(a[..|a| - 1], b[..|b| - 1], x);
      }
    } else {
      SubseqMembers(a, b[..|b| - 1], x);
    }
  }

  /** Appending to the larger sequence, or to both, keeps the relation. */
  lemma SubseqExtend<T>(a: seq<T>, b: seq<T>, x: T)
    requires Subseq(a, b)
    ensures Subseq(a, b + [x])
    ensures Subseq(a + [x], b + [x])
  {
    assert (b + [x])[..|b|] == b;
    assert (a + [x])[..|a|] == a;
  }

  /** Prepending to the larger sequence, or to both, keeps the relation. */
  lemma {:induction false} SubseqPrepend<T>(a: seq<T>, b: seq<T>, x: T)
    requires Subseq(a, b)
    ensures Subseq(a, [x] + b)
    ensures Subseq([x] + a, [x] + b)
    decreases |b|
  {
    var xb := [x] + b;
    if b == [] {
      assert a == [];
      assert ([x] + a)[..0] == [] && xb[..0] == [];
    } else {
      var bi := b[..|b| - 1];
      assert xb[..|xb| - 1] == [x] + bi && xb[|xb| - 1] == b[|b| - 1];
      if a == [] {
        SubseqPrepend(a, bi, x);
        assert Subseq([x] + a, [x] + bi);
      } else if a[|a| - 1] == b[|b| - 1] && Subseq(a[..|a| - 1], bi) {
        var ai := a[..|a| - 1];
        SubseqPrepend(ai, bi, x);
        assert ([x] + a)[..|a|] == [x] + ai && ([x] + a)[|a|] == a[|a| - 1];
      } else {
        SubseqPrepend(a, bi, x);
      }
    }
  }
}
