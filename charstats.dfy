/** Character-set statistics shared by the TypeScript scorer (`new Set(word.split(''))`)
    and the Python one (`set(word)`). */
module CharStats {

  /** The set of characters occurring in `w`. */
  function CharSet(w: string): (cs: set<char>)
    ensures forall i :: 0 <= i < |w| ==> w[i] in cs
    ensures forall c :: c in cs ==> c in w
  {
    set i | 0 <= i < |w| :: w[i]
  }

  lemma {:induction false} CharSetEmpty(w: string)
    ensures CharSet(w) == {} <==> w == []
  {
    if w != [] {
      assert w[0] in CharSet(w);
    }
  }

  /** Two different words never both have an empty character set, so the
      union a Jaccard index divides by is not empty. */
  lemma {:induction false} UnionNonEmpty(w1: string, w2: string)
    requires w1 != w2
    ensures |CharSet(w1) + CharSet(w2)| > 0
  {
    CharSetEmpty(w1);
    CharSetEmpty(w2);
    if w1 != [] {
      assert w1[0] in CharSet(w1) + CharSet(w2);
    } else {
      assert w2[0] in CharSet(w1) + CharSet(w2);
    }
  }

  lemma {:induction false} SubsetSize(a: set<char>, b: set<char>)
    requires a <= b
    ensures |a| <= |b|
    ensures a != b ==> |a| < |b|
    decreases |a|
  {
    if a != {} {
      var x :| x in a;
      SubsetSize(a - {x}, b - {x});
      assert a != b ==> a - {x} != b - {x} by {
        if a - {x} == b - {x} { assert a == (a - {x}) + {x} == (b - {x}) + {x} == b; }
      }
    }
  }

  /** Intersection and union have the same size only for equal sets. */
  lemma {:induction false} SameSizeMeansEqual(a: set<char>, b: set<char>)
    ensures |a * b| <= |a + b|
    ensures |a * b| == |a + b| ==> a == b
  {
    assert a * b <= a + b;
    SubsetSize(a * b, a + b);
    if |a * b| == |a + b| {
      assert forall x :: x in a ==> x in a * b;
      assert forall x :: x in b ==> x in a * b;
    }
  }

  lemma {:induction false} RatioBounds(i: real, u: real)
    requires 0.0 <= i <= u && u > 0.0
    ensures 0.0 <= i / u <= 1.0
    ensures i / u == 1.0 <==> i == u
  {
  }

  /** The Jaccard index |a ∩ b| / |a ∪ b|. */
  function Jaccard(a: set<char>, b: set<char>): (j: real)
    requires |a + b| > 0
    ensures 0.0 <= j <= 1.0
    ensures j == 1.0 <==> a == b
  {
    SameSizeMeansEqual(a, b);
    var i, u := |a * b| as real, |a + b| as real;
    RatioBounds(i, u);
    assert a == b ==> a * b == a + b;
    i / u
  }

  /** The Jaccard index of two words' character sets does not depend on the
      order of the words. */
  lemma {:induction false} JaccardSymmetric(w1: string, w2: string)
    requires w1 != w2
    ensures |CharSet(w1) + CharSet(w2)| > 0 && |CharSet(w2) + CharSet(w1)| > 0
    ensures Jaccard(CharSet(w1), CharSet(w2)) == Jaccard(CharSet(w2), CharSet(w1))
  {
    UnionNonEmpty(w1, w2);
    assert CharSet(w1) * CharSet(w2) == CharSet(w2) * CharSet(w1);
    assert CharSet(w1) + CharSet(w2) == CharSet(w2) + CharSet(w1);
  }
}
