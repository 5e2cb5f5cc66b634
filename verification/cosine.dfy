/** Cosine similarity between two embedding vectors, over the reals.
    The square root is a parameter `root`: the lemmas that need something
    of it say so in their requires. */
module Cosine {

  type Vector = seq<real>

  /** The dot product over the pairs `zip` forms: components beyond the
      shorter vector's length are ignored. */
  function Dot(a: Vector, b: Vector): real
  {
    if a == [] || b == [] then 0.0 else a[0] * b[0] + Dot(a[1..], b[1..])
  }

  /** The sum of the squares of all components, the square of the norm. */
  function SumSquares(a: Vector): (r: real)
    ensures r >= 0.0
  {
    if a == [] then 0.0 else a[0] * a[0] + SumSquares(a[1..])
  }

  /** The similarity of `a` and `b`; 0 when either norm is 0. */
  function Similarity(root: real -> real, a: Vector, b: Vector): real
  {
    var normA := root(SumSquares(a));
    var normB := root(SumSquares(b));
    if normA == 0.0 || normB == 0.0 then 0.0 else Dot(a, b) / (normA * normB)
  }

  /** `root` behaves as the square root on the values it is applied to. */
  ghost predicate IsSquareRoot(root: real -> real)
  {
    forall x :: 0.0 <= x ==> 0.0 <= root(x) && root(x) * root(x) == x
  }

  lemma ZeroProduct(x: real, y: real)
    ensures x * y == 0.0 ==> x == 0.0 || y == 0.0
  {
  }

  lemma {:induction false} DotSymmetric(a: Vector, b: Vector)
    ensures Dot(a, b) == Dot(b, a)
  {
    if a != [] && b != [] {
      DotSymmetric(a[1..], b[1..]);
    }
  }

  /** The dot product reads only the first min(|a|, |b|) components of
      either vector. */
  lemma {:induction false} DotTruncates(a: Vector, b: Vector)
    ensures var n := if |a| < |b| then |a| else |b|;
      Dot(a, b) == Dot(a[..n], b[..n])
  {
    var n := if |a| < |b| then |a| else |b|;
    if a != [] && b != [] {
      DotTruncates(a[1..], b[1..]);
      assert a[..n][1..] == a[1..][..n - 1];
      assert b[..n][1..] == b[1..][..n - 1];
    }
  }

  lemma {:induction false} DotSelf(a: Vector)
    ensures Dot(a, a) == SumSquares(a)
  {
    if a != [] {
      DotSelf(a[1..]);
    }
  }

  /** The sum of squares is 0 exactly for a vector of zeros, the empty
      vector included. */
  lemma {:induction false} SumSquaresZero(a: Vector)
    ensures SumSquares(a) == 0.0 <==> forall i :: 0 <= i < |a| ==> a[i] == 0.0
  {
    if a != [] {
      SumSquaresZero(a[1..]);
      var head, rest := a[0] * a[0], SumSquares(a[1..]);
      assert SumSquares(a) == head + rest;
      assert head >= 0.0;
      assert forall i :: 1 <= i < |a| ==> a[i] == a[1..][i - 1];
      if SumSquares(a) == 0.0 {
        assert head == 0.0 && rest == 0.0;
        ZeroProduct(a[0], a[0]);
      }
      if forall i :: 0 <= i < |a| ==> a[i] == 0.0 {
        assert a[0] == 0.0 && head == 0.0;
        assert forall i :: 0 <= i < |a[1..]| ==> a[1..][i] == 0.0;
        assert rest == 0.0;
      }
    }
  }

  /** The guard: a vector whose components are all 0, the empty vector in
      particular, has similarity 0 with any vector, on either side. */
  lemma ZeroVectorScoresZero(root: real -> real, a: Vector, b: Vector)
    requires root(0.0) == 0.0
    requires (forall i :: 0 <= i < |a| ==> a[i] == 0.0) || (forall i :: 0 <= i < |b| ==> b[i] == 0.0)
    ensures Similarity(root, a, b) == 0.0
  {
    SumSquaresZero(a);
    SumSquaresZero(b);
  }

  /** Swapping the arguments gives the same value. */
  lemma SimilaritySymmetric(root: real -> real, a: Vector, b: Vector)
    ensures Similarity(root, a, b) == Similarity(root, b, a)
  {
    DotSymmetric(a, b);
  }

  /** With the true square root, a vector that is not all zeros has
      similarity 1 with itself. */
  lemma SelfSimilarityIsOne(root: real -> real, a: Vector)
    requires IsSquareRoot(root)
    requires exists i :: 0 <= i < |a| && a[i] != 0.0
    ensures Similarity(root, a, a) == 1.0
  {
    SumSquaresZero(a);
    DotSelf(a);
    var s := SumSquares(a);
    var r := root(s);
    assert r * r == s && s != 0.0;
    assert r != 0.0;
    var sim := Similarity(root, a, a);
    assert sim * (r * r) == Dot(a, a);
    assert (sim - 1.0) * s == sim * s - s;
    ZeroProduct(sim - 1.0, s);
  }

  /** The norms read the whole of each vector even where the dot product
      does not: trailing components of the longer vector lower the score. */
  lemma NormReadsWholeVector(root: real -> real)
    requires IsSquareRoot(root)
    ensures Similarity(root, [1.0], [1.0, 1.0]) != Similarity(root, [1.0], [1.0])
  {
    assert SumSquares([1.0]) == 1.0;
    assert SumSquares([1.0, 1.0]) == 2.0;
    var one, two := root(1.0), root(2.0);
    assert one * one == 1.0 && one >= 0.0;
    assert (one - 1.0) * (one + 1.0) == one * one - 1.0;
    ZeroProduct(one - 1.0, one + 1.0);
    assert one == 1.0;
    assert two * two == 2.0 && two >= 0.0;
    assert two != 1.0;
    assert Dot([1.0], [1.0, 1.0]) == 1.0;
    assert Dot([1.0], [1.0]) == 1.0;
  }
}
