/** Closed-form eigenvalues and eigenvectors of a 2x2 matrix (`GetEigenvalues`
 and `GetEigenvectors` of the home-grown `SquareMatrix`).

 `Math.Sqrt` is a library call: its value on the discriminant is passed in as
 `root`, constrained to be the non-negative square root whenever the
 discriminant is non-negative. A negative discriminant makes `Math.Sqrt` return
 NaN, which is a `NonFinite` failure here.
 */
module Eigen {
  import opened Outcomes
  import opened Matrices
  import opened Accuracy

  /** `Math.Pow(a + d, 2) - 4 * (a * d - b * c)`. */
  function Discriminant(m: Matrix2): real
  {
    Trace(m) * Trace(m) - 4.0 * Det(m)
  }

  predicate IsSquareRootOf(root: real, x: real)
  {
    root >= 0.0 && root * root == x
  }

  /** The characteristic polynomial x^2 - (a + d) x + (a d - b c) at x. */
  function CharPoly(m: Matrix2, x: real): real
  {
    x * x - Trace(m) * x + Det(m)
  }

  /** The two eigenvalues of a matrix with real spectrum, larger first (Vieta's relations hold). */
  function EigenvaluePair(m: Matrix2, root: real): (r: seq<real>)
    requires IsSquareRootOf(root, Discriminant(m))
    ensures |r| == 2 && r[0] >= r[1]
    ensures r[0] + r[1] == Trace(m)
    ensures r[0] * r[1] == Det(m)
  {
    var t := Trace(m);
    assert (t + root) * 0.5 * ((t - root) * 0.5) == (t * t - root * root) * 0.25;
    [(t + root) * 0.5, (t - root) * 0.5]
  }

  /** `GetEigenvalues`: size 1 yields its single entry, size 2 the closed-form
      pair, larger sizes are rejected and an empty matrix fails on its first index. */
  function GetEigenvalues(s: Sized, root: real): (r: Result<seq<real>>)
    requires s.Size2? && Discriminant(s.m) >= 0.0 ==> IsSquareRootOf(root, Discriminant(s.m))
    ensures s.Size0? ==> r == Failure(IndexOutOfRange)
    ensures s.Size1? ==> r == Success([s.x])
    ensures s.SizeOver2? ==> r == Failure(UnsupportedSize)
    ensures s.Size2? ==> (r.Success? <==> Discriminant(s.m) >= 0.0)
    ensures s.Size2? && r.Failure? ==> r.fault == NonFinite
    ensures s.Size2? && r.Success? ==>
      && |r.value| == 2
      && r.value[0] >= r.value[1]
      && r.value[0] + r.value[1] == s.m.a + s.m.d
      && r.value[0] * r.value[1] == s.m.a * s.m.d - s.m.b * s.m.c
  {
    match s
    case Size0 => Failure(IndexOutOfRange)
    case Size1(x) => Success([x])
    case SizeOver2 => Failure(UnsupportedSize)
    case Size2(m) =>
      if Discriminant(m) < 0.0 then Failure(NonFinite) else Success(EigenvaluePair(m, root))
  }

  /** The pair holds exactly the roots of the characteristic polynomial. */
  lemma EigenvaluesAreTheRoots(m: Matrix2, root: real, x: real)
    requires IsSquareRootOf(root, Discriminant(m))
    ensures CharPoly(m, x) == 0.0 <==> x == EigenvaluePair(m, root)[0] || x == EigenvaluePair(m, root)[1]
  {
    var r := EigenvaluePair(m, root);
    assert CharPoly(m, x) == (x - r[0]) * (x - r[1]) by {
      assert (x - r[0]) * (x - r[1]) == x * x - (r[0] + r[1]) * x + r[0] * r[1];
    }
    if CharPoly(m, x) == 0.0 {
      ZeroProduct(x - r[0], x - r[1]);
    }
  }

  lemma ZeroProduct(p: real, q: real)
    requires p * q == 0.0
    ensures p == 0.0 || q == 0.0
  {
    if p != 0.0 {
      assert q == (p * q) / p;
    }
  }

  /** One column of `GetEigenvectors`: with tmp = -b / (a - mu), the vector
      (tmp * s, s) where s is 1 when tmp > 0 and -1 otherwise. When a == mu
      the division by zero leaves an infinite or NaN vector. The first row of
      the eigen-equation holds by construction, whatever mu is. */
  function EigenvectorFor(m: Matrix2, mu: real): (r: Result<Vector2>)
    ensures r.Failure? <==> m.a == mu
    ensures r.Failure? ==> r.fault == NonFinite
    ensures r.Success? ==> m.a != mu && r.value.y == (if -m.b / (m.a - mu) > 0.0 then 1.0 else -1.0)
    ensures r.Success? ==> m.a != mu && r.value.x == Abs(-m.b / (m.a - mu))
    ensures r.Success? ==> MulVec(m, r.value).x == mu * r.value.x
  {
    if m.a == mu then Failure(NonFinite)
    else
      var tmp := -m.b / (m.a - mu);
      var sign := if tmp > 0.0 then 1.0 else -1.0;
      ColumnFacts(m, mu, tmp, sign);
      Success(Vector2(tmp * sign, sign))
  }

  /** With tmp = -b / (a - mu) and sign the sign `GetEigenvectors` picks,
      (tmp * sign, sign) has first component |tmp|, and the first row of
      A - mu I vanishes at it. */
  lemma ColumnFacts(m: Matrix2, mu: real, tmp: real, sign: real)
    requires m.a != mu && tmp == -m.b / (m.a - mu)
    requires sign == if tmp > 0.0 then 1.0 else -1.0
    ensures tmp * sign == Abs(tmp)
    ensures MulVec(m, Vector2(tmp * sign, sign)).x == mu * (tmp * sign)
  {
    var p := m.a - mu;
    assert p * tmp == -m.b;
    assert m.a * (tmp * sign) + m.b * sign - mu * (tmp * sign) == (p * tmp + m.b) * sign;
  }

  /** For a root mu of the characteristic polynomial (with a != mu) the
      vector is a true eigenvector: A v = mu v, and v is not zero. */
  lemma EigenvectorEquation(m: Matrix2, mu: real)
    requires CharPoly(m, mu) == 0.0
    ensures EigenvectorFor(m, mu).Success? ==>
      && MulVec(m, EigenvectorFor(m, mu).value) == Scale(mu, EigenvectorFor(m, mu).value)
      && EigenvectorFor(m, mu).value != Vector2(0.0, 0.0)
  {
    if m.a == mu {
      return;
    }
    var v := EigenvectorFor(m, mu).value;
    var p := m.a - mu;
    var tmp := -m.b / p;
    var sign := v.y;
    assert v.x == tmp * sign;
    assert p * tmp == -m.b;
    assert (m.d - mu) * p - m.b * m.c == 0.0 by {
      assert (m.d - mu) * p - m.b * m.c == CharPoly(m, mu);
    }
    SecondRowVanishes(p, m.b, m.c, m.d - mu, tmp);
    assert m.c * v.x + m.d * v.y == mu * v.y by {
      assert m.c * (tmp * sign) + m.d * sign - mu * sign == (m.c * tmp + m.d - mu) * sign;
    }
  }

  /** With p = a - mu != 0 and q = d - mu on a root (q p - b c == 0),
      the second row of A - mu I vanishes at (tmp, 1). */
  lemma SecondRowVanishes(p: real, b: real, c: real, q: real, tmp: real)
    requires p != 0.0 && p * tmp == -b && q * p - b * c == 0.0
    ensures c * tmp + q == 0.0
  {
    assert p * (c * tmp + q) == c * (p * tmp) + q * p;
  }

  /** What one column of `GetEigenvectors` promises for the eigenvalue mu:
      it fails exactly when a == mu; otherwise it is (|tmp|, s) with
      tmp = -b / (a - mu) and s = 1 when tmp > 0 and -1 otherwise, and A maps
      it to mu times itself. */
  predicate IsEigenvectorOutcome(m: Matrix2, mu: real, v: Result<Vector2>)
  {
    && (v.Failure? <==> m.a == mu)
    && (v.Success? ==>
          && m.a != mu
          && v.value.x == Abs(-m.b / (m.a - mu))
          && v.value.y == (if -m.b / (m.a - mu) > 0.0 then 1.0 else -1.0)
          && MulVec(m, v.value) == Scale(mu, v.value))
  }

  /** `GetEigenvectors`: one vector per eigenvalue. Size 1 fails on reading
      entry [0, 1]; sizes other than 1 and 2 fail as in `GetEigenvalues`; a
      negative discriminant makes every eigenvalue, and so every vector, NaN. */
  function GetEigenvectors(s: Sized, root: real): (r: Result<seq<Result<Vector2>>>)
    requires s.Size2? && Discriminant(s.m) >= 0.0 ==> IsSquareRootOf(root, Discriminant(s.m))
    ensures r.Success? <==> s.Size2?
    ensures s.Size0? || s.Size1? ==> r == Failure(IndexOutOfRange)
    ensures s.SizeOver2? ==> r == Failure(UnsupportedSize)
    ensures r.Success? ==> |r.value| == 2
    ensures r.Success? && Discriminant(s.m) < 0.0 ==>
      r.value[0] == Failure(NonFinite) && r.value[1] == Failure(NonFinite)
    ensures r.Success? && Discriminant(s.m) >= 0.0 ==>
      forall i :: 0 <= i < 2 ==> IsEigenvectorOutcome(s.m, EigenvaluePair(s.m, root)[i], r.value[i])
  {
    match s
    case Size0 => Failure(IndexOutOfRange)
    case Size1(_) => Failure(IndexOutOfRange)
    case SizeOver2 => Failure(UnsupportedSize)
    case Size2(m) =>
      if Discriminant(m) < 0.0 then Success([Failure(NonFinite), Failure(NonFinite)])
      else
        var eigenvalues := EigenvaluePair(m, root);
        EigenvaluesAreTheRoots(m, root, eigenvalues[0]);
        EigenvaluesAreTheRoots(m, root, eigenvalues[1]);
        EigenvectorEquation(m, eigenvalues[0]);
        EigenvectorEquation(m, eigenvalues[1]);
        Success([EigenvectorFor(m, eigenvalues[0]), EigenvectorFor(m, eigenvalues[1])])
  }

  /** The unit test's matrix [[1, -3], [-2, 2]] has eigenvalues {4, -1}. */
  lemma EigenvaluesExampleSmall()
    ensures GetEigenvalues(Size2(Matrix2(1.0, -3.0, -2.0, 2.0)), 5.0) == Success([4.0, -1.0])
  {
  }

  /** The unit test's matrix [[1e9, 2e9], [0, 3e9]] has eigenvalues {3e9, 1e9}. */
  lemma EigenvaluesExampleLarge()
    ensures GetEigenvalues(Size2(Matrix2(1e9, 2e9, 0.0, 3e9)), 2e9) == Success([3e9, 1e9])
  {
  }
}
