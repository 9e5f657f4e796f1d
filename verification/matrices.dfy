/** Real 2x2 matrices and 2-vectors with the operators of the home-grown
 `SquareMatrix` class: entrywise sum, product, matrix-vector product,
 transpose, determinant, adjugate inverse and the identity.

 Entries are named row by row: `[[a, b], [c, d]]`.
 */
module Matrices {
  import opened Outcomes

  datatype Matrix2 = Matrix2(a: real, b: real, c: real, d: real) {

    /** The indexer `this[i, j]`. */
    function At(i: nat, j: nat): real
      requires i < 2 && j < 2
    {
      if i == 0 then (if j == 0 then a else b)
      else (if j == 0 then c else d)
    }
  }

  datatype Vector2 = Vector2(x: real, y: real) {

    function At(i: nat): real
      requires i < 2
    {
      if i == 0 then x else y
    }
  }

  const Zero: Matrix2 := Matrix2(0.0, 0.0, 0.0, 0.0)

  function Scale(k: real, v: Vector2): (r: Vector2)
    ensures forall i | 0 <= i < 2 :: r.At(i) == k * v.At(i)
  {
    Vector2(k * v.x, k * v.y)
  }

  /** The scalar product of two vectors. */
  function Dot(u: Vector2, v: Vector2): real
  {
    u.x * v.x + u.y * v.y
  }

  /** `operator +`: the sum is taken entry by entry. */
  function Add(m: Matrix2, n: Matrix2): (r: Matrix2)
    ensures forall i, j | 0 <= i < 2 && 0 <= j < 2 :: r.At(i, j) == m.At(i, j) + n.At(i, j)
  {
    Matrix2(m.a + n.a, m.b + n.b, m.c + n.c, m.d + n.d)
  }

  /** `operator *` on two matrices: entry (i, j) is the sum over k of m[i, k] * n[k, j]. */
  function Mul(m: Matrix2, n: Matrix2): (r: Matrix2)
    ensures forall i, j | 0 <= i < 2 && 0 <= j < 2 ::
      r.At(i, j) == m.At(i, 0) * n.At(0, j) + m.At(i, 1) * n.At(1, j)
  {
    Matrix2(m.a * n.a + m.b * n.c, m.a * n.b + m.b * n.d,
            m.c * n.a + m.d * n.c, m.c * n.b + m.d * n.d)
  }

  /** `operator *` on a matrix and a vector: component i is the sum over j of m[i, j] * v[j]. */
  function MulVec(m: Matrix2, v: Vector2): (r: Vector2)
    ensures forall i | 0 <= i < 2 :: r.At(i) == m.At(i, 0) * v.At(0) + m.At(i, 1) * v.At(1)
  {
    Vector2(m.a * v.x + m.b * v.y, m.c * v.x + m.d * v.y)
  }

  /** `GetTransposed`: rows become columns. */
  function Transpose(m: Matrix2): (r: Matrix2)
    ensures forall i, j | 0 <= i < 2 && 0 <= j < 2 :: r.At(i, j) == m.At(j, i)
  {
    Matrix2(m.a, m.c, m.b, m.d)
  }

  /** `IdentityMatrix(2)`: ones on the diagonal, zeros elsewhere. */
  function Identity(): (r: Matrix2)
    ensures forall i, j | 0 <= i < 2 && 0 <= j < 2 :: r.At(i, j) == if i == j then 1.0 else 0.0
  {
    Matrix2(1.0, 0.0, 0.0, 1.0)
  }

  /** The determinant of a 2x2 matrix. */
  function Det(m: Matrix2): real
  {
    m.a * m.d - m.b * m.c
  }

  function Trace(m: Matrix2): real
  {
    m.a + m.d
  }

  /** A matrix as `GetDeterminant` and `GetEigenvalues` see it: only its size and,
      for sizes 1 and 2, its entries matter to them. */
  datatype Sized = Size0 | Size1(x: real) | Size2(m: Matrix2) | SizeOver2

  /** `GetDeterminant`: every size other than 2 is rejected. */
  function GetDeterminant(s: Sized): (r: Result<real>)
    ensures r.Success? <==> s.Size2?
    ensures r.Failure? ==> r.fault == UnsupportedSize
    ensures r.Success? ==> r.value == s.m.At(0, 0) * s.m.At(1, 1) - s.m.At(0, 1) * s.m.At(1, 0)
  {
    if s.Size2? then Success(Det(s.m)) else Failure(UnsupportedSize)
  }

  /** `GetInverse`: the adjugate divided by the determinant. A zero determinant
      makes every entry a division by zero, so there is no finite result. */
  function Inverse(m: Matrix2): (r: Result<Matrix2>)
    ensures r.Failure? <==> Det(m) == 0.0
    ensures r.Failure? ==> r.fault == NonFinite
    ensures r.Success? ==> Mul(m, r.value) == Identity() && Mul(r.value, m) == Identity()
  {
    var det := Det(m);
    if det == 0.0 then Failure(NonFinite)
    else
      var inv := Matrix2(m.d / det, -m.b / det, -m.c / det, m.a / det);
      InverseIsInverse(m, det, inv);
      Success(inv)
  }

  /** `GetInverse` on a matrix of any size: the determinant it starts from
      rejects every size other than 2. */
  function GetInverse(s: Sized): (r: Result<Matrix2>)
    ensures s.Size2? ==> r == Inverse(s.m)
    ensures !s.Size2? ==> r == Failure(UnsupportedSize)
    ensures r.Success? ==> s.Size2? && Mul(s.m, r.value) == Identity() && Mul(r.value, s.m) == Identity()
  {
    var _ :- GetDeterminant(s);
    Inverse(s.m)
  }

  lemma InverseIsInverse(m: Matrix2, det: real, inv: Matrix2)
    requires det == Det(m) && det != 0.0
    requires inv == Matrix2(m.d / det, -m.b / det, -m.c / det, m.a / det)
    ensures Mul(m, inv) == Identity() && Mul(inv, m) == Identity()
  {
    assert (m.a * m.d - m.b * m.c) / det == 1.0;
    assert m.a * (m.d / det) + m.b * (-m.c / det) == (m.a * m.d - m.b * m.c) / det;
    assert m.c * (m.d / det) + m.d * (-m.c / det) == 0.0;
    assert m.a * (-m.b / det) + m.b * (m.a / det) == 0.0;
    assert m.c * (-m.b / det) + m.d * (m.a / det) == (m.a * m.d - m.b * m.c) / det;
    assert (m.d / det) * m.a + (-m.b / det) * m.c == (m.a * m.d - m.b * m.c) / det;
    assert (m.d / det) * m.b + (-m.b / det) * m.d == 0.0;
    assert (-m.c / det) * m.a + (m.a / det) * m.c == 0.0;
    assert (-m.c / det) * m.b + (m.a / det) * m.d == (m.a * m.d - m.b * m.c) / det;
  }
}
