/** Algebraic laws of the 2x2 operators: the identity is a unit, the products
 associate, transpose reverses products, the determinant is multiplicative and
 the adjugate inverse is the only inverse. */
module MatrixLaws {
  import opened Outcomes
  import opened Matrices

  lemma AddCommutative(m: Matrix2, n: Matrix2)
    ensures Add(m, n) == Add(n, m)
  {
  }

  /** `IdentityMatrix` is a two-sided unit of the product and fixes every vector. */
  lemma IdentityIsUnit(m: Matrix2, v: Vector2)
    ensures Mul(Identity(), m) == m
    ensures Mul(m, Identity()) == m
    ensures MulVec(Identity(), v) == v
  {
  }

  lemma MulAssociative(m: Matrix2, n: Matrix2, p: Matrix2)
    ensures Mul(Mul(m, n), p) == Mul(m, Mul(n, p))
  {
    var mn, np := Mul(m, n), Mul(n, p);
    var l, r := Mul(mn, p), Mul(m, np);
    assert l.a == r.a by { Regroup(m.a, m.b, n, p.a, p.c, mn.a, mn.b, np.a, np.c); }
    assert l.b == r.b by { Regroup(m.a, m.b, n, p.b, p.d, mn.a, mn.b, np.b, np.d); }
    assert l.c == r.c by { Regroup(m.c, m.d, n, p.a, p.c, mn.c, mn.d, np.a, np.c); }
    assert l.d == r.d by { Regroup(m.c, m.d, n, p.b, p.d, mn.c, mn.d, np.b, np.d); }
  }

  /** One entry of a triple product x n y, grouped either way: (x n) y == x (n y). */
  lemma Regroup(x1: real, x2: real, n: Matrix2, y1: real, y2: real, u: real, v: real, s: real, t: real)
    requires u == x1 * n.a + x2 * n.c && v == x1 * n.b + x2 * n.d
    requires s == n.a * y1 + n.b * y2 && t == n.c * y1 + n.d * y2
    ensures u * y1 + v * y2 == x1 * s + x2 * t
  {
    calc {
      u * y1 + v * y2;
      (x1 * n.a + x2 * n.c) * y1 + (x1 * n.b + x2 * n.d) * y2;
      x1 * (n.a * y1 + n.b * y2) + x2 * (n.c * y1 + n.d * y2);
      x1 * s + x2 * t;
    }
  }

  /** The matrix-vector product agrees with the matrix product: (m n) v = m (n v). */
  lemma MulVecCompatible(m: Matrix2, n: Matrix2, v: Vector2)
    ensures MulVec(Mul(m, n), v) == MulVec(m, MulVec(n, v))
  {
  }

  lemma TransposeInvolution(m: Matrix2)
    ensures Transpose(Transpose(m)) == m
  {
  }

  lemma TransposeOfProduct(m: Matrix2, n: Matrix2)
    ensures Transpose(Mul(m, n)) == Mul(Transpose(n), Transpose(m))
  {
  }

  lemma DetMultiplicative(m: Matrix2, n: Matrix2)
    ensures Det(Mul(m, n)) == Det(m) * Det(n)
  {
  }

  lemma DetOfTransposeAndIdentity(m: Matrix2)
    ensures Det(Transpose(m)) == Det(m)
    ensures Det(Identity()) == 1.0
  {
  }

  /** Any left inverse of m is the one `GetInverse` computes; in particular m then
      has a non-zero determinant. */
  lemma InverseUnique(m: Matrix2, x: Matrix2)
    requires Mul(x, m) == Identity()
    ensures Inverse(m) == Success(x)
  {
    assert Det(m) != 0.0 by {
      DetMultiplicative(x, m);
      DetOfTransposeAndIdentity(m);
      assert Det(x) * Det(m) == 1.0;
    }
    var inv := Inverse(m).value;
    assert Mul(m, inv) == Identity();
    assert x == Mul(x, Mul(m, inv)) by { IdentityIsUnit(x, Vector2(0.0, 0.0)); }
    assert Mul(x, Mul(m, inv)) == Mul(Mul(x, m), inv) by { MulAssociative(x, m, inv); }
    assert Mul(Mul(x, m), inv) == inv by { IdentityIsUnit(inv, Vector2(0.0, 0.0)); }
  }
}
