/** `GetRank` of `SquareMatrixExtensions`: a rank estimate for a 2x2 matrix
 built from two tolerance-aware zero tests, one on the determinant and one on
 the first row only. */
module Rank {
  import opened Matrices
  import opened Accuracy
  import MatrixLaws

  predicate FirstRowIsZero(m: Matrix2, eps: real)
  {
    IsZeroWithin(m.a, eps) && IsZeroWithin(m.b, eps)
  }

  /** `GetRank` as written, at tolerance eps: start from 2, subtract one when
      b c - a d is zero and one more when the first row is zero. */
  function RankWithin(m: Matrix2, eps: real): (r: int)
    ensures 0 <= r <= 2
    ensures r == 2 <==> !IsZeroWithin(m.b * m.c - m.a * m.d, eps) && !FirstRowIsZero(m, eps)
    ensures r == 0 <==> IsZeroWithin(m.b * m.c - m.a * m.d, eps) && FirstRowIsZero(m, eps)
  {
    var full := 2;
    var afterDet := if IsZeroWithin(m.b * m.c - m.a * m.d, eps) then full - 1 else full;
    if FirstRowIsZero(m, eps) then afterDet - 1 else afterDet
  }

  /** `GetRank` at the default tolerance. The second row is never inspected:
      once the first row and the determinant test zero the answer is 0. */
  function GetRank(m: Matrix2): (r: int)
    ensures 0 <= r <= 2
    ensures !IsZero(m.b * m.c - m.a * m.d) && !FirstRowIsZero(m, DefaultEps) ==> r == 2
    ensures IsZero(m.b * m.c - m.a * m.d) && !FirstRowIsZero(m, DefaultEps) ==> r == 1
    ensures !IsZero(m.b * m.c - m.a * m.d) && FirstRowIsZero(m, DefaultEps) ==> r == 1
    ensures IsZero(m.b * m.c - m.a * m.d) && FirstRowIsZero(m, DefaultEps) ==> r == 0
  {
    RankWithin(m, DefaultEps)
  }

  lemma RankOfZero()
    ensures GetRank(Zero) == 0
  {
  }

  /** The matrix is the zero map. */
  ghost predicate AnnihilatesAll(m: Matrix2)
  {
    forall v :: MulVec(m, v) == Vector2(0.0, 0.0)
  }

  /** Only the zero vector is mapped to zero. */
  ghost predicate KernelIsTrivial(m: Matrix2)
  {
    forall v :: MulVec(m, v) == Vector2(0.0, 0.0) ==> v == Vector2(0.0, 0.0)
  }

  /** As written, [[0, 0], [0, 1]] is given rank 0 although it maps (0, 1) to
      itself: the test that should ask whether the whole matrix is zero looks
      only at the first row. */
  lemma RankIgnoresSecondRow()
    ensures GetRank(Matrix2(0.0, 0.0, 0.0, 1.0)) == 0
    ensures RankWithin(Matrix2(0.0, 0.0, 0.0, 1.0), 0.0) == 0
    ensures MulVec(Matrix2(0.0, 0.0, 0.0, 1.0), Vector2(0.0, 1.0)) == Vector2(0.0, 1.0)
  {
  }

  /** The rank with the second zero test applied to all four entries. */
  function CorrectedRankWithin(m: Matrix2, eps: real): (r: int)
    ensures 0 <= r <= 2
    ensures r == 0 ==> IsZeroWithin(m.c, eps) && IsZeroWithin(m.d, eps)
  {
    var full := 2;
    var afterDet := if IsZeroWithin(m.b * m.c - m.a * m.d, eps) then full - 1 else full;
    if FirstRowIsZero(m, eps) && IsZeroWithin(m.c, eps) && IsZeroWithin(m.d, eps) then afterDet - 1 else afterDet
  }

  /** The as-written rank and the corrected rank differ exactly when the first
      row tests zero but the second row does not, and then the as-written one
      is one too low. */
  lemma AsWrittenDiffersFromCorrected(m: Matrix2, eps: real)
    ensures RankWithin(m, eps) != CorrectedRankWithin(m, eps) <==>
      FirstRowIsZero(m, eps) && !(IsZeroWithin(m.c, eps) && IsZeroWithin(m.d, eps))
    ensures RankWithin(m, eps) != CorrectedRankWithin(m, eps) ==>
      RankWithin(m, eps) == CorrectedRankWithin(m, eps) - 1
  {
  }

  /** With exact zero tests the corrected rank is the rank of the linear map:
      0 exactly for the zero map and 2 exactly for an injective one. */
  lemma CorrectedRankIsTrueRank(m: Matrix2)
    ensures CorrectedRankWithin(m, 0.0) == 0 <==> AnnihilatesAll(m)
    ensures CorrectedRankWithin(m, 0.0) == 2 <==> KernelIsTrivial(m)
  {
    ExactCorrectedRank(m);
    ZeroMapIsZeroMatrix(m);
    InjectiveIffInvertible(m);
  }

  lemma ExactCorrectedRank(m: Matrix2)
    ensures CorrectedRankWithin(m, 0.0) == 0 <==> m == Zero
    ensures CorrectedRankWithin(m, 0.0) == 2 <==> Det(m) != 0.0
  {
    assert m.b * m.c - m.a * m.d == -Det(m);
  }

  lemma ZeroMapIsZeroMatrix(m: Matrix2)
    ensures AnnihilatesAll(m) <==> m == Zero
  {
    if AnnihilatesAll(m) {
      assert MulVec(m, Vector2(1.0, 0.0)) == Vector2(0.0, 0.0);
      assert MulVec(m, Vector2(0.0, 1.0)) == Vector2(0.0, 0.0);
    }
  }

  lemma InjectiveIffInvertible(m: Matrix2)
    ensures KernelIsTrivial(m) <==> Det(m) != 0.0
  {
    if Det(m) != 0.0 {
      forall v | MulVec(m, v) == Vector2(0.0, 0.0)
        ensures v == Vector2(0.0, 0.0)
      {
        InvertibleKillsOnlyZero(m, v);
      }
    } else {
      var w := SingularWitness(m);
    }
  }

  lemma InvertibleKillsOnlyZero(m: Matrix2, v: Vector2)
    requires Det(m) != 0.0
    requires MulVec(m, v) == Vector2(0.0, 0.0)
    ensures v == Vector2(0.0, 0.0)
  {
    var inv := Inverse(m).value;
    assert Mul(inv, m) == Identity();
    assert v == MulVec(Mul(inv, m), v) by { MatrixLaws.IdentityIsUnit(m, v); }
    assert MulVec(Mul(inv, m), v) == MulVec(inv, MulVec(m, v)) by { MatrixLaws.MulVecCompatible(inv, m, v); }
  }

  /** A non-zero vector in the kernel of a singular matrix. */
  lemma SingularWitness(m: Matrix2) returns (w: Vector2)
    requires Det(m) == 0.0
    ensures w != Vector2(0.0, 0.0) && MulVec(m, w) == Vector2(0.0, 0.0)
  {
    if m == Zero {
      w := Vector2(1.0, 0.0);
      ZeroMatrixKernel();
    } else if m.a != 0.0 || m.b != 0.0 {
      w := FirstRowNormal(m);
    } else {
      w := SecondRowNormal(m);
    }
  }

  lemma ZeroMatrixKernel()
    ensures MulVec(Zero, Vector2(1.0, 0.0)) == Vector2(0.0, 0.0)
  {
  }

  lemma FirstRowNormal(m: Matrix2) returns (w: Vector2)
    requires Det(m) == 0.0
    requires m.a != 0.0 || m.b != 0.0
    ensures w != Vector2(0.0, 0.0) && MulVec(m, w) == Vector2(0.0, 0.0)
  {
    w := Vector2(m.b, -m.a);
  }

  lemma SecondRowNormal(m: Matrix2) returns (w: Vector2)
    requires Det(m) == 0.0
    requires m != Zero && m.a == 0.0 && m.b == 0.0
    ensures w != Vector2(0.0, 0.0) && MulVec(m, w) == Vector2(0.0, 0.0)
  {
    w := Vector2(m.d, -m.c);
  }
}
