/** The "elementary supporting function" of the control set (`SpecificSupportingFunction`
 in `Program`): a piecewise formula in the two components of a direction psi.

 The control set it describes is U = { u : u.x^2 <= u.y <= 1 }: the region
 between the parabola u.y = u.x^2 and the line u.y = 1. Its support function
 sup { <u, psi> : u in U } is psi.x + psi.y or psi.y - psi.x when the maximum sits
 in the corner (1, 1) or (-1, 1), and -psi.x^2 / (4 psi.y) when it sits on the
 parabola, which happens exactly when 2 psi.y <= -|psi.x|. The C# code tests the
 parabola case first and with the wrong region (|2 psi.y| <= psi.x), so it gives
 finite but wrong values there and NaN where the parabola formula belongs.
 `SpecificSupportingFunction` models the code as written; `ElementarySupport`
 is the support function of U. */
module Support {
  import opened Outcomes
  import opened Matrices
  import opened Accuracy

  /** Which `return` of `SpecificSupportingFunction` is taken. */
  datatype Branch = Parabola | RightFace | LeftFace | Undefined

  function BranchOf(psi: Vector2): Branch
  {
    if 2.0 * psi.y <= psi.x && psi.y >= -psi.x / 2.0 then Parabola
    else if psi.x >= 0.0 && 2.0 * psi.y >= -psi.x then RightFace
    else if psi.x <= 0.0 && 2.0 * psi.y >= psi.x then LeftFace
    else Undefined
  }

  /** The region of each branch, stated without the order of the tests. */
  lemma BranchRegions(psi: Vector2)
    ensures BranchOf(psi) == Parabola <==> psi.x >= 0.0 && Abs(2.0 * psi.y) <= psi.x
    ensures BranchOf(psi) == RightFace <==> psi.x >= 0.0 && -psi.x <= 2.0 * psi.y && psi.x < Abs(2.0 * psi.y)
    ensures BranchOf(psi) == LeftFace <==> psi.x < 0.0 && 2.0 * psi.y >= psi.x
    ensures BranchOf(psi) == Undefined <==> 2.0 * psi.y < -Abs(psi.x)
  {
  }

  /** `SpecificSupportingFunction` as written. The first formula divides by
      psi.y, which is zero on part of its region (an infinity, or NaN at the
      origin); the fall-through returns NaN. */
  function SpecificSupportingFunction(psi: Vector2): (r: Result<real>)
    ensures r.Failure? ==> r.fault == NonFinite
    ensures r.Success? && BranchOf(psi) != Parabola ==> r.value >= 0.0
  {
    match BranchOf(psi)
    case Parabola =>
      if psi.y == 0.0 then Failure(NonFinite) else Success(-psi.x * psi.x / psi.y / 4.0)
    case RightFace => Success(psi.x + psi.y)
    case LeftFace => Success(psi.y - psi.x)
    case Undefined => Failure(NonFinite)
  }

  /** The outcome on each region: NaN exactly below both faces (2 psi.y < -|psi.x|)
      and where the first formula divides by zero; otherwise the branch's formula. */
  lemma SupportValues(psi: Vector2)
    ensures SpecificSupportingFunction(psi).Failure? <==>
      2.0 * psi.y < -Abs(psi.x) || (psi.y == 0.0 && psi.x >= 0.0)
    ensures BranchOf(psi) == Parabola && psi.y != 0.0 ==>
      SpecificSupportingFunction(psi).Success? &&
      SpecificSupportingFunction(psi).value == -(psi.x * psi.x) / (4.0 * psi.y)
    ensures BranchOf(psi) == RightFace ==>
      SpecificSupportingFunction(psi).Success? && SpecificSupportingFunction(psi).value == psi.x + psi.y
    ensures BranchOf(psi) == LeftFace ==>
      SpecificSupportingFunction(psi).Success? && SpecificSupportingFunction(psi).value == psi.y - psi.x
  {
    BranchRegions(psi);
    match BranchOf(psi)
    case Parabola =>
      if psi.y != 0.0 {
        ParabolaFormula(psi.x, psi.y);
      }
    case RightFace =>
    case LeftFace =>
    case Undefined =>
  }

  /** The code's -x * x / y / 4 is -x^2 / (4 y). */
  lemma ParabolaFormula(x: real, y: real)
    requires y != 0.0
    ensures -x * x / y / 4.0 == -(x * x) / (4.0 * y)
  {
    assert -x * x == -(x * x);
  }

  /** Positive homogeneity: scaling psi = (x, y) by k > 0 keeps the branch and scales the value. */
  lemma SupportIsPositivelyHomogeneous(x: real, y: real, k: real)
    requires k > 0.0
    ensures BranchOf(Vector2(k * x, k * y)) == BranchOf(Vector2(x, y))
    ensures SpecificSupportingFunction(Vector2(k * x, k * y)).Success? <==> SpecificSupportingFunction(Vector2(x, y)).Success?
    ensures SpecificSupportingFunction(Vector2(x, y)).Success? ==>
      SpecificSupportingFunction(Vector2(k * x, k * y)).value == k * SpecificSupportingFunction(Vector2(x, y)).value
  {
    BranchIsScaleInvariant(x, y, k);
    ValueScalesWithinBranch(x, y, k);
  }

  /** Given that the branch is kept, each branch's formula scales by k. */
  lemma ValueScalesWithinBranch(x: real, y: real, k: real)
    requires k > 0.0
    requires BranchOf(Vector2(k * x, k * y)) == BranchOf(Vector2(x, y))
    ensures SpecificSupportingFunction(Vector2(k * x, k * y)).Success? <==> SpecificSupportingFunction(Vector2(x, y)).Success?
    ensures SpecificSupportingFunction(Vector2(x, y)).Success? ==>
      SpecificSupportingFunction(Vector2(k * x, k * y)).value == k * SpecificSupportingFunction(Vector2(x, y)).value
  {
    match BranchOf(Vector2(x, y))
    case Parabola =>
      if y != 0.0 {
        assert k * y != 0.0;
        ParabolaValueScales(x, y, k);
      } else {
        assert k * y == 0.0;
      }
    case RightFace =>
      assert k * x + k * y == k * (x + y);
    case LeftFace =>
      assert k * y - k * x == k * (y - x);
    case Undefined =>
  }

  lemma BranchIsScaleInvariant(x: real, y: real, k: real)
    requires k > 0.0
    ensures BranchOf(Vector2(k * x, k * y)) == BranchOf(Vector2(x, y))
  {
    SignOfScaled(k, x);
    SignOfScaled(k, x - 2.0 * y);
    SignOfScaled(k, y + x / 2.0);
    SignOfScaled(k, 2.0 * y + x);
    SignOfScaled(k, -x);
    SignOfScaled(k, 2.0 * y - x);
  }

  lemma SignOfScaled(k: real, d: real)
    requires k > 0.0
    ensures (d >= 0.0) == (k * d >= 0.0)
  {
    if d < 0.0 {
      assert k * d < 0.0 by { assert k * (-d) > 0.0; }
    }
  }

  lemma ParabolaValueScales(x: real, y: real, k: real)
    requires k > 0.0 && y != 0.0
    ensures -(k * x) * (k * x) / (k * y) / 4.0 == k * (-x * x / y / 4.0)
  {
    assert -(k * x) * (k * x) == k * (k * (-x * x));
    assert k * (k * (-x * x)) / (k * y) == k * (-x * x) / y;
  }

  /** The control set U: above the parabola u.y = u.x^2 and below the line u.y = 1. */
  predicate InControlSet(u: Vector2)
  {
    u.x * u.x <= u.y <= 1.0
  }

  /** The support function of U, with the parabola formula on its own region. */
  function ElementarySupport(p: Vector2): (r: real)
    ensures r >= 0.0
  {
    if p.x >= 0.0 && 2.0 * p.y >= -p.x then p.x + p.y
    else if p.x < 0.0 && 2.0 * p.y >= p.x then p.y - p.x
    else
      assert p.y < 0.0;
      assert -(p.x * p.x) / (4.0 * p.y) >= 0.0 by {
        assert -(p.x * p.x) / (4.0 * p.y) == (p.x * p.x) / (-4.0 * p.y);
      }
      -(p.x * p.x) / (4.0 * p.y)
  }

  /** The point of U where the direction p is maximised. */
  function SupportPoint(p: Vector2): (u: Vector2)
    ensures InControlSet(u)
  {
    if p.x >= 0.0 && 2.0 * p.y >= -p.x then Vector2(1.0, 1.0)
    else if p.x < 0.0 && 2.0 * p.y >= p.x then Vector2(-1.0, 1.0)
    else
      var ux := -p.x / (2.0 * p.y);
      assert ux * ux <= 1.0 by { ParabolaPointBelowLine(p.x, p.y); }
      Vector2(ux, ux * ux)
  }

  lemma ParabolaPointBelowLine(x: real, y: real)
    requires 2.0 * y < -Abs(x)
    ensures (-x / (2.0 * y)) * (-x / (2.0 * y)) <= 1.0
  {
    assert (-2.0 * y) * (-x / (2.0 * y)) == x;
    DividedBound(-x / (2.0 * y), -2.0 * y);
    UnitSquare(-x / (2.0 * y));
  }

  lemma DividedBound(w: real, h: real)
    requires h > 0.0
    requires -h <= h * w <= h
    ensures -1.0 <= w <= 1.0
  {
  }

  lemma UnitSquare(w: real)
    requires -1.0 <= w <= 1.0
    ensures w * w <= 1.0
  {
    if w >= 0.0 {
      assert w * w <= w * 1.0;
    } else {
      assert w * w <= (-w) * 1.0;
    }
  }

  /** The support value is attained in U: it is a maximum, not only a bound. */
  lemma ElementarySupportIsAttained(p: Vector2)
    ensures InControlSet(SupportPoint(p))
    ensures Dot(SupportPoint(p), p) == ElementarySupport(p)
  {
    if !(p.x >= 0.0 && 2.0 * p.y >= -p.x) && !(p.x < 0.0 && 2.0 * p.y >= p.x) {
      TangentPointValue(p.x, p.y);
    }
  }

  lemma TangentPointValue(x: real, y: real)
    requires y != 0.0
    ensures (-x / (2.0 * y)) * x + (-x / (2.0 * y)) * (-x / (2.0 * y)) * y == -(x * x) / (4.0 * y)
  {
    var ux := -x / (2.0 * y);
    assert 2.0 * y * ux == -x;
    assert ux * x + ux * ux * y == ux * (x + ux * y);
    assert x + ux * y == x / 2.0;
    assert ux * (x / 2.0) == -(x * x) / (4.0 * y);
  }

  /** Every point of U scores at most the support value in direction p. */
  lemma ElementarySupportIsUpperBound(p: Vector2, u: Vector2)
    requires InControlSet(u)
    ensures Dot(u, p) <= ElementarySupport(p)
  {
    UnitBound(u.x);
    if p.x >= 0.0 && 2.0 * p.y >= -p.x {
      CornerBound(p.x, p.y, u.x, u.y);
    } else if p.x < 0.0 && 2.0 * p.y >= p.x {
      CornerBound(-p.x, p.y, -u.x, u.y);
    } else {
      ParabolaBound(p.x, p.y, u.x, u.y);
    }
  }

  lemma UnitBound(x: real)
    requires x * x <= 1.0
    ensures -1.0 <= x <= 1.0
  {
  }

  /** The corner (1, 1) beats every point of U when x >= 0 and 2 y >= -x. */
  lemma CornerBound(x: real, y: real, ux: real, uy: real)
    requires x >= 0.0 && 2.0 * y >= -x
    requires -1.0 <= ux <= 1.0 && ux * ux <= uy <= 1.0
    ensures ux * x + uy * y <= x + y
  {
    if y >= 0.0 {
      assert (1.0 - uy) * y >= 0.0;
      assert (1.0 - ux) * x >= 0.0;
    } else {
      assert uy * y <= ux * ux * y;
      assert x + y - ux * x - ux * ux * y == (1.0 - ux) * (x + y * (1.0 + ux));
      assert x + y * (1.0 + ux) >= 0.0 by {
        assert y * (1.0 + ux) >= 2.0 * y;
      }
      assert (1.0 - ux) * (x + y * (1.0 + ux)) >= 0.0;
    }
  }

  /** On the parabola region the tangent point beats every point of U. */
  lemma ParabolaBound(x: real, y: real, ux: real, uy: real)
    requires y < 0.0
    requires ux * ux <= uy
    ensures ux * x + uy * y <= -(x * x) / (4.0 * y)
  {
    assert uy * y <= ux * ux * y;
    var s := x + 2.0 * y * ux;
    assert -(x * x) / (4.0 * y) - ux * x - ux * ux * y == (s * s) / (-4.0 * y);
    assert (s * s) / (-4.0 * y) >= 0.0;
  }

  /** The code as written disagrees with the support function of U: at (0, -1)
      it returns NaN where the support value is 0, and at (2, 1/2) it returns
      -2 although the point (1, 1) of U already scores 2.5. */
  lemma AsWrittenIsNotTheSupport()
    ensures SpecificSupportingFunction(Vector2(0.0, -1.0)) == Failure(NonFinite)
    ensures ElementarySupport(Vector2(0.0, -1.0)) == 0.0
    ensures SpecificSupportingFunction(Vector2(2.0, 0.5)) == Success(-2.0)
    ensures InControlSet(Vector2(1.0, 1.0)) && Dot(Vector2(1.0, 1.0), Vector2(2.0, 0.5)) == 2.5
    ensures ElementarySupport(Vector2(2.0, 0.5)) == 2.5
  {
    assert BranchOf(Vector2(2.0, 0.5)) == Parabola;
  }
}
