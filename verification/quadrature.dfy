/** Fixed-step numerical integration over an interval (`Boundaries`,
 `RectangleIntegration`, `Integrate`). The subdivision count is an integer
 here; see the README for the non-integer counts the C# type admits. */
module Quadrature {
  import opened Outcomes

  datatype IntegrationMethod = Trapezium | Rectangles

  /** The interval [left, right] cut into n equal pieces. */
  datatype Boundaries = Boundaries(left: real, right: real, n: int) {

    /** The length of the interval: moving it from the left end reaches the right end. */
    function Len(): (r: real)
      ensures left + r == right
    {
      right - left
    }

    /** The width of one piece: n of them make up the whole interval. */
    function Step(): (r: real)
      requires n != 0
      ensures (n as real) * r == right - left
    {
      Len() / (n as real)
    }
  }

  /** The left-endpoint sum over the first k pieces:
      the sum over i < k of f(left + i * step) * step. */
  function LeftSum(f: real -> real, left: real, step: real, k: nat): real
  {
    if k == 0 then 0.0
    else LeftSum(f, left, step, k - 1) + f(left + ((k - 1) as real) * step) * step
  }

  /** `RectangleIntegration`: walk the node t from the left end in steps of
      `Step`, adding f(t) * Step at each node. With no pieces nothing is added. */
  method RectangleIntegration(f: real -> real, b: Boundaries) returns (result: real)
    ensures b.n <= 0 ==> result == 0.0
    ensures b.n > 0 ==> result == LeftSum(f, b.left, b.Step(), b.n)
  {
    result := 0.0;
    var t := b.left;
    var i := 0;
    while i < b.n
      invariant 0 <= i && (b.n > 0 ==> i <= b.n)
      invariant b.n > 0 ==> t == b.left + (i as real) * b.Step()
      invariant b.n > 0 ==> result == LeftSum(f, b.left, b.Step(), i)
      invariant b.n <= 0 ==> result == 0.0
    {
      var step := b.Step();
      LeftSumStep(f, b.left, step, i);
      assert t == b.left + (i as real) * step;
      result := result + f(t) * step;
      t := t + step;
      i := i + 1;
    }
  }

  lemma LeftSumStep(f: real -> real, left: real, step: real, k: nat)
    ensures LeftSum(f, left, step, k + 1) == LeftSum(f, left, step, k) + f(left + (k as real) * step) * step
  {
    assert ((k + 1 - 1) as real) == k as real;
  }

  /** After the last piece the node has arrived at the right end. */
  lemma LastNodeIsRight(b: Boundaries)
    requires b.n > 0
    ensures b.left + (b.n as real) * b.Step() == b.right
  {
  }

  /** The sum of a constant c over k pieces is c * k * step. */
  lemma {:induction false} LeftSumOfConstant(f: real -> real, c: real, left: real, step: real, k: nat)
    requires forall x :: f(x) == c
    ensures LeftSum(f, left, step, k) == c * (k as real) * step
  {
    if k > 0 {
      LeftSumOfConstant(f, c, left, step, k - 1);
      assert c * ((k - 1) as real) * step + c * step == c * (k as real) * step;
    }
  }

  /** The rectangle rule is exact on constants: c * (right - left). */
  lemma RectanglesExactOnConstants(f: real -> real, c: real, b: Boundaries)
    requires forall x :: f(x) == c
    requires b.n >= 1
    ensures LeftSum(f, b.left, b.Step(), b.n) == c * (b.right - b.left)
  {
    LeftSumOfConstant(f, c, b.left, b.Step(), b.n);
    assert c * (b.n as real) * b.Step() == c * ((b.n as real) * b.Step());
  }

  /** `TrapeziumIntegration` only throws `NotImplementedException`. */
  function TrapeziumIntegration(f: real -> real, b: Boundaries): (r: Result<real>)
    ensures r.Failure? && r.fault == NotImplemented
  {
    Failure(NotImplemented)
  }

  /** `Integrate`: the rectangle rule, or the unimplemented trapezium rule. */
  method Integrate(f: real -> real, b: Boundaries, integrationMethod: IntegrationMethod) returns (r: Result<real>)
    ensures integrationMethod == Rectangles ==> r.Success?
    ensures integrationMethod == Rectangles && b.n <= 0 ==> r.value == 0.0
    ensures integrationMethod == Rectangles && b.n > 0 ==> r.value == LeftSum(f, b.left, b.Step(), b.n)
    ensures integrationMethod == Trapezium ==> r == Failure(NotImplemented)
  {
    match integrationMethod
    case Rectangles =>
      var result := RectangleIntegration(f, b);
      r := Success(result);
    case Trapezium =>
      r := TrapeziumIntegration(f, b);
  }
}
