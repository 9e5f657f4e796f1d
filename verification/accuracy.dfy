/** The single tolerance-aware zero test used for every "is it zero" decision. */
module Accuracy {

  /** The default tolerance, 1e-9. */
  const DefaultEps: real := 0.000000001

  function Abs(x: real): (r: real)
    ensures r >= 0.0
    ensures r == x || r == -x
  {
    if x < 0.0 then -x else x
  }

  /** `IsZero(number, eps)`: the distance of `number` from zero is at most `eps`. */
  predicate IsZeroWithin(x: real, eps: real)
  {
    Abs(x - 0.0) <= eps
  }

  /** `IsZero(number)`: the zero test at the default tolerance. */
  predicate IsZero(x: real)
  {
    IsZeroWithin(x, DefaultEps)
  }

  /** The test accepts exactly the closed interval [-eps, eps]. */
  lemma IsZeroWithinInterval(x: real, eps: real)
    ensures IsZeroWithin(x, eps) <==> -eps <= x <= eps
  {
  }

  /** The default test is the two-argument test at 1e-9. */
  lemma IsZeroDefault(x: real)
    ensures IsZero(x) <==> -0.000000001 <= x <= 0.000000001
  {
    IsZeroWithinInterval(x, DefaultEps);
  }

  lemma IsZeroSymmetric(x: real, eps: real)
    ensures IsZeroWithin(x, eps) <==> IsZeroWithin(-x, eps)
  {
  }

  /** Widening the tolerance never turns a zero into a non-zero. */
  lemma IsZeroMonotone(x: real, eps1: real, eps2: real)
    requires eps1 <= eps2
    requires IsZeroWithin(x, eps1)
    ensures IsZeroWithin(x, eps2)
  {
  }

  /** Zero passes every non-negative tolerance, and nothing passes a negative one. */
  lemma IsZeroOfZero(x: real, eps: real)
    ensures eps >= 0.0 ==> IsZeroWithin(0.0, eps)
    ensures eps < 0.0 ==> !IsZeroWithin(x, eps)
  {
  }
}
