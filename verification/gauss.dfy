/** Gaussian elimination without pivoting (`NumericMethods.Gauss`) on an
 augmented system: n rows, each holding the n coefficients of one equation
 followed by its right-hand side. Every step is a row operation — scaling a
 row by a non-zero number, or subtracting a multiple of another row — and
 each such operation keeps the set of solutions, which is how the answer is
 shown to be the one and only solution of the input system. */
module LinearSystems {
  import opened Outcomes

  /** The determinant of the leading 2 x 2 block. */
  function LeadingDet(m: seq<seq<real>>): real
    requires |m| >= 2 && |m[0]| >= 2 && |m[1]| >= 2
  {
    m[0][0] * m[1][1] - m[0][1] * m[1][0]
  }

  /** A C# rectangular array: every row as wide as the first. */
  predicate IsGrid(m: seq<seq<real>>)
  {
    forall i :: 0 <= i < |m| ==> |m[i]| == |m[0]|
  }

  /** An augmented system in normal form: n rows of exactly n + 1 numbers. */
  predicate IsSystem(c: seq<seq<real>>)
  {
    forall i :: 0 <= i < |c| ==> |c[i]| == |c| + 1
  }

  /** The left-hand side of an equation at x, over its first k unknowns:
      the sum over j < k of row[j] * x[j]. */
  function Combination(row: seq<real>, x: seq<real>, k: nat): real
    requires k <= |row| && k <= |x|
  {
    if k == 0 then 0.0 else Combination(row, x, k - 1) + row[k - 1] * x[k - 1]
  }

  /** x solves the system of the first |m| equations, with the right-hand side
      in column |m|; columns after it play no part. */
  predicate Solves(m: seq<seq<real>>, x: seq<real>)
  {
    |x| == |m| &&
    forall i :: 0 <= i < |m| ==> |m[i]| > |m| && Combination(m[i], x, |m|) == m[i][|m|]
  }

  /** Row k divided by the pivot p. */
  function ScaleRow(row: seq<real>, p: real): (r: seq<real>)
    requires p != 0.0
    ensures |r| == |row|
    ensures forall j :: 0 <= j < |row| ==> r[j] * p == row[j]
  {
    seq(|row|, j requires 0 <= j < |row| => row[j] / p)
  }

  /** Row minus K times the pivot row. */
  function SubtractMultiple(row: seq<real>, pivotRow: seq<real>, K: real): (r: seq<real>)
    requires |pivotRow| == |row|
    ensures |r| == |row|
    ensures forall j :: 0 <= j < |row| ==> r[j] + pivotRow[j] * K == row[j]
  {
    seq(|row|, j requires 0 <= j < |row| => row[j] - pivotRow[j] * K)
  }

  lemma {:induction false} CombinationOfScaled(row: seq<real>, x: seq<real>, p: real, k: nat)
    requires p != 0.0 && k <= |row| && k <= |x|
    ensures Combination(ScaleRow(row, p), x, k) * p == Combination(row, x, k)
  {
    if k > 0 {
      CombinationOfScaled(row, x, p, k - 1);
      var s := ScaleRow(row, p);
      assert s[k - 1] * x[k - 1] * p == row[k - 1] * x[k - 1] by {
        assert s[k - 1] * p == row[k - 1];
      }
    }
  }

  lemma {:induction false} CombinationOfDifference(row: seq<real>, pivotRow: seq<real>, x: seq<real>, K: real, k: nat)
    requires |pivotRow| == |row| && k <= |row| && k <= |x|
    ensures Combination(SubtractMultiple(row, pivotRow, K), x, k) ==
      Combination(row, x, k) - K * Combination(pivotRow, x, k)
  {
    if k > 0 {
      CombinationOfDifference(row, pivotRow, x, K, k - 1);
      var s := SubtractMultiple(row, pivotRow, K);
      assert s[k - 1] * x[k - 1] == row[k - 1] * x[k - 1] - K * (pivotRow[k - 1] * x[k - 1]) by {
        assert s[k - 1] == row[k - 1] - pivotRow[k - 1] * K;
      }
    }
  }

  /** Only the first k coefficients enter the combination. */
  lemma {:induction false} CombinationOfPrefix(row: seq<real>, x: seq<real>, w: nat, k: nat)
    requires k <= w <= |row| && k <= |x|
    ensures Combination(row[..w], x, k) == Combination(row, x, k)
  {
    if k > 0 {
      CombinationOfPrefix(row, x, w, k - 1);
    }
  }

  /** A row holding 1 at column i and 0 elsewhere picks out x[i]. */
  lemma {:induction false} CombinationOfUnit(row: seq<real>, x: seq<real>, i: nat, k: nat)
    requires k <= |row| && k <= |x|
    requires forall j :: 0 <= j < k ==> row[j] == if j == i then 1.0 else 0.0
    ensures Combination(row, x, k) == if i < k then x[i] else 0.0
  {
    if k > 0 {
      CombinationOfUnit(row, x, i, k - 1);
    }
  }

  lemma CancelFactor(u: real, v: real, p: real)
    requires p != 0.0 && u * p == v * p
    ensures u == v
  {
  }

  /** Dividing an equation by a non-zero number keeps every solution and adds none. */
  lemma ScalingKeepsSolutions(c: seq<seq<real>>, k: nat, p: real)
    requires IsSystem(c) && k < |c| && p != 0.0
    ensures IsSystem(c[k := ScaleRow(c[k], p)])
    ensures forall x :: Solves(c[k := ScaleRow(c[k], p)], x) <==> Solves(c, x)
  {
    var d := c[k := ScaleRow(c[k], p)];
    var n := |c|;
    forall x | |x| == n
      ensures Combination(d[k], x, n) == d[k][n] <==> Combination(c[k], x, n) == c[k][n]
    {
      CombinationOfScaled(c[k], x, p, n);
      assert d[k][n] * p == c[k][n];
      if Combination(c[k], x, n) == c[k][n] {
        CancelFactor(Combination(d[k], x, n), d[k][n], p);
      }
    }
    forall x
      ensures Solves(d, x) <==> Solves(c, x)
    {
      if |x| == n {
        assert forall i :: 0 <= i < n && i != k ==> d[i] == c[i];
      }
    }
  }

  /** Subtracting a multiple of another equation keeps every solution and adds none. */
  lemma SubtractingKeepsSolutions(c: seq<seq<real>>, i: nat, k: nat, K: real)
    requires IsSystem(c) && i < |c| && k < |c| && i != k
    ensures IsSystem(c[i := SubtractMultiple(c[i], c[k], K)])
    ensures forall x :: Solves(c[i := SubtractMultiple(c[i], c[k], K)], x) <==> Solves(c, x)
  {
    var d := c[i := SubtractMultiple(c[i], c[k], K)];
    var n := |c|;
    forall x
      ensures Solves(d, x) <==> Solves(c, x)
    {
      if |x| == n {
        assert d[k] == c[k];
        assert forall r :: 0 <= r < n && r != i ==> d[r] == c[r];
        CombinationOfDifference(c[i], c[k], x, K, n);
        assert d[i][n] == c[i][n] - K * c[k][n];
        if Solves(c, x) {
          assert Combination(c[k], x, n) == c[k][n];
        }
        if Solves(d, x) {
          assert Combination(d[k], x, n) == d[k][n];
        }
      }
    }
  }

  /** The first k columns are cleared below the diagonal, and the first k rows
      carry 1 on it. With k == n this is unit upper-triangular form. */
  predicate EliminatedUpTo(c: seq<seq<real>>, k: nat)
    requires IsSystem(c) && k <= |c|
  {
    (forall i :: 0 <= i < k ==> c[i][i] == 1.0) &&
    (forall i, j :: 0 <= j < k && j < i < |c| ==> c[i][j] == 0.0)
  }

  /** Reduced form: the coefficients are those of the identity matrix. */
  predicate IsReduced(c: seq<seq<real>>)
    requires IsSystem(c)
  {
    forall i, j :: 0 <= i < |c| && 0 <= j < |c| ==> c[i][j] == if i == j then 1.0 else 0.0
  }

  /** The solutions of a reduced system: exactly its right-hand side. */
  lemma ReducedSolution(c: seq<seq<real>>)
    requires IsSystem(c) && IsReduced(c)
    ensures forall x :: Solves(c, x) <==> x == seq(|c|, i requires 0 <= i < |c| => c[i][|c|])
  {
    var n := |c|;
    var answer := seq(n, i requires 0 <= i < n => c[i][n]);
    forall x
      ensures Solves(c, x) <==> x == answer
    {
      if |x| == n {
        forall i | 0 <= i < n
          ensures Combination(c[i], x, n) == x[i]
        {
          CombinationOfUnit(c[i], x, i, n);
        }
        if Solves(c, x) {
          assert forall i :: 0 <= i < n ==> x[i] == answer[i];
        }
      }
    }
  }

  /** Dividing row k by its own pivot puts 1 on the diagonal and keeps the cleared columns. */
  lemma ScalingMakesUnitPivot(c: seq<seq<real>>, k: nat)
    requires IsSystem(c) && k < |c| && EliminatedUpTo(c, k) && c[k][k] != 0.0
    ensures IsSystem(c[k := ScaleRow(c[k], c[k][k])])
    ensures EliminatedUpTo(c[k := ScaleRow(c[k], c[k][k])], k)
    ensures c[k := ScaleRow(c[k], c[k][k])][k][k] == 1.0
  {
    var p := c[k][k];
    var d := c[k := ScaleRow(c[k], p)];
    CancelFactor(d[k][k], 1.0, p);
    forall j | 0 <= j < k
      ensures d[k][j] == 0.0
    {
      CancelFactor(d[k][j], 0.0, p);
    }
  }

  /** The inner loop of the forward pass: for every row below k, subtract the
      multiple of row k that clears column k. */
  method EliminateBelow(c: seq<seq<real>>, k: nat) returns (d: seq<seq<real>>)
    requires IsSystem(c) && k < |c|
    requires EliminatedUpTo(c, k) && c[k][k] == 1.0
    ensures IsSystem(d) && |d| == |c|
    ensures EliminatedUpTo(d, k + 1)
    ensures forall r :: 0 <= r <= k ==> d[r] == c[r]
    ensures forall r :: k < r < |c| ==> d[r] == SubtractMultiple(c[r], c[k], c[r][k])
    ensures forall x :: Solves(d, x) <==> Solves(c, x)
  {
    d := c;
    var n := |c|;
    var i := k + 1;
    while i < n
      invariant k + 1 <= i <= n
      invariant IsSystem(d) && |d| == n
      invariant forall r :: 0 <= r <= k ==> d[r] == c[r]
      invariant forall r :: i <= r < n ==> d[r] == c[r]
      invariant forall r :: k < r < i ==> d[r] == SubtractMultiple(c[r], c[k], c[r][k])
      invariant EliminatedUpTo(d, k)
      invariant forall r :: k < r < i ==> d[r][k] == 0.0
      invariant forall x :: Solves(d, x) <==> Solves(c, x)
    {
      var K := d[i][k] / d[k][k];
      assert K == c[i][k];
      SubtractingKeepsSolutions(d, i, k, K);
      d := d[i := SubtractMultiple(d[i], d[k], K)];
      i := i + 1;
    }
  }

  /** The inner loop of the backward pass: for every row above k, subtract the
      multiple of row k that clears column k. Row k is a unit row, so no other
      coefficient moves. */
  method EliminateAbove(c: seq<seq<real>>, k: nat) returns (d: seq<seq<real>>)
    requires IsSystem(c) && k < |c|
    requires forall j :: 0 <= j < |c| ==> c[k][j] == if j == k then 1.0 else 0.0
    ensures IsSystem(d) && |d| == |c|
    ensures forall r :: k <= r < |c| ==> d[r] == c[r]
    ensures forall r :: 0 <= r < k ==> d[r][k] == 0.0
    ensures forall r, j :: 0 <= r < |c| && 0 <= j < |c| && j != k ==> d[r][j] == c[r][j]
    ensures forall x :: Solves(d, x) <==> Solves(c, x)
  {
    d := c;
    var n := |c|;
    var i := k - 1;
    while i >= 0
      invariant -1 <= i < k
      invariant IsSystem(d) && |d| == n
      invariant forall r :: k <= r < n ==> d[r] == c[r]
      invariant forall r :: 0 <= r <= i ==> d[r] == c[r]
      invariant forall r :: i < r < k ==> d[r][k] == 0.0
      invariant forall r, j :: 0 <= r < n && 0 <= j < n && j != k ==> d[r][j] == c[r][j]
      invariant forall x :: Solves(d, x) <==> Solves(c, x)
    {
      var K := d[i][k] / d[k][k];
      SubtractingKeepsSolutions(d, i, k, K);
      d := d[i := SubtractMultiple(d[i], d[k], K)];
      i := i - 1;
    }
  }

  /** The working copy: the first n + 1 columns of the first n rows. */
  function Clone(m: seq<seq<real>>): (c: seq<seq<real>>)
    requires forall i :: 0 <= i < |m| ==> |m[i]| > |m|
    ensures IsSystem(c) && |c| == |m|
    ensures forall x :: Solves(c, x) <==> Solves(m, x)
  {
    var c := seq(|m|, i requires 0 <= i < |m| => m[i][..|m| + 1]);
    assert forall x :: Solves(c, x) <==> Solves(m, x) by {
      forall x | |x| == |m|
        ensures forall i :: 0 <= i < |m| ==> Combination(c[i], x, |m|) == Combination(m[i], x, |m|)
      {
        forall i | 0 <= i < |m|
          ensures Combination(c[i], x, |m|) == Combination(m[i], x, |m|)
        {
          CombinationOfPrefix(m[i], x, |m| + 1, |m|);
        }
      }
    }
    c
  }

  /** The caller's array after the copy-back at the end of a forward step: the
      working copy over the first n + 1 columns, the caller's own values after them. */
  function Overwrite(m: seq<seq<real>>, c: seq<seq<real>>): (w: seq<seq<real>>)
    requires IsSystem(c) && |c| == |m|
    requires forall i :: 0 <= i < |m| ==> |m[i]| > |m|
    ensures |w| == |m|
    ensures forall i :: 0 <= i < |m| ==> |w[i]| == |m[i]| && w[i][..|m| + 1] == c[i] && w[i][|m| + 1..] == m[i][|m| + 1..]
  {
    seq(|m|, i requires 0 <= i < |m| => c[i] + m[i][|m| + 1..])
  }

  /** The caller's array, once overwritten, states the working copy's system. */
  lemma OverwriteKeepsSolutions(m: seq<seq<real>>, c: seq<seq<real>>)
    requires IsSystem(c) && |c| == |m|
    requires forall i :: 0 <= i < |m| ==> |m[i]| > |m|
    ensures forall x :: Solves(Overwrite(m, c), x) <==> Solves(c, x)
  {
    var w := Overwrite(m, c);
    var n := |m|;
    forall x | |x| == n
      ensures forall i :: 0 <= i < n ==> Combination(w[i], x, n) == Combination(c[i], x, n) && w[i][n] == c[i][n]
    {
      forall i | 0 <= i < n
        ensures Combination(w[i], x, n) == Combination(c[i], x, n) && w[i][n] == c[i][n]
      {
        CombinationOfPrefix(w[i], x, n + 1, n);
        assert w[i][..n + 1] == c[i];
      }
    }
  }

  /** The forward pass: divide row k by its pivot, clear column k below it, and
      copy the working matrix back into the caller's array. The pivot is read
      from the caller's array, which holds the working copy's value at that
      moment. A zero pivot makes the code divide by zero; the NaN that 0 / 0
      leaves on the diagonal reaches the last answer, so this is a failure. */
  method ForwardPass(m: seq<seq<real>>) returns (r: Result<(seq<seq<real>>, seq<seq<real>>)>)
    requires forall i :: 0 <= i < |m| ==> |m[i]| > |m|
    ensures r.Failure? ==> r.fault == NonFinite
    ensures |m| > 0 && m[0][0] == 0.0 ==> r.Failure?
    ensures |m| == 0 ==> r.Success?
    ensures |m| == 1 && m[0][0] != 0.0 ==> r.Success?
    ensures |m| == 2 && m[0][0] != 0.0 && LeadingDet(m) != 0.0 ==> r.Success?
    ensures |m| == 2 && r.Success? ==> m[0][0] != 0.0 && LeadingDet(m) != 0.0
    ensures 1 <= |m| <= 2 && r.Success? ==>
      && m[0][0] != 0.0 && |r.value.0| == |m| && |r.value.0[0]| == |m| + 1
      && r.value.0[0][1] == m[0][1] / m[0][0]
    ensures |m| == 2 && r.Success? ==>
      && m[0][0] != 0.0 && LeadingDet(m) != 0.0
      && |r.value.0| == 2 && |r.value.0[0]| == 3 && |r.value.0[1]| == 3
      && r.value.0[0][2] == m[0][2] / m[0][0]
      && r.value.0[1][2] == (m[0][0] * m[1][2] - m[1][0] * m[0][2]) / LeadingDet(m)
    ensures r.Success? ==> IsSystem(r.value.0) && |r.value.0| == |m| && EliminatedUpTo(r.value.0, |m|)
    ensures r.Success? ==> r.value.1 == Overwrite(m, r.value.0)
    ensures r.Success? ==> forall x :: Solves(r.value.0, x) <==> Solves(m, x)
  {
    var n := |m|;
    var c := Clone(m);
    var w := m;
    var k := 0;
    while k < n
      invariant 0 <= k <= n
      invariant IsSystem(c) && |c| == n
      invariant k == 0 ==> w == m && c == Clone(m)
      invariant k > 0 ==> w == Overwrite(m, c) && m[0][0] != 0.0
      invariant EliminatedUpTo(c, k)
      invariant forall x :: Solves(c, x) <==> Solves(m, x)
      invariant n == 1 ==> OneByOneAfter(m, c, k)
      invariant n == 2 ==> TwoByTwoAfter(m, c, k)
    {
      var p := w[k][k];
      assert p == c[k][k] by {
        if k > 0 {
          assert w[k][..n + 1] == c[k];
        }
      }
      if p == 0.0 {
        return Failure(NonFinite);
      }
      ScalingKeepsSolutions(c, k, p);
      ScalingMakesUnitPivot(c, k);
      ghost var before := c;
      c := c[k := ScaleRow(c[k], p)];
      ghost var scaled := c;
      c := EliminateBelow(c, k);
      if n == 1 {
        assert c[0] == scaled[0];
      }
      if n == 2 && k == 0 {
        assert before[0] == m[0][..3] && before[1] == m[1][..3];
        assert c[0] == scaled[0];
        TwoByTwoFirstStep(m, scaled, c);
      } else if n == 2 {
        assert c[0] == scaled[0] && c[1] == scaled[1];
        TwoByTwoSecondStep(m, before, c);
      }
      w := Overwrite(m, c);
      k := k + 1;
    }
    if n == 0 {
      w := Overwrite(m, c);
    }
    if n == 1 {
      OneByOnePinned(m, c);
    } else if n == 2 {
      TwoByTwoPinned(m, c);
    }
    return Success((c, w));
  }

  /** For a 2 x 2 system [[a, b], [c, d]] with a != 0: once row 0 is divided
      by a (so s a == b) and row 1 has lost c times it, the second pivot
      q = d - s c is det / a. */
  lemma SecondPivot(a: real, b: real, c: real, d: real, s: real, q: real)
    requires s * a == b && q == d - s * c
    ensures q * a == a * d - b * c
  {
    assert q * a == d * a - c * (s * a);
  }

  /** What the forward pass knows of a 1 x 1 system after k steps: row 0 has
      been divided by the pivot m[0][0]. */
  predicate OneByOneAfter(m: seq<seq<real>>, c: seq<seq<real>>, k: nat)
    requires |m| == 1 && |m[0]| > 1 && IsSystem(c) && |c| == 1
  {
    k >= 1 ==> m[0][0] != 0.0 && c[0][1] * m[0][0] == m[0][1]
  }

  /** What the forward pass knows of a 2 x 2 system after k steps: after the
      first, row 0 is divided by m[0][0] and row 1 has lost m[1][0] times it,
      leaving det / m[0][0] as the second pivot; after the second, row 1 is
      divided by that pivot too. */
  predicate TwoByTwoAfter(m: seq<seq<real>>, c: seq<seq<real>>, k: nat)
    requires |m| == 2 && |m[0]| > 2 && |m[1]| > 2 && IsSystem(c) && |c| == 2
  {
    && (k >= 1 ==> m[0][0] != 0.0 && c[0][1] * m[0][0] == m[0][1] && c[0][2] * m[0][0] == m[0][2])
    && (k == 1 ==>
          && c[1][1] * m[0][0] == LeadingDet(m)
          && c[1][2] * m[0][0] == m[0][0] * m[1][2] - m[0][2] * m[1][0])
    && (k == 2 ==>
          && LeadingDet(m) != 0.0
          && c[1][2] * LeadingDet(m) == m[0][0] * m[1][2] - m[0][2] * m[1][0])
  }

  /** The first step of the forward pass on a 2 x 2 system establishes
      `TwoByTwoAfter` for k = 1. */
  lemma TwoByTwoFirstStep(m: seq<seq<real>>, scaled: seq<seq<real>>, c: seq<seq<real>>)
    requires |m| == 2 && |m[0]| > 2 && |m[1]| > 2 && m[0][0] != 0.0
    requires IsSystem(scaled) && |scaled| == 2 && IsSystem(c) && |c| == 2
    requires scaled[0] == ScaleRow(m[0][..3], m[0][0]) && scaled[1] == m[1][..3]
    requires c[0] == scaled[0] && c[1] == SubtractMultiple(scaled[1], scaled[0], scaled[1][0])
    ensures TwoByTwoAfter(m, c, 1)
  {
    SecondPivot(m[0][0], m[0][1], m[1][0], m[1][1], scaled[0][1], c[1][1]);
    SecondPivot(m[0][0], m[0][2], m[1][0], m[1][2], scaled[0][2], c[1][2]);
  }

  /** The second step of the forward pass on a 2 x 2 system carries
      `TwoByTwoAfter` from k = 1 to k = 2. */
  lemma TwoByTwoSecondStep(m: seq<seq<real>>, before: seq<seq<real>>, c: seq<seq<real>>)
    requires |m| == 2 && |m[0]| > 2 && |m[1]| > 2
    requires IsSystem(before) && |before| == 2 && TwoByTwoAfter(m, before, 1)
    requires before[1][1] != 0.0
    requires IsSystem(c) && |c| == 2
    requires c[0] == before[0] && c[1] == ScaleRow(before[1], before[1][1])
    ensures TwoByTwoAfter(m, c, 2)
  {
    CarryPivot(c[1][2], before[1][1], before[1][2], m[0][0], LeadingDet(m), m[0][0] * m[1][2] - m[0][2] * m[1][0]);
  }

  /** Dividing row 1 by its pivot p, where p a is the determinant d: an entry
      y with y a == e becomes x with x d == e, and d is not zero. */
  lemma CarryPivot(x: real, p: real, y: real, a: real, d: real, e: real)
    requires p != 0.0 && a != 0.0 && x * p == y && y * a == e && p * a == d
    ensures d != 0.0 && x * d == e
  {
    assert x * d == (x * p) * a;
  }

  /** After the forward pass on a 1 x 1 system, its one entry beside the
      pivot is the original one divided by the pivot. */
  lemma OneByOnePinned(m: seq<seq<real>>, c: seq<seq<real>>)
    requires |m| == 1 && |m[0]| > 1 && IsSystem(c) && |c| == 1 && OneByOneAfter(m, c, 1)
    ensures m[0][0] != 0.0 && c[0][1] == m[0][1] / m[0][0]
  {
    Quotient(c[0][1], m[0][0], m[0][1]);
  }

  /** After the forward pass on a 2 x 2 system, row 0 is the original row 0
      divided by m[0][0], and the right-hand side of row 1 is the one
      Cramer's rule gives for the second unknown. */
  lemma TwoByTwoPinned(m: seq<seq<real>>, c: seq<seq<real>>)
    requires |m| == 2 && |m[0]| > 2 && |m[1]| > 2 && IsSystem(c) && |c| == 2 && TwoByTwoAfter(m, c, 2)
    ensures m[0][0] != 0.0 && LeadingDet(m) != 0.0
    ensures c[0][1] == m[0][1] / m[0][0] && c[0][2] == m[0][2] / m[0][0]
    ensures c[1][2] == (m[0][0] * m[1][2] - m[1][0] * m[0][2]) / LeadingDet(m)
  {
    Quotient(c[0][1], m[0][0], m[0][1]);
    Quotient(c[0][2], m[0][0], m[0][2]);
    Quotient(c[1][2], LeadingDet(m), m[0][0] * m[1][2] - m[0][2] * m[1][0]);
  }

  lemma Quotient(x: real, a: real, b: real)
    requires a != 0.0 && x * a == b
    ensures x == b / a
  {
  }

  /** The backward pass on a unit upper-triangular system: divide row k by the
      diagonal entry of the caller's array (1 after the forward pass), then clear
      column k above it, for k from the last row up to the first. */
  method BackwardPass(c: seq<seq<real>>, w: seq<seq<real>>) returns (d: seq<seq<real>>)
    requires IsSystem(c) && EliminatedUpTo(c, |c|)
    requires |w| == |c| && forall i :: 0 <= i < |c| ==> |w[i]| > i && w[i][i] == c[i][i]
    ensures IsSystem(d) && |d| == |c| && IsReduced(d)
    ensures forall x :: Solves(d, x) <==> Solves(c, x)
  {
    var n := |c|;
    d := c;
    var k := n - 1;
    while k >= 0
      invariant -1 <= k < n
      invariant IsSystem(d) && |d| == n
      invariant EliminatedUpTo(d, n)
      invariant forall i, j :: 0 <= i < n && k < j < n && i != j ==> d[i][j] == 0.0
      invariant forall x :: Solves(d, x) <==> Solves(c, x)
    {
      var p := w[k][k];
      assert p == 1.0;
      ScalingKeepsSolutions(d, k, p);
      assert ScaleRow(d[k], p) == d[k];
      d := d[k := ScaleRow(d[k], p)];
      d := EliminateAbove(d, k);
      k := k - 1;
    }
  }

  /** What `Gauss` leaves behind: the answer, and the caller's array, which the
      forward pass overwrites. */
  datatype Solution = Solution(answer: seq<real>, overwritten: seq<seq<real>>)

  /** `Gauss`: solve the n x n system whose right-hand side is column n. An
      array narrower than n + 1 columns makes the copy step index out of range;
      wider arrays have their extra columns ignored and left untouched. */
  method Gauss(m: seq<seq<real>>) returns (r: Result<Solution>)
    requires IsGrid(m)
    ensures r.Failure? <==> r == Failure(IndexOutOfRange) || r == Failure(NonFinite)
    ensures r == Failure(IndexOutOfRange) <==> |m| > 0 && |m[0]| < |m| + 1
    ensures |m| > 0 && |m[0]| >= |m| + 1 && m[0][0] == 0.0 ==> r == Failure(NonFinite)
    ensures |m| == 0 ==> r.Success?
    ensures |m| == 1 && |m[0]| >= 2 && m[0][0] != 0.0 ==> r.Success?
    ensures |m| == 2 && |m[0]| >= 3 && m[0][0] != 0.0 && LeadingDet(m) != 0.0 ==> r.Success?
    ensures |m| == 2 && r.Success? ==> |m[0]| >= 3 && m[0][0] != 0.0 && LeadingDet(m) != 0.0
    ensures 1 <= |m| <= 2 && r.Success? ==>
      && m[0][0] != 0.0 && |r.value.overwritten| == |m| && |r.value.overwritten[0]| > |m|
      && r.value.overwritten[0][1] == m[0][1] / m[0][0]
    ensures |m| == 2 && r.Success? ==>
      && |m[0]| >= 3 && m[0][0] != 0.0 && LeadingDet(m) != 0.0
      && |r.value.overwritten| == 2 && |r.value.overwritten[0]| >= 3 && |r.value.overwritten[1]| >= 3
      && r.value.overwritten[0][2] == m[0][2] / m[0][0]
      && r.value.overwritten[1][2] == (m[0][0] * m[1][2] - m[1][0] * m[0][2]) / LeadingDet(m)
    ensures r.Success? ==> |r.value.answer| == |m|
    ensures r.Success? ==> forall y :: Solves(m, y) <==> y == r.value.answer
    ensures r.Success? ==> |r.value.overwritten| == |m|
    ensures r.Success? ==> forall i :: 0 <= i < |m| ==>
      |r.value.overwritten[i]| == |m[i]| && r.value.overwritten[i][|m| + 1..] == m[i][|m| + 1..]
    ensures r.Success? ==> forall i, j :: 0 <= j <= i < |m| ==>
      r.value.overwritten[i][j] == if i == j then 1.0 else 0.0
    ensures r.Success? ==> forall y :: Solves(r.value.overwritten, y) <==> Solves(m, y)
  {
    var n := |m|;
    if n > 0 && |m[0]| < n + 1 {
      return Failure(IndexOutOfRange);
    }
    var forward := ForwardPass(m);
    if forward.Failure? {
      return Failure(NonFinite);
    }
    var (c, w) := forward.value;
    var d := BackwardPass(c, w);
    var answer := seq(n, i requires 0 <= i < n => d[i][n]);
    ReducedSolution(d);
    OverwriteKeepsSolutions(m, c);
    if 1 <= n <= 2 {
      assert w[0][..n + 1] == c[0];
      assert w[0][1] == c[0][1];
      if n == 2 {
        assert w[1][..n + 1] == c[1];
        assert w[0][2] == c[0][2] && w[1][2] == c[1][2];
      }
    }
    return Success(Solution(answer, w));
  }
}
