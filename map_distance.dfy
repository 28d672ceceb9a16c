/** `densityMapDistance`: the dissimilarity of two density maps, measured as
    the mean squared error over their cells. A map is a sequence of rows; the
    rows of one map need not have equal lengths, but the two maps must have
    the same shape. */
module MapDistance {

  /** Why no distance is defined: the maps differ in shape (a failed `assert`
      in the source), or they have no cell at all (the source divides 0 by 0). */
  datatype MapError = ShapeMismatch | NoCells

  datatype Result<T> = Ok(value: T) | Err(error: MapError)

  /** The two maps have the same number of rows, and row by row the same length. */
  predicate SameShape(a: seq<seq<real>>, b: seq<seq<real>>)
  {
    |a| == |b| && forall i :: 0 <= i < |a| ==> |a[i]| == |b[i]|
  }

  /** The squared error of one cell, `Math.pow(d, 2)`. */
  function Square(d: real): real
  {
    d * d
  }

  /** A squared error is never negative, and it is zero only for equal cells. */
  lemma SquareSign(d: real)
    ensures Square(d) >= 0.0
    ensures Square(d) == 0.0 <==> d == 0.0
  {
    if d > 0.0 {
      calc { Square(d); == d * d; > 0.0; }
    } else if d < 0.0 {
      calc { Square(d); == d * d; > 0.0; }
    } else {
      calc { Square(d); == d * d; == 0.0; }
    }
  }

  /** Swapping the two cells does not change their squared error. */
  lemma SquareOfNegation(d: real)
    ensures Square(-d) == Square(d)
  {
  }

  /** A quotient by a positive total is zero exactly when its numerator is. */
  lemma QuotientZero(x: real, total: real)
    requires total > 0.0
    ensures x / total == 0.0 <==> x == 0.0
  {
    var q := x / total;
    assert q * total == x;
  }

  /** A quotient of a non-negative sum by a positive total is non-negative. */
  lemma QuotientNonNegative(x: real, total: real)
    requires x >= 0.0 && total > 0.0
    ensures x / total >= 0.0
  {
    var q := x / total;
    assert q * total == x;
  }

  /** Sum of the squared errors of the first n cells of rows x and y. */
  function RowSquareError(x: seq<real>, y: seq<real>, n: nat): real
    requires n <= |x| && n <= |y|
  {
    if n == 0 then 0.0
    else RowSquareError(x, y, n - 1) + Square(x[n - 1] - y[n - 1])
  }

  /** Sum of the squared errors of every cell of the first n rows. */
  function SquareError(a: seq<seq<real>>, b: seq<seq<real>>, n: nat): real
    requires n <= |a| && n <= |b|
    requires forall i :: 0 <= i < n ==> |a[i]| == |b[i]|
  {
    if n == 0 then 0.0
    else SquareError(a, b, n - 1) + RowSquareError(a[n - 1], b[n - 1], |a[n - 1]|)
  }

  /** Number of cells in the first n rows. */
  function CellCount(a: seq<seq<real>>, n: nat): nat
    requires n <= |a|
  {
    if n == 0 then 0 else CellCount(a, n - 1) + |a[n - 1]|
  }

  /** The distance the source computes: the mean of the squared cell errors. */
  function MeanSquaredError(a: seq<seq<real>>, b: seq<seq<real>>): Result<real>
  {
    if !SameShape(a, b) then Err(ShapeMismatch)
    else if CellCount(a, |a|) == 0 then Err(NoCells)
    else Ok(SquareError(a, b, |a|) / CellCount(a, |a|) as real)
  }

  /** `densityMapDistance(a, b)`: both loops of the source, with its two
      shape assertions as error results and the empty map as NoCells. */
  method DensityMapDistance(a: seq<seq<real>>, b: seq<seq<real>>) returns (distance: Result<real>)
    ensures distance == MeanSquaredError(a, b)
  {
    if |a| != |b| {
      return Err(ShapeMismatch);
    }
    var sumSquareError := 0.0;
    var count := 0;
    for i := 0 to |a|
      invariant forall k :: 0 <= k < i ==> |a[k]| == |b[k]|
      invariant sumSquareError == SquareError(a, b, i)
      invariant count == CellCount(a, i)
    {
      if |a[i]| != |b[i]| {
        return Err(ShapeMismatch);
      }
      for j := 0 to |a[i]|
        invariant sumSquareError == SquareError(a, b, i) + RowSquareError(a[i], b[i], j)
        invariant count == CellCount(a, i) + j
      {
        sumSquareError := sumSquareError + Square(a[i][j] - b[i][j]);
        count := count + 1;
      }
    }
    if count == 0 {
      return Err(NoCells);
    }
    return Ok(sumSquareError / count as real);
  }

  // ---------------------------------------------------------------------
  // Properties
  // ---------------------------------------------------------------------

  /** The squared errors of a row are zero in sum exactly when the row agrees cell by cell. */
  lemma {:induction false} RowSquareErrorZero(x: seq<real>, y: seq<real>, n: nat)
    requires n <= |x| && n <= |y|
    ensures RowSquareError(x, y, n) >= 0.0
    ensures RowSquareError(x, y, n) == 0.0 <==> forall j :: 0 <= j < n ==> x[j] == y[j]
  {
    if n > 0 {
      RowSquareErrorZero(x, y, n - 1);
      SquareSign(x[n - 1] - y[n - 1]);
    }
  }

  /** The squared errors of the first n rows are zero in sum exactly when those rows agree. */
  lemma {:induction false} SquareErrorZero(a: seq<seq<real>>, b: seq<seq<real>>, n: nat)
    requires n <= |a| && n <= |b|
    requires forall i :: 0 <= i < n ==> |a[i]| == |b[i]|
    ensures SquareError(a, b, n) >= 0.0
    ensures SquareError(a, b, n) == 0.0 <==> forall i :: 0 <= i < n ==> a[i] == b[i]
  {
    if n > 0 {
      SquareErrorZero(a, b, n - 1);
      RowSquareErrorZero(a[n - 1], b[n - 1], |a[n - 1]|);
      if RowSquareError(a[n - 1], b[n - 1], |a[n - 1]|) == 0.0 {
        assert a[n - 1] == b[n - 1];
      }
    }
  }

  lemma {:induction false} RowSquareErrorSymmetric(x: seq<real>, y: seq<real>, n: nat)
    requires n <= |x| && n <= |y|
    ensures RowSquareError(x, y, n) == RowSquareError(y, x, n)
  {
    if n > 0 {
      RowSquareErrorSymmetric(x, y, n - 1);
      SquareOfNegation(x[n - 1] - y[n - 1]);
    }
  }

  lemma {:induction false} SquareErrorSymmetric(a: seq<seq<real>>, b: seq<seq<real>>, n: nat)
    requires n <= |a| && n <= |b|
    requires forall i :: 0 <= i < n ==> |a[i]| == |b[i]|
    ensures SquareError(a, b, n) == SquareError(b, a, n)
  {
    if n > 0 {
      SquareErrorSymmetric(a, b, n - 1);
      RowSquareErrorSymmetric(a[n - 1], b[n - 1], |a[n - 1]|);
    }
  }

  /** Maps of the same shape have the same number of cells. */
  lemma {:induction false} CellCountOfSameShape(a: seq<seq<real>>, b: seq<seq<real>>, n: nat)
    requires n <= |a| && n <= |b|
    requires forall i :: 0 <= i < n ==> |a[i]| == |b[i]|
    ensures CellCount(a, n) == CellCount(b, n)
  {
    if n > 0 {
      CellCountOfSameShape(a, b, n - 1);
    }
  }

  /** The distance is never negative. */
  lemma DistanceNonNegative(a: seq<seq<real>>, b: seq<seq<real>>)
    ensures MeanSquaredError(a, b).Ok? ==> MeanSquaredError(a, b).value >= 0.0
  {
    if SameShape(a, b) && CellCount(a, |a|) > 0 {
      SquareErrorZero(a, b, |a|);
      QuotientNonNegative(SquareError(a, b, |a|), CellCount(a, |a|) as real);
    }
  }

  /** The distance is symmetric, error cases included. */
  lemma DistanceSymmetric(a: seq<seq<real>>, b: seq<seq<real>>)
    ensures MeanSquaredError(a, b) == MeanSquaredError(b, a)
  {
    if SameShape(a, b) {
      assert SameShape(b, a);
      SquareErrorSymmetric(a, b, |a|);
      CellCountOfSameShape(a, b, |a|);
    }
  }

  /** The distance is defined exactly for maps of the same shape with at least one cell. */
  lemma DistanceDefined(a: seq<seq<real>>, b: seq<seq<real>>)
    ensures MeanSquaredError(a, b).Ok? <==> SameShape(a, b) && CellCount(a, |a|) > 0
    ensures MeanSquaredError(a, b) == Err(ShapeMismatch) <==> !SameShape(a, b)
  {
  }

  /** Two maps of the same shape with at least one cell are at distance 0
      exactly when they are equal. */
  lemma DistanceZeroIffEqual(a: seq<seq<real>>, b: seq<seq<real>>)
    requires SameShape(a, b) && CellCount(a, |a|) > 0
    ensures MeanSquaredError(a, b) == Ok(0.0) <==> a == b
  {
    SquareErrorZero(a, b, |a|);
    QuotientZero(SquareError(a, b, |a|), CellCount(a, |a|) as real);
    if SquareError(a, b, |a|) == 0.0 {
      assert a == b;
    }
  }
}
