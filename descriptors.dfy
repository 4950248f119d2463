/** The gesture descriptor (`findDistances`, defined identically in both
    scripts): the matrix of pairwise landmark distances, each divided by the
    palm size, the distance from landmark 0 (wrist) to landmark 9 (base of the
    middle finger). */
module Descriptors {
  import opened Wrappers

  /** A landmark in pixel coordinates, as the scripts store it: `(x, y)`. */
  datatype Point = Point(x: int, y: int)

  /** A descriptor, row by row. */
  type Matrix = seq<seq<real>>

  /** The two Python exceptions building a descriptor can raise. */
  datatype DescriptorError = IndexError | ZeroDivisionError

  /** Landmark whose distance from landmark 0 is the palm size. */
  const PALM_INDEX: nat := 9

  /** What the model asks of the square root `** (1./2.)` stands for:
      the root of 0 is 0 and the root of a positive number is positive. */
  ghost predicate IsRoot(sqrt: real -> real) {
    sqrt(0.0) == 0.0 && forall v :: 0.0 < v ==> 0.0 < sqrt(v)
  }

  /** The squared Euclidean distance of two landmarks, in integers. */
  function SquaredDistance(p: Point, q: Point): (d: int)
    ensures d >= 0
    ensures d == 0 <==> p == q
  {
    var dx, dy := p.x - q.x, p.y - q.y;
    assert dx * dx >= 0 && dy * dy >= 0;
    assert dx != 0 ==> dx * dx > 0;
    assert dy != 0 ==> dy * dy > 0;
    dx * dx + dy * dy
  }

  lemma SquaredDistanceSymmetric(p: Point, q: Point)
    ensures SquaredDistance(p, q) == SquaredDistance(q, p)
  {
    assert (q.x - p.x) * (q.x - p.x) == (p.x - q.x) * (p.x - q.x);
    assert (q.y - p.y) * (q.y - p.y) == (p.y - q.y) * (p.y - q.y);
  }

  function Distance(p: Point, q: Point, sqrt: real -> real): real {
    sqrt(SquaredDistance(p, q) as real)
  }

  /** `generatePalmSize` */
  function PalmSize(points: seq<Point>, sqrt: real -> real): (palm: real)
    requires |points| > PALM_INDEX
    // the same whichever of the two landmarks is taken first
    ensures palm == Distance(points[PALM_INDEX], points[0], sqrt)
  {
    SquaredDistanceSymmetric(points[0], points[PALM_INDEX]);
    Distance(points[0], points[PALM_INDEX], sqrt)
  }

  /** `m` has `n` rows of `n` cells each. */
  predicate IsSquare(m: Matrix, n: nat) {
    |m| == n && forall i :: 0 <= i < n ==> |m[i]| == n
  }

  /** The descriptor `findDistances` computes, or the exception it raises:
      IndexError when there is no landmark 9, ZeroDivisionError when the
      palm size is zero. */
  function DistanceMatrix(points: seq<Point>, sqrt: real -> real): (r: Result<Matrix, DescriptorError>)
    ensures r == Failure(IndexError) <==> |points| <= PALM_INDEX
    ensures r == Failure(ZeroDivisionError) <==> |points| > PALM_INDEX && PalmSize(points, sqrt) == 0.0
    ensures r.Success? ==> IsSquare(r.value, |points|)
    ensures r.Success? ==> forall i, j :: 0 <= i < |points| && 0 <= j < |points| ==>
              r.value[i][j] == Distance(points[i], points[j], sqrt) / PalmSize(points, sqrt)
  {
    var n := |points|;
    if n <= PALM_INDEX then Failure(IndexError)
    else
      var palm := PalmSize(points, sqrt);
      if palm == 0.0 then Failure(ZeroDivisionError)
      else Success(seq(n, i requires 0 <= i < n =>
                     seq(n, j requires 0 <= j < n => Distance(points[i], points[j], sqrt) / palm)))
  }

  /** The palm size of a hand whose landmarks 0 and 9 differ is positive. */
  lemma PalmPositive(points: seq<Point>, sqrt: real -> real)
    requires IsRoot(sqrt)
    requires |points| > PALM_INDEX && PalmSize(points, sqrt) != 0.0
    ensures PalmSize(points, sqrt) > 0.0
  {
    var d := SquaredDistance(points[0], points[PALM_INDEX]);
    assert d != 0;
    assert 0.0 < d as real;
  }

  /** One cell over a positive palm size is not negative. */
  lemma CellNonNegative(p: Point, q: Point, palm: real, sqrt: real -> real)
    requires IsRoot(sqrt) && palm > 0.0
    ensures Distance(p, q, sqrt) / palm >= 0.0
  {
    var d := SquaredDistance(p, q);
    if d != 0 { assert 0.0 < d as real; }
    var v := Distance(p, q, sqrt);
    assert v >= 0.0;
    assert v / palm >= 0.0;
  }

  /** A descriptor is symmetric: the distance from i to j is that from j to i. */
  lemma {:induction false} DescriptorSymmetric(points: seq<Point>, sqrt: real -> real, i: nat, j: nat)
    requires DistanceMatrix(points, sqrt).Success?
    requires i < |points| && j < |points|
    ensures DistanceMatrix(points, sqrt).value[i][j] == DistanceMatrix(points, sqrt).value[j][i]
  {
    SquaredDistanceSymmetric(points[i], points[j]);
  }

  /** A descriptor has no negative cell. */
  lemma {:induction false} DescriptorNonNegative(points: seq<Point>, sqrt: real -> real, i: nat, j: nat)
    requires IsRoot(sqrt)
    requires DistanceMatrix(points, sqrt).Success?
    requires i < |points| && j < |points|
    ensures DistanceMatrix(points, sqrt).value[i][j] >= 0.0
  {
    PalmPositive(points, sqrt);
    CellNonNegative(points[i], points[j], PalmSize(points, sqrt), sqrt);
  }

  /** A descriptor's diagonal is zero, and its cell [0][9], the palm size
      divided by itself, is 1. */
  lemma {:induction false} DescriptorDiagonalAndPalmCell(points: seq<Point>, sqrt: real -> real)
    requires IsRoot(sqrt)
    requires DistanceMatrix(points, sqrt).Success?
    ensures forall i :: 0 <= i < |points| ==> DistanceMatrix(points, sqrt).value[i][i] == 0.0
    ensures DistanceMatrix(points, sqrt).value[0][PALM_INDEX] == 1.0
  {
    var m := DistanceMatrix(points, sqrt).value;
    var palm := PalmSize(points, sqrt);
    forall i | 0 <= i < |points|
      ensures m[i][i] == 0.0
    {
      assert SquaredDistance(points[i], points[i]) == 0;
      assert m[i][i] == 0.0 / palm;
    }
    assert m[0][PALM_INDEX] == palm / palm;
  }

  /** The descriptor fails with ZeroDivisionError exactly when landmarks 0
      and 9 coincide. */
  lemma {:induction false} DegenerateIffCoincident(points: seq<Point>, sqrt: real -> real)
    requires IsRoot(sqrt)
    requires |points| > PALM_INDEX
    ensures DistanceMatrix(points, sqrt) == Failure(ZeroDivisionError) <==> points[0] == points[PALM_INDEX]
  {
    var d := SquaredDistance(points[0], points[PALM_INDEX]);
    if d != 0 { assert 0.0 < d as real; }
  }

  /** Every landmark moved by the same offset. */
  function Shift(points: seq<Point>, dx: int, dy: int): (r: seq<Point>)
    ensures |r| == |points|
    ensures forall i :: 0 <= i < |points| ==> r[i] == Point(points[i].x + dx, points[i].y + dy)
  {
    seq(|points|, i requires 0 <= i < |points| => Point(points[i].x + dx, points[i].y + dy))
  }

  /** The descriptor does not depend on where the hand is in the image. */
  lemma {:induction false} TranslationInvariant(points: seq<Point>, dx: int, dy: int, sqrt: real -> real)
    ensures DistanceMatrix(Shift(points, dx, dy), sqrt) == DistanceMatrix(points, sqrt)
  {
    var moved := Shift(points, dx, dy);
    forall i, j | 0 <= i < |points| && 0 <= j < |points|
      ensures SquaredDistance(moved[i], moved[j]) == SquaredDistance(points[i], points[j])
    {
    }
    if |points| > PALM_INDEX {
      assert PalmSize(moved, sqrt) == PalmSize(points, sqrt);
      if PalmSize(points, sqrt) != 0.0 {
        var a, b := DistanceMatrix(moved, sqrt).value, DistanceMatrix(points, sqrt).value;
        assert forall i :: 0 <= i < |points| ==> a[i] == b[i];
        assert a == b;
      }
    }
  }

  /** `a` holds the cells of `m`. */
  ghost predicate Holds(a: array2<real>, m: Matrix)
    reads a
  {
    a.Length0 == |m| && forall i :: 0 <= i < |m| ==> |m[i]| == a.Length1 && forall j :: 0 <= j < a.Length1 ==> a[i, j] == m[i][j]
  }

  /** An array holds at most one matrix. */
  lemma HoldsUnique(a: array2<real>, m1: Matrix, m2: Matrix)
    requires Holds(a, m1) && Holds(a, m2)
    ensures m1 == m2
  {
    forall i | 0 <= i < |m1|
      ensures m1[i] == m2[i]
    {
      assert forall j :: 0 <= j < a.Length1 ==> m1[i][j] == a[i, j] == m2[i][j];
    }
  }

  /** The values an array holds, row by row: what a Python list keeps when
      a descriptor array is appended to it. */
  method Snapshot(a: array2<real>) returns (m: Matrix)
    ensures Holds(a, m)
  {
    m := [];
    for i := 0 to a.Length0
      invariant |m| == i
      invariant forall r :: 0 <= r < i ==> |m[r]| == a.Length1 && forall c :: 0 <= c < a.Length1 ==> a[r, c] == m[r][c]
    {
      var row := seq(a.Length1, c requires 0 <= c < a.Length1 reads a => a[i, c]);
      m := m + [row];
    }
  }

  /** `generateDistanceMatrix`: an n by n matrix of zeros, n the number of landmarks. */
  method GenerateDistanceMatrix(points: seq<Point>) returns (distanceMatrix: array2<real>, n: nat)
    ensures fresh(distanceMatrix)
    ensures n == |points| && distanceMatrix.Length0 == n && distanceMatrix.Length1 == n
    ensures forall i, j :: 0 <= i < n && 0 <= j < n ==> distanceMatrix[i, j] == 0.0
  {
    n := |points|;
    distanceMatrix := new real[n, n]((i, j) => 0.0);
  }

  /** `populateDistanceMatrix`: fills every cell, row by row. */
  method PopulateDistanceMatrix(points: seq<Point>, n: nat, palm: real, distanceMatrix: array2<real>, sqrt: real -> real)
    requires n == |points| && distanceMatrix.Length0 == n && distanceMatrix.Length1 == n
    requires palm != 0.0
    modifies distanceMatrix
    ensures forall i, j :: 0 <= i < n && 0 <= j < n ==>
              distanceMatrix[i, j] == Distance(points[i], points[j], sqrt) / palm
  {
    for row := 0 to n
      invariant forall i, j :: 0 <= i < row && 0 <= j < n ==>
                  distanceMatrix[i, j] == Distance(points[i], points[j], sqrt) / palm
    {
      for column := 0 to n
        invariant forall i, j :: 0 <= i < row && 0 <= j < n ==>
                    distanceMatrix[i, j] == Distance(points[i], points[j], sqrt) / palm
        invariant forall j :: 0 <= j < column ==>
                    distanceMatrix[row, j] == Distance(points[row], points[j], sqrt) / palm
      {
        distanceMatrix[row, column] := Distance(points[row], points[column], sqrt) / palm;
      }
    }
  }

  /** `findDistances`: allocates the matrix, computes the palm size (which
      needs landmark 9) and fills the matrix (which divides by the palm size). */
  method FindDistances(points: seq<Point>, sqrt: real -> real) returns (r: Result<array2<real>, DescriptorError>)
    ensures r.Failure? <==> DistanceMatrix(points, sqrt).Failure?
    ensures r.Failure? ==> r.error == DistanceMatrix(points, sqrt).error
    ensures r.Success? ==> fresh(r.value) && Holds(r.value, DistanceMatrix(points, sqrt).value)
  {
    var distanceMatrix, n := GenerateDistanceMatrix(points);
    if n <= PALM_INDEX {
      return Failure(IndexError);
    }
    var palmSize := PalmSize(points, sqrt);
    if palmSize == 0.0 {
      return Failure(ZeroDivisionError);
    }
    PopulateDistanceMatrix(points, n, palmSize, distanceMatrix, sqrt);
    r := Success(distanceMatrix);
  }
}
