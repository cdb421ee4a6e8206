/**
 * The quiver's exchange matrix. The source keeps it in an N×N array of
 * signed cells; the methods of this project work on `array2<int>` and the
 * specifications on its value, a sequence of rows.
 */
module QuiverMatrix {

  /** The positive part of an entry: the weight of an arrow, or 0. */
  function Pos(x: int): (r: int)
    ensures r >= 0 && r >= x
    ensures r == x || r == 0
  {
    if x > 0 then x else 0
  }

  function Abs(x: int): (r: int)
    ensures r >= 0 && (r == x || r == -x)
  {
    if x < 0 then -x else x
  }

  function Max(x: int, y: int): (r: int)
    ensures r >= x && r >= y && (r == x || r == y)
  {
    if x < y then y else x
  }

  /** Every row is as long as the matrix is high. */
  ghost predicate IsSquare(m: seq<seq<int>>)
  {
    forall i :: 0 <= i < |m| ==> |m[i]| == |m|
  }

  /** An arrow and its reverse carry opposite signs (so the diagonal is 0). */
  ghost predicate IsSkew(m: seq<seq<int>>)
  {
    IsSquare(m) &&
    forall i, j :: 0 <= i < |m| && 0 <= j < |m| ==> m[i][j] == -m[j][i]
  }

  /** No self-loop of positive weight: the domain on which mutation is defined. */
  ghost predicate DiagonalNonPositive(m: seq<seq<int>>)
    requires IsSquare(m)
  {
    forall i :: 0 <= i < |m| ==> m[i][i] <= 0
  }

  /** The value held by a square array. */
  ghost function ToMatrix(a: array2<int>): (m: seq<seq<int>>)
    reads a
    ensures |m| == a.Length0
    ensures forall i :: 0 <= i < a.Length0 ==> |m[i]| == a.Length1
    ensures forall i, j :: 0 <= i < a.Length0 && 0 <= j < a.Length1 ==> m[i][j] == a[i, j]
    ensures a.Length0 == a.Length1 ==> IsSquare(m)
  {
    seq(a.Length0, i requires 0 <= i < a.Length0 reads a =>
      seq(a.Length1, j requires 0 <= j < a.Length1 reads a => a[i, j]))
  }
}
