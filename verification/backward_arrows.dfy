/**
 * Skew-symmetrisation of a matrix given by its forward arrows
 * (quiver.c, `fill_backward_arrows`).
 */
module BackwardArrows {
  import opened QuiverMatrix

  /**
   * Whether visiting cell (i, j) in row-major order writes -m[i][j] into
   * (j, i): the cell must still be positive when it is reached, which fails
   * only when (j, i) came earlier, was positive, and overwrote it.
   */
  function Fires(m: seq<seq<int>>, i: nat, j: nat): bool
    requires IsSquare(m) && i < |m| && j < |m|
  {
    m[i][j] > 0 && !(j < i && m[j][i] > 0)
  }

  /** Entry (i, j) after the fill: it is written at most once, by the visit of (j, i). */
  function FilledEntry(m: seq<seq<int>>, i: nat, j: nat): int
    requires IsSquare(m) && i < |m| && j < |m|
  {
    if Fires(m, j, i) then -m[j][i] else m[i][j]
  }

  /** The matrix after `fill_backward_arrows`. */
  function BackwardFilled(m: seq<seq<int>>): (r: seq<seq<int>>)
    requires IsSquare(m)
    ensures IsSquare(r) && |r| == |m|
  {
    seq(|m|, i requires 0 <= i < |m| =>
      seq(|m|, j requires 0 <= j < |m| => FilledEntry(m, i, j)))
  }

  /** No two nodes carry positive arrows to each other (nor a node to itself). */
  ghost predicate NoMutualArrows(m: seq<seq<int>>)
    requires IsSquare(m)
  {
    forall i, j :: 0 <= i < |m| && 0 <= j < |m| ==> !(m[i][j] > 0 && m[j][i] > 0)
  }

  ghost predicate NonNegative(m: seq<seq<int>>)
  {
    forall i, j :: 0 <= i < |m| && 0 <= j < |m[i]| ==> m[i][j] >= 0
  }

  /** Every positive entry of the result was already there, and the result has no mutual arrows. */
  lemma FilledPositives(m: seq<seq<int>>)
    requires IsSquare(m)
    ensures forall i, j :: 0 <= i < |m| && 0 <= j < |m| && BackwardFilled(m)[i][j] > 0 ==>
              BackwardFilled(m)[i][j] == m[i][j]
    ensures NoMutualArrows(BackwardFilled(m))
  {
    var r := BackwardFilled(m);
    forall i, j | 0 <= i < |m| && 0 <= j < |m| && r[i][j] > 0 ensures r[i][j] == m[i][j] && r[j][i] <= 0 {
      assert !Fires(m, j, i);
    }
  }

  /**
   * On input without mutual arrows, every positive entry is kept and its
   * mirror becomes its negation.
   */
  lemma FilledKeepsForwardArrows(m: seq<seq<int>>)
    requires IsSquare(m) && NoMutualArrows(m)
    ensures forall i, j :: 0 <= i < |m| && 0 <= j < |m| && m[i][j] > 0 ==>
              BackwardFilled(m)[i][j] == m[i][j] && BackwardFilled(m)[j][i] == -m[i][j]
  {
    var r := BackwardFilled(m);
    forall i, j | 0 <= i < |m| && 0 <= j < |m| && m[i][j] > 0
      ensures r[i][j] == m[i][j] && r[j][i] == -m[i][j]
    {
      assert !(m[j][i] > 0);
      assert Fires(m, i, j) && !Fires(m, j, i);
    }
  }

  /** A non-negative matrix without mutual arrows becomes skew-symmetric. */
  lemma FilledSkew(m: seq<seq<int>>)
    requires IsSquare(m) && NonNegative(m) && NoMutualArrows(m)
    ensures IsSkew(BackwardFilled(m))
  {
    var r := BackwardFilled(m);
    forall i, j | 0 <= i < |m| && 0 <= j < |m| ensures r[i][j] == -r[j][i] {
      assert m[i][j] >= 0 && m[j][i] >= 0 && !(m[i][j] > 0 && m[j][i] > 0);
    }
  }

  /** Filling twice changes nothing more. */
  lemma FilledIdempotent(m: seq<seq<int>>)
    requires IsSquare(m)
    ensures BackwardFilled(BackwardFilled(m)) == BackwardFilled(m)
  {
    var r := BackwardFilled(m);
    var rr := BackwardFilled(r);
    forall i | 0 <= i < |m| ensures rr[i] == r[i] {
      forall j | 0 <= j < |m| ensures rr[i][j] == r[i][j] {
        if Fires(r, j, i) {
          assert r[j][i] > 0;
          assert !Fires(m, i, j);
        }
      }
    }
  }

  /** Entry (p, q) once the row-major fill has reached cell (i, j). */
  ghost function FillAt(m: seq<seq<int>>, p: nat, q: nat, i: nat, j: nat): int
    requires IsSquare(m) && p < |m| && q < |m|
  {
    if (q < i || (q == i && p < j)) && Fires(m, q, p) then -m[q][p] else m[p][q]
  }

  /** `fill_backward_arrows`: sets q[j][i] to -q[i][j] for every positive q[i][j], row by row. */
  method FillBackwardArrows(a: array2<int>)
    requires a.Length0 == a.Length1
    modifies a
    ensures ToMatrix(a) == BackwardFilled(old(ToMatrix(a)))
  {
    var n := a.Length0;
    ghost var m := ToMatrix(a);
    var i := 0;
    while i < n
      invariant 0 <= i <= n
      invariant forall p, q :: 0 <= p < n && 0 <= q < n ==> a[p, q] == FillAt(m, p, q, i, 0)
    {
      var j := 0;
      while j < n
        invariant 0 <= j <= n
        invariant forall p, q :: 0 <= p < n && 0 <= q < n ==> a[p, q] == FillAt(m, p, q, i, j)
      {
        if a[i, j] > 0 {
          a[j, i] := -a[i, j];
        }
        j := j + 1;
      }
      i := i + 1;
    }
    assert forall p :: 0 <= p < n ==> ToMatrix(a)[p] == BackwardFilled(m)[p];
  }
}
