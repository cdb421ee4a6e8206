/**
 * Fomin–Zelevinsky mutation of the exchange matrix at one node, done in
 * place in two passes (quiver.c, `mutate`).
 */
module Mutation {
  import opened QuiverMatrix

  /** The weight of the two-step paths i → k → j (0 unless both arrows are positive). */
  function Through(m: seq<seq<int>>, k: nat, i: nat, j: nat): (w: int)
    requires IsSquare(m) && k < |m| && i < |m| && j < |m|
    ensures w >= 0
    ensures w > 0 <==> m[i][k] > 0 && m[k][j] > 0
  {
    Pos(m[i][k]) * Pos(m[k][j])
  }

  /**
   * Entry (i, j) after mutating at k. Pass one adds the paths through k to
   * every entry outside row and column k, in both directions; pass two
   * negates row k, and negates each entry of column k whose mirror in row k
   * is non-zero.
   */
  function MutatedEntry(m: seq<seq<int>>, k: nat, i: nat, j: nat): int
    requires IsSquare(m) && k < |m| && i < |m| && j < |m|
  {
    if i == k && j == k then m[k][k]
    else if i == k then -m[k][j]
    else if j == k then (if m[k][i] != 0 then -m[i][k] else m[i][k])
    else m[i][j] + Through(m, k, i, j) - Through(m, k, j, i)
  }

  /** The matrix after mutation at k. */
  function Mutated(m: seq<seq<int>>, k: nat): (r: seq<seq<int>>)
    requires IsSquare(m) && k < |m|
    ensures IsSquare(r) && |r| == |m|
  {
    seq(|m|, i requires 0 <= i < |m| =>
      seq(|m|, j requires 0 <= j < |m| => MutatedEntry(m, k, i, j)))
  }

  /**
   * The textbook exchange-matrix mutation rule:
   * b'[i][j] = -b[i][j] on row and column k, and otherwise
   * b[i][j] + (|b[i][k]| * b[k][j] + b[i][k] * |b[k][j]|) / 2.
   */
  function FominZelevinsky(m: seq<seq<int>>, k: nat, i: nat, j: nat): int
    requires IsSquare(m) && k < |m| && i < |m| && j < |m|
  {
    if i == k || j == k then -m[i][j]
    else m[i][j] + (Abs(m[i][k]) * m[k][j] + m[i][k] * Abs(m[k][j])) / 2
  }

  /** On a skew-symmetric matrix the two passes compute the textbook rule. */
  lemma MutatedIsFominZelevinsky(m: seq<seq<int>>, k: nat)
    requires IsSkew(m) && k < |m|
    ensures forall i, j :: 0 <= i < |m| && 0 <= j < |m| ==>
              Mutated(m, k)[i][j] == FominZelevinsky(m, k, i, j)
  {
    forall i, j | 0 <= i < |m| && 0 <= j < |m|
      ensures Mutated(m, k)[i][j] == FominZelevinsky(m, k, i, j)
    {
      if i != k && j != k {
        var x, y := m[i][k], m[k][j];
        assert m[j][k] == -y && m[k][i] == -x;
        ProductRule(x, y);
      } else if i == k && j == k {
        assert m[k][k] == -m[k][k];
      }
    }
  }

  /** The path term of the two passes equals the textbook term. */
  lemma ProductRule(x: int, y: int)
    ensures Pos(x) * Pos(y) - Pos(-y) * Pos(-x) == (Abs(x) * y + x * Abs(y)) / 2
  {
    if x > 0 && y > 0 {
      assert (Abs(x) * y + x * Abs(y)) == 2 * (x * y);
    } else if x < 0 && y < 0 {
      assert Pos(-y) * Pos(-x) == x * y;
      assert (Abs(x) * y + x * Abs(y)) == -2 * (x * y);
    } else {
      assert Abs(x) * y + x * Abs(y) == 0;
      assert Pos(x) * Pos(y) == 0 && Pos(-y) * Pos(-x) == 0;
    }
  }

  /** Mutation keeps a matrix skew-symmetric, hence with a zero diagonal. */
  lemma MutatedSkew(m: seq<seq<int>>, k: nat)
    requires IsSkew(m) && k < |m|
    ensures IsSkew(Mutated(m, k))
  {
    var r := Mutated(m, k);
    forall i, j | 0 <= i < |m| && 0 <= j < |m| ensures r[i][j] == -r[j][i] {
      assert m[i][j] == -m[j][i];
    }
  }

  /** Mutation never changes the diagonal, so it keeps a matrix free of positive self-loops. */
  lemma MutatedDiagonal(m: seq<seq<int>>, k: nat)
    requires IsSquare(m) && k < |m|
    ensures forall i :: 0 <= i < |m| ==> Mutated(m, k)[i][i] == m[i][i]
    ensures DiagonalNonPositive(m) ==> DiagonalNonPositive(Mutated(m, k))
  {
  }

  /** Mutating a skew-symmetric matrix twice at the same node gives it back. */
  lemma MutatedInvolution(m: seq<seq<int>>, k: nat)
    requires IsSkew(m) && k < |m|
    ensures Mutated(Mutated(m, k), k) == m
  {
    var r := Mutated(m, k);
    var rr := Mutated(r, k);
    forall i | 0 <= i < |m| ensures rr[i] == m[i] {
      forall j | 0 <= j < |m| ensures rr[i][j] == m[i][j] {
        assert m[i][j] == -m[j][i];
        if i != k && j != k {
          var x, y := m[i][k], m[k][j];
          assert m[j][k] == -y && m[k][i] == -x;
          assert r[i][k] == -x && r[k][j] == -y;
          assert r[j][k] == y && r[k][i] == x;
          assert Through(r, k, i, j) == Pos(-x) * Pos(-y);
          assert Through(r, k, j, i) == Pos(y) * Pos(x);
          assert Through(m, k, i, j) == Pos(x) * Pos(y);
          assert Through(m, k, j, i) == Pos(-y) * Pos(-x);
        } else if i == k && j == k {
          assert m[k][k] == -m[k][k];
        }
      }
    }
  }

  /** Entry (p, q) while pass one is at row i, column j. */
  ghost function PassOneAt(m: seq<seq<int>>, k: nat, p: nat, q: nat, i: nat, j: nat): int
    requires IsSquare(m) && k < |m| && p < |m| && q < |m|
  {
    m[p][q]
      + (if p < i || (p == i && q < j) then Through(m, k, p, q) else 0)
      - (if q < i || (q == i && p < j) then Through(m, k, q, p) else 0)
  }

  /** Entry (p, q) while pass two is at index i. */
  ghost function PassTwoAt(m: seq<seq<int>>, k: nat, p: nat, q: nat, i: nat): int
    requires IsSquare(m) && k < |m| && p < |m| && q < |m|
  {
    if p == k && q == k then m[k][k]
    else if p == k then (if q < i then -m[k][q] else m[k][q])
    else if q == k then (if p < i && m[k][p] != 0 then -m[p][k] else m[p][k])
    else m[p][q] + Through(m, k, p, q) - Through(m, k, q, p)
  }

  /**
   * `mutate`: mutation at `index`, in place. Pass one never writes row or
   * column `index` (no positive self-loop there), so its reads of them see the
   * values before mutation whatever the order of the writes.
   */
  method Mutate(index: nat, a: array2<int>)
    requires a.Length0 == a.Length1 && index < a.Length0 && a[index, index] <= 0
    modifies a
    ensures ToMatrix(a) == Mutated(old(ToMatrix(a)), index)
  {
    ghost var m := ToMatrix(a);
    ComposePaths(index, a);
    ReverseArrows(index, a, m);
    assert forall p :: 0 <= p < a.Length0 ==> ToMatrix(a)[p] == Mutated(m, index)[p];
  }

  /** Pass one of `mutate`: adds q[i][k] * q[k][j] to q[i][j] and subtracts it from q[j][i] for every path i → k → j. */
  method ComposePaths(index: nat, a: array2<int>)
    requires a.Length0 == a.Length1 && index < a.Length0 && a[index, index] <= 0
    modifies a
    ensures forall p, q :: 0 <= p < a.Length0 && 0 <= q < a.Length0 ==>
              a[p, q] == PassOneAt(old(ToMatrix(a)), index, p, q, a.Length0, 0)
  {
    var n := a.Length0;
    ghost var m := ToMatrix(a);
    var i := 0;
    while i < n
      invariant 0 <= i <= n
      invariant forall p, q :: 0 <= p < n && 0 <= q < n ==> a[p, q] == PassOneAt(m, index, p, q, i, 0)
    {
      assert a[i, index] == m[i][index];
      if a[i, index] > 0 {
        var j := 0;
        while j < n
          invariant 0 <= j <= n
          invariant forall p, q :: 0 <= p < n && 0 <= q < n ==> a[p, q] == PassOneAt(m, index, p, q, i, j)
        {
          assert a[index, j] == m[index][j];
          if a[index, j] > 0 {
            a[i, j] := a[i, j] + a[i, index] * a[index, j];
            a[j, i] := a[j, i] - a[i, index] * a[index, j];
          }
          j := j + 1;
        }
      }
      i := i + 1;
    }
  }

  /** Pass two of `mutate`: negates q[k][i] and q[i][k] wherever q[k][i] is non-zero. */
  method ReverseArrows(index: nat, a: array2<int>, ghost m: seq<seq<int>>)
    requires a.Length0 == a.Length1 == |m| && IsSquare(m) && index < a.Length0 && m[index][index] <= 0
    requires forall p, q :: 0 <= p < a.Length0 && 0 <= q < a.Length0 ==>
               a[p, q] == PassOneAt(m, index, p, q, a.Length0, 0)
    modifies a
    ensures forall p, q :: 0 <= p < a.Length0 && 0 <= q < a.Length0 ==>
              a[p, q] == MutatedEntry(m, index, p, q)
  {
    var n := a.Length0;
    var i := 0;
    while i < n
      invariant 0 <= i <= n
      invariant forall p, q :: 0 <= p < n && 0 <= q < n ==> a[p, q] == PassTwoAt(m, index, p, q, i)
    {
      if a[index, i] != 0 {
        a[index, i] := -a[index, i];
        a[i, index] := -a[i, index];
      }
      i := i + 1;
    }
  }
}
