/**
 * The example quivers of quiver.c (`init_quiver`, `init_tree_quiver`,
 * `init_unoriented_cycle_quiver`): arrows of weight 1 written into a zeroed
 * 9×9 matrix, then skew-symmetrised by `fill_backward_arrows`.
 */
module Fixtures {
  import opened QuiverMatrix
  import opened CycleTest
  import opened BackwardArrows

  /** The number of nodes, `N` in the source. */
  const Nodes := 9

  /** An n×n matrix holding 1 at each listed arrow and 0 elsewhere. */
  function ForwardArrows(n: nat, arrows: set<(int, int)>): (m: seq<seq<int>>)
    ensures IsSquare(m) && |m| == n
    ensures forall i, j :: 0 <= i < n && 0 <= j < n ==> (m[i][j] > 0 <==> (i, j) in arrows)
    ensures NonNegative(m)
  {
    seq(n, i => seq(n, j => if (i, j) in arrows then 1 else 0))
  }

  function InitArrows(): set<(int, int)>
  {
    {(0, 3), (1, 0), (1, 4), (2, 0), (2, 6), (3, 1), (3, 2), (3, 7),
     (4, 3), (4, 8), (5, 2), (6, 3), (6, 5), (7, 4), (7, 6), (8, 7)}
  }

  function TreeArrows(): set<(int, int)>
  {
    {(0, 4), (3, 2), (4, 1), (4, 3), (5, 2)}
  }

  function UnorientedCycleArrows(): set<(int, int)>
  {
    {(0, 1), (0, 2), (1, 2)}
  }

  /** `init_quiver`. */
  function InitQuiver(): seq<seq<int>>
  {
    BackwardFilled(ForwardArrows(Nodes, InitArrows()))
  }

  /** `init_tree_quiver`. */
  function TreeQuiver(): seq<seq<int>>
  {
    BackwardFilled(ForwardArrows(Nodes, TreeArrows()))
  }

  /** `init_unoriented_cycle_quiver`. */
  function UnorientedCycleQuiver(): seq<seq<int>>
  {
    BackwardFilled(ForwardArrows(Nodes, UnorientedCycleArrows()))
  }

  /** The positive entries of a filled fixture are exactly its listed arrows. */
  lemma FilledArrows(n: nat, arrows: set<(int, int)>)
    requires forall e :: e in arrows ==> (e.1, e.0) !in arrows
    ensures var q := BackwardFilled(ForwardArrows(n, arrows));
            forall i, j :: 0 <= i < n && 0 <= j < n ==> (q[i][j] > 0 <==> (i, j) in arrows)
    ensures IsSkew(BackwardFilled(ForwardArrows(n, arrows)))
  {
    var m := ForwardArrows(n, arrows);
    assert NoMutualArrows(m) by {
      forall i, j | 0 <= i < n && 0 <= j < n ensures !(m[i][j] > 0 && m[j][i] > 0) {
        if (i, j) in arrows {
          assert ((i, j).1, (i, j).0) !in arrows;
        }
      }
    }
    FilledPositives(m);
    FilledKeepsForwardArrows(m);
    FilledSkew(m);
  }

  /** Three arrows a → b → c → a make a filled fixture cyclic. */
  lemma TriangleCycle(n: nat, arrows: set<(int, int)>, a: nat, b: nat, c: nat)
    requires forall e :: e in arrows ==> (e.1, e.0) !in arrows
    requires a < n && b < n && c < n && (a, b) in arrows && (b, c) in arrows && (c, a) in arrows
    ensures IsSkew(BackwardFilled(ForwardArrows(n, arrows)))
    ensures !Acyclic(BackwardFilled(ForwardArrows(n, arrows)))
  {
    var q := BackwardFilled(ForwardArrows(n, arrows));
    FilledArrows(n, arrows);
    assert q[a][b] > 0 && q[b][c] > 0 && q[c][a] > 0;
    forall rank: seq<int> ensures !IsNumbering(q, rank) {
      if |rank| == n {
        var x, y, z := rank[a], rank[b], rank[c];
        assert IsNumbering(q, rank) ==> x < y && y < z && z < x;
      }
    }
  }

  /** A rank that increases along every listed arrow makes a filled fixture acyclic. */
  lemma RankedAcyclic(n: nat, arrows: set<(int, int)>, rank: seq<int>)
    requires forall e :: e in arrows ==> (e.1, e.0) !in arrows
    requires |rank| == n
    requires forall e :: e in arrows && 0 <= e.0 < n && 0 <= e.1 < n ==> rank[e.0] < rank[e.1]
    ensures IsSkew(BackwardFilled(ForwardArrows(n, arrows)))
    ensures Acyclic(BackwardFilled(ForwardArrows(n, arrows)))
  {
    var q := BackwardFilled(ForwardArrows(n, arrows));
    FilledArrows(n, arrows);
    forall u, v | 0 <= u < n && 0 <= v < n && q[u][v] > 0 ensures rank[u] < rank[v] {
      assert (u, v) in arrows;
    }
    assert IsNumbering(q, rank);
  }

  /** `init_quiver` is skew-symmetric and `has_cycle` gives 1 on it: 0 → 3 → 1 → 0 is a cycle. */
  lemma InitQuiverHasCycle()
    ensures IsSkew(InitQuiver())
    ensures !Acyclic(InitQuiver()) && Kahn(InitQuiver())
  {
    TriangleCycle(Nodes, InitArrows(), 0, 3, 1);
    KahnCorrect(InitQuiver());
  }

  /** `init_tree_quiver` is skew-symmetric and `has_cycle` gives 0 on it. */
  lemma TreeQuiverAcyclic()
    ensures IsSkew(TreeQuiver())
    ensures Acyclic(TreeQuiver()) && !Kahn(TreeQuiver())
  {
    RankedAcyclic(Nodes, TreeArrows(), [0, 2, 3, 2, 1, 0, 0, 0, 0]);
    KahnCorrect(TreeQuiver());
  }

  /** `init_unoriented_cycle_quiver` is skew-symmetric and `has_cycle` gives 0 on it: its arrows form no directed cycle. */
  lemma UnorientedCycleQuiverAcyclic()
    ensures IsSkew(UnorientedCycleQuiver())
    ensures Acyclic(UnorientedCycleQuiver()) && !Kahn(UnorientedCycleQuiver())
  {
    RankedAcyclic(Nodes, UnorientedCycleArrows(), [0, 1, 2, 0, 0, 0, 0, 0, 0]);
    KahnCorrect(UnorientedCycleQuiver());
  }
}
