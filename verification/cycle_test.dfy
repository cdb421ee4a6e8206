/**
 * The cycle oracle: in-degrees and Kahn-style topological elimination over
 * the arrows of positive weight (quiver.c, `get_in_degrees` and `has_cycle`).
 */
module CycleTest {
  import opened QuiverMatrix

  /** `rank` strictly increases along every positive arrow: a topological numbering. */
  ghost predicate IsNumbering(m: seq<seq<int>>, rank: seq<int>)
    requires IsSquare(m)
  {
    |rank| == |m| &&
    forall u, v :: 0 <= u < |m| && 0 <= v < |m| && m[u][v] > 0 ==> rank[u] < rank[v]
  }

  /** The graph of positive arrows admits a topological order. */
  ghost predicate Acyclic(m: seq<seq<int>>)
    requires IsSquare(m)
  {
    exists rank :: IsNumbering(m, rank)
  }

  /** No node visited yet. */
  function NoneVisited(n: nat): seq<bool>
  {
    seq(n, _ => false)
  }

  /**
   * The positive weight arriving at `sink` from the unvisited sources below
   * `hi`; with nothing visited and `hi == |m|` it is the in-degree.
   */
  function InWeight(m: seq<seq<int>>, visited: seq<bool>, sink: nat, hi: nat): int
    requires IsSquare(m) && |visited| == |m| && sink < |m| && hi <= |m|
  {
    if hi == 0 then 0
    else InWeight(m, visited, sink, hi - 1) + (if visited[hi - 1] then 0 else Pos(m[hi - 1][sink]))
  }

  /** The number of visited nodes. */
  function Count(visited: seq<bool>): (c: nat)
    ensures c <= |visited|
  {
    if visited == [] then 0 else Count(visited[..|visited| - 1]) + (if visited[|visited| - 1] then 1 else 0)
  }

  lemma {:induction false} InWeightNonNegative(m: seq<seq<int>>, visited: seq<bool>, sink: nat, hi: nat)
    requires IsSquare(m) && |visited| == |m| && sink < |m| && hi <= |m|
    ensures InWeight(m, visited, sink, hi) >= 0
  {
    if hi > 0 {
      InWeightNonNegative(m, visited, sink, hi - 1);
    }
  }

  /** The in-weight is zero exactly when no unvisited source has a positive arrow to `sink`. */
  lemma {:induction false} InWeightZero(m: seq<seq<int>>, visited: seq<bool>, sink: nat, hi: nat)
    requires IsSquare(m) && |visited| == |m| && sink < |m| && hi <= |m|
    ensures InWeight(m, visited, sink, hi) == 0 <==>
            forall u :: 0 <= u < hi && !visited[u] ==> m[u][sink] <= 0
  {
    if hi > 0 {
      InWeightZero(m, visited, sink, hi - 1);
      InWeightNonNegative(m, visited, sink, hi - 1);
    }
  }

  /** Visiting `x` removes exactly its outgoing positive weight from every in-weight. */
  lemma {:induction false} InWeightVisit(m: seq<seq<int>>, visited: seq<bool>, x: nat, sink: nat, hi: nat)
    requires IsSquare(m) && |visited| == |m| && sink < |m| && hi <= |m|
    requires x < |m| && !visited[x]
    ensures InWeight(m, visited[x := true], sink, hi) ==
            InWeight(m, visited, sink, hi) - (if x < hi then Pos(m[x][sink]) else 0)
  {
    if hi > 0 {
      InWeightVisit(m, visited, x, sink, hi - 1);
    }
  }

  lemma {:induction false} CountVisit(visited: seq<bool>, x: nat)
    requires x < |visited| && !visited[x]
    ensures Count(visited[x := true]) == Count(visited) + 1
  {
    var n := |visited|;
    var w := visited[x := true];
    if x == n - 1 {
      assert w[..n - 1] == visited[..n - 1];
    } else {
      assert w[..n - 1] == visited[..n - 1][x := true];
      CountVisit(visited[..n - 1], x);
    }
  }

  /** Only a fully visited vector has every node counted. */
  lemma {:induction false} CountFull(visited: seq<bool>)
    requires Count(visited) == |visited|
    ensures forall i :: 0 <= i < |visited| ==> visited[i]
  {
    if visited != [] {
      var n := |visited|;
      CountFull(visited[..n - 1]);
      assert forall i :: 0 <= i < n - 1 ==> visited[i] == visited[..n - 1][i];
    }
  }

  /** Among the unvisited nodes one has the smallest rank. */
  lemma {:induction false} MinimalUnvisited(visited: seq<bool>, rank: seq<int>, hi: nat) returns (v: nat)
    requires |rank| == |visited| && hi <= |visited|
    requires exists u :: 0 <= u < hi && !visited[u]
    ensures v < hi && !visited[v]
    ensures forall u :: 0 <= u < hi && !visited[u] ==> rank[v] <= rank[u]
  {
    if exists u :: 0 <= u < hi - 1 && !visited[u] {
      v := MinimalUnvisited(visited, rank, hi - 1);
      if !visited[hi - 1] && rank[hi - 1] < rank[v] {
        v := hi - 1;
      }
    } else {
      v := hi - 1;
    }
  }

  /**
   * When every unvisited node still has positive weight arriving from
   * unvisited nodes, no topological numbering exists: the unvisited node of
   * least rank would need a predecessor of smaller rank.
   */
  lemma StuckMeansCycle(m: seq<seq<int>>, visited: seq<bool>)
    requires IsSquare(m) && |visited| == |m|
    requires exists u :: 0 <= u < |m| && !visited[u]
    requires forall v :: 0 <= v < |m| && !visited[v] ==> InWeight(m, visited, v, |m|) != 0
    ensures !Acyclic(m)
  {
    if rank :| IsNumbering(m, rank) {
      var v := MinimalUnvisited(visited, rank, |m|);
      InWeightZero(m, visited, v, |m|);
      assert false;
    }
  }

  /**
   * The elimination so far is consistent with a topological order: each of
   * the `k` visited nodes has a rank below `k`, and every positive arrow into
   * a visited node comes from a visited node of smaller rank.
   */
  ghost predicate RankedSoFar(m: seq<seq<int>>, visited: seq<bool>, rank: seq<int>, k: int)
    requires IsSquare(m)
  {
    |visited| == |m| && |rank| == |m| &&
    (forall v :: 0 <= v < |m| && visited[v] ==> rank[v] < k) &&
    (forall u, v :: 0 <= u < |m| && 0 <= v < |m| && visited[v] && m[u][v] > 0 ==>
       visited[u] && rank[u] < rank[v])
  }

  /** Visiting a node with no positive arrow from an unvisited node keeps the ranking consistent. */
  lemma VisitKeepsRanking(m: seq<seq<int>>, visited: seq<bool>, rank: seq<int>, x: nat, k: int)
    requires IsSquare(m) && RankedSoFar(m, visited, rank, k)
    requires x < |m| && !visited[x]
    requires forall u :: 0 <= u < |m| && !visited[u] ==> m[u][x] <= 0
    ensures RankedSoFar(m, visited[x := true], rank[x := k], k + 1)
  {
    var vis', rank' := visited[x := true], rank[x := k];
    forall u, v | 0 <= u < |m| && 0 <= v < |m| && vis'[v] && m[u][v] > 0
      ensures vis'[u] && rank'[u] < rank'[v]
    {
      if v == x {
        assert visited[u];
      } else {
        assert visited[v];
      }
    }
  }

  /** Once every node is visited, the visiting steps form a topological numbering. */
  lemma FullyRanked(m: seq<seq<int>>, visited: seq<bool>, rank: seq<int>, k: int)
    requires IsSquare(m) && RankedSoFar(m, visited, rank, k)
    requires forall v :: 0 <= v < |m| ==> visited[v]
    ensures Acyclic(m)
  {
    assert IsNumbering(m, rank);
  }

  /**
   * The state of the elimination after `k` visits: `k` nodes are visited,
   * the in-degree of every unvisited node is the positive weight arriving
   * from unvisited nodes, and the visits so far follow a topological order.
   */
  ghost predicate Elimination(m: seq<seq<int>>, visited: seq<bool>, inDegrees: seq<int>, rank: seq<int>, k: int)
    requires IsSquare(m)
  {
    |visited| == |inDegrees| == |m| &&
    Count(visited) == k &&
    (forall v :: 0 <= v < |m| && !visited[v] ==> inDegrees[v] == InWeight(m, visited, v, |m|)) &&
    RankedSoFar(m, visited, rank, k)
  }

  lemma EliminationStarts(m: seq<seq<int>>, inDegrees: seq<int>, rank: seq<int>)
    requires IsSquare(m) && |inDegrees| == |rank| == |m|
    requires forall s :: 0 <= s < |m| ==> inDegrees[s] == InWeight(m, NoneVisited(|m|), s, |m|)
    ensures Elimination(m, NoneVisited(|m|), inDegrees, rank, 0)
  {
    CountNoneVisited(|m|);
  }

  /** No unvisited node of in-degree zero while some node is unvisited: a cycle. */
  lemma EliminationStuck(m: seq<seq<int>>, visited: seq<bool>, inDegrees: seq<int>, rank: seq<int>, k: int)
    requires IsSquare(m) && Elimination(m, visited, inDegrees, rank, k) && k < |m|
    requires forall t :: 0 <= t < |m| ==> visited[t] || inDegrees[t] != 0
    ensures !Acyclic(m)
  {
    if forall u :: 0 <= u < |m| ==> visited[u] {
      CountAllVisited(visited);
    }
    StuckMeansCycle(m, visited);
  }

  /** About to visit the last node: the visiting order is topological. */
  lemma EliminationCompletes(m: seq<seq<int>>, visited: seq<bool>, inDegrees: seq<int>, rank: seq<int>, k: int, x: nat)
    requires IsSquare(m) && Elimination(m, visited, inDegrees, rank, k) && k == |m| - 1
    requires x < |m| && !visited[x] && inDegrees[x] == 0
    ensures Acyclic(m)
  {
    InWeightZero(m, visited, x, |m|);
    CountVisit(visited, x);
    VisitKeepsRanking(m, visited, rank, x, k);
    CountFull(visited[x := true]);
    FullyRanked(m, visited[x := true], rank[x := k], k + 1);
  }

  /** Every node visited: the visiting order is topological. */
  lemma EliminationEnds(m: seq<seq<int>>, visited: seq<bool>, inDegrees: seq<int>, rank: seq<int>)
    requires IsSquare(m) && Elimination(m, visited, inDegrees, rank, |m|)
    ensures Acyclic(m)
  {
    CountFull(visited);
    FullyRanked(m, visited, rank, |m|);
  }

  /** Visiting a ready node and removing its outgoing arrows keeps the elimination state. */
  lemma EliminationSteps(m: seq<seq<int>>, visited: seq<bool>, before: seq<int>, rank: seq<int>, k: int,
                         x: nat, after: seq<int>)
    requires IsSquare(m) && Elimination(m, visited, before, rank, k)
    requires x < |m| && !visited[x] && before[x] == 0
    requires after == Removed(before, m[x])
    ensures Elimination(m, visited[x := true], after, rank[x := k], k + 1)
  {
    InWeightZero(m, visited, x, |m|);
    CountVisit(visited, x);
    VisitKeepsRanking(m, visited, rank, x, k);
    VisitUpdatesInWeights(m, visited, x, before, after);
  }

  /** The first unvisited node at or after `from` whose in-degree is zero, or `|visited|`. */
  function FirstReadyFrom(visited: seq<bool>, inDegrees: seq<int>, from: nat): (i: nat)
    requires |visited| == |inDegrees| && from <= |visited|
    ensures from <= i <= |visited|
    ensures i < |visited| ==> !visited[i] && inDegrees[i] == 0
    ensures forall t :: from <= t < i ==> visited[t] || inDegrees[t] != 0
    decreases |visited| - from
  {
    if from == |visited| || (!visited[from] && inDegrees[from] == 0) then from
    else FirstReadyFrom(visited, inDegrees, from + 1)
  }

  /** The in-degree vector computed by `get_in_degrees`. */
  function InDegrees(m: seq<seq<int>>): seq<int>
    requires IsSquare(m)
  {
    seq(|m|, s requires 0 <= s < |m| => InWeight(m, NoneVisited(|m|), s, |m|))
  }

  /**
   * The elimination of `has_cycle` as a function: the answer it gives from a
   * state where `k` nodes are visited.
   */
  function KahnFrom(m: seq<seq<int>>, visited: seq<bool>, inDegrees: seq<int>, k: nat): bool
    requires IsSquare(m) && |visited| == |inDegrees| == |m| && k <= |m|
    decreases |m| - k
  {
    if k == |m| then false
    else
      var i := FirstReadyFrom(visited, inDegrees, 0);
      if i == |m| then true
      else if k == |m| - 1 then false
      else KahnFrom(m, visited[i := true], Removed(inDegrees, m[i]), k + 1)
  }

  /** `has_cycle` of a matrix, from its initial state. */
  function Kahn(m: seq<seq<int>>): bool
    requires IsSquare(m)
  {
    KahnFrom(m, NoneVisited(|m|), InDegrees(m), 0)
  }

  /** From any consistent elimination state the elimination reports a cycle exactly when there is one. */
  lemma {:induction false} KahnFromCorrect(m: seq<seq<int>>, visited: seq<bool>, inDegrees: seq<int>, rank: seq<int>, k: nat)
    requires IsSquare(m) && Elimination(m, visited, inDegrees, rank, k) && k <= |m|
    ensures KahnFrom(m, visited, inDegrees, k) <==> !Acyclic(m)
    decreases |m| - k
  {
    if k == |m| {
      EliminationEnds(m, visited, inDegrees, rank);
    } else {
      var i := FirstReadyFrom(visited, inDegrees, 0);
      if i == |m| {
        EliminationStuck(m, visited, inDegrees, rank, k);
      } else if k == |m| - 1 {
        EliminationCompletes(m, visited, inDegrees, rank, k, i);
      } else {
        EliminationSteps(m, visited, inDegrees, rank, k, i, Removed(inDegrees, m[i]));
        KahnFromCorrect(m, visited[i := true], Removed(inDegrees, m[i]), rank[i := k], k + 1);
      }
    }
  }

  /** `has_cycle` returns 1 exactly when the positive arrows admit no topological order. */
  lemma KahnCorrect(m: seq<seq<int>>)
    requires IsSquare(m)
    ensures Kahn(m) <==> !Acyclic(m)
  {
    var rank := seq(|m|, _ => 0);
    EliminationStarts(m, InDegrees(m), rank);
    KahnFromCorrect(m, NoneVisited(|m|), InDegrees(m), rank, 0);
  }

  /** `get_in_degrees`: fills `inDegrees` with the positive weight arriving at each node. */
  method GetInDegrees(a: array2<int>, inDegrees: array<int>)
    requires a.Length0 == a.Length1 == inDegrees.Length
    modifies inDegrees
    ensures inDegrees[..] == InDegrees(ToMatrix(a))
    ensures forall s :: 0 <= s < inDegrees.Length ==> inDegrees[s] >= 0
  {
    var n := a.Length0;
    ghost var m := ToMatrix(a);
    ghost var none := NoneVisited(n);
    forall s | 0 <= s < n {
      inDegrees[s] := 0;
    }
    var source := 0;
    while source < n
      invariant 0 <= source <= n
      invariant forall s :: 0 <= s < n ==> inDegrees[s] == InWeight(m, none, s, source)
    {
      var sink := 0;
      while sink < n
        invariant 0 <= sink <= n
        invariant forall s :: 0 <= s < sink ==> inDegrees[s] == InWeight(m, none, s, source + 1)
        invariant forall s :: sink <= s < n ==> inDegrees[s] == InWeight(m, none, s, source)
      {
        assert InWeight(m, none, sink, source + 1) == InWeight(m, none, sink, source) + Pos(a[source, sink]);
        if a[source, sink] > 0 {
          inDegrees[sink] := inDegrees[sink] + a[source, sink];
        }
        sink := sink + 1;
      }
      source := source + 1;
    }
    forall s | 0 <= s < n ensures inDegrees[s] >= 0 {
      InWeightNonNegative(m, none, s, n);
    }
    assert inDegrees[..] == InDegrees(m);
  }

  /**
   * `has_cycle`: repeatedly visits the lowest-index unvisited node of
   * in-degree zero and removes its outgoing arrows. Reports a cycle as soon
   * as no such node exists, and no cycle when it is about to visit the last
   * node. The quiver is only read.
   */
  method HasCycle(a: array2<int>) returns (cyclic: bool)
    requires a.Length0 == a.Length1
    ensures cyclic == Kahn(ToMatrix(a))
  {
    var n := a.Length0;
    ghost var m := ToMatrix(a);
    var inDegrees := new int[n];
    GetInDegrees(a, inDegrees);
    var visited := new bool[n](_ => false);
    assert visited[..] == NoneVisited(n);

    var nvisited := 0;
    while nvisited < n
      modifies visited, inDegrees
      invariant 0 <= nvisited <= n
      invariant KahnFrom(m, visited[..], inDegrees[..], nvisited) == Kahn(m)
    {
      var index := FirstReady(visited, inDegrees);
      if index == n {
        return true;
      }
      if nvisited == n - 1 {
        return false;
      }
      Visit(a, index, visited, inDegrees);
      nvisited := nvisited + 1;
    }
    // reached only when n == 0: the empty quiver has no cycle
    return false;
  }

  /** The first unvisited node whose in-degree is zero, or `visited.Length` when there is none. */
  method FirstReady(visited: array<bool>, inDegrees: array<int>) returns (index: nat)
    requires visited.Length == inDegrees.Length
    ensures index == FirstReadyFrom(visited[..], inDegrees[..], 0)
  {
    index := 0;
    while index < visited.Length && (visited[index] || inDegrees[index] != 0)
      invariant 0 <= index <= visited.Length
      invariant FirstReadyFrom(visited[..], inDegrees[..], index) == FirstReadyFrom(visited[..], inDegrees[..], 0)
    {
      index := index + 1;
    }
  }

  /** Subtracting the outgoing weight of `x` turns in-weights over `visited` into in-weights over `visited[x := true]`. */
  lemma VisitUpdatesInWeights(m: seq<seq<int>>, visited: seq<bool>, x: nat, before: seq<int>, after: seq<int>)
    requires IsSquare(m) && |visited| == |before| == |after| == |m| && x < |m| && !visited[x]
    requires forall v :: 0 <= v < |m| && !visited[v] ==> before[v] == InWeight(m, visited, v, |m|)
    requires forall v :: 0 <= v < |m| ==> after[v] == before[v] - Pos(m[x][v])
    ensures forall v :: 0 <= v < |m| && !visited[x := true][v] ==> after[v] == InWeight(m, visited[x := true], v, |m|)
  {
    forall v | 0 <= v < |m| && !visited[x := true][v]
      ensures after[v] == InWeight(m, visited[x := true], v, |m|)
    {
      InWeightVisit(m, visited, x, v, |m|);
    }
  }

  /** In-degrees once the positive arrows of an eliminated node's row are taken away. */
  function Removed(inDegrees: seq<int>, row: seq<int>): (r: seq<int>)
    requires |row| == |inDegrees|
    ensures |r| == |inDegrees|
    ensures forall v :: 0 <= v < |r| ==> r[v] <= inDegrees[v] && (row[v] <= 0 ==> r[v] == inDegrees[v])
  {
    seq(|inDegrees|, v requires 0 <= v < |inDegrees| => inDegrees[v] - Pos(row[v]))
  }

  /** Marks `source` visited and removes its positive outgoing arrows from the in-degrees of their sinks. */
  method Visit(a: array2<int>, source: nat, visited: array<bool>, inDegrees: array<int>)
    requires a.Length0 == a.Length1 == visited.Length == inDegrees.Length && source < a.Length0
    modifies visited, inDegrees
    ensures visited[..] == old(visited[..])[source := true]
    ensures inDegrees[..] == Removed(old(inDegrees[..]), ToMatrix(a)[source])
  {
    visited[source] := true;
    var sink := 0;
    while sink < inDegrees.Length
      modifies inDegrees
      invariant 0 <= sink <= inDegrees.Length
      invariant visited[..] == old(visited[..])[source := true]
      invariant forall v :: 0 <= v < sink ==> inDegrees[v] == old(inDegrees[v]) - Pos(a[source, v])
      invariant forall v :: sink <= v < inDegrees.Length ==> inDegrees[v] == old(inDegrees[v])
    {
      assert a[source, sink] == ToMatrix(a)[source][sink];
      if a[source, sink] > 0 {
        inDegrees[sink] := inDegrees[sink] - a[source, sink];
      }
      sink := sink + 1;
    }
  }

  /** A fully visited vector counts all its nodes. */
  lemma {:induction false} CountAllVisited(visited: seq<bool>)
    requires forall i :: 0 <= i < |visited| ==> visited[i]
    ensures Count(visited) == |visited|
  {
    if visited != [] {
      CountAllVisited(visited[..|visited| - 1]);
    }
  }

  lemma {:induction false} CountNoneVisited(n: nat)
    ensures Count(NoneVisited(n)) == 0
  {
    if n > 0 {
      assert NoneVisited(n)[..n - 1] == NoneVisited(n - 1);
      CountNoneVisited(n - 1);
    }
  }
}
