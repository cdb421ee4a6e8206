/**
 * Bounded depth-first search over mutation sequences for an acyclic quiver
 * (quiver.c, `search`).
 */
module Search {
  import opened QuiverMatrix
  import opened CycleTest
  import opened Mutation

  /** What a search call reports: success, the moves it found, and the running maximum entry. */
  datatype Outcome = Outcome(found: bool, path: seq<int>, peak: int)

  /** The running maximum after scanning the first `j` entries of `row`. */
  function RowPeak(acc: int, row: seq<int>, j: nat): int
    requires j <= |row|
  {
    if j == 0 then acc else Max(RowPeak(acc, row, j - 1), row[j - 1])
  }

  /** The running maximum after scanning the first `i` rows of `m`. */
  function PeakRows(acc: int, m: seq<seq<int>>, i: nat): int
    requires i <= |m|
  {
    if i == 0 then acc else RowPeak(PeakRows(acc, m, i - 1), m[i - 1], |m[i - 1]|)
  }

  /** The running maximum after scanning a whole matrix. */
  function Peak(acc: int, m: seq<seq<int>>): int
  {
    PeakRows(acc, m, |m|)
  }

  lemma {:induction false} RowPeakBounds(acc: int, row: seq<int>, j: nat)
    requires j <= |row|
    ensures var r := RowPeak(acc, row, j);
            r >= acc && (forall t :: 0 <= t < j ==> r >= row[t]) &&
            (r == acc || exists t :: 0 <= t < j && r == row[t])
  {
    if j > 0 {
      RowPeakBounds(acc, row, j - 1);
    }
  }

  lemma {:induction false} PeakRowsBounds(acc: int, m: seq<seq<int>>, i: nat)
    requires i <= |m|
    ensures var r := PeakRows(acc, m, i);
            r >= acc && (forall p, q :: 0 <= p < i && 0 <= q < |m[p]| ==> r >= m[p][q]) &&
            (r == acc || exists p, q :: 0 <= p < i && 0 <= q < |m[p]| && r == m[p][q])
  {
    if i > 0 {
      PeakRowsBounds(acc, m, i - 1);
      RowPeakBounds(PeakRows(acc, m, i - 1), m[i - 1], |m[i - 1]|);
    }
  }

  /** `peak` is at least every entry of `m`. */
  ghost predicate Bounds(peak: int, m: seq<seq<int>>)
  {
    forall i, j :: 0 <= i < |m| && 0 <= j < |m[i]| ==> peak >= m[i][j]
  }

  /** On a skew-symmetric matrix the largest entry is the largest multiplicity. */
  lemma BoundsAbs(peak: int, m: seq<seq<int>>)
    requires IsSkew(m) && Bounds(peak, m)
    ensures forall i, j :: 0 <= i < |m| && 0 <= j < |m| ==> peak >= Abs(m[i][j])
  {
    forall i, j | 0 <= i < |m| && 0 <= j < |m| ensures peak >= Abs(m[i][j]) {
      assert peak >= m[i][j] && peak >= m[j][i];
    }
  }

  /** How many more levels a call at `depth` may recurse. */
  function Budget(depth: nat, maxDepth: nat): nat
  {
    if depth < maxDepth then maxDepth - depth else 0
  }

  ghost predicate ValidMoves(s: seq<int>, n: nat)
  {
    forall t :: 0 <= t < |s| ==> 0 <= s[t] < n
  }

  /** A mutation sequence a call at `depth` can try: 1 to `Budget + 1` nodes. */
  ghost predicate Candidate(s: seq<int>, n: nat, depth: nat, maxDepth: nat)
  {
    1 <= |s| <= Budget(depth, maxDepth) + 1 && ValidMoves(s, n)
  }

  /** Mutates at each node of `s` in turn. */
  function Apply(m: seq<seq<int>>, s: seq<int>): (r: seq<seq<int>>)
    requires IsSquare(m) && ValidMoves(s, |m|)
    ensures IsSquare(r) && |r| == |m|
    decreases |s|
  {
    if s == [] then m else Apply(Mutated(m, s[0]), s[1..])
  }

  /** Unfolds `Apply` at the first move. */
  lemma ApplyFirst(m: seq<seq<int>>, s: seq<int>)
    requires IsSquare(m) && ValidMoves(s, |m|) && |s| >= 1
    ensures Apply(m, s) == Apply(Mutated(m, s[0]), s[1..])
    ensures |s| == 1 ==> Apply(m, s) == Mutated(m, s[0])
  {
  }

  /**
   * Depth-first order: `s` is tried before `t` when it is a proper prefix of
   * `t` or takes a smaller node where they first differ.
   */
  function Precedes(s: seq<int>, t: seq<int>): bool
    decreases |s|
  {
    if t == [] then false
    else if s == [] then true
    else s[0] < t[0] || (s[0] == t[0] && Precedes(s[1..], t[1..]))
  }

  /**
   * What one iteration of the loop in `search(m, order, depth, maxDepth, &acc)`
   * does, as a function: the mutant at `index`, and its subtree when it has a
   * cycle and the depth bound allows.
   */
  ghost function Try(m: seq<seq<int>>, depth: nat, maxDepth: nat, index: nat, acc: int): (t: Outcome)
    requires IsSquare(m) && index < |m|
    decreases Budget(depth, maxDepth), |m| - index, 0
  {
    var mutant := Mutated(m, index);
    var peak := Peak(acc, mutant);
    if Acyclic(mutant) then Outcome(true, [index], peak)
    else if depth < maxDepth then
      var sub := ExploreFrom(mutant, depth + 1, maxDepth, 0, peak);
      if sub.found then Outcome(true, [index] + sub.path, sub.peak)
      else Outcome(false, [], sub.peak)
    else Outcome(false, [], peak)
  }

  /** The loop of `search` from node `index` on, up to the first success. */
  ghost function ExploreFrom(m: seq<seq<int>>, depth: nat, maxDepth: nat, index: nat, acc: int): (o: Outcome)
    requires IsSquare(m) && index <= |m|
    decreases Budget(depth, maxDepth), |m| - index, 1
  {
    if index == |m| then Outcome(false, [], acc)
    else
      var t := Try(m, depth, maxDepth, index, acc);
      if t.found then t else ExploreFrom(m, depth, maxDepth, index + 1, t.peak)
  }

  /** The outcome of one `search` call. */
  ghost function Explore(m: seq<seq<int>>, depth: nat, maxDepth: nat, acc: int): Outcome
    requires IsSquare(m)
  {
    ExploreFrom(m, depth, maxDepth, 0, acc)
  }

  /** A node that succeeds reports a sequence it may try, starting at the node, that ends in an acyclic quiver. */
  lemma {:induction false} TrySound(m: seq<seq<int>>, depth: nat, maxDepth: nat, index: nat, acc: int)
    requires IsSquare(m) && index < |m|
    ensures var t := Try(m, depth, maxDepth, index, acc);
            t.found ==> Candidate(t.path, |m|, depth, maxDepth) && t.path[0] == index && Acyclic(Apply(m, t.path))
    decreases Budget(depth, maxDepth), |m| - index, 0
  {
    var mutant := Mutated(m, index);
    var peak := Peak(acc, mutant);
    if Acyclic(mutant) {
      assert Apply(m, [index]) == Apply(mutant, []);
    } else if depth < maxDepth {
      ExploreSound(mutant, depth + 1, maxDepth, 0, peak);
      var sub := ExploreFrom(mutant, depth + 1, maxDepth, 0, peak);
      if sub.found {
        var path := [index] + sub.path;
        assert path[1..] == sub.path;
        assert Apply(m, path) == Apply(mutant, sub.path);
      }
    }
  }

  /** A successful search reports a sequence it may try that ends in an acyclic quiver. */
  lemma {:induction false} ExploreSound(m: seq<seq<int>>, depth: nat, maxDepth: nat, index: nat, acc: int)
    requires IsSquare(m) && index <= |m|
    ensures var o := ExploreFrom(m, depth, maxDepth, index, acc);
            o.found ==> Candidate(o.path, |m|, depth, maxDepth) && o.path[0] >= index && Acyclic(Apply(m, o.path))
    decreases Budget(depth, maxDepth), |m| - index, 1
  {
    if index < |m| {
      TrySound(m, depth, maxDepth, index, acc);
      var t := Try(m, depth, maxDepth, index, acc);
      if !t.found {
        ExploreSound(m, depth, maxDepth, index + 1, t.peak);
      }
    }
  }

  /** If some sequence starting at `index` wins within the budget, that node succeeds. */
  lemma {:induction false} TryComplete(m: seq<seq<int>>, depth: nat, maxDepth: nat, index: nat, acc: int, s: seq<int>)
    requires IsSquare(m) && index < |m|
    requires Candidate(s, |m|, depth, maxDepth) && s[0] == index && Acyclic(Apply(m, s))
    ensures Try(m, depth, maxDepth, index, acc).found
    decreases Budget(depth, maxDepth), |m| - index, 0
  {
    var mutant := Mutated(m, index);
    if !Acyclic(mutant) {
      ApplyFirst(m, s);
      ExploreComplete(mutant, depth + 1, maxDepth, 0, Peak(acc, mutant), s[1..]);
    }
  }

  /** If some sequence from `index` on wins within the budget, the search finds one. */
  lemma {:induction false} ExploreComplete(m: seq<seq<int>>, depth: nat, maxDepth: nat, index: nat, acc: int, s: seq<int>)
    requires IsSquare(m) && index <= |m|
    requires Candidate(s, |m|, depth, maxDepth) && s[0] >= index && Acyclic(Apply(m, s))
    ensures ExploreFrom(m, depth, maxDepth, index, acc).found
    decreases Budget(depth, maxDepth), |m| - index, 1
  {
    var t := Try(m, depth, maxDepth, index, acc);
    if s[0] == index {
      TryComplete(m, depth, maxDepth, index, acc, s);
    } else if !t.found {
      ExploreComplete(m, depth, maxDepth, index + 1, t.peak, s);
    }
  }

  /** No winning sequence through node `index` comes before the one that node reports. */
  lemma {:induction false} TryFirst(m: seq<seq<int>>, depth: nat, maxDepth: nat, index: nat, acc: int, s: seq<int>)
    requires IsSquare(m) && index < |m|
    requires Candidate(s, |m|, depth, maxDepth) && s[0] == index && Acyclic(Apply(m, s))
    ensures var t := Try(m, depth, maxDepth, index, acc);
            t.found && !Precedes(s, t.path)
    decreases Budget(depth, maxDepth), |m| - index, 0
  {
    TryComplete(m, depth, maxDepth, index, acc, s);
    var mutant := Mutated(m, index);
    if Acyclic(mutant) {
      assert !Precedes(s[1..], []);
    } else {
      ApplyFirst(m, s);
      var peak := Peak(acc, mutant);
      ExploreFirst(mutant, depth + 1, maxDepth, 0, peak, s[1..]);
      var sub := ExploreFrom(mutant, depth + 1, maxDepth, 0, peak);
      assert ([index] + sub.path)[1..] == sub.path;
    }
  }

  /** No winning sequence comes before the reported one in depth-first order. */
  lemma {:induction false} ExploreFirst(m: seq<seq<int>>, depth: nat, maxDepth: nat, index: nat, acc: int, s: seq<int>)
    requires IsSquare(m) && index <= |m|
    requires Candidate(s, |m|, depth, maxDepth) && s[0] >= index && Acyclic(Apply(m, s))
    ensures var o := ExploreFrom(m, depth, maxDepth, index, acc);
            o.found && !Precedes(s, o.path)
    decreases Budget(depth, maxDepth), |m| - index, 1
  {
    ExploreComplete(m, depth, maxDepth, index, acc, s);
    var t := Try(m, depth, maxDepth, index, acc);
    if s[0] == index {
      TryFirst(m, depth, maxDepth, index, acc, s);
    } else if t.found {
      TrySound(m, depth, maxDepth, index, acc);
    } else {
      ExploreFirst(m, depth, maxDepth, index + 1, t.peak, s);
    }
  }

  /** The running maximum never decreases across one node. */
  lemma {:induction false} TryGrows(m: seq<seq<int>>, depth: nat, maxDepth: nat, index: nat, acc: int)
    requires IsSquare(m) && index < |m|
    ensures Try(m, depth, maxDepth, index, acc).peak >= acc
    decreases Budget(depth, maxDepth), |m| - index, 0
  {
    var mutant := Mutated(m, index);
    PeakRowsBounds(acc, mutant, |mutant|);
    if !Acyclic(mutant) && depth < maxDepth {
      ExploreGrows(mutant, depth + 1, maxDepth, 0, Peak(acc, mutant));
    }
  }

  /** The running maximum never decreases. */
  lemma {:induction false} ExploreGrows(m: seq<seq<int>>, depth: nat, maxDepth: nat, index: nat, acc: int)
    requires IsSquare(m) && index <= |m|
    ensures ExploreFrom(m, depth, maxDepth, index, acc).peak >= acc
    decreases Budget(depth, maxDepth), |m| - index, 1
  {
    if index < |m| {
      TryGrows(m, depth, maxDepth, index, acc);
      var t := Try(m, depth, maxDepth, index, acc);
      if !t.found {
        ExploreGrows(m, depth, maxDepth, index + 1, t.peak);
      }
    }
  }

  lemma BoundsGrow(peak: int, larger: int, m: seq<seq<int>>)
    requires Bounds(peak, m) && larger >= peak
    ensures Bounds(larger, m)
  {
  }

  /**
   * After node `index`, the running maximum bounds every entry of every
   * mutant built below it: all of them when the node fails, those up to the
   * reported sequence when it succeeds.
   */
  lemma {:induction false} TryBounds(m: seq<seq<int>>, depth: nat, maxDepth: nat, index: nat, acc: int, s: seq<int>)
    requires IsSquare(m) && index < |m|
    requires Candidate(s, |m|, depth, maxDepth) && s[0] == index
    ensures var t := Try(m, depth, maxDepth, index, acc);
            (!t.found || !Precedes(t.path, s)) ==> Bounds(t.peak, Apply(m, s))
    decreases Budget(depth, maxDepth), |m| - index, 0
  {
    var t := Try(m, depth, maxDepth, index, acc);
    var mutant := Mutated(m, index);
    var peak := Peak(acc, mutant);
    PeakRowsBounds(acc, mutant, |mutant|);
    assert Bounds(peak, mutant);
    ApplyFirst(m, s);
    if Acyclic(mutant) {
      if |s| > 1 {
        assert Precedes(t.path, s) by {
          assert Precedes([], s[1..]);
        }
      }
    } else if depth < maxDepth {
      var sub := ExploreFrom(mutant, depth + 1, maxDepth, 0, peak);
      if |s| > 1 {
        ExploreBounds(mutant, depth + 1, maxDepth, 0, peak, s[1..]);
        if sub.found {
          assert t.path[1..] == sub.path;
        }
      } else {
        ExploreGrows(mutant, depth + 1, maxDepth, 0, peak);
        BoundsGrow(peak, sub.peak, mutant);
      }
    }
  }

  /**
   * The running maximum bounds every entry of every mutant the search
   * builds: of all candidate sequences when it fails, of those up to the
   * reported one when it succeeds.
   */
  lemma {:induction false} ExploreBounds(m: seq<seq<int>>, depth: nat, maxDepth: nat, index: nat, acc: int, s: seq<int>)
    requires IsSquare(m) && index <= |m|
    requires Candidate(s, |m|, depth, maxDepth) && s[0] >= index
    ensures var o := ExploreFrom(m, depth, maxDepth, index, acc);
            (!o.found || !Precedes(o.path, s)) ==> Bounds(o.peak, Apply(m, s))
    decreases Budget(depth, maxDepth), |m| - index, 1
  {
    var t := Try(m, depth, maxDepth, index, acc);
    if s[0] == index {
      TryBounds(m, depth, maxDepth, index, acc, s);
      if !t.found {
        ExploreGrows(m, depth, maxDepth, index + 1, t.peak);
        BoundsGrow(t.peak, ExploreFrom(m, depth, maxDepth, index + 1, t.peak).peak, Apply(m, s));
      }
    } else if t.found {
      TrySound(m, depth, maxDepth, index, acc);
    } else {
      ExploreBounds(m, depth, maxDepth, index + 1, t.peak, s);
    }
  }

  /** Mutating a skew-symmetric matrix along any sequence keeps it skew-symmetric. */
  lemma {:induction false} ApplySkew(m: seq<seq<int>>, s: seq<int>)
    requires IsSkew(m) && ValidMoves(s, |m|)
    ensures IsSkew(Apply(m, s))
    decreases |s|
  {
    if s != [] {
      MutatedSkew(m, s[0]);
      ApplySkew(Mutated(m, s[0]), s[1..]);
    }
  }

  /**
   * On a skew-symmetric quiver the reported maximum is the largest arrow
   * multiplicity among the mutants the search builds.
   */
  lemma ExploreMultiplicity(m: seq<seq<int>>, depth: nat, maxDepth: nat, acc: int, s: seq<int>)
    requires IsSkew(m) && Candidate(s, |m|, depth, maxDepth)
    requires var o := Explore(m, depth, maxDepth, acc); !o.found || !Precedes(o.path, s)
    ensures forall i, j :: 0 <= i < |m| && 0 <= j < |m| ==>
              Abs(Apply(m, s)[i][j]) <= Explore(m, depth, maxDepth, acc).peak
  {
    ExploreBounds(m, depth, maxDepth, 0, acc, s);
    ApplySkew(m, s);
    BoundsAbs(Explore(m, depth, maxDepth, acc).peak, Apply(m, s));
  }

  /** `peak` is one of the entries of `m`. */
  ghost predicate Attained(peak: int, m: seq<seq<int>>)
  {
    exists i, j :: 0 <= i < |m| && 0 <= j < |m[i]| && m[i][j] == peak
  }

  /**
   * After node `index`, the running maximum is its start or an entry of a
   * mutant built below the node.
   */
  lemma {:induction false} TryAttained(m: seq<seq<int>>, depth: nat, maxDepth: nat, index: nat, acc: int)
    requires IsSquare(m) && index < |m|
    ensures var t := Try(m, depth, maxDepth, index, acc);
            t.peak == acc ||
            exists s :: Candidate(s, |m|, depth, maxDepth) && s[0] == index &&
              (!t.found || !Precedes(t.path, s)) && Attained(t.peak, Apply(m, s))
    decreases Budget(depth, maxDepth), |m| - index, 0
  {
    var t := Try(m, depth, maxDepth, index, acc);
    var mutant := Mutated(m, index);
    var peak := Peak(acc, mutant);
    PeakRowsBounds(acc, mutant, |mutant|);
    ApplyFirst(m, [index]);
    assert [index][1..] == [];
    if !Acyclic(mutant) && depth < maxDepth {
      var sub := ExploreFrom(mutant, depth + 1, maxDepth, 0, peak);
      ExploreAttained(mutant, depth + 1, maxDepth, 0, peak);
      if sub.peak == peak {
        if peak != acc {
          assert Attained(t.peak, Apply(m, [index]));
          if sub.found {
            assert t.path == [index] + sub.path;
            assert !Precedes(t.path, [index]);
          }
        }
      } else {
        var s' :| Candidate(s', |m|, depth + 1, maxDepth) &&
                  (!sub.found || !Precedes(sub.path, s')) && Attained(sub.peak, Apply(mutant, s'));
        var s := [index] + s';
        assert s[1..] == s';
        ApplyFirst(m, s);
        if sub.found {
          assert t.path[1..] == sub.path;
          assert !Precedes(t.path, s);
        }
        assert Candidate(s, |m|, depth, maxDepth) && Attained(t.peak, Apply(m, s));
      }
    } else if peak != acc {
      assert Attained(t.peak, Apply(m, [index]));
      assert !Precedes([index], [index]);
    }
  }

  /**
   * The running maximum is its start or an entry of a mutant the search
   * built: any candidate on failure, one up to the reported sequence on
   * success.
   */
  lemma {:induction false} ExploreAttained(m: seq<seq<int>>, depth: nat, maxDepth: nat, index: nat, acc: int)
    requires IsSquare(m) && index <= |m|
    ensures var o := ExploreFrom(m, depth, maxDepth, index, acc);
            o.peak == acc ||
            exists s :: Candidate(s, |m|, depth, maxDepth) && s[0] >= index &&
              (!o.found || !Precedes(o.path, s)) && Attained(o.peak, Apply(m, s))
    decreases Budget(depth, maxDepth), |m| - index, 1
  {
    if index < |m| {
      var o := ExploreFrom(m, depth, maxDepth, index, acc);
      var t := Try(m, depth, maxDepth, index, acc);
      TryAttained(m, depth, maxDepth, index, acc);
      if !t.found {
        ExploreAttained(m, depth, maxDepth, index + 1, t.peak);
        ExploreSound(m, depth, maxDepth, index + 1, t.peak);
        if o.peak == t.peak && t.peak != acc {
          var s :| Candidate(s, |m|, depth, maxDepth) && s[0] == index &&
                   (!t.found || !Precedes(t.path, s)) && Attained(t.peak, Apply(m, s));
          if o.found {
            assert o.path[0] > s[0];
            assert !Precedes(o.path, s);
          }
        }
      }
    }
  }

  /** Mutating along `s` is one of the steps a search that ended in `o` performed. */
  ghost predicate Built(m: seq<seq<int>>, depth: nat, maxDepth: nat, o: Outcome, s: seq<int>)
  {
    Candidate(s, |m|, depth, maxDepth) && (!o.found || !Precedes(o.path, s))
  }

  /** A non-negative maximum that is 0 or an entry of a built skew mutant is the absolute value of one. */
  lemma PeakIsMultiplicity(m: seq<seq<int>>, depth: nat, maxDepth: nat, o: Outcome)
    requires IsSkew(m) && |m| > 0 && o.peak >= 0
    requires o.found ==> |o.path| > 0 && o.path[0] >= 0
    requires o.peak == 0 || exists s :: Built(m, depth, maxDepth, o, s) && Attained(o.peak, Apply(m, s))
    ensures exists s, i, j :: Built(m, depth, maxDepth, o, s) && 0 <= i < |m| && 0 <= j < |m| &&
              Abs(Apply(m, s)[i][j]) == o.peak
  {
    if o.peak == 0 {
      var s := [0];
      ApplySkew(m, s);
      var x := Apply(m, s);
      assert x[0][0] == -x[0][0];
      if o.found {
        assert !Precedes(o.path, s);
      }
      assert Built(m, depth, maxDepth, o, s) && Abs(x[0][0]) == o.peak;
    } else {
      var s :| Built(m, depth, maxDepth, o, s) && Attained(o.peak, Apply(m, s));
      var i, j :| 0 <= i < |m| && 0 <= j < |Apply(m, s)[i]| && Apply(m, s)[i][j] == o.peak;
      assert Abs(Apply(m, s)[i][j]) == o.peak;
    }
  }

  /**
   * The value `main` prints as the max multiplicity: a search from a
   * skew-symmetric quiver with the running maximum started at 0 ends with
   * the largest arrow multiplicity among the mutants it built.
   */
  lemma ExploreMaxMultiplicity(m: seq<seq<int>>, depth: nat, maxDepth: nat)
    requires IsSkew(m) && |m| > 0
    ensures var o := Explore(m, depth, maxDepth, 0);
            (forall s, i, j :: Built(m, depth, maxDepth, o, s) && 0 <= i < |m| && 0 <= j < |m| ==>
               Abs(Apply(m, s)[i][j]) <= o.peak) &&
            (exists s, i, j :: Built(m, depth, maxDepth, o, s) && 0 <= i < |m| && 0 <= j < |m| &&
               Abs(Apply(m, s)[i][j]) == o.peak)
  {
    var o := Explore(m, depth, maxDepth, 0);
    forall s, i, j | Built(m, depth, maxDepth, o, s) && 0 <= i < |m| && 0 <= j < |m|
      ensures Abs(Apply(m, s)[i][j]) <= o.peak
    {
      ExploreMultiplicity(m, depth, maxDepth, 0, s);
    }
    ExploreGrows(m, depth, maxDepth, 0, 0);
    ExploreAttained(m, depth, maxDepth, 0, 0);
    ExploreSound(m, depth, maxDepth, 0, 0);
    PeakIsMultiplicity(m, depth, maxDepth, o);
  }

  /**
   * `search` returns 1 exactly when some sequence of 1 to
   * `maxDepth - depth + 1` mutations yields an acyclic quiver.
   */
  lemma ExploreFound(m: seq<seq<int>>, depth: nat, maxDepth: nat, acc: int)
    requires IsSquare(m)
    ensures Explore(m, depth, maxDepth, acc).found <==>
            exists s :: Candidate(s, |m|, depth, maxDepth) && Acyclic(Apply(m, s))
  {
    var o := Explore(m, depth, maxDepth, acc);
    if o.found {
      ExploreSound(m, depth, maxDepth, 0, acc);
    }
    if s :| Candidate(s, |m|, depth, maxDepth) && Acyclic(Apply(m, s)) {
      ExploreComplete(m, depth, maxDepth, 0, acc, s);
    }
  }

  /** At the depth bound only the single mutations of the quiver are tried. */
  lemma ExploreAtBound(m: seq<seq<int>>, depth: nat, maxDepth: nat, acc: int)
    requires IsSquare(m) && depth >= maxDepth
    ensures Explore(m, depth, maxDepth, acc).found <==>
            exists k :: 0 <= k < |m| && Acyclic(Mutated(m, k))
  {
    var o := Explore(m, depth, maxDepth, acc);
    if o.found {
      ExploreSound(m, depth, maxDepth, 0, acc);
      var k := o.path[0];
      assert o.path == [k];
      assert Apply(m, [k]) == Apply(Mutated(m, k), []);
    }
    if k :| 0 <= k < |m| && Acyclic(Mutated(m, k)) {
      assert Apply(m, [k]) == Apply(Mutated(m, k), []);
      ExploreComplete(m, depth, maxDepth, 0, acc, [k]);
    }
  }

  /** A fresh array holding the same matrix as `quiver` (the copy into `mutant`). */
  method Copy(quiver: array2<int>) returns (mutant: array2<int>)
    requires quiver.Length0 == quiver.Length1
    ensures fresh(mutant)
    ensures mutant.Length0 == mutant.Length1 == quiver.Length0
    ensures ToMatrix(mutant) == ToMatrix(quiver)
  {
    var n := quiver.Length0;
    mutant := new int[n, n]((i, j) requires 0 <= i < n && 0 <= j < n reads quiver => quiver[i, j]);
    assert forall i :: 0 <= i < n ==> ToMatrix(mutant)[i] == ToMatrix(quiver)[i];
  }

  /** Raises `peak` to every entry of `mutant`, row by row. */
  method ScanPeak(mutant: array2<int>, peak: int) returns (r: int)
    ensures r == Peak(peak, ToMatrix(mutant))
  {
    ghost var mu := ToMatrix(mutant);
    r := peak;
    var i := 0;
    while i < mutant.Length0
      invariant 0 <= i <= mutant.Length0
      invariant r == PeakRows(peak, mu, i)
    {
      var j := 0;
      while j < mutant.Length1
        invariant 0 <= j <= mutant.Length1
        invariant r == RowPeak(PeakRows(peak, mu, i), mu[i], j)
      {
        if mutant[i, j] > r {
          r := mutant[i, j];
        }
        j := j + 1;
      }
      i := i + 1;
    }
  }

  /** `order[depth..]` starts with `path`. */
  ghost predicate Recorded(order: array<int>, depth: nat, path: seq<int>)
    reads order
  {
    depth + |path| <= order.Length && forall t :: 0 <= t < |path| ==> order[depth + t] == path[t]
  }

  /**
   * The body of the loop in `search` up to the win test: a mutated copy of
   * `quiver`, the running maximum raised to its entries, and whether it has
   * a cycle.
   */
  method MutateAndScan(quiver: array2<int>, index: nat, acc: int) returns (mutant: array2<int>, peak: int, cyclic: bool)
    requires quiver.Length0 == quiver.Length1 && index < quiver.Length0 && quiver[index, index] <= 0
    ensures fresh(mutant) && mutant.Length0 == mutant.Length1 == quiver.Length0
    ensures ToMatrix(mutant) == Mutated(ToMatrix(quiver), index)
    ensures peak == Peak(acc, ToMatrix(mutant))
    ensures cyclic == !Acyclic(ToMatrix(mutant))
  {
    mutant := Copy(quiver);
    Mutate(index, mutant);
    peak := ScanPeak(mutant, acc);
    cyclic := HasCycle(mutant);
    KahnCorrect(ToMatrix(mutant));
  }

  lemma RecordedStep(order: array<int>, depth: nat, index: int, path: seq<int>)
    requires order.Length > depth && order[depth] == index && Recorded(order, depth + 1, path)
    ensures Recorded(order, depth, [index] + path)
  {
    forall t | 0 <= t < 1 + |path| ensures order[depth + t] == ([index] + path)[t] {
      if t > 0 {
        assert order[depth + 1 + (t - 1)] == path[t - 1];
      }
    }
  }

  /**
   * `search`: tries the nodes 0, 1, … of `quiver` in turn and stops at the
   * first that succeeds, leaving the moves that led to the acyclic quiver in
   * `order[depth..]`. `quiver` is only read.
   */
  method Search(quiver: array2<int>, order: array<int>, depth: nat, maxDepth: nat, maxMultiplicity: int)
    returns (found: bool, peak: int)
    requires quiver.Length0 == quiver.Length1
    requires forall i :: 0 <= i < quiver.Length0 ==> quiver[i, i] <= 0
    requires order.Length > depth && order.Length > maxDepth
    modifies order
    ensures var o := Explore(ToMatrix(quiver), depth, maxDepth, maxMultiplicity);
            found == o.found && peak == o.peak && (found ==> Recorded(order, depth, o.path))
    ensures forall t :: 0 <= t < depth ==> order[t] == old(order[t])
    decreases Budget(depth, maxDepth), 1
  {
    ghost var m := ToMatrix(quiver);
    peak := maxMultiplicity;
    var index := 0;
    while index < quiver.Length0
      invariant 0 <= index <= quiver.Length0
      invariant ToMatrix(quiver) == m
      invariant ExploreFrom(m, depth, maxDepth, index, peak) == Explore(m, depth, maxDepth, maxMultiplicity)
      invariant forall t :: 0 <= t < depth ==> order[t] == old(order[t])
    {
      found, peak := TryNode(quiver, order, depth, maxDepth, index, peak);
      if found {
        return;
      }
      index := index + 1;
    }
    found := false;
  }

  /**
   * One iteration of the loop in `search`: records `index` in
   * `order[depth]`, mutates a copy of `quiver` there, raises the running
   * maximum to its entries, and succeeds if it has no cycle; otherwise
   * searches below it while `depth < maxDepth`.
   */
  method TryNode(quiver: array2<int>, order: array<int>, depth: nat, maxDepth: nat, index: nat, acc: int)
    returns (found: bool, peak: int)
    requires quiver.Length0 == quiver.Length1 && index < quiver.Length0
    requires forall i :: 0 <= i < quiver.Length0 ==> quiver[i, i] <= 0
    requires order.Length > depth && order.Length > maxDepth
    modifies order
    ensures var t := Try(ToMatrix(quiver), depth, maxDepth, index, acc);
            found == t.found && peak == t.peak && (found ==> Recorded(order, depth, t.path))
    ensures forall t :: 0 <= t < depth ==> order[t] == old(order[t])
    decreases Budget(depth, maxDepth), 0
  {
    ghost var m := ToMatrix(quiver);
    order[depth] := index;
    var mutant, cyclic;
    mutant, peak, cyclic := MutateAndScan(quiver, index, acc);
    ghost var mu := ToMatrix(mutant);
    if !cyclic {
      assert Recorded(order, depth, [index]);
      found := true;
      return;
    }
    found := false;
    if depth < maxDepth {
      MutatedDiagonal(m, index);
      ghost var sub := ExploreFrom(mu, depth + 1, maxDepth, 0, peak);
      found, peak := Search(mutant, order, depth + 1, maxDepth, peak);
      if found {
        RecordedStep(order, depth, index, sub.path);
      }
    }
  }
}
