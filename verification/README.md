# quiver: mutation search for an acyclic quiver, in Dafny

`quiver.c` stores a quiver on `N = 9` nodes as an exchange matrix: a positive
entry `q[i][j]` is an arrow `i → j` of that weight, and the matrix is kept
skew-symmetric. The program mutates the quiver at a node (Fomin–Zelevinsky
matrix mutation), tests whether the positive arrows contain a directed cycle
(Kahn-style elimination of nodes of in-degree zero), and searches depth-first
over sequences of mutations for one that ends in an acyclic quiver. While it
searches, it keeps the largest entry it has seen.

The model has one module per part of the program:

- `QuiverMatrix` (`matrix.dfy`) holds the matrix helpers. Methods work on
  `array2<int>`. Specifications work on the matrix value, a
  `seq<seq<int>>` read through `ToMatrix`.
- `CycleTest` (`cycle_test.dfy`) models `get_in_degrees` and `has_cycle`.
  - `Kahn` is the elimination written as a function. The method `HasCycle`
    is proved equal to it.
  - `KahnCorrect` proves that `Kahn` reports a cycle exactly when the
    positive arrows admit no topological numbering.
- `Mutation` (`mutation.dfy`) models `mutate`.
  - `Mutate` does its two passes in place, and is proved to compute
    `Mutated`.
  - Four lemmas about `Mutated`: on skew-symmetric input it is the textbook
    rule, it keeps skew-symmetry, it is an involution, and it leaves the
    diagonal unchanged.
- `BackwardArrows` (`backward_arrows.dfy`) models `fill_backward_arrows`. It
  covers the exact row-major semantics, including input that already has
  arrows both ways.
- `Search` (`search.dfy`) models `search`.
  - `Explore` is the recursion as a function. It returns whether a winning
    sequence was found, the sequence and the running maximum.
  - The methods `Search` and `TryNode` are proved to compute it. They leave
    the sequence in `order`.
  - Lemmas prove that the search is sound and complete, that it reports the
    first winning sequence in depth-first order, and that it bounds the
    entries of every mutant it builds.
- `Fixtures` (`fixtures.dfy`) holds the example quivers of
  `init_quiver`, `init_tree_quiver` and `init_unoriented_cycle_quiver`, with
  their `has_cycle` results.

Matrix cells are unbounded integers. Integer division and other
width-dependent operators do not occur in the modelled code.

## Model

| member | source | states |
|---|---|---|
| CycleTest.GetInDegrees | quiver.c:9-21 | afterwards each node's entry is the total positive weight arriving at it from every node, and it is non-negative |
| CycleTest.InWeightZero | quiver.c:41 | an in-degree is zero exactly when no unvisited node has a positive arrow to that node |
| CycleTest.InWeightNonNegative | quiver.c:16-18 | in-degrees are never negative, since only positive entries are added |
| CycleTest.InWeightVisit | quiver.c:61-68 | visiting a node lowers each in-degree by exactly the positive weight of its arrow into that node |
| CycleTest.VisitUpdatesInWeights | quiver.c:61-68 | after removing the outgoing arrows of the visited node, the in-degrees of all remaining unvisited nodes are correct again |
| CycleTest.FirstReadyFrom | quiver.c:40-44 | the result is the first unvisited node of in-degree zero; every node skipped before it is visited or has non-zero in-degree; `N` means there is none |
| CycleTest.FirstReady | quiver.c:40-44 | the scan returns that same first unvisited node of in-degree zero |
| CycleTest.Removed | quiver.c:63-68 | in-degrees only go down, and the in-degree of a node is unchanged when it has no positive arrow from the visited node |
| CycleTest.Visit | quiver.c:61-68 | the node becomes visited, nothing else changes in `visited`, and the positive weights of its row are subtracted from the in-degrees |
| CycleTest.StuckMeansCycle | quiver.c:45-51 | if unvisited nodes remain and all of them have positive in-degree, there is no topological numbering |
| CycleTest.EliminationStarts | quiver.c:29-33 | the initial in-degrees, with no node visited, form a consistent elimination state |
| CycleTest.EliminationSteps | quiver.c:60-68 | visiting a node of in-degree zero keeps the elimination state consistent and extends the numbering |
| CycleTest.EliminationStuck | quiver.c:45-51 | returning 1 when no node is ready is correct: the quiver has a cycle |
| CycleTest.EliminationCompletes | quiver.c:52-59 | returning 0 when the last node is about to be visited is correct: the visiting order is a topological numbering |
| CycleTest.EliminationEnds | quiver.c:36-69 | once all nodes are visited, the visiting order is a topological numbering |
| CycleTest.VisitKeepsRanking | quiver.c:60-61 | giving the next rank to a node with no positive arrow from an unvisited node keeps the ranks increasing along every arrow out of visited nodes |
| CycleTest.FullyRanked | quiver.c:52-59 | ranks that increase along every arrow of a fully visited quiver show it is acyclic |
| CycleTest.CountVisit | quiver.c:36 | visiting one more node raises the visited count by one |
| CycleTest.CountFull | quiver.c:52 | a count equal to `N` means every node is visited |
| CycleTest.MinimalUnvisited | quiver.c:45-51 | among the unvisited nodes, one has the smallest rank |
| CycleTest.KahnFromCorrect | quiver.c:36-69 | from any consistent elimination state, the loop answers 1 exactly when the positive arrows have a directed cycle |
| CycleTest.KahnCorrect | quiver.c:26-70 | `has_cycle` answers 1 exactly when no topological numbering of the positive arrows exists |
| CycleTest.HasCycle | quiver.c:26-70 | the in-place elimination returns what the elimination function answers on the matrix; with `KahnCorrect`, 1 means a directed cycle |
| Mutation.Through | quiver.c:77-83 | the path weight through the mutated node is non-negative, and positive exactly when both arrows are positive |
| Mutation.Mutate | quiver.c:72-93 | the array afterwards holds `Mutated` of the array before, entry by entry |
| Mutation.ComposePaths | quiver.c:76-85 | after pass one, each entry outside row and column `k` has gained the weight of the paths through `k` and lost the weight of the reverse paths; row and column `k` are unchanged |
| Mutation.ReverseArrows | quiver.c:87-92 | after pass two, row `k` and every column-`k` entry whose mirror is non-zero are negated, completing the mutation |
| Mutation.MutatedIsFominZelevinsky | quiver.c:72-93 | on a skew-symmetric matrix the two passes compute the Fomin–Zelevinsky rule b'ij = -bij on row and column k, and otherwise bij + (abs(bik)·bkj + bik·abs(bkj))/2 |
| Mutation.MutatedSkew | quiver.c:72-93 | mutation keeps a matrix skew-symmetric |
| Mutation.MutatedInvolution | quiver.c:72-93 | mutating a skew-symmetric matrix twice at the same node gives it back |
| Mutation.MutatedDiagonal | quiver.c:72-93 | mutation leaves the diagonal unchanged, so a non-positive diagonal stays non-positive |
| BackwardArrows.FillBackwardArrows | quiver.c:95-105 | the array afterwards is `BackwardFilled` of the array before; that function gives the result of the row-major writes, including overwritten cells |
| BackwardArrows.FilledPositives | quiver.c:95-105 | every positive entry of the result was already in the input, and no two nodes have positive arrows both ways |
| BackwardArrows.FilledKeepsForwardArrows | quiver.c:95-105 | on input without mutual arrows, every arrow is kept and its mirror holds its negation |
| BackwardArrows.FilledSkew | quiver.c:95-105 | a non-negative input without mutual arrows becomes skew-symmetric |
| BackwardArrows.FilledIdempotent | quiver.c:95-105 | filling a second time changes nothing |
| Search.RowPeakBounds | quiver.c:190-194 | the running maximum after a row is at least its start and every entry scanned, and equals one of them |
| Search.PeakRowsBounds | quiver.c:189-195 | the running maximum after the scanned rows is at least its start and every entry scanned, and equals one of them |
| Search.ScanPeak | quiver.c:186-195 | the scan returns the running maximum of its start and every entry of the mutant |
| Search.BoundsAbs | quiver.c:186-195 | on a skew-symmetric matrix, the maximum entry bounds the absolute value of every entry, i.e. every arrow multiplicity |
| Search.Apply | quiver.c:185 | mutating along a sequence of nodes keeps the matrix square and its size |
| Search.ApplySkew | quiver.c:185 | mutating along any sequence keeps a skew-symmetric quiver skew-symmetric |
| Search.Copy | quiver.c:184 | the copy is a fresh array holding the same matrix as `quiver` |
| Search.MutateAndScan | quiver.c:184-197 | the fresh mutant is `quiver` mutated at `index`; the maximum is raised over its entries; the cycle flag is set exactly when the mutant is not acyclic |
| Search.TryNode | quiver.c:183-210 | one loop iteration returns what `Try` gives, leaves the winning moves in `order[depth..]`, and leaves `order[..depth]` unchanged |
| Search.Search | quiver.c:177-213 | the call returns `Explore`'s success flag and running maximum, leaves the winning moves in `order[depth..]`, and leaves `order[..depth]` unchanged |
| Search.RecordedStep | quiver.c:183 | writing `index` at `order[depth]` in front of a recorded deeper sequence records the whole sequence |
| Search.TrySound | quiver.c:196-209 | when a node succeeds, it reports a sequence the call may try, starting at that node, whose result is acyclic |
| Search.ExploreSound | quiver.c:177-213 | a reported sequence has 1 to `maxDepth - depth + 1` moves, each a node, and mutating along it gives an acyclic quiver |
| Search.TryComplete | quiver.c:196-209 | if any sequence starting at the node wins within the depth budget, the node succeeds |
| Search.ExploreComplete | quiver.c:177-213 | if any sequence within the depth budget gives an acyclic quiver, the search succeeds |
| Search.TryFirst | quiver.c:196-209 | no winning sequence through the node comes before the reported one in depth-first order |
| Search.ExploreFirst | quiver.c:177-213 | the reported sequence is the first winning one in depth-first order: lower nodes first, and a prefix before its extensions |
| Search.TryGrows | quiver.c:191-193 | the running maximum does not decrease across a node and its subtree |
| Search.ExploreGrows | quiver.c:191-193 | the running maximum never decreases |
| Search.TryBounds | quiver.c:186-209 | after a node, the maximum bounds every entry of every mutant built below it; on success, only those up to the reported sequence |
| Search.ExploreBounds | quiver.c:177-213 | the final maximum bounds every entry of every mutant the search built: every candidate sequence on failure, those up to the reported one on success |
| Search.ExploreMultiplicity | quiver.c:186-195 | from a skew-symmetric quiver, the final maximum is at least every arrow multiplicity of every mutant built |
| Search.TryAttained | quiver.c:186-213 | one iteration of the loop over nodes either leaves the running maximum unchanged or ends with it equal to an entry of a mutant it built (a mutation sequence starting at that node, not preceding the winning path) |
| Search.ExploreAttained | quiver.c:186-213 | the loop from a node on either leaves the running maximum unchanged or ends with it equal to an entry of a mutant it built |
| Search.ExploreMaxMultiplicity | quiver.c:223-225 | with the maximum started at 0, as `main` does, and updated by the scan of each mutant in `search`, on a skew-symmetric quiver the printed maximum is exactly the largest arrow multiplicity among all mutants the search built: at least each of them, and equal to one of them |
| Search.ExploreFound | quiver.c:174-175 | `search` returns 1 exactly when some sequence of 1 to `maxDepth - depth + 1` mutations yields an acyclic quiver |
| Search.ExploreAtBound | quiver.c:206 | at the depth limit only single mutations are tried: success means some single mutation is acyclic |
| Fixtures.ForwardArrows | quiver.c:111-127 | the zeroed matrix with the listed weight-1 arrows is positive exactly at those arrows, and non-negative |
| Fixtures.FilledArrows | quiver.c:95-105 | with no arrow listed both ways, the filled fixture is skew-symmetric and positive exactly at the listed arrows |
| Fixtures.TriangleCycle | quiver.c:109-129 | three listed arrows a → b → c → a make the filled fixture cyclic |
| Fixtures.RankedAcyclic | quiver.c:163-172 | a rank increasing along every listed arrow makes the filled fixture acyclic |
| Fixtures.InitQuiverHasCycle | quiver.c:109-129 | `init_quiver` is skew-symmetric and has the directed cycle 0 → 3 → 1 → 0, so `has_cycle` answers 1 |
| Fixtures.TreeQuiverAcyclic | quiver.c:163-172 | `init_tree_quiver` is skew-symmetric and acyclic, so `has_cycle` answers 0 |
| Fixtures.UnorientedCycleQuiverAcyclic | quiver.c:151-158 | `init_unoriented_cycle_quiver` is skew-symmetric and acyclic, so `has_cycle` answers 0 |

## Left out

- `main` is not modelled: it prints, and runs the concrete search from `init_quiver` at depth 7. The outcome of that run is not stated.
- The `printf` calls in `search` are not modelled. Output is left out; the printed moves are what `order[..depth + 1]` holds, and `Search` states them.
- `init_tiny_quiver` is not modelled. Nothing calls it.
- Matrix cells are `char` in the source and unbounded integers here. The model assumes plain `char` is signed; C leaves that to the implementation, and where it is unsigned (ARM and PowerPC Linux, for instance) a negative backward arrow would wrap to a large value and test `> 0`, which the model does not capture. Overflow of a `char` during mutation, and its wrap-around, are not modelled.
- `memset` and `memcpy` are not modelled as byte operations. They become a zeroed fixture matrix, the all-false `visited` array, and `Copy`.
- `has_cycle` falls off its end without a return value when `N` is 0. The model returns `false` in that case. With `N = 9` the case cannot occur.
- Mutation.Mutate: requires a non-positive entry at (index, index). With a positive self-loop there, pass one would read entries of row and column `index` after writing them. Every quiver the program builds is skew-symmetric, so its diagonal is zero.
- Search.Search: requires a non-positive diagonal, for the same reason as `Mutate`. It also requires `order` to be longer than `depth` and `maxDepth`; `main`'s `order[10]` with depth limit 7 meets this.
- The fixtures are matrix values built from their arrow lists. They are not methods that write into an array.
- In `init_unoriented_cycle_quiver`, the arrows 0 → 1, 0 → 2 and 1 → 2 form no directed cycle, so `has_cycle` gives 0 on it, as `Fixtures.UnorientedCycleQuiverAcyclic` proves. The fixture's name could suggest a cycle; the model follows the code.
