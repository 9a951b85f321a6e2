# Knight's Tour solver, modelled and verified in Dafny

This project models the Knight's Tour solver of `KnightsTour.java`, cited below
as `source.java`. The solver works on a fixed 12×12 `int` grid. A 2-cell
margin is marked `-1`, which leaves an 8×8 playable interior of `total = 64`
cells. The search numbers those cells `1..total` by recursive backtracking:

- `countNeighbors` counts the unvisited knight targets of a cell.
- `neighbors` lists those targets in move order, each with its onward degree.
- `solve` sorts them by onward degree with a stable sort (Warnsdorff's heuristic). For each one it numbers the cell, runs the one-step orphan lookahead (`orphanDetected`), recurses, and resets the cell to `0` on failure.

Files:

- `board.dfy` (module `Board`): the constants `base`, `total`, the sentinel values and the move table `moves`. Also the knight-step geometry, the notion of a complete tour, and the counting argument that a tour of `total` distinct interior cells covers the whole interior.
- `rules.dfy` (module `Rules`): the rules the search applies, on a board taken as a value (`seq<seq<int>>`): the initial board, a cell's degree, its candidate list, the orphan test, and what the orphan test sees once a cell is numbered.
- `degree_order.dfy` (module `DegreeOrder`): the `List.sort` call with a comparator on the degree. `StableSort` is the stable sort as a function; the method `SortByDegree` is an insertion sort proved to return it, and every stable sort by degree gives the same list.
- `backtrack.dfy` (module `Backtrack`): the backtracking search as a reference definition on board values. `Search` is one call of `solve`, `TryAll` its loop over the sorted candidates, and `Trial` one iteration (number the cell, look ahead, search on). A failed trial restores the board, so each trial starts from the board the loop started from. Lemmas state what a result of the search is and how the loop and the lookahead decide it.
- `knights_tour.dfy` (module `KnightsTour`): class `Solver`, which holds the grid as an `array2<int>` and `total`. `Snapshot()` reads the grid as a board value.
  - The constructor is the grid initialisation of `main`.
  - `CountNeighbors`, `Neighbors` and `OrphanDetected` are read-only methods with loops. They are proved against `Degree`, `Candidates` and `HasOrphanNeighbor` of the snapshot.
  - `Solve` is the recursive search and `modifies grid`. Its loop is the method `TryInOrder`, each trial of the loop (mark, look ahead, recurse, unmark) is the method `Place`, and the trial's condition (no orphan, and the search on succeeds) is the method `Advance`. Each is proved to give the outcome and the walk of its reference counterpart (`Search`, `TryAll`, `Trial`) applied to the board it started from. They are mutually recursive, and the search terminates because `total - count` decreases.
  - The module-level method `Tour` is `main` with the start cell taken as a parameter.

The Java static fields `grid` and `total` are assigned once, in `main`. They become
the `const` fields of a `Solver` object. The elements of the grid are still updated in place.

## Model

| member | source | states |
|---|---|---|
| `Board.Target` | source.java:33-42 | from an interior cell the target of every move is inside the grid, so `grid[row + y][column + x]` never goes out of bounds |
| `Board.TargetIsKnightStep` | source.java:33-42 | every move changes one coordinate by 1 and the other by 2, so its target is a knight step away |
| `Board.KnightStepIsMove` | source.java:33-42 | the eight moves are exactly the knight displacements: a cell is a knight step away if and only if some move reaches it |
| `Board.TourCoversInterior` | source.java:63 | `total` distinct interior cells make up the whole interior (a counting argument over the 8×8 block), so a complete numbering leaves no interior cell unvisited |
| `Rules.InitialBoard` | source.java:62-71 | the initialised grid is a valid board: `-1` on the margin, `0` or a move number inside |
| `Rules.BlockedPlusTotal` | source.java:62-71 | on a valid board the number of `-1` cells plus `total` is `base*base` |
| `Rules.UnvisitedIsInterior` | source.java:144 | a cell that reads `0` is an interior cell, from which every move stays in bounds |
| `Rules.Degree` | source.java:162-170 | the onward degree lies in `0..8` |
| `Rules.DegreeCountsOpenMoves` | source.java:162-170 | the degree is exactly the number of the 8 offsets whose target holds `0` |
| `Rules.OpenMovesUpToSpec` | source.java:141-148 | the move indices whose target is unvisited, listed in ascending move order, each exactly once, and all of them; their number is the degree |
| `Rules.Entry` | source.java:144-146 | the triple added for an unvisited target: that target cell, which is interior, unvisited and a knight step away |
| `Rules.CandidatesUpToSpec` | source.java:138-150 | the j-th candidate is the triple of the j-th unvisited move, so the candidates come in move order |
| `Rules.CandidatesAreOpenTargets` | source.java:138-150 | there are as many candidates as the cell's degree; each triple `(r, c, d)` has `grid[r][c] == 0`, is a knight step from the cell, and has `d == countNeighbors(r, c)` |
| `Rules.OrphanIsCandidateOfDegreeZero` | source.java:187-191 | a target with no onward move exists exactly when some triple in the neighbour list has degree `0` |
| `Rules.MarkedOrphan` | source.java:116-117 | the lookahead runs after the candidate is numbered; it finds an orphan exactly when numbering the candidate leaves one of its unvisited knight targets with no unvisited knight target other than the candidate (`LeavesOrphan`, judged on the board before the trial) |
| `DegreeOrder.StableSortSpec` | source.java:111 | `StableSort` sorts by onward degree, non-decreasing, keeps entries of equal degree in their input (move) order, and is a permutation of its input |
| `DegreeOrder.StableSortUnique` | source.java:111 | two lists sorted by degree with the same entries in each degree class are equal, so any stable sort (the library's included) produces exactly `StableSort`'s order |
| `DegreeOrder.SortByDegree` | source.java:111 | the insertion sort returns `StableSort` of its input |
| `Backtrack.SortedCandidates` | source.java:106-111 | the sorted candidate list has as many entries as the cell's degree, each an unvisited knight target with its degree |
| `Backtrack.TryAllIsFirstSuccess` | source.java:113-123 | the loop succeeds exactly when some candidate's trial succeeds, and then returns the walk of the first candidate in the sorted order whose trial succeeds, every earlier trial having failed |
| `Backtrack.TrialOutcome` | source.java:114-121 | a trial succeeds exactly when the lookahead (while `count < total - 1`) finds no orphan and the search from the numbered cell succeeds, and its walk is that cell followed by the search's walk; a candidate that leaves an orphan fails |
| `Backtrack.TrialPrunesOrphans` | source.java:117 | while `count < total - 1`, a trial of a candidate whose numbering leaves an orphan fails without searching |
| `Backtrack.LastMoveSucceeds` | source.java:101-123 | with `count == total` and at least one candidate the search succeeds, with a walk of one cell |
| `Backtrack.SearchSound` | source.java:100-124 | every walk the search returns numbers `count..total` (empty when `count > total`), is a knight's walk from the current cell, and runs over distinct interior cells that were unvisited |
| `Backtrack.TryAllSound` | source.java:113-123 | every walk the loop returns is such a walk |
| `Backtrack.TrialSound` | source.java:114-121 | every walk a trial returns starts at its candidate, is followed by such a walk from the candidate, and has distinct cells |
| `KnightsTour.Solver.constructor` | source.java:62-71 | after initialisation the grid reads as `InitialBoard`: every cell with `r < 2 \|\| r > base-3 \|\| c < 2 \|\| c > base-3` holds `-1`, every other cell holds `0`, and `total` is `(base-4)*(base-4)` |
| `KnightsTour.Solver.CountNeighbors` | source.java:162-170 | `countNeighbors` reads the grid only and returns the degree of the cell on the current board |
| `KnightsTour.Solver.Neighbors` | source.java:138-150 | `neighbors` reads the grid only and returns the candidate list of the current board: at most 8 triples, in move order, each an unvisited knight target with its onward degree |
| `KnightsTour.Solver.OrphanDetected` | source.java:185-195 | `orphanDetected` reads the grid only; it returns `true` exactly when `count < total - 1` and some unvisited knight target of the cell has no unvisited knight target, so it returns `false` whenever `count >= total - 1` |
| `KnightsTour.Solver.Solve` | source.java:100-124 | `solve` succeeds exactly when `Search` from the board on entry does, and then numbers `Search`'s walk: the k-th cell of the walk held `0` and now holds `count + k`, the walk is a knight's walk from the current cell covering `count..total`, and every other cell is unchanged; on failure the grid is exactly as on entry. With `count == total` and at least one candidate it succeeds |
| `KnightsTour.Solver.TryInOrder` | source.java:113-123 | the `for` loop of `solve`: succeeds exactly when `TryAll` over the same candidate order from the board on entry does, numbers its walk, and leaves the grid as on entry on failure |
| `KnightsTour.Solver.Place` | source.java:114-121 | one trial of the loop: succeeds exactly when `Trial` from the board on entry does and numbers its walk, which starts at the candidate; a candidate that leaves an orphan while `count < total - 1` is rejected; on failure the cell is reset to `0`, so the grid is as before the trial |
| `KnightsTour.Solver.Advance` | source.java:117 | the condition `!orphanDetected(count, row, column) && solve(row, column, count + 1)`: true exactly when the lookahead finds no orphan (checked while `count < total - 1`) and `Search` from the board with the candidate numbered succeeds, and then the walk is that search's |
| `KnightsTour.NumberedWalkIsTour` | source.java:62-78 | a board on which a walk of `total` interior cells, consecutive ones a knight move apart, carries the numbers `1..total` in order holds a complete tour, and every interior cell is numbered |
| `KnightsTour.Tour` | source.java:62-78 | from an interior start cell numbered `1`: the run succeeds exactly when `Search` from the initial board with the start numbered does, and the tour is the start followed by that search's walk; on success the numbers `1..total` lie on `total` distinct interior cells, consecutive numbers a knight move apart, and every interior cell is numbered; on failure only the start cell is numbered and every other cell is back to its initial `-1`/`0` |

## Left out

- `size()` (source.java:18-30) is left out. It is dead code that refers to a `Node<E>` type, `first()` and `p.item`, none of which exist in the class, and it has nothing to do with the tour.
- The random choice of the start cell (source.java:73-74) is left out. The start becomes the parameters of `Tour`, with the precondition that the cell is interior, which is the range the random expression yields.
- `printResult` and the `no result` line (source.java:78-82, 202-212) are left out because they are console output only. `Tour` returns the outcome and the board instead.
- `test.java` (`IIRFilter`) is left out. It is floating-point signal processing that is unrelated to the solver.
- The model does not claim that a tour exists from every start cell. The heuristic search guarantees no such thing, so every property is stated given the boolean result.
- `DegreeOrder.SortByDegree`: the library's in-place sort of the `ArrayList` is modelled as a method that returns the sorted sequence. The TimSort algorithm itself is not modelled. `DegreeOrder.StableSortUnique` shows that any stable sort gives the same result.
- Java's 32-bit `int` arithmetic is modelled as unbounded. No value in the search exceeds `total + 1 = 65`, so no wrap-around can occur.
- The board size is the constant `base = 12`, as in the Java program. The code has no guard for a board too small for the 2-cell margin; with the constant size none is needed.
- The guard `neighbor.isEmpty() && count != total` is modelled as written. When the list is empty and `count == total`, the loop runs zero times and `solve` still returns `false`, which the model's contract reflects.
- The model does not prove that the search is complete, that is, that it finds a tour whenever the board admits a completion from the current cell. The orphan pruning would need to be shown never to discard a completion; only soundness (every returned walk is a valid walk) is proved.
