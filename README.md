# Wave-function-collapse Sudoku generator, modelled in Dafny

`sudokuGenerator.py` fills a 9×9 Sudoku grid by wave-function collapse. Every
cell starts with all nine digits as candidates. The generator then repeats three
steps until every cell has exactly one candidate:

1. pick a cell with the fewest candidates (its *entropy*) above one;
2. collapse it onto a random candidate;
3. remove that digit from every unsolved *peer* (same 3×3 square, same global
   row or same global column), and recurse at once into any peer left with a
   single candidate.

There is no backtracking, so the finished grid can break the Sudoku rules. A
flaw detector then marks every cell whose digit repeats in one of its peers.

The model keeps the source's shape:

- The board is a mutable `array<Cands>` of 81 cells. `Cands` is a 9-slot boolean
  presence vector. The source's `(9, 3, 3, 9)` numpy array of ones becomes
  cell `9*square + 3*row + col` (`Coordinates.Index`), slot `d`.
  `board[..]` is the value of the board, and the specification functions
  are stated over it.
- `updateSpace` and `updateBoard` are methods that change the board in place.
  `updateBoard` keeps its recursion in the middle of the scan. The body of
  its scan loop is the method `Visit`, which calls `UpdateBoard` back for a
  peer left with one candidate.
  `countUnsolved`, `lowestEntropy`, `hasConflicts` and `detectFlaws` are
  loops over local accumulators.
- Coordinates, `getValue` and the counts are pure functions.
- `random.choice` becomes a nondeterministic pick (`:|`). Every property holds
  for every possible pick.

Modules:

- `Coordinates`: the two coordinate schemes, the peer relation and the scan order.
- `Board`: presence vectors, counts, `initBoard`, `getValue`, `countUnsolved`,
  and the narrowing relation.
- `Selector`: `lowestEntropy`.
- `Propagation`: `collapseValue`, `updateSpace` and `updateBoard`.
- `Conflicts`: `hasConflicts` and `detectFlaws`.
- `Generator`: the loop of `main`.

What is proved about the engine:

- Candidates are only ever removed.
- A cell that has a candidate never loses its last one (`Board.Narrows`).
  Line 170 only touches cells whose count is not 1 and removes one digit.
  Line 149 keeps a digit that was a candidate. So the code can never reach an
  empty candidate set from a board without one.
- Solved cells are never changed.
- After `updateBoard` the target cell is solved, and it holds one of its old
  candidates.
- After `updateBoard`, no unsolved peer of the target still holds its digit.
  The same holds for every cell the cascade solved: each peer forced down to
  one candidate is itself collapsed and propagated.
- Nothing else is removed. Every candidate that `updateBoard` takes from a cell
  other than the target is the digit of a peer of that cell that was solved
  during the call.
- Each collapse of an unsolved cell lowers the unsolved count. This count is
  the termination measure of the recursion and of the driver loop, so the
  driver stops after at most 81 collapses with every cell solved.

Peers that were already solved may hold the same digit. A cascade can force a
peer onto the collapsed digit before the outer scan reaches it; the scan then
skips it as solved. This is how flaws arise, and the model does not claim
otherwise.

`getValue` returns the first remaining candidate. It fails only on an emptied
cell, not on an unsolved one.

## Model

| member | source | states |
|---|---|---|
| `Coordinates.CalculateGlobalXY` | sudokuGenerator.py:7-13 | for an in-range (square, row, col) the result is on the board; x lies in block column `square % 3` at offset `col`, y in block row `square / 3` at offset `row` |
| `Coordinates.CalculateSqRowCol` | sudokuGenerator.py:17-22 | for x, y in [0, 9) the result is a valid (square, row, col) and `CalculateGlobalXY` maps it back to (x, y) |
| `Coordinates.SqRowColOfGlobalXY` | sudokuGenerator.py:7-22 | the converse round trip: every valid (square, row, col) is recovered from its global (x, y) |
| `Coordinates.Peers` | sudokuGenerator.py:165-168 | two distinct cells are peers when they share a square, a global x or a global y; this is the test in `updateBoard` and the union of the three scans of `hasConflicts` (lines 187-214); it has no contract of its own |
| `Coordinates.SpaceAt` | sudokuGenerator.py:107-109 | the k-th position of the (square, row, col) scan is valid, has offset k, and is the only valid position with that offset |
| `Board.InitBoard` | sudokuGenerator.py:25-28 | a fresh board in which every cell holds all nine candidates, so no cell is empty and all 81 are unsolved |
| `Board.CountNonzero` | sudokuGenerator.py:43 | `np.count_nonzero` of a presence vector: the number of set slots, never more than the length |
| `Board.CountExtremes` | sudokuGenerator.py:43 | `count_nonzero` of a presence vector is 0 exactly when no slot is set, and is the full length exactly when every slot is set |
| `Board.GetValue` | sudokuGenerator.py:32-34 | on a non-empty cell, the result is a candidate of the cell and no smaller digit is one |
| `Board.SolvedIsSingle` | sudokuGenerator.py:32-34 | a solved cell holding digit v is exactly the one-digit vector of v |
| `Board.CountUnsolved` | sudokuGenerator.py:37-46 | returns `Unsolved(board)`, the number of cells with more than one candidate |
| `Board.UnsolvedZero` | sudokuGenerator.py:37-46 | the unsolved count is 0 iff every cell has at most one candidate |
| `Board.UnsolvedAll` | sudokuGenerator.py:37-46 | the unsolved count equals the number of cells iff every cell has more than one candidate |
| `Board.UnsolvedMonotone` | sudokuGenerator.py:37-46 | if no cell's count rises, the unsolved count does not rise, and it falls when some cell goes from unsolved to at most one candidate |
| `Board.NarrowsUnsolved` | sudokuGenerator.py:144-177 | a board that only loses candidates never has more unsolved cells, and has fewer once an unsolved cell becomes solved (the recursion's termination measure) |
| `Board.NarrowsKeepsSolved` | sudokuGenerator.py:161-163 | narrowing leaves every solved cell exactly as it was |
| `Board.SubsetOfSolved` | sudokuGenerator.py:161-163 | a non-empty part of a one-candidate cell is that cell |
| `Board.CountSubset` | sudokuGenerator.py:139 | clearing slots never raises a cell's count, and clearing a set slot lowers it |
| `Board.CountUpdate` | sudokuGenerator.py:139 | assigning one slot changes the count by exactly the difference that slot makes |
| `Selector.LowestEntropy` | sudokuGenerator.py:100-124 | when some cell is unsolved, returns an unsolved cell whose count is at most that of every unsolved cell |
| `Propagation.CollapseValue` | sudokuGenerator.py:127-131 | the picked digit is one of the cell's remaining candidates |
| `Propagation.UpdateSpace` | sudokuGenerator.py:134-141 | the cell's new candidates are its old candidates that are in `plist`; every other cell is unchanged |
| `Propagation.DigitsExcept` | sudokuGenerator.py:151-152 | the list holds 8 entries: every digit 0..8 except the collapsed one |
| `Propagation.KeepOne` | sudokuGenerator.py:149 | restricting a cell to one of its candidates solves it onto that digit, inside its old candidates |
| `Propagation.KeepExcept` | sudokuGenerator.py:170 | removing the collapsed digit clears that slot alone, lowering the count by one iff the digit was a candidate |
| `Propagation.ClearStep` | sudokuGenerator.py:161-173 | clearing the digit from a cell whose count is not 1 keeps the board narrowed from the start of the collapse (never emptying a cell), removes the digit, and a cell it solves had at least two candidates at the start |
| `Propagation.ClearedNarrows` | sudokuGenerator.py:170-175 | a peer that was cleared of the digit (or solved) stays so through the nested collapse |
| `Propagation.PropagatedNarrows` | sudokuGenerator.py:161-163 | a solved cell whose digit is gone from its unsolved peers stays so on every narrower board, because the scan skips solved cells |
| `Propagation.ExplainedClear` | sudokuGenerator.py:170 | removing the collapsed digit from a peer of the collapsed cell removes nothing unexplained: the removed candidate is the digit of a solved peer |
| `Propagation.ExplainedNested` | sudokuGenerator.py:172-175 | after the nested collapse, every candidate removed since the outer call began is the digit of a peer solved in that time: the outer target, the nested target or a cell its cascade solved |
| `Propagation.ClearScan` | sudokuGenerator.py:165-173 | clearing the digit from an unsolved peer keeps the board narrowed and the target solved, extends the cleared prefix past the peer, removes nothing unexplained, and, when it solves the peer, lowers the unsolved count |
| `Propagation.NestedScan` | sudokuGenerator.py:172-175 | after the nested collapse of a peer, the scan state holds again with that peer and every cell its cascade solved propagated, and every removal is still explained |
| `Propagation.Visit` | sudokuGenerator.py:157-175 | one position of the scan keeps the scan state: board narrowed from the start, target solved, peers up to the position cleared, every cell solved so far propagated, and every candidate removed from another cell is the digit of a peer solved since the start |
| `Propagation.UpdateBoard` | sudokuGenerator.py:144-177 | the board only narrows; the target ends solved on one of its old candidates; no unsolved peer keeps that digit; every cell that was unsolved and ends solved has its own digit removed from its unsolved peers (the cascade); collapsing an unsolved cell lowers the unsolved count; and nothing else goes: every candidate removed from a cell other than the target is the digit of a peer of that cell solved during the call (the target or a cell that was unsolved) |
| `Conflicts.ConflictIsMutual` | sudokuGenerator.py:181-217 | the peer a cell conflicts with is itself a different cell in conflict |
| `Conflicts.FlawsComeInPairs` | sudokuGenerator.py:220-231 | a flaw map marking exactly the cells in conflict never marks exactly one cell |
| `Conflicts.HasConflicts` | sudokuGenerator.py:181-217 | true iff some peer (same square, same global x or same global y) has the same `getValue` as the cell |
| `Conflicts.DetectFlaws` | sudokuGenerator.py:220-231 | marks exactly the cells in conflict, and the counter equals the number of marked cells |
| `Generator.Generate` | sudokuGenerator.py:242-261 | the loop ends with every cell holding exactly one candidate, and the flaw map and count are those of `DetectFlaws` on that board, so the count is never 1; the loop ran at most 81 times |

## Left out

- `printBoard`, `printBoardFlaws` and `printBoardEs` (terminal output and colour codes) are not modelled. This includes the digit display offset, which is applied on line 60 and missing on lines 77 and 79.
- The console messages and the `printBoardFlaws` call in `detectFlaws` are not modelled. In the source `detectFlaws` returns nothing. The model returns the flaw count and the flaw map instead.
- The `input(...)` prompts and the call of `main()` at module level are I/O and are left out. `Generate` is the loop of `main` without them.
- The Python `random` module is left out. Each `random.choice` is a nondeterministic pick, so the uniform distribution of the tie-break and of the collapsed digit is not modelled.
- numpy is left out. The float arrays of ones and zeros are boolean presence vectors, and `np.count_nonzero` and `np.nonzero` are functions over them.
- The unused `from turtle import pos` import is left out.
- The loops nested over (square, row, col) in `countUnsolved`, `lowestEntropy`, `updateBoard` and `detectFlaws` are each one loop over the 81 positions. They visit the positions in the same order.
- Conflicts.HasConflicts: requires every cell to be non-empty. The source only needs the cell itself and the peers it reads before the first match to be non-empty. On a finished board every cell holds one candidate, so this makes no difference there.
- Python's recursion limit is not modelled. The recursion in `updateBoard` is at most 81 calls deep, because each nested call solves a new cell.
