# Sudoku solvers: constraint propagation and the genetic operators

This project is a Dafny model of the two Sudoku solvers in the `AICp` package
of SudokuSolver5MethodsTry1, with proofs about that model.

- **The constraint-propagation solver** (`SudokuSolverCP`). It works in four steps:
  - It builds a candidate domain for every cell from the givens.
  - It runs AC-3 arc consistency over the implicit constraint graph. In that graph, two cells are neighbours when they share a row, a column or a 3x3 box.
  - It searches depth first, placing values into the first empty cell.
  - It forward checks every placement against the empty neighbours.

  The Java class keeps the grid and the domains in static fields. Here they are
  the fields `grid` and `domains` of one `SudokuSolverCP` object.
- **The deterministic operators of the genetic solver** (`SudokuGA`):
  - the conflict count and the fitness built on it;
  - extraction of rows, columns and blocks;
  - board cloning;
  - row-wise crossover;
  - row-swap mutation;
  - generation of a candidate board from the puzzle.

  Every random draw of the source is a parameter instead: a coin per row, the two swap positions, and the shuffled 1..9 list of each row.

The files:

- `counting.dfy` (module `Counting`): the reference definitions behind conflict counting:
  - distinct values;
  - occurrence counts;
  - the number of repeated entries;
  - "a permutation of 1..9".
- `board.dfy` (module `Board`): cells, the peer relation, 9x9 grids as values (`Grid`), the units of a grid, and conflict-freedom. `Snapshot` turns a 9x9 array into a `Grid`.
- `constraint_solver.dfy` (module `ConstraintSolver`, class `SudokuSolverCP`): the constraint-propagation solver, imperative, over `array2` fields.
- `genetic_solver.dfy` (module `GeneticSolver`): the genetic operators, imperative over 9x9 arrays. Each operator is specified by a function on grid values.

At `AICp/SudokuSolverCP.java:172-177`, when the recursion fails after a
successful forward check, the code restores only the cell's value and the cell's
own domain. The values that forward check removed from the neighbours' domains
stay removed. So after a failure `Backtrack` promises that the grid is restored
exactly and that the domain of the cell it branched on is exactly as on entry,
but of the other domains only that they have shrunk, not that they are back where
they started.

## Model

| member | source | states |
|---|---|---|
| ConstraintSolver.IsConsistent | AICp/SudokuSolverCP.java:140-155 | two values are consistent unless their cells share a row, a column or a box and the values are equal; for neighbours, consistent iff the values differ |
| ConstraintSolver.ReviseNeighbourArc | AICp/SudokuSolverCP.java:90-112 | across a neighbour arc, revise keeps a source value exactly when the target domain holds some other value |
| ConstraintSolver.SupportedKeepsSolutionValue | AICp/SudokuSolverCP.java:96-108 | revising never drops the value a solution gives the source cell while the target still admits its value |
| ConstraintSolver.InitialDomainSpec | AICp/SudokuSolverCP.java:18-35 | a given cell's domain is {its value}; an empty cell's domain is exactly the digits 1..9 that no neighbour holds; on a 0..9 grid every domain lies in 1..9 |
| ConstraintSolver.InitialDomainAdmitsSolutions | AICp/SudokuSolverCP.java:18-35 | every solution that keeps the givens is admitted by the initial domains |
| ConstraintSolver.GetNeighbors | AICp/SudokuSolverCP.java:226-247 | the result is exactly the cells sharing a row, column or box with (row, col), other than itself; there are 20 of them, and the relation is symmetric and irreflexive |
| ConstraintSolver.SudokuSolverCP.SolveSudokuConstraint | AICp/SudokuSolverCP.java:11-16 | on true the caller's grid is complete, conflict-free, in 1..9 and keeps every given; on false it is unchanged; an input with no empty cell always gives true |
| ConstraintSolver.SudokuSolverCP.InitializeDomains | AICp/SudokuSolverCP.java:18-35 | a fresh domain store in which every cell holds its initial domain; the grid is not touched |
| ConstraintSolver.SudokuSolverCP.InitialCandidates | AICp/SudokuSolverCP.java:25-29 | the digits 1..9 absent from the cell's row, column and box |
| ConstraintSolver.SudokuSolverCP.IsValidInitial | AICp/SudokuSolverCP.java:38-56 | true iff num occurs nowhere in the row, column or box of the cell, the cell included |
| ConstraintSolver.SudokuSolverCP.IsValid | AICp/SudokuSolverCP.java:183-202 | true iff no neighbour of the cell holds num |
| ConstraintSolver.SudokuSolverCP.FindEmptyCell | AICp/SudokuSolverCP.java:215-224 | None iff the grid is complete; otherwise an empty cell such that every cell before it in row-major order is filled |
| ConstraintSolver.SudokuSolverCP.Revise | AICp/SudokuSolverCP.java:90-112 | the source domain becomes its supported values; no other domain changes; true iff a value was removed; the candidate set strictly shrinks iff true; solutions admitted before are still admitted |
| ConstraintSolver.SudokuSolverCP.AC3 | AICp/SudokuSolverCP.java:58-88 | the grid is never written; every domain only shrinks; no admitted solution is lost; false iff some domain that was non-empty became empty; on true every arc from an empty cell to a neighbour is arc-consistent (each source value has a different value in the target domain); terminates on the total domain size |
| ConstraintSolver.SudokuSolverCP.ProcessArc | AICp/SudokuSolverCP.java:72-86 | one pass of the queue loop: domains only shrink and keep every admitted solution; it reports a domain that revise emptied; otherwise the candidates or the queue shrink, and every arc out of an empty cell that is not waiting in the queue stays arc-consistent |
| ConstraintSolver.ReviseMakesArcConsistent | AICp/SudokuSolverCP.java:90-112 | after revising an arc, that arc is arc-consistent |
| ConstraintSolver.ReviseKeepsReverseArc | AICp/SudokuSolverCP.java:74-84 | when revise removed a value but left the source non-empty, the reverse arc (target to source) is arc-consistent, so it needs no requeue |
| ConstraintSolver.SudokuSolverCP.InitialArcs | AICp/SudokuSolverCP.java:61-70 | the queue holds an arc from every empty cell to each of its neighbours and only such arcs |
| ConstraintSolver.SudokuSolverCP.RequeueArcs | AICp/SudokuSolverCP.java:79-84 | appends an arc from every neighbour of the source except the target back to the source; the old queue is kept as a prefix |
| ConstraintSolver.SudokuSolverCP.ForwardCheck | AICp/SudokuSolverCP.java:114-137 | on false, every domain is exactly as before and some empty neighbour had nothing but possibly the placed value left; on true, each empty neighbour's domain loses the placed value and stays non-empty, and every other domain is unchanged, so filled cells keep their singleton domains |
| ConstraintSolver.SudokuSolverCP.PruneNeighbours | AICp/SudokuSolverCP.java:117-136 | the same as ForwardCheck, for a given neighbour set and value |
| ConstraintSolver.SudokuSolverCP.UndoRemovals | AICp/SudokuSolverCP.java:128-131 | every recorded removal is added back to its cell's domain; other domains are unchanged |
| ConstraintSolver.SudokuSolverCP.Backtrack | AICp/SudokuSolverCP.java:157-181 | terminates; a grid with no empty cell gives true; true leaves a complete, conflict-free grid that keeps every value present on entry; false leaves the grid exactly as on entry, the domains only shrunk and the domain of the cell it branched on (the first empty cell) exactly as on entry; every filled cell's domain is exactly its value, before and after |
| ConstraintSolver.SudokuSolverCP.TryValue | AICp/SudokuSolverCP.java:167-178 | one trial of a value: the same promises as Backtrack; on failure the cell's own domain is exactly as before the trial |
| ConstraintSolver.SudokuSolverCP.Place | AICp/SudokuSolverCP.java:168-170 | writes num into the empty cell, keeping the grid conflict-free; the cell's domain becomes {num}; no other domain changes; the set of empty cells strictly shrinks; filled cells keep singleton domains |
| ConstraintSolver.SudokuSolverCP.Unplace | AICp/SudokuSolverCP.java:176-177 | the cell is cleared and its old domain comes back, so the grid is the one before the placement; no other domain changes; filled cells keep singleton domains |
| Board.PeerCount | AICp/SudokuSolverCP.java:226-247 | any set holding exactly the neighbours of a cell has 20 members, excludes the cell, and is symmetric |
| Board.AssignKeepsNoConflict | AICp/SudokuSolverCP.java:183-202 | writing a value that no neighbour holds keeps the grid conflict-free |
| Board.AssignUndo | AICp/SudokuSolverCP.java:176 | writing a cell's old value back restores the grid |
| Board.UnitsDistinctIffNoConflict | AICp/SudokuGA.java:248-269 | on a complete grid, "no row, column or block repeats a value" and "no two neighbours are equal" are the same condition |
| Board.SolvedUnitsHoldAllDigits | AICp/SudokuGA.java:248-269 | in a solved grid every row, column and block holds each of 1..9 exactly once |
| Counting.RepeatsIsLengthMinusDistinct | AICp/SudokuGA.java:271-284 | the number of repeated entries is the length minus the number of distinct values |
| Counting.RepeatsZeroIffDistinct | AICp/SudokuGA.java:271-284 | no entry repeats exactly when all entries are distinct |
| Counting.RepeatsOfPermutation | AICp/SudokuGA.java:271-284 | the conflict count depends only on the multiset of values |
| Counting.DigitPermutationHasNoRepeats | AICp/SudokuGA.java:251 | a permutation of 1..9 has no repeated entry |
| Counting.NineDistinctDigits | AICp/SudokuGA.java:248-269 | nine distinct digits are all of 1..9 |
| GeneticSolver.Tally | AICp/SudokuGA.java:272-275 | the map's keys are the values of the list, each mapped to its number of occurrences |
| GeneticSolver.CountConflicts | AICp/SudokuGA.java:271-284 | the result is the number of entries that repeat an earlier entry |
| GeneticSolver.TotalConflictsZeroIff | AICp/SudokuGA.java:248-269 | the summed conflicts are zero exactly when no row, column or block repeats a value |
| GeneticSolver.NoConflictsIffSolved | AICp/SudokuGA.java:248-269 | for a complete board of digits, zero conflicts means a solved sudoku |
| GeneticSolver.GetRow | AICp/SudokuGA.java:286-292 | the nine values of the row, left to right |
| GeneticSolver.GetColumn | AICp/SudokuGA.java:294-300 | the nine values of the column, top to bottom |
| GeneticSolver.GetBlock | AICp/SudokuGA.java:302-310 | the nine values of the 3x3 block at (blockRow, blockCol), row by row |
| GeneticSolver.SumRowConflicts | AICp/SudokuGA.java:252-254 | the conflicts of all nine rows |
| GeneticSolver.SumColumnConflicts | AICp/SudokuGA.java:257-259 | the conflicts of all nine columns |
| GeneticSolver.SumBlockConflicts | AICp/SudokuGA.java:262-266 | the conflicts of all nine blocks |
| GeneticSolver.SumBandConflicts | AICp/SudokuGA.java:263-265 | the conflicts of the three blocks of one band |
| GeneticSolver.CalculateFitness | AICp/SudokuGA.java:248-269 | minus the conflicts of all rows, columns and blocks; never positive; zero iff no unit repeats a value |
| GeneticSolver.PermutationRowsHaveNoRowConflicts | AICp/SudokuGA.java:251 | on a board whose rows hold 1..9, the rows contribute no conflicts |
| GeneticSolver.CloneBoard | AICp/SudokuGA.java:199-205 | a fresh board with the same contents |
| GeneticSolver.Crossover | AICp/SudokuGA.java:231-246 | two fresh children; row r of each comes from one parent or the other as the coin says; the parents are not modified |
| GeneticSolver.CrossoverSharesRows | AICp/SudokuGA.java:235-243 | each row of the two children is (parent1's, parent2's) or (parent2's, parent1's); together they hold exactly the parents' values |
| GeneticSolver.CrossoverKeepsPermutationRows | AICp/SudokuGA.java:231-246 | children of parents whose rows hold 1..9 have rows holding 1..9 |
| GeneticSolver.CrossoverKeepsGivens | AICp/SudokuGA.java:231-246 | children of parents that keep the givens keep the givens |
| GeneticSolver.SwapIsPermutation | AICp/SudokuGA.java:222-224 | swapping two positions keeps the multiset of values |
| GeneticSolver.MutationKeepsRowInvariant | AICp/SudokuGA.java:207-229 | rows with a given are never changed; every row keeps its multiset; rows holding 1..9 and kept givens are preserved |
| GeneticSolver.Mutate | AICp/SudokuGA.java:207-229 | the board becomes its mutated grid: a row the coin picks that has no given gets two entries swapped, and every other row stays |
| GeneticSolver.RemoveFirst | AICp/SudokuGA.java:128 | removing a value shortens the list by one exactly when the value is in it |
| GeneticSolver.RemoveFirstMultiset | AICp/SudokuGA.java:128 | removing a value takes one occurrence of it out of the multiset of values |
| GeneticSolver.RemoveEachMultiset | AICp/SudokuGA.java:124-130 | removing values that are all present leaves the multiset difference |
| GeneticSolver.Givens | AICp/SudokuGA.java:124-130 | the givens and the empty cells of a row add up to its length |
| GeneticSolver.FillRowKeepsGivens | AICp/SudokuGA.java:133-138 | filling a row never overwrites a given |
| GeneticSolver.FillRowMultiset | AICp/SudokuGA.java:133-138 | a filled row holds the givens plus the first available values, one per empty cell |
| GeneticSolver.GivensWithinDigits | AICp/SudokuGA.java:118-121 | distinct digits all occur in any shuffle of 1..9 |
| GeneticSolver.GeneratedRowIsPermutation | AICp/SudokuGA.java:117-139 | with a shuffle of 1..9 and distinct digit givens, a generated row holds each of 1..9 exactly once |
| GeneticSolver.GeneratedGridKeepsRowInvariant | AICp/SudokuGA.java:115-141 | a generated board keeps every given; each row whose givens are distinct digits holds 1..9 |
| GeneticSolver.CopyGivens | AICp/SudokuGA.java:124-130 | copies the row's givens into the candidate; the remaining list is the shuffle with the givens removed in order |
| GeneticSolver.CopyGiven | AICp/SudokuGA.java:125-129 | one column of the copy loop: a given is copied and one occurrence of it leaves the available list; nothing else changes |
| GeneticSolver.FillEmptyCells | AICp/SudokuGA.java:133-138 | the k-th empty cell from the left receives the k-th remaining value |
| GeneticSolver.GenerateRow | AICp/SudokuGA.java:117-138 | row r of the candidate becomes the generated row; other rows are unchanged |
| GeneticSolver.GenerateCandidate | AICp/SudokuGA.java:115-141 | a fresh board equal to the generated grid of the puzzle and the shuffles |

## Left out

- Randomness: every draw of `rand` becomes a parameter.
  - `Crossover`'s `takeFirst[r]` stands for the `rand.nextBoolean()` coin of each row (`AICp/SudokuGA.java:236`).
  - `Mutate`'s `mutateRow[r]` stands for the biased draw `rand.nextDouble() < MUTATION_RATE`, which is true with probability 0.1 (`AICp/SudokuGA.java:209`).
  - `pos1[r]` and `pos2[r]` stand for the two `rand.nextInt(SIZE)` swap positions (`AICp/SudokuGA.java:220-221`).
  - `GenerateCandidate`'s `shuffled[r]` stands for the list 1..9 after `Collections.shuffle` (`AICp/SudokuGA.java:118-122`).

  The probabilities of these draws are not modelled.
- The genetic solver's driver is not modelled. That covers `solve` (`AICp/SudokuGA.java:14`), `initializePopulation`, `getMatingPool`, `tournamentSelect`, `evolvePopulation` with its `CROSSOVER_RATE` draw, and `getBestSolution`. It also covers the generation and stagnation limits. All of them are driven by random draws, or, like `getBestSolution` (a `Collections.max` over the fitness, `AICp/SudokuGA.java:195-197`), only select among their results.
- The genetic solver's console output is not modelled: the progress messages and `printBoard` (`AICp/SudokuGA.java:41-45, 59, 68, 76-77, 90-105`). The constraint solver prints nothing.
- HashSet and HashMap iteration order is incidental. Every iteration over a set or a map picks an arbitrary member (`:|`), and only order-independent facts are proved. So no specific search order, and no specific answer on boards with several solutions.
- ConstraintSolver.SudokuSolverCP.AC3: arc consistency is promised only for arcs whose source cell is empty. Arcs out of given cells are never put on the initial queue (`AICp/SudokuSolverCP.java:64-66`), so their consistency does not follow.
- Completeness of the constraint solver, "returns true on every solvable board", is neither claimed nor proved beyond its base case: a board with no empty cell gives true. The neighbour-domain prunes that are not undone (see above) may cut off later trials, so completeness is not established for the code as written.
- `java.awt.Point` hashing and equality are value equality of the datatype `Point`.
- Several parts of a source method are helper methods here, each with its own contract:
  - `ConstraintSolver.SudokuSolverCP.InitialCandidates`, `InitialArcs`, `ProcessArc`, `RequeueArcs`, `PruneNeighbours`, `UndoRemovals`, `TryValue`, `Place` and `Unplace`;
  - `GeneticSolver.Tally`, `SumRowConflicts`, `SumColumnConflicts`, `SumBlockConflicts`, `SumBandConflicts`, `CopyGivens`, `CopyGiven`, `FillEmptyCells` and `GenerateRow`.

  The loops and branches are the source's own.
- ConstraintSolver.SudokuSolverCP.SolveSudokuConstraint: requires an input grid whose values lie in 0..9 and whose givens do not clash. Its contract says nothing about other inputs, on which the source may report a "solution" that still contains clashing givens.
- ConstraintSolver.IsConsistent: requires both cells on the board. The source only calls it with cells of the board.
- GeneticSolver.GenerateCandidate: the shuffled lists are parameters of length 9. That each one is a permutation of 1..9 is assumed only by `GeneratedGridKeepsRowInvariant`, not by the method.
- GeneticSolver.CalculateFitness: Java `int` arithmetic is unbounded here. The count never exceeds 27 * 8, so no overflow is possible.
