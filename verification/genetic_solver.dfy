/** The deterministic parts of the genetic solver: the conflict count
    behind its fitness, extraction of rows, columns and blocks, board
    cloning, row-wise crossover, row-swap mutation and the generation of a
    candidate from the puzzle. Every random draw of the source (a coin, a
    row chosen for mutation, two swap positions, a shuffled 1..9 list) is a
    parameter here. Boards are 9x9 arrays; Snapshot gives their contents as
    a Grid value. */
module GeneticSolver {
  import opened Counting
  import opened Board

  // ---------------------------------------------------------------------
  // Conflict counting and fitness.

  /** The first loop of countConflicts: a map from each value of numbers
      to the number of its occurrences. */
  method Tally(numbers: seq<int>) returns (counts: map<int, nat>)
    ensures counts.Keys == Elems(numbers)
    ensures forall v :: v in counts ==> counts[v] == Count(numbers, v)
  {
    counts := map[];
    for i := 0 to |numbers|
      invariant counts.Keys == Elems(numbers[..i])
      invariant forall v :: v in counts ==> counts[v] == Count(numbers[..i], v)
    {
      var num := numbers[i];
      assert numbers[..i + 1] == numbers[..i] + [num];
      forall v ensures Count(numbers[..i + 1], v) == Count(numbers[..i], v) + (if num == v then 1 else 0) {
        CountStep(numbers, i, v);
      }
      if num in counts {
        counts := counts[num := counts[num] + 1];
      } else {
        CountPositiveIff(numbers[..i], num);
        counts := counts[num := 1];
      }
    }
    assert numbers[..|numbers|] == numbers;
  }

  /** countConflicts: tallies each value in a map, then adds count - 1 for
      every value seen more than once. The result is the number of entries
      that repeat an earlier one (Repeats), which is the length minus the
      number of distinct values and is zero exactly when no value repeats
      (RepeatsIsLengthMinusDistinct, RepeatsZeroIffDistinct). */
  method CountConflicts(numbers: seq<int>) returns (conflicts: nat)
    ensures conflicts == Repeats(numbers)
  {
    var counts := Tally(numbers);
    conflicts := 0;
    var keys := counts.Keys;
    CountInEmpty(numbers);
    while keys != {}
      invariant keys <= counts.Keys
      invariant conflicts == CountIn(numbers, counts.Keys - keys) - |counts.Keys - keys|
      decreases keys
    {
      NonEmptyHasMember(keys);
      var v :| v in keys;
      var count := counts[v];
      CountPositiveIff(numbers, v);
      CountInAddValue(numbers, counts.Keys - keys, v);
      if count > 1 {
        conflicts := conflicts + (count - 1);
      }
      assert counts.Keys - (keys - {v}) == (counts.Keys - keys) + {v};
      keys := keys - {v};
    }
    assert counts.Keys - keys == counts.Keys;
    CountInAll(numbers, counts.Keys);
    RepeatsIsLengthMinusDistinct(numbers);
  }

  /** Row conflicts of the first n rows. */
  function RowConflicts(g: Grid, n: int): nat
    requires 0 <= n <= 9
  {
    if n == 0 then 0 else RowConflicts(g, n - 1) + Repeats(Row(g, n - 1))
  }

  /** Column conflicts of the first n columns. */
  function ColumnConflicts(g: Grid, n: int): nat
    requires 0 <= n <= 9
  {
    if n == 0 then 0 else ColumnConflicts(g, n - 1) + Repeats(Column(g, n - 1))
  }

  /** Conflicts of the first n blocks of band bi (the blocks whose top row
      is 3 * bi), left to right. */
  function BandConflicts(g: Grid, bi: int, n: int): nat
    requires 0 <= bi < 3 && 0 <= n <= 3
  {
    if n == 0 then 0 else BandConflicts(g, bi, n - 1) + Repeats(Block(g, 3 * bi, 3 * (n - 1)))
  }

  /** Block conflicts of the first n bands of blocks, top to bottom. */
  function BlockConflicts(g: Grid, n: int): nat
    requires 0 <= n <= 3
  {
    if n == 0 then 0 else BlockConflicts(g, n - 1) + BandConflicts(g, n - 1, 3)
  }

  /** The number of conflicts the fitness function counts: repeats in every
      row, every column and every 3x3 block. */
  function TotalConflicts(g: Grid): nat
  {
    RowConflicts(g, 9) + ColumnConflicts(g, 9) + BlockConflicts(g, 3)
  }

  lemma {:induction false} RowConflictsZeroIff(g: Grid, n: int)
    requires 0 <= n <= 9
    ensures RowConflicts(g, n) == 0 <==> forall r :: 0 <= r < n ==> Distinct(Row(g, r))
  {
    if n > 0 {
      RowConflictsZeroIff(g, n - 1);
      RepeatsZeroIffDistinct(Row(g, n - 1));
    }
  }

  lemma {:induction false} ColumnConflictsZeroIff(g: Grid, n: int)
    requires 0 <= n <= 9
    ensures ColumnConflicts(g, n) == 0 <==> forall c :: 0 <= c < n ==> Distinct(Column(g, c))
  {
    if n > 0 {
      ColumnConflictsZeroIff(g, n - 1);
      RepeatsZeroIffDistinct(Column(g, n - 1));
    }
  }

  lemma {:induction false} BandConflictsZeroIff(g: Grid, bi: int, n: int)
    requires 0 <= bi < 3 && 0 <= n <= 3
    ensures BandConflicts(g, bi, n) == 0 <==> forall j :: 0 <= j < n ==> Distinct(Block(g, 3 * bi, 3 * j))
  {
    if n > 0 {
      BandConflictsZeroIff(g, bi, n - 1);
      RepeatsZeroIffDistinct(Block(g, 3 * bi, 3 * (n - 1)));
    }
  }

  lemma {:induction false} BlockConflictsZeroIff(g: Grid, n: int)
    requires 0 <= n <= 3
    ensures BlockConflicts(g, n) == 0 <==> forall i, j :: 0 <= i < n && 0 <= j < 3 ==> Distinct(Block(g, 3 * i, 3 * j))
  {
    if n > 0 {
      BlockConflictsZeroIff(g, n - 1);
      BandConflictsZeroIff(g, n - 1, 3);
    }
  }

  /** A board has no conflicts exactly when no row, column or block repeats a value. */
  lemma TotalConflictsZeroIff(g: Grid)
    ensures TotalConflicts(g) == 0 <==> UnitsDistinct(g)
  {
    RowConflictsZeroIff(g, 9);
    ColumnConflictsZeroIff(g, 9);
    BlockConflictsZeroIff(g, 3);
  }

  /** For a complete board of digits, zero conflicts means a solved sudoku. */
  lemma NoConflictsIffSolved(g: Grid)
    requires Complete(g) && InRange(g)
    ensures TotalConflicts(g) == 0 <==> Solved(g)
  {
    TotalConflictsZeroIff(g);
    UnitsDistinctIffNoConflict(g);
  }

  /** getRow: the nine values of a row, left to right. */
  method GetRow(board: array2<int>, row: int) returns (numbers: seq<int>)
    requires board.Length0 == 9 && board.Length1 == 9 && 0 <= row < 9
    ensures numbers == Row(Snapshot(board), row)
  {
    numbers := [];
    for col := 0 to 9
      invariant |numbers| == col
      invariant forall c :: 0 <= c < col ==> numbers[c] == board[row, c]
    {
      numbers := numbers + [board[row, col]];
    }
  }

  /** getColumn: the nine values of a column, top to bottom. */
  method GetColumn(board: array2<int>, col: int) returns (numbers: seq<int>)
    requires board.Length0 == 9 && board.Length1 == 9 && 0 <= col < 9
    ensures numbers == Column(Snapshot(board), col)
  {
    numbers := [];
    for row := 0 to 9
      invariant |numbers| == row
      invariant forall r :: 0 <= r < row ==> numbers[r] == board[r, col]
    {
      numbers := numbers + [board[row, col]];
    }
  }

  /** getBlock: the nine values of the 3x3 block whose top-left cell is
      (blockRow, blockCol), row by row. */
  method GetBlock(board: array2<int>, blockRow: int, blockCol: int) returns (numbers: seq<int>)
    requires board.Length0 == 9 && board.Length1 == 9
    requires 0 <= blockRow <= 6 && 0 <= blockCol <= 6
    ensures numbers == Block(Snapshot(board), blockRow, blockCol)
  {
    numbers := [];
    for row := blockRow to blockRow + 3
      invariant |numbers| == 3 * (row - blockRow)
      invariant forall k :: 0 <= k < |numbers| ==> numbers[k] == board[blockRow + k / 3, blockCol + k % 3]
    {
      for col := blockCol to blockCol + 3
        invariant |numbers| == 3 * (row - blockRow) + (col - blockCol)
        invariant forall k :: 0 <= k < |numbers| ==> numbers[k] == board[blockRow + k / 3, blockCol + k % 3]
      {
        numbers := numbers + [board[row, col]];
      }
    }
    BlockAt(Snapshot(board), blockRow, blockCol);
  }

  /** The row loop of calculateFitness: the conflicts of all nine rows. */
  method SumRowConflicts(candidate: array2<int>) returns (conflicts: nat)
    requires candidate.Length0 == 9 && candidate.Length1 == 9
    ensures conflicts == RowConflicts(Snapshot(candidate), 9)
  {
    conflicts := 0;
    for row := 0 to 9
      invariant conflicts == RowConflicts(Snapshot(candidate), row)
    {
      var numbers := GetRow(candidate, row);
      var n := CountConflicts(numbers);
      conflicts := conflicts + n;
    }
  }

  /** The column loop of calculateFitness: the conflicts of all nine columns. */
  method SumColumnConflicts(candidate: array2<int>) returns (conflicts: nat)
    requires candidate.Length0 == 9 && candidate.Length1 == 9
    ensures conflicts == ColumnConflicts(Snapshot(candidate), 9)
  {
    conflicts := 0;
    for col := 0 to 9
      invariant conflicts == ColumnConflicts(Snapshot(candidate), col)
    {
      var numbers := GetColumn(candidate, col);
      var n := CountConflicts(numbers);
      conflicts := conflicts + n;
    }
  }

  /** The block loops of calculateFitness: the top-left cell of block
      (bi, bj) is (3 * bi, 3 * bj), the source's blockRow and blockCol
      stepping by 3. */
  method SumBlockConflicts(candidate: array2<int>) returns (conflicts: nat)
    requires candidate.Length0 == 9 && candidate.Length1 == 9
    ensures conflicts == BlockConflicts(Snapshot(candidate), 3)
  {
    ghost var g := Snapshot(candidate);
    conflicts := 0;
    for bi := 0 to 3
      invariant conflicts == BlockConflicts(g, bi)
    {
      var band := SumBandConflicts(candidate, bi);
      conflicts := conflicts + band;
    }
  }

  /** The inner block loop of calculateFitness for the band of blocks
      whose top row is 3 * bi. */
  method SumBandConflicts(candidate: array2<int>, bi: int) returns (conflicts: nat)
    requires candidate.Length0 == 9 && candidate.Length1 == 9 && 0 <= bi < 3
    ensures conflicts == BandConflicts(Snapshot(candidate), bi, 3)
  {
    ghost var g := Snapshot(candidate);
    conflicts := 0;
    for bj := 0 to 3
      invariant conflicts == BandConflicts(g, bi, bj)
    {
      var numbers := GetBlock(candidate, 3 * bi, 3 * bj);
      var n := CountConflicts(numbers);
      conflicts := conflicts + n;
    }
  }

  /** calculateFitness: minus the conflicts summed over the rows, the
      columns and the blocks. It is never positive, and it is zero exactly
      when no row, column or block repeats a value. */
  method CalculateFitness(candidate: array2<int>) returns (fitness: int)
    requires candidate.Length0 == 9 && candidate.Length1 == 9
    ensures fitness == -(TotalConflicts(Snapshot(candidate)) as int)
    ensures fitness <= 0
    ensures fitness == 0 <==> UnitsDistinct(Snapshot(candidate))
  {
    var rows := SumRowConflicts(candidate);
    var columns := SumColumnConflicts(candidate);
    var blocks := SumBlockConflicts(candidate);
    TotalConflictsZeroIff(Snapshot(candidate));
    fitness := -((rows + columns + blocks) as int);
  }

  // ---------------------------------------------------------------------
  // The invariant the genetic operators keep: every row holds 1..9 once
  // and every given of the puzzle is in place.

  ghost predicate RowsArePermutations(g: Grid)
  {
    forall r :: 0 <= r < 9 ==> IsDigitPermutation(g[r])
  }

  /** A board whose rows are permutations of 1..9 has no row conflicts, so
      only columns and blocks contribute to its fitness. */
  lemma PermutationRowsHaveNoRowConflicts(g: Grid)
    requires RowsArePermutations(g)
    ensures RowConflicts(g, 9) == 0
    ensures TotalConflicts(g) == ColumnConflicts(g, 9) + BlockConflicts(g, 3)
  {
    forall r | 0 <= r < 9 ensures Distinct(Row(g, r)) {
      DigitPermutationHasNoRepeats(g[r]);
    }
    RowConflictsZeroIff(g, 9);
  }

  // ---------------------------------------------------------------------
  // Cloning and crossover.

  /** cloneBoard: a fresh board with the same contents. */
  method CloneBoard(board: array2<int>) returns (clone: array2<int>)
    requires board.Length0 == 9 && board.Length1 == 9
    ensures fresh(clone) && clone.Length0 == 9 && clone.Length1 == 9
    ensures Snapshot(clone) == Snapshot(board)
  {
    clone := new int[9, 9];
    for i := 0 to 9
      invariant forall r, c :: 0 <= r < i && 0 <= c < 9 ==> clone[r, c] == board[r, c]
    {
      for j := 0 to 9
        invariant forall r, c :: 0 <= r < i && 0 <= c < 9 ==> clone[r, c] == board[r, c]
        invariant forall c :: 0 <= c < j ==> clone[i, c] == board[i, c]
      {
        clone[i, j] := board[i, j];
      }
    }
    SameGrid(Snapshot(clone), Snapshot(board));
  }

  /** The board made of row r of first where takeFirst[r] holds and of row r
      of second elsewhere. */
  function CrossRows(first: Grid, second: Grid, takeFirst: seq<bool>): Grid
    requires |takeFirst| == 9
  {
    seq(9, r requires 0 <= r < 9 => if takeFirst[r] then first[r] else second[r])
  }

  /** crossover: for each row a coin (takeFirst[row]) decides whether the
      first child takes that row from parent1 and the second from parent2,
      or the other way round. The parents are left as they were. */
  method Crossover(parent1: array2<int>, parent2: array2<int>, takeFirst: seq<bool>)
    returns (child1: array2<int>, child2: array2<int>)
    requires parent1.Length0 == 9 && parent1.Length1 == 9
    requires parent2.Length0 == 9 && parent2.Length1 == 9
    requires |takeFirst| == 9
    ensures fresh(child1) && fresh(child2)
    ensures child1.Length0 == 9 && child1.Length1 == 9 && child2.Length0 == 9 && child2.Length1 == 9
    ensures Snapshot(child1) == CrossRows(Snapshot(parent1), Snapshot(parent2), takeFirst)
    ensures Snapshot(child2) == CrossRows(Snapshot(parent2), Snapshot(parent1), takeFirst)
  {
    child1 := new int[9, 9];
    child2 := new int[9, 9];
    for row := 0 to 9
      invariant forall r, c :: 0 <= r < row && 0 <= c < 9 ==>
        child1[r, c] == (if takeFirst[r] then parent1[r, c] else parent2[r, c]) &&
        child2[r, c] == (if takeFirst[r] then parent2[r, c] else parent1[r, c])
    {
      for col := 0 to 9
        invariant forall r, c :: 0 <= r < row && 0 <= c < 9 ==>
          child1[r, c] == (if takeFirst[r] then parent1[r, c] else parent2[r, c]) &&
          child2[r, c] == (if takeFirst[r] then parent2[r, c] else parent1[r, c])
        invariant forall c :: 0 <= c < col ==>
          child1[row, c] == (if takeFirst[row] then parent1[row, c] else parent2[row, c]) &&
          child2[row, c] == (if takeFirst[row] then parent2[row, c] else parent1[row, c])
      {
        if takeFirst[row] {
          child1[row, col] := parent1[row, col];
          child2[row, col] := parent2[row, col];
        } else {
          child1[row, col] := parent2[row, col];
          child2[row, col] := parent1[row, col];
        }
      }
    }
    SameGrid(Snapshot(child1), CrossRows(Snapshot(parent1), Snapshot(parent2), takeFirst));
    SameGrid(Snapshot(child2), CrossRows(Snapshot(parent2), Snapshot(parent1), takeFirst));
  }

  /** Between them, the two children hold each row of each parent: row r of
      the children is row r of the parents, in one order or the other. */
  lemma CrossoverSharesRows(first: Grid, second: Grid, takeFirst: seq<bool>)
    requires |takeFirst| == 9
    ensures forall r :: 0 <= r < 9 ==>
      (CrossRows(first, second, takeFirst)[r], CrossRows(second, first, takeFirst)[r])
      in {(first[r], second[r]), (second[r], first[r])}
    ensures forall r :: 0 <= r < 9 ==>
      multiset(CrossRows(first, second, takeFirst)[r]) + multiset(CrossRows(second, first, takeFirst)[r])
      == multiset(first[r]) + multiset(second[r])
  {
  }

  /** A child of parents whose rows hold 1..9 has rows holding 1..9. */
  lemma CrossoverKeepsPermutationRows(first: Grid, second: Grid, takeFirst: seq<bool>)
    requires |takeFirst| == 9
    requires RowsArePermutations(first) && RowsArePermutations(second)
    ensures RowsArePermutations(CrossRows(first, second, takeFirst))
  {
  }

  /** A child of parents that keep the givens keeps the givens. */
  lemma CrossoverKeepsGivens(puzzle: Grid, first: Grid, second: Grid, takeFirst: seq<bool>)
    requires |takeFirst| == 9
    requires KeepsGivens(puzzle, first) && KeepsGivens(puzzle, second)
    ensures KeepsGivens(puzzle, CrossRows(first, second, takeFirst))
  {
  }

  // ---------------------------------------------------------------------
  // Mutation.

  /** The row holds at least one given (non-zero) value. */
  predicate HasGiven(row: seq<int>)
  {
    exists c :: 0 <= c < |row| && row[c] != 0
  }

  /** s with the entries at i and j exchanged (the swap of two positions). */
  function Swap(s: seq<int>, i: int, j: int): seq<int>
    requires 0 <= i < |s| && 0 <= j < |s|
  {
    s[i := s[j]][j := s[i]]
  }

  lemma SwapIsPermutation(s: seq<int>, i: int, j: int)
    requires 0 <= i < |s| && 0 <= j < |s|
    ensures |Swap(s, i, j)| == |s|
    ensures multiset(Swap(s, i, j)) == multiset(s)
  {
    var t := s[i := s[j]];
    assert multiset(t) == multiset(s) - multiset{s[i]} + multiset{s[j]};
    assert multiset(t[j := s[i]]) == multiset(t) - multiset{t[j]} + multiset{s[i]};
  }

  /** The board after mutation: a row the coin picked (mutateRow[r]) whose
      puzzle row holds no given gets the entries at pos1[r] and pos2[r]
      swapped; every other row stays. */
  function MutatedGrid(g: Grid, puzzle: Grid, mutateRow: seq<bool>, pos1: seq<int>, pos2: seq<int>): Grid
    requires |mutateRow| == 9 && |pos1| == 9 && |pos2| == 9
    requires forall r :: 0 <= r < 9 ==> 0 <= pos1[r] < 9 && 0 <= pos2[r] < 9
  {
    seq(9, r requires 0 <= r < 9 =>
      if mutateRow[r] && !HasGiven(puzzle[r]) then Swap(g[r], pos1[r], pos2[r]) else g[r])
  }

  /** Mutation never touches a row of the puzzle that holds a given, keeps
      every row's values (as a multiset), and so keeps the row invariant. */
  lemma MutationKeepsRowInvariant(g: Grid, puzzle: Grid, mutateRow: seq<bool>, pos1: seq<int>, pos2: seq<int>)
    requires |mutateRow| == 9 && |pos1| == 9 && |pos2| == 9
    requires forall r :: 0 <= r < 9 ==> 0 <= pos1[r] < 9 && 0 <= pos2[r] < 9
    ensures forall r :: 0 <= r < 9 && HasGiven(puzzle[r]) ==> MutatedGrid(g, puzzle, mutateRow, pos1, pos2)[r] == g[r]
    ensures forall r :: 0 <= r < 9 ==> multiset(MutatedGrid(g, puzzle, mutateRow, pos1, pos2)[r]) == multiset(g[r])
    ensures RowsArePermutations(g) ==> RowsArePermutations(MutatedGrid(g, puzzle, mutateRow, pos1, pos2))
    ensures KeepsGivens(puzzle, g) ==> KeepsGivens(puzzle, MutatedGrid(g, puzzle, mutateRow, pos1, pos2))
  {
    var h := MutatedGrid(g, puzzle, mutateRow, pos1, pos2);
    forall r | 0 <= r < 9 ensures multiset(h[r]) == multiset(g[r]) {
      if mutateRow[r] && !HasGiven(puzzle[r]) {
        SwapIsPermutation(g[r], pos1[r], pos2[r]);
      }
    }
    if KeepsGivens(puzzle, g) {
      forall r, c | 0 <= r < 9 && 0 <= c < 9 && puzzle[r][c] != 0 ensures h[r][c] == puzzle[r][c] {
        assert HasGiven(puzzle[r]);
      }
    }
  }

  /** mutate: for each row the coin picked (mutateRow[row]) that has no
      given in the puzzle, swaps the entries at pos1[row] and pos2[row];
      the board becomes MutatedGrid of the old board. */
  method Mutate(candidate: array2<int>, initialBoard: array2<int>, mutateRow: seq<bool>, pos1: seq<int>, pos2: seq<int>)
    requires candidate.Length0 == 9 && candidate.Length1 == 9
    requires initialBoard.Length0 == 9 && initialBoard.Length1 == 9
    requires |mutateRow| == 9 && |pos1| == 9 && |pos2| == 9
    requires forall r :: 0 <= r < 9 ==> 0 <= pos1[r] < 9 && 0 <= pos2[r] < 9
    modifies candidate
    ensures Snapshot(candidate) ==
      MutatedGrid(old(Snapshot(candidate)), old(Snapshot(initialBoard)), mutateRow, pos1, pos2)
  {
    ghost var result := MutatedGrid(Snapshot(candidate), Snapshot(initialBoard), mutateRow, pos1, pos2);
    ghost var puzzle := Snapshot(initialBoard);
    for row := 0 to 9
      invariant forall r, c :: 0 <= r < row && 0 <= c < 9 ==> candidate[r, c] == result[r][c]
      invariant forall r, c :: row <= r < 9 && 0 <= c < 9 ==> candidate[r, c] == old(candidate[r, c])
    {
      if mutateRow[row] {
        var hasFixed := false;
        for col := 0 to 9
          invariant hasFixed <==> exists c :: 0 <= c < col && puzzle[row][c] != 0
        {
          if initialBoard[row, col] != 0 {
            hasFixed := true;
            break;
          }
        }
        assert hasFixed <==> HasGiven(puzzle[row]);
        if !hasFixed {
          var temp := candidate[row, pos1[row]];
          candidate[row, pos1[row]] := candidate[row, pos2[row]];
          candidate[row, pos2[row]] := temp;
        }
      }
    }
    SameGrid(Snapshot(candidate), result);
  }

  // ---------------------------------------------------------------------
  // Candidate generation.

  /** The list operation remove(Object): drops the first occurrence of v,
      if there is one. */
  function RemoveFirst(s: seq<int>, v: int): (r: seq<int>)
    ensures |r| == if v in s then |s| - 1 else |s|
  {
    if s == [] then []
    else if s[0] == v then s[1..] else [s[0]] + RemoveFirst(s[1..], v)
  }

  /** Removing v takes one occurrence of v out of the multiset of values. */
  lemma {:induction false} RemoveFirstMultiset(s: seq<int>, v: int)
    ensures multiset(RemoveFirst(s, v)) == multiset(s) - multiset{v}
  {
    if s != [] {
      assert s == [s[0]] + s[1..];
      if s[0] != v {
        RemoveFirstMultiset(s[1..], v);
      }
    }
  }

  /** Removes the values vs from s one after the other, in order. */
  function RemoveEach(s: seq<int>, vs: seq<int>): (r: seq<int>)
    ensures |s| - |vs| <= |r| <= |s|
  {
    if vs == [] then s else RemoveFirst(RemoveEach(s, vs[..|vs| - 1]), vs[|vs| - 1])
  }

  /** The given (non-zero) values of a puzzle row, left to right. */
  function Givens(row: seq<int>): (gs: seq<int>)
    ensures |gs| + Count(row, 0) == |row|
  {
    if row == [] then []
    else Givens(row[..|row| - 1]) + (if row[|row| - 1] != 0 then [row[|row| - 1]] else [])
  }

  /** The row generateCandidate builds from a puzzle row and the values
      left available: a given stays, and the k-th empty cell (from the
      left) receives available[k]. */
  function FillRow(row: seq<int>, available: seq<int>): (filled: seq<int>)
    requires Count(row, 0) <= |available|
    ensures |filled| == |row|
  {
    if row == [] then []
    else
      var n := |row| - 1;
      FillRow(row[..n], available) + [if row[n] != 0 then row[n] else available[Count(row[..n], 0)]]
  }

  /** The row generated from a puzzle row and a shuffled list: the givens
      are removed from the list and the rest fills the empty cells in order. */
  function GeneratedRow(puzzleRow: seq<int>, shuffled: seq<int>): (row: seq<int>)
    requires |puzzleRow| <= |shuffled|
    ensures |row| == |puzzleRow|
  {
    FillRow(puzzleRow, RemoveEach(shuffled, Givens(puzzleRow)))
  }

  /** The board generateCandidate builds, one shuffled list per row. */
  function GeneratedGrid(puzzle: Grid, shuffled: seq<seq<int>>): Grid
    requires |shuffled| == 9 && forall r :: 0 <= r < 9 ==> |shuffled[r]| == 9
  {
    seq(9, r requires 0 <= r < 9 => GeneratedRow(puzzle[r], shuffled[r]))
  }

  /** The givens of a row are distinct digits. */
  predicate GivensAreDistinctDigits(row: seq<int>)
  {
    Distinct(Givens(row)) && forall i :: 0 <= i < |Givens(row)| ==> 1 <= Givens(row)[i] <= 9
  }

  /** Filling a row never overwrites a given. */
  lemma {:induction false} FillRowKeepsGivens(row: seq<int>, available: seq<int>)
    requires Count(row, 0) <= |available|
    ensures forall c :: 0 <= c < |row| && row[c] != 0 ==> FillRow(row, available)[c] == row[c]
  {
    if row != [] {
      var n := |row| - 1;
      FillRowKeepsGivens(row[..n], available);
    }
  }

  lemma {:induction false} RemoveEachMultiset(s: seq<int>, vs: seq<int>)
    requires multiset(vs) <= multiset(s)
    ensures multiset(RemoveEach(s, vs)) == multiset(s) - multiset(vs)
    ensures |RemoveEach(s, vs)| == |s| - |vs|
  {
    if vs != [] {
      var n := |vs| - 1;
      var init := vs[..n];
      assert vs == init + [vs[n]];
      assert multiset(init) <= multiset(vs);
      RemoveEachMultiset(s, init);
      var rest := RemoveEach(s, init);
      RemoveFirstMultiset(rest, vs[n]);
      assert multiset(rest)[vs[n]] > 0 by {
        assert multiset(vs)[vs[n]] == multiset(init)[vs[n]] + 1;
      }
      assert vs[n] in rest;
    }
  }

  lemma PrefixMultisetStep(s: seq<int>, k: int)
    requires 0 <= k < |s|
    ensures multiset(s[..k + 1]) == multiset(s[..k]) + multiset{s[k]}
  {
    assert s[..k + 1] == s[..k] + [s[k]];
  }

  lemma {:induction false} FillRowMultiset(row: seq<int>, available: seq<int>)
    requires Count(row, 0) <= |available|
    ensures multiset(FillRow(row, available)) == multiset(Givens(row)) + multiset(available[..Count(row, 0)])
  {
    if row != [] {
      var n := |row| - 1;
      var init := row[..n];
      FillRowMultiset(init, available);
      if row[n] == 0 {
        PrefixMultisetStep(available, Count(init, 0));
      }
    }
  }

  /** Distinct digits occur in any permutation of 1..9. */
  lemma GivensWithinDigits(gs: seq<int>, shuffled: seq<int>)
    requires Distinct(gs) && forall i :: 0 <= i < |gs| ==> 1 <= gs[i] <= 9
    requires IsDigitPermutation(shuffled)
    ensures multiset(gs) <= multiset(shuffled)
  {
    forall x ensures multiset(gs)[x] <= multiset(shuffled)[x] {
      DistinctMultiplicity(gs, x);
      DigitSeqMultiplicity(x);
    }
  }

  lemma AddBackRemoved(a: multiset<int>, b: multiset<int>)
    requires b <= a
    ensures b + (a - b) == a
  {
  }

  lemma FullPrefix(s: seq<int>, n: int)
    requires n == |s|
    ensures s[..n] == s
  {
  }

  /** With the shuffled list a permutation of 1..9 and the givens distinct
      digits, a generated row holds each of 1..9 exactly once. */
  lemma GeneratedRowIsPermutation(row: seq<int>, shuffled: seq<int>)
    requires |row| == 9 && IsDigitPermutation(shuffled) && GivensAreDistinctDigits(row)
    requires |shuffled| == 9
    ensures IsDigitPermutation(GeneratedRow(row, shuffled))
  {
    var gs := Givens(row);
    GivensWithinDigits(gs, shuffled);
    RemoveEachMultiset(shuffled, gs);
    var available := RemoveEach(shuffled, gs);
    FillRowMultiset(row, available);
    FullPrefix(available, Count(row, 0));
    AddBackRemoved(multiset(shuffled), multiset(gs));
  }

  lemma GivensStep(row: seq<int>, i: int)
    requires 0 <= i < |row|
    ensures Givens(row[..i + 1]) == Givens(row[..i]) + (if row[i] != 0 then [row[i]] else [])
  {
    assert row[..i + 1][..i] == row[..i];
  }

  lemma RemoveEachStep(s: seq<int>, vs: seq<int>, v: int)
    ensures RemoveEach(s, vs + [v]) == RemoveFirst(RemoveEach(s, vs), v)
  {
    assert (vs + [v])[..|vs|] == vs;
  }

  lemma FillRowStep(row: seq<int>, i: int, available: seq<int>)
    requires 0 <= i < |row| && Count(row[..i + 1], 0) <= |available|
    ensures Count(row[..i + 1], 0) == Count(row[..i], 0) + (if row[i] == 0 then 1 else 0)
    ensures FillRow(row[..i + 1], available) ==
      FillRow(row[..i], available) + [if row[i] != 0 then row[i] else available[Count(row[..i], 0)]]
  {
    CountStep(row, i, 0);
    assert row[..i + 1][..i] == row[..i];
  }

  lemma CopyGivenStep(shuffled: seq<int>, row: seq<int>, i: int)
    requires 0 <= i < |row|
    ensures row[i] != 0 ==> RemoveEach(shuffled, Givens(row[..i + 1])) == RemoveFirst(RemoveEach(shuffled, Givens(row[..i])), row[i])
    ensures row[i] == 0 ==> RemoveEach(shuffled, Givens(row[..i + 1])) == RemoveEach(shuffled, Givens(row[..i]))
  {
    GivensStep(row, i);
    var g0 := Givens(row[..i]);
    var g1 := Givens(row[..i + 1]);
    if row[i] != 0 {
      assert g1 == g0 + [row[i]];
      RemoveEachStep(shuffled, g0, row[i]);
      assert RemoveEach(shuffled, g1) == RemoveEach(shuffled, g0 + [row[i]]);
    } else {
      assert g1 == g0;
    }
  }

  /** Every generated board keeps the givens of the puzzle; where the
      shuffled lists are permutations of 1..9, every row whose givens are
      distinct digits holds each of 1..9 exactly once. */
  lemma GeneratedGridKeepsRowInvariant(puzzle: Grid, shuffled: seq<seq<int>>)
    requires |shuffled| == 9 && forall r :: 0 <= r < 9 ==> |shuffled[r]| == 9
    ensures KeepsGivens(puzzle, GeneratedGrid(puzzle, shuffled))
    ensures (forall r :: 0 <= r < 9 ==> IsDigitPermutation(shuffled[r])) ==>
      forall r :: 0 <= r < 9 && GivensAreDistinctDigits(puzzle[r]) ==>
        IsDigitPermutation(GeneratedGrid(puzzle, shuffled)[r])
  {
    var g := GeneratedGrid(puzzle, shuffled);
    forall r | 0 <= r < 9 ensures forall c :: 0 <= c < 9 && puzzle[r][c] != 0 ==> g[r][c] == puzzle[r][c] {
      FillRowKeepsGivens(puzzle[r], RemoveEach(shuffled[r], Givens(puzzle[r])));
    }
    if forall r :: 0 <= r < 9 ==> IsDigitPermutation(shuffled[r]) {
      forall r | 0 <= r < 9 && GivensAreDistinctDigits(puzzle[r]) ensures IsDigitPermutation(g[r]) {
        GeneratedRowIsPermutation(puzzle[r], shuffled[r]);
      }
    }
  }

  /** The first column loop of generateCandidate: copies the givens of the
      puzzle row into the candidate and removes each from the shuffled
      list; what remains of the list is returned. */
  method CopyGivens(candidate: array2<int>, initialBoard: array2<int>, row: int, shuffled: seq<int>,
                    ghost puzzleRow: seq<int>)
    returns (available: seq<int>)
    requires candidate.Length0 == 9 && candidate.Length1 == 9
    requires initialBoard.Length0 == 9 && initialBoard.Length1 == 9
    requires candidate != initialBoard && 0 <= row < 9
    requires |puzzleRow| == 9 && forall c :: 0 <= c < 9 ==> puzzleRow[c] == initialBoard[row, c]
    requires forall c :: 0 <= c < 9 ==> candidate[row, c] == 0
    modifies candidate
    ensures available == RemoveEach(shuffled, Givens(puzzleRow))
    ensures forall r, c :: 0 <= r < 9 && 0 <= c < 9 ==>
      candidate[r, c] == if r == row then puzzleRow[c] else old(candidate[r, c])
  {
    available := shuffled;
    for col := 0 to 9
      invariant available == RemoveEach(shuffled, Givens(puzzleRow[..col]))
      invariant forall c :: 0 <= c < 9 ==> candidate[row, c] == if c < col then puzzleRow[c] else 0
      invariant forall r, c :: 0 <= r < 9 && 0 <= c < 9 && r != row ==> candidate[r, c] == old(candidate[r, c])
    {
      available := CopyGiven(candidate, initialBoard, row, col, available, shuffled, puzzleRow);
    }
    FullPrefix(puzzleRow, 9);
  }

  /** One pass of the copy loop of generateCandidate: a given at (row, col)
      is copied and taken out of the available values. */
  method CopyGiven(candidate: array2<int>, initialBoard: array2<int>, row: int, col: int, available: seq<int>,
                   ghost shuffled: seq<int>, ghost puzzleRow: seq<int>)
    returns (available': seq<int>)
    requires candidate.Length0 == 9 && candidate.Length1 == 9
    requires initialBoard.Length0 == 9 && initialBoard.Length1 == 9
    requires 0 <= row < 9 && 0 <= col < 9 == |puzzleRow| && puzzleRow[col] == initialBoard[row, col]
    requires available == RemoveEach(shuffled, Givens(puzzleRow[..col]))
    modifies candidate
    ensures available' == RemoveEach(shuffled, Givens(puzzleRow[..col + 1]))
    ensures forall r, c :: 0 <= r < 9 && 0 <= c < 9 ==>
      candidate[r, c] == if r == row && c == col && puzzleRow[col] != 0 then puzzleRow[col] else old(candidate[r, c])
  {
    CopyGivenStep(shuffled, puzzleRow, col);
    available' := available;
    if initialBoard[row, col] != 0 {
      candidate[row, col] := initialBoard[row, col];
      available' := RemoveFirst(available, initialBoard[row, col]);
    }
  }

  /** The second column loop of generateCandidate: every empty cell of the
      row, left to right, takes the next value of the available list. */
  method FillEmptyCells(candidate: array2<int>, row: int, available: seq<int>, ghost puzzleRow: seq<int>)
    requires candidate.Length0 == 9 && candidate.Length1 == 9 && 0 <= row < 9
    requires |puzzleRow| == 9 && Count(puzzleRow, 0) <= |available|
    requires forall c :: 0 <= c < 9 ==> candidate[row, c] == puzzleRow[c]
    modifies candidate
    ensures forall r, c :: 0 <= r < 9 && 0 <= c < 9 ==>
      candidate[r, c] == if r == row then FillRow(puzzleRow, available)[c] else old(candidate[r, c])
  {
    var availableIndex := 0;
    for col := 0 to 9
      invariant availableIndex == Count(puzzleRow[..col], 0) <= Count(puzzleRow, 0)
      invariant forall c :: 0 <= c < 9 ==> candidate[row, c] == if c < col then FillRow(puzzleRow[..col], available)[c] else puzzleRow[c]
      invariant forall r, c :: 0 <= r < 9 && 0 <= c < 9 && r != row ==> candidate[r, c] == old(candidate[r, c])
    {
      CountPrefix(puzzleRow, col + 1, 0);
      FillRowStep(puzzleRow, col, available);
      if candidate[row, col] == 0 {
        candidate[row, col] := available[availableIndex];
        availableIndex := availableIndex + 1;
      }
    }
    assert puzzleRow[..9] == puzzleRow;
  }

  /** One row of generateCandidate: the givens are copied and removed from
      the row's shuffled list, then the empty cells are filled from what
      remains of it. */
  method GenerateRow(candidate: array2<int>, initialBoard: array2<int>, row: int, shuffled: seq<int>)
    requires candidate.Length0 == 9 && candidate.Length1 == 9
    requires initialBoard.Length0 == 9 && initialBoard.Length1 == 9
    requires candidate != initialBoard && 0 <= row < 9 && |shuffled| == 9
    requires forall c :: 0 <= c < 9 ==> candidate[row, c] == 0
    modifies candidate
    ensures forall r, c :: 0 <= r < 9 && 0 <= c < 9 ==>
      candidate[r, c] == if r == row then GeneratedRow(Snapshot(initialBoard)[row], shuffled)[c] else old(candidate[r, c])
  {
    ghost var puzzleRow := Snapshot(initialBoard)[row];
    var available := CopyGivens(candidate, initialBoard, row, shuffled, puzzleRow);
    FillEmptyCells(candidate, row, available, puzzleRow);
  }

  /** generateCandidate: a fresh board whose rows are built one by one from
      the puzzle and the row's shuffled list. */
  method GenerateCandidate(initialBoard: array2<int>, shuffled: seq<seq<int>>) returns (candidate: array2<int>)
    requires initialBoard.Length0 == 9 && initialBoard.Length1 == 9
    requires |shuffled| == 9 && forall r :: 0 <= r < 9 ==> |shuffled[r]| == 9
    ensures fresh(candidate) && candidate.Length0 == 9 && candidate.Length1 == 9
    ensures Snapshot(candidate) == GeneratedGrid(Snapshot(initialBoard), shuffled)
  {
    candidate := new int[9, 9]((_, _) => 0);
    ghost var result := GeneratedGrid(Snapshot(initialBoard), shuffled);
    for row := 0 to 9
      invariant forall r, c :: 0 <= r < 9 && 0 <= c < 9 ==> candidate[r, c] == if r < row then result[r][c] else 0
    {
      GenerateRow(candidate, initialBoard, row, shuffled[row]);
    }
    SameGrid(Snapshot(candidate), result);
  }
}
