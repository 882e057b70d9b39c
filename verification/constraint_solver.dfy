/** The constraint-propagation Sudoku solver: per-cell candidate domains
    built from the givens, AC-3 arc consistency, and depth-first
    backtracking with forward checking. The source keeps the grid and the
    domain store in static fields; here they are the fields of one
    SudokuSolverCP object. */
module ConstraintSolver {
  import opened Counting
  import opened Board

  datatype Option<T> = None | Some(value: T)

  /** A directed constraint from a source cell to a target cell. */
  datatype Arc = Arc(source: Point, target: Point)

  /** Whether value1 at pos1 and value2 at pos2 can coexist: two cells that
      share a row, a column or a box must hold different values. */
  function IsConsistent(value1: int, value2: int, pos1: Point, pos2: Point): (ok: bool)
    requires OnBoard(pos1) && OnBoard(pos2)
    ensures ok <==> !Related(pos1, pos2) || value1 != value2
    ensures Peers(pos1, pos2) ==> (ok <==> value1 != value2)
  {
    if pos1.x == pos2.x || pos1.y == pos2.y then
      value1 != value2
    else
      var subgridRow1, subgridCol1 := pos1.x / 3, pos1.y / 3;
      var subgridRow2, subgridCol2 := pos2.x / 3, pos2.y / 3;
      if subgridRow1 == subgridRow2 && subgridCol1 == subgridCol2 then value1 != value2
      else true
  }

  /** The values of the source domain ds that some value of the target
      domain dt supports across the arc Arc(s, t): what revise keeps. */
  ghost function Supported(ds: set<int>, dt: set<int>, s: Point, t: Point): set<int>
    requires OnBoard(s) && OnBoard(t)
  {
    set x | x in ds && exists y :: y in dt && IsConsistent(x, y, s, t)
  }

  /** Across a neighbour arc, revise keeps x exactly when the target domain
      holds some value other than x, i.e. it drops x iff dt <= {x}. */
  lemma ReviseNeighbourArc(ds: set<int>, dt: set<int>, s: Point, t: Point)
    requires Peers(s, t)
    ensures Supported(ds, dt, s, t) <= ds
    ensures forall x :: x in Supported(ds, dt, s, t) <==> x in ds && !(dt <= {x})
  {
    forall x | x in ds && !(dt <= {x}) ensures x in Supported(ds, dt, s, t) {
      NonEmptyHasMember(dt - {x});
      var y :| y in dt - {x};
      assert IsConsistent(x, y, s, t);
    }
  }

  /** Revising keeps every value that a solution could give the source cell,
      given that the target's domain still admits the solution's value. */
  lemma SupportedKeepsSolutionValue(ds: set<int>, dt: set<int>, s: Point, t: Point, sol: Grid)
    requires Peers(s, t) && Solved(sol)
    requires sol[s.x][s.y] in ds && sol[t.x][t.y] in dt
    ensures sol[s.x][s.y] in Supported(ds, dt, s, t)
  {
    assert sol[s.x][s.y] != sol[t.x][t.y];
    assert IsConsistent(sol[s.x][s.y], sol[t.x][t.y], s, t);
  }

  /** The domain the initializer gives cell p of grid g: the given value
      itself, or for an empty cell every digit that does not occur in its
      row, column or box. */
  ghost function InitialDomain(g: Grid, p: Point): set<int>
    requires OnBoard(p)
  {
    if g[p.x][p.y] != 0 then {g[p.x][p.y]}
    else set v | 1 <= v <= 9 && !InUnits(g, p, v)
  }

  /** A given cell's domain is its value; an empty cell's domain holds
      exactly the digits no neighbour holds; on a grid of 0..9 values all
      domains lie within 1..9. */
  lemma InitialDomainSpec(g: Grid, p: Point)
    requires OnBoard(p)
    ensures g[p.x][p.y] != 0 ==> InitialDomain(g, p) == {g[p.x][p.y]}
    ensures g[p.x][p.y] == 0 ==>
      forall v :: v in InitialDomain(g, p) <==> 1 <= v <= 9 && FreeFor(g, p, v)
    ensures InRange(g) ==> InitialDomain(g, p) <= DIGITS
  {
    if g[p.x][p.y] == 0 {
      forall v | 1 <= v <= 9 ensures InUnits(g, p, v) <==> !FreeFor(g, p, v) {
        if InUnits(g, p, v) {
          var q :| OnBoard(q) && Related(p, q) && g[q.x][q.y] == v;
          assert Peers(p, q);
        }
        if !FreeFor(g, p, v) {
          var q :| Peers(p, q) && g[q.x][q.y] == v;
          assert OnBoard(q) && Related(p, q);
        }
      }
    }
  }

  /** The initial domains never omit a value of a solution that keeps the
      givens: every such solution is admitted by them. */
  lemma InitialDomainAdmitsSolutions(g: Grid, sol: Grid, p: Point)
    requires OnBoard(p) && Solved(sol) && KeepsGivens(g, sol)
    ensures sol[p.x][p.y] in InitialDomain(g, p)
  {
    var v := sol[p.x][p.y];
    if g[p.x][p.y] == 0 {
      InitialDomainSpec(g, p);
      forall q | Peers(p, q) ensures g[q.x][q.y] != v {
        assert sol[q.x][q.y] != v;
      }
    }
  }

  /** getNeighbors: the cells other than (row, col) in its row, its column and
      its 3x3 box, collected row first, then column, then box. */
  method GetNeighbors(row: int, col: int) returns (neighbors: set<Point>)
    requires OnBoard(Point(row, col))
    ensures forall q :: q in neighbors <==> Peers(Point(row, col), q)
    ensures |neighbors| == 20 && Point(row, col) !in neighbors
    ensures forall q :: q in neighbors ==> Peers(q, Point(row, col))
  {
    neighbors := {};
    for i := 0 to 9
      invariant forall q :: q in neighbors <==> q.x == row && 0 <= q.y < i && q.y != col
    {
      if i != col {
        neighbors := neighbors + {Point(row, i)};
      }
    }
    for i := 0 to 9
      invariant forall q :: q in neighbors <==>
        (q.x == row && 0 <= q.y < 9 && q.y != col) || (q.y == col && 0 <= q.x < i && q.x != row)
    {
      if i != row {
        neighbors := neighbors + {Point(i, col)};
      }
    }
    var startRow := BoxStart(row);
    var startCol := BoxStart(col);
    for r := 0 to 3
      invariant forall q :: q in neighbors <==>
        (q.x == row && 0 <= q.y < 9 && q.y != col) || (q.y == col && 0 <= q.x < 9 && q.x != row) ||
        (startRow <= q.x < startRow + r && startCol <= q.y < startCol + 3 && q != Point(row, col))
    {
      for c := 0 to 3
        invariant forall q :: q in neighbors <==>
          (q.x == row && 0 <= q.y < 9 && q.y != col) || (q.y == col && 0 <= q.x < 9 && q.x != row) ||
          (startRow <= q.x < startRow + r && startCol <= q.y < startCol + 3 && q != Point(row, col)) ||
          (q.x == startRow + r && startCol <= q.y < startCol + c && q != Point(row, col))
      {
        if startRow + r != row || startCol + c != col {
          neighbors := neighbors + {Point(startRow + r, startCol + c)};
        }
      }
    }
    forall q ensures q in neighbors <==> Peers(Point(row, col), q) {
      BoxBand(row, q.x);
      BoxBand(col, q.y);
    }
    PeerCount(Point(row, col), neighbors);
  }

  /** p is the first empty cell of g in row-major order: the cell backtrack
      branches on. */
  ghost predicate FirstEmpty(g: Grid, p: Point)
  {
    OnBoard(p) && g[p.x][p.y] == 0 &&
    forall r, c :: 0 <= r < 9 && 0 <= c < 9 && (r < p.x || (r == p.x && c < p.y)) ==> g[r][c] != 0
  }

  /** Arc consistency of a neighbour arc on domain values: every value of
      the source domain dp has a different value in the target domain dq to
      support it, so revising the arc would remove nothing. */
  ghost predicate ArcConsistentDomains(dp: set<int>, dq: set<int>)
  {
    forall x :: x in dp ==> !(dq <= {x})
  }

  /** After revise, the arc it revised is consistent. */
  lemma ReviseMakesArcConsistent(ds: set<int>, dt: set<int>, s: Point, t: Point)
    requires Peers(s, t)
    ensures ArcConsistentDomains(Supported(ds, dt, s, t), dt)
  {
    ReviseNeighbourArc(ds, dt, s, t);
  }

  /** When revise removed a value from the source and left it non-empty,
      the reverse arc (target to source) is consistent: a target value x
      without support would mean the source kept only x, yet the value
      removed from the source had to be x, the target's only value. */
  lemma {:induction false} ReviseKeepsReverseArc(ds: set<int>, dt: set<int>, s: Point, t: Point)
    requires Peers(s, t)
    requires Supported(ds, dt, s, t) != ds && Supported(ds, dt, s, t) != {}
    ensures ArcConsistentDomains(dt, Supported(ds, dt, s, t))
  {
    var kept := Supported(ds, dt, s, t);
    ReviseNeighbourArc(ds, dt, s, t);
    var y :| y in ds && y !in kept;
    assert dt <= {y};
    forall x | x in dt ensures !(kept <= {x}) {
      assert x == y;
      NonEmptyHasMember(kept);
      var z :| z in kept;
      assert !(dt <= {z});
    }
  }

  /** j lies in the box band of i exactly when they have the same quotient by 3. */
  lemma BoxBand(i: int, j: int)
    requires 0 <= i < 9
    ensures BoxStart(i) <= j < BoxStart(i) + 3 <==> 0 <= j < 9 && j / 3 == i / 3
  {
  }

  /** Taking v out of a set and adding back what was taken restores it. */
  lemma RestoreRemoved(d: set<int>, v: int)
    ensures (d - {v}) + d * {v} == d
  {
  }

  /** The solver's state: the grid being solved (the caller's array, updated
      in place) and the candidate domain of every cell. Both start out null,
      as the source's static fields do. */
  class SudokuSolverCP {
    var grid: array2?<int>
    var domains: array2?<set<int>>

    ghost predicate HasGrid()
      reads this
    {
      grid != null && grid.Length0 == 9 && grid.Length1 == 9
    }

    ghost predicate Valid()
      reads this
    {
      HasGrid() && domains != null && domains.Length0 == 9 && domains.Length1 == 9
    }

    /** The current contents of the grid. */
    ghost function GridValue(): Grid
      requires HasGrid()
      reads this, grid
    {
      Snapshot(grid)
    }

    /** Every domain lies within 1..9. */
    ghost predicate DomainsInRange()
      requires Valid()
      reads this, domains
    {
      forall r, c :: 0 <= r < 9 && 0 <= c < 9 ==> domains[r, c] <= DIGITS
    }

    /** Every cell's domain holds the value sol gives that cell. */
    ghost predicate Admits(sol: Grid)
      requires Valid()
      reads this, domains
    {
      forall r, c :: 0 <= r < 9 && 0 <= c < 9 ==> sol[r][c] in domains[r, c]
    }

    /** The domain of every filled cell is exactly its value. */
    ghost predicate AssignedSingleton()
      requires Valid()
      reads this, grid, domains
    {
      forall r, c :: 0 <= r < 9 && 0 <= c < 9 && grid[r, c] != 0 ==> domains[r, c] == {grid[r, c]}
    }

    /** The arc from p to q is consistent in the current domains. */
    ghost predicate ArcConsistent(p: Point, q: Point)
      requires Valid() && OnBoard(p) && OnBoard(q)
      reads this, domains
    {
      ArcConsistentDomains(domains[p.x, p.y], domains[q.x, q.y])
    }

    /** The empty cells of the grid: the backtracking search's termination measure. */
    ghost function EmptyCells(): set<Point>
      requires HasGrid()
      reads this, grid
    {
      set r, c | 0 <= r < 9 && 0 <= c < 9 && grid[r, c] == 0 :: Point(r, c)
    }

    /** Every (row, column, candidate) triple of the domain store; its size is
        the sum of the domain sizes, the first component of AC-3's measure. */
    ghost function Candidates(): set<(int, int, int)>
      requires Valid()
      reads this, domains
    {
      set r, c, v | 0 <= r < 9 && 0 <= c < 9 && v in domains[r, c] :: (r, c, v)
    }

    /** solveSudokuConstraint: on success the caller's grid holds a solution
        that keeps every given; on failure it is exactly as it was passed in. */
    method SolveSudokuConstraint(inputGrid: array2<int>) returns (solved: bool)
      requires inputGrid.Length0 == 9 && inputGrid.Length1 == 9
      requires InRange(Snapshot(inputGrid)) && NoConflict(Snapshot(inputGrid))
      modifies this, inputGrid
      ensures grid == inputGrid && Valid()
      ensures solved ==> Solved(Snapshot(inputGrid))
      ensures solved ==> KeepsGivens(old(Snapshot(inputGrid)), Snapshot(inputGrid))
      ensures !solved ==> Snapshot(inputGrid) == old(Snapshot(inputGrid))
      ensures Complete(old(Snapshot(inputGrid))) ==> solved
    {
      grid := inputGrid;
      InitializeDomains();
      forall r, c | 0 <= r < 9 && 0 <= c < 9 ensures domains[r, c] <= DIGITS {
        InitialDomainSpec(GridValue(), Point(r, c));
      }
      assert AssignedSingleton();
      ghost var g0 := GridValue();
      if Complete(g0) {
        forall r, c | 0 <= r < 9 && 0 <= c < 9 ensures g0[r][c] in domains[r, c] {
          InitialDomainAdmitsSolutions(g0, g0, Point(r, c));
        }
      }
      var consistent := AC3();
      if Complete(g0) {
        assert Admits(g0);
      }
      if !consistent {
        return false;
      }
      assert AssignedSingleton();
      solved := Backtrack();
    }

    /** initializeDomains: a fresh domain store in which every cell holds its
        initial domain; the grid is not touched. */
    method InitializeDomains()
      requires HasGrid()
      modifies this
      ensures grid == old(grid) && Valid() && fresh(domains)
      ensures forall r, c :: 0 <= r < 9 && 0 <= c < 9 ==>
        domains[r, c] == InitialDomain(GridValue(), Point(r, c))
    {
      domains := new set<int>[9, 9];
      for row := 0 to 9
        invariant Valid() && fresh(domains) && grid == old(grid)
        invariant forall r, c :: 0 <= r < row && 0 <= c < 9 ==>
          domains[r, c] == InitialDomain(GridValue(), Point(r, c))
      {
        for col := 0 to 9
          invariant Valid() && fresh(domains) && grid == old(grid)
          invariant forall r, c :: 0 <= r < 9 && 0 <= c < 9 && (r < row || (r == row && c < col)) ==>
            domains[r, c] == InitialDomain(GridValue(), Point(r, c))
        {
          if grid[row, col] == 0 {
            domains[row, col] := InitialCandidates(row, col);
          } else {
            domains[row, col] := {grid[row, col]};
          }
        }
      }
    }

    /** The inner loop of initializeDomains for an empty cell: the digits
        1..9 that isValidInitial accepts, that is, those absent from the
        cell's row, column and box. */
    method InitialCandidates(row: int, col: int) returns (values: set<int>)
      requires HasGrid() && OnBoard(Point(row, col))
      ensures forall v :: v in values <==> 1 <= v <= 9 && !InUnits(GridValue(), Point(row, col), v)
    {
      values := {};
      for num := 1 to 10
        invariant forall v :: v in values <==> 1 <= v < num && !InUnits(GridValue(), Point(row, col), v)
      {
        var valid := IsValidInitial(num, row, col);
        if valid {
          values := values + {num};
        }
      }
    }

    /** isValidInitial: num occurs nowhere in the row, column or box of
        (row, col), that cell included. */
    method IsValidInitial(num: int, row: int, col: int) returns (ok: bool)
      requires HasGrid() && OnBoard(Point(row, col))
      ensures ok <==> !InUnits(GridValue(), Point(row, col), num)
    {
      for i := 0 to 9
        invariant forall j :: 0 <= j < i ==> grid[row, j] != num
      {
        if grid[row, i] == num {
          assert Related(Point(row, col), Point(row, i));
          return false;
        }
      }
      for i := 0 to 9
        invariant forall j :: 0 <= j < i ==> grid[j, col] != num
      {
        if grid[i, col] == num {
          assert Related(Point(row, col), Point(i, col));
          return false;
        }
      }
      var startRow := BoxStart(row);
      var startCol := BoxStart(col);
      for i := 0 to 3
        invariant forall r, c :: startRow <= r < startRow + i && startCol <= c < startCol + 3 ==> grid[r, c] != num
      {
        for j := 0 to 3
          invariant forall r, c :: startRow <= r < startRow + i && startCol <= c < startCol + 3 ==> grid[r, c] != num
          invariant forall r, c :: r == startRow + i && startCol <= c < startCol + j ==> grid[r, c] != num
        {
          if grid[i + startRow, j + startCol] == num {
            BoxBand(row, i + startRow);
            BoxBand(col, j + startCol);
            assert Related(Point(row, col), Point(i + startRow, j + startCol));
            return false;
          }
        }
      }
      forall q | OnBoard(q) && Related(Point(row, col), q) ensures GridValue()[q.x][q.y] != num {
        BoxBand(row, q.x);
        BoxBand(col, q.y);
      }
      return true;
    }

    /** isValid: no neighbour of (row, col) holds num in the current grid. */
    method IsValid(num: int, row: int, col: int) returns (ok: bool)
      requires HasGrid() && OnBoard(Point(row, col))
      ensures ok <==> FreeFor(GridValue(), Point(row, col), num)
    {
      for i := 0 to 9
        invariant forall j :: 0 <= j < i ==> (j == col || grid[row, j] != num) && (j == row || grid[j, col] != num)
      {
        if (i != col && grid[row, i] == num) || (i != row && grid[i, col] == num) {
          if i != col && grid[row, i] == num {
            assert Peers(Point(row, col), Point(row, i));
          } else {
            assert Peers(Point(row, col), Point(i, col));
          }
          return false;
        }
      }
      var startRow := BoxStart(row);
      var startCol := BoxStart(col);
      for i := 0 to 3
        invariant forall r, c :: startRow <= r < startRow + i && startCol <= c < startCol + 3 ==>
          Point(r, c) == Point(row, col) || grid[r, c] != num
      {
        for j := 0 to 3
          invariant forall r, c :: startRow <= r < startRow + i && startCol <= c < startCol + 3 ==>
            Point(r, c) == Point(row, col) || grid[r, c] != num
          invariant forall r, c :: r == startRow + i && startCol <= c < startCol + j ==>
            Point(r, c) == Point(row, col) || grid[r, c] != num
        {
          if (startRow + i != row || startCol + j != col) && grid[i + startRow, j + startCol] == num {
            BoxBand(row, i + startRow);
            BoxBand(col, j + startCol);
            assert Peers(Point(row, col), Point(i + startRow, j + startCol));
            return false;
          }
        }
      }
      forall q | Peers(Point(row, col), q) ensures GridValue()[q.x][q.y] != num {
        BoxBand(row, q.x);
        BoxBand(col, q.y);
      }
      return true;
    }

    /** findEmptyCell: the first empty cell in row-major order, or None when
        the grid is complete. */
    method FindEmptyCell() returns (cell: Option<Point>)
      requires HasGrid()
      ensures cell.None? ==> Complete(GridValue())
      ensures cell.Some? ==> OnBoard(cell.value) && grid[cell.value.x, cell.value.y] == 0
      ensures cell.Some? ==> forall r, c ::
        0 <= r < 9 && 0 <= c < 9 && (r < cell.value.x || (r == cell.value.x && c < cell.value.y)) ==>
        grid[r, c] != 0
    {
      for row := 0 to 9
        invariant forall r, c :: 0 <= r < row && 0 <= c < 9 ==> grid[r, c] != 0
      {
        for col := 0 to 9
          invariant forall r, c :: 0 <= c < 9 && (0 <= r < row || (r == row && c < col)) ==> grid[r, c] != 0
        {
          if grid[row, col] == 0 {
            return Some(Point(row, col));
          }
        }
      }
      return None;
    }

    /** revise: the source cell's domain keeps exactly its supported values;
        no other domain changes; the result says whether a value was removed. */
    method Revise(arc: Arc) returns (revised: bool)
      requires Valid() && OnBoard(arc.source) && OnBoard(arc.target)
      modifies domains
      ensures domains[arc.source.x, arc.source.y] ==
        Supported(old(domains[arc.source.x, arc.source.y]), old(domains[arc.target.x, arc.target.y]), arc.source, arc.target)
      ensures forall r, c :: 0 <= r < 9 && 0 <= c < 9 && (r != arc.source.x || c != arc.source.y) ==>
        domains[r, c] == old(domains[r, c])
      ensures domains[arc.source.x, arc.source.y] <= old(domains[arc.source.x, arc.source.y])
      ensures revised <==> domains[arc.source.x, arc.source.y] != old(domains[arc.source.x, arc.source.y])
      ensures revised ==> Candidates() < old(Candidates())
      ensures !revised ==> Candidates() == old(Candidates())
      ensures Peers(arc.source, arc.target) ==> forall sol :: Solved(sol) && old(Admits(sol)) ==> Admits(sol)
    {
      var source, target := arc.source, arc.target;
      var ds := domains[source.x, source.y];
      var dt := domains[target.x, target.y];
      revised := false;
      var toRemove: set<int> := {};
      var rest := ds;
      while rest != {}
        invariant unchanged(domains)
        invariant rest <= ds
        invariant toRemove == (ds - rest) - Supported(ds, dt, source, target)
        invariant revised <==> toRemove != {}
        decreases rest
      {
        NonEmptyHasMember(rest);
        var x :| x in rest;
        rest := rest - {x};
        var hasValidValue := false;
        var ys := dt;
        while ys != {}
          invariant unchanged(domains)
          invariant ys <= dt && !hasValidValue
          invariant forall y :: y in dt - ys ==> !IsConsistent(x, y, source, target)
          decreases ys
        {
          NonEmptyHasMember(ys);
          var y :| y in ys;
          if IsConsistent(x, y, source, target) {
            hasValidValue := true;
            assert x in Supported(ds, dt, source, target);
            break;
          }
          ys := ys - {y};
        }
        if !hasValidValue {
          assert x !in Supported(ds, dt, source, target);
          toRemove := toRemove + {x};
          revised := true;
        }
      }
      domains[source.x, source.y] := domains[source.x, source.y] - toRemove;
      if revised {
        NonEmptyHasMember(toRemove);
        var x :| x in toRemove;
        assert (source.x, source.y, x) in old(Candidates()) - Candidates();
      }
      if Peers(source, target) {
        forall sol | Solved(sol) && old(Admits(sol)) ensures Admits(sol) {
          SupportedKeepsSolutionValue(ds, dt, source, target, sol);
        }
      }
    }

    /** ac3: propagates arc consistency over the domains, never touching the
        grid. Domains only shrink, no solution the domains admitted is lost,
        and the result is false exactly when some domain was emptied. On
        true every arc out of an empty cell is consistent. */
    method AC3() returns (ok: bool)
      requires Valid()
      modifies domains
      ensures forall r, c :: 0 <= r < 9 && 0 <= c < 9 ==> domains[r, c] <= old(domains[r, c])
      ensures ok <==> forall r, c :: 0 <= r < 9 && 0 <= c < 9 && domains[r, c] == {} ==> old(domains[r, c]) == {}
      ensures forall sol :: Solved(sol) && old(Admits(sol)) ==> Admits(sol)
      ensures ok ==> forall p, q :: Peers(p, q) && grid[p.x, p.y] == 0 ==> ArcConsistent(p, q)
    {
      var queue := InitialArcs();
      while queue != []
        invariant forall i :: 0 <= i < |queue| ==> Peers(queue[i].source, queue[i].target)
        invariant forall r, c :: 0 <= r < 9 && 0 <= c < 9 ==> domains[r, c] <= old(domains[r, c])
        invariant forall r, c :: 0 <= r < 9 && 0 <= c < 9 && domains[r, c] == {} ==> old(domains[r, c]) == {}
        invariant forall sol :: Solved(sol) && old(Admits(sol)) ==> Admits(sol)
        invariant ConsistentOutside(queue)
        decreases Candidates(), |queue|
      {
        var emptied;
        queue, emptied := ProcessArc(queue);
        if emptied {
          return false;
        }
      }
      return true;
    }

    /** Every arc out of an empty cell that is not waiting in queue is
        consistent: the invariant of ac3's loop. */
    ghost predicate ConsistentOutside(queue: seq<Arc>)
      requires Valid()
      reads this, grid, domains
    {
      forall p, q :: Peers(p, q) && grid[p.x, p.y] == 0 && Arc(p, q) !in queue ==> ArcConsistent(p, q)
    }

    /** One pass of ac3's loop: the arc at the head of the queue is revised;
        if that emptied the source's domain the result says so, and otherwise,
        when a value was removed, the arcs into the source are queued again.
        Either the candidates shrink or the queue does. */
    method ProcessArc(queue: seq<Arc>) returns (queue': seq<Arc>, emptied: bool)
      requires Valid() && queue != []
      requires forall i :: 0 <= i < |queue| ==> Peers(queue[i].source, queue[i].target)
      modifies domains
      ensures forall r, c :: 0 <= r < 9 && 0 <= c < 9 ==> domains[r, c] <= old(domains[r, c])
      ensures forall sol :: Solved(sol) && old(Admits(sol)) ==> Admits(sol)
      ensures emptied ==> exists r, c :: 0 <= r < 9 && 0 <= c < 9 && domains[r, c] == {} && old(domains[r, c]) != {}
      ensures !emptied ==> forall r, c :: 0 <= r < 9 && 0 <= c < 9 && domains[r, c] == {} ==> old(domains[r, c]) == {}
      ensures !emptied ==> forall i :: 0 <= i < |queue'| ==> Peers(queue'[i].source, queue'[i].target)
      ensures !emptied ==> Candidates() < old(Candidates()) || (Candidates() == old(Candidates()) && |queue'| < |queue|)
      ensures !emptied && old(ConsistentOutside(queue)) ==> ConsistentOutside(queue')
    {
      var arc := queue[0];
      queue' := queue[1..];
      var source, target := arc.source, arc.target;
      ghost var ds, dt := domains[source.x, source.y], domains[target.x, target.y];
      var revised := Revise(arc);
      emptied := false;
      if revised {
        if domains[source.x, source.y] == {} {
          return queue', true;
        }
        queue' := RequeueArcs(queue', source, target);
      }
      if old(ConsistentOutside(queue)) {
        forall p, q | Peers(p, q) && grid[p.x, p.y] == 0 && Arc(p, q) !in queue' ensures ArcConsistent(p, q) {
          assert Arc(p, q) !in queue[1..];
          if p == source && q == target {
            ReviseMakesArcConsistent(ds, dt, source, target);
          } else if revised && q == source && p == target {
            ReviseKeepsReverseArc(ds, dt, source, target);
          } else if revised && q == source {
            assert false;
          } else {
            assert Arc(p, q) != queue[0];
            assert old(ArcConsistent(p, q));
          }
        }
      }
    }

    /** The queue ac3 starts from: an arc from every empty cell to each of
        its neighbours, and nothing else. */
    method InitialArcs() returns (queue: seq<Arc>)
      requires HasGrid()
      ensures forall i :: 0 <= i < |queue| ==>
        Peers(queue[i].source, queue[i].target) && grid[queue[i].source.x, queue[i].source.y] == 0
      ensures forall p, q {:trigger Peers(p, q)} :: Peers(p, q) && grid[p.x, p.y] == 0 ==> Arc(p, q) in queue
    {
      queue := [];
      for row := 0 to 9
        invariant forall i :: 0 <= i < |queue| ==>
          Peers(queue[i].source, queue[i].target) && grid[queue[i].source.x, queue[i].source.y] == 0
        invariant forall p, q {:trigger Peers(p, q)} :: Peers(p, q) && p.x < row && grid[p.x, p.y] == 0 ==>
          Arc(p, q) in queue
      {
        for col := 0 to 9
          invariant forall i :: 0 <= i < |queue| ==>
            Peers(queue[i].source, queue[i].target) && grid[queue[i].source.x, queue[i].source.y] == 0
          invariant forall p, q {:trigger Peers(p, q)} ::
            Peers(p, q) && (p.x < row || (p.x == row && p.y < col)) && grid[p.x, p.y] == 0 ==> Arc(p, q) in queue
        {
          if grid[row, col] == 0 {
            var neighbors := GetNeighbors(row, col);
            var todo := neighbors;
            while todo != {}
              invariant todo <= neighbors
              invariant forall i :: 0 <= i < |queue| ==>
                Peers(queue[i].source, queue[i].target) && grid[queue[i].source.x, queue[i].source.y] == 0
              invariant forall p, q {:trigger Peers(p, q)} ::
                Peers(p, q) && (p.x < row || (p.x == row && p.y < col)) && grid[p.x, p.y] == 0 ==> Arc(p, q) in queue
              invariant forall q {:trigger q in neighbors} :: q in neighbors - todo ==> Arc(Point(row, col), q) in queue
              decreases todo
            {
              var neighbor :| neighbor in todo;
              todo := todo - {neighbor};
              queue := queue + [Arc(Point(row, col), neighbor)];
            }
          }
        }
      }
    }

    /** The arcs ac3 queues again after revising arc (source, target): one
        from every neighbour of source except target, back to source. */
    method RequeueArcs(queue: seq<Arc>, source: Point, target: Point) returns (queue': seq<Arc>)
      requires OnBoard(source)
      ensures |queue| <= |queue'| && queue'[..|queue|] == queue
      ensures forall i :: |queue| <= i < |queue'| ==>
        queue'[i].target == source && queue'[i].source != target && Peers(queue'[i].source, source)
      ensures forall q {:trigger Peers(q, source)} :: Peers(q, source) && q != target ==> Arc(q, source) in queue'[|queue|..]
    {
      var neighbors := GetNeighbors(source.x, source.y);
      var todo := neighbors;
      var added: seq<Arc> := [];
      while todo != {}
        invariant todo <= neighbors
        invariant forall i :: 0 <= i < |added| ==>
          added[i].target == source && added[i].source != target && Peers(added[i].source, source)
        invariant forall q {:trigger q in neighbors} :: q in neighbors - todo && q != target ==> Arc(q, source) in added
        decreases todo
      {
        var neighbor :| neighbor in todo;
        todo := todo - {neighbor};
        if neighbor != target {
          added := added + [Arc(neighbor, source)];
        }
      }
      forall q | Peers(q, source) && q != target ensures Arc(q, source) in added {
        assert q in neighbors;
      }
      queue' := queue + added;
      assert queue'[|queue|..] == added;
    }

    /** forwardCheck: removes the value just placed at (row, col) from the
        domain of every empty neighbour. If that leaves some such domain
        empty, every removal is undone and the result is false. */
    method ForwardCheck(row: int, col: int) returns (ok: bool)
      requires Valid() && OnBoard(Point(row, col))
      modifies domains
      ensures !ok ==> forall r, c :: 0 <= r < 9 && 0 <= c < 9 ==> domains[r, c] == old(domains[r, c])
      ensures !ok ==> exists r, c ::
        Peers(Point(row, col), Point(r, c)) && grid[r, c] == 0 && old(domains[r, c]) - {grid[row, col]} == {}
      ensures ok ==> forall r, c :: 0 <= r < 9 && 0 <= c < 9 ==>
        domains[r, c] == if Peers(Point(row, col), Point(r, c)) && grid[r, c] == 0
                         then old(domains[r, c]) - {grid[row, col]} else old(domains[r, c])
      ensures ok ==> forall r, c :: Peers(Point(row, col), Point(r, c)) && grid[r, c] == 0 ==> domains[r, c] != {}
      ensures old(AssignedSingleton()) ==> AssignedSingleton()
    {
      var neighbors := GetNeighbors(row, col);
      ok := PruneNeighbours(neighbors, grid[row, col]);
    }

    /** The loop of forwardCheck: v leaves the domain of each empty cell of
        neighbors in turn; as soon as such a domain is empty, the removals
        made so far are undone and the result is false. */
    method PruneNeighbours(neighbors: set<Point>, v: int) returns (ok: bool)
      requires Valid() && forall q {:trigger q in neighbors} :: q in neighbors ==> OnBoard(q)
      modifies domains
      ensures !ok ==> forall r, c :: 0 <= r < 9 && 0 <= c < 9 ==> domains[r, c] == old(domains[r, c])
      ensures !ok ==> exists r, c ::
        0 <= r < 9 && 0 <= c < 9 && Point(r, c) in neighbors && grid[r, c] == 0 && old(domains[r, c]) - {v} == {}
      ensures ok ==> forall r, c :: 0 <= r < 9 && 0 <= c < 9 ==>
        domains[r, c] == if Point(r, c) in neighbors && grid[r, c] == 0 then old(domains[r, c]) - {v} else old(domains[r, c])
      ensures ok ==> forall r, c :: 0 <= r < 9 && 0 <= c < 9 && Point(r, c) in neighbors && grid[r, c] == 0 ==>
        domains[r, c] != {}
    {
      var removedValues: map<Point, set<int>> := map[];
      var todo := neighbors;
      while todo != {}
        invariant todo <= neighbors
        invariant forall r, c :: Point(r, c) in removedValues <==> Point(r, c) in neighbors - todo && grid[r, c] == 0
        invariant forall r, c :: 0 <= r < 9 && 0 <= c < 9 && Point(r, c) !in removedValues ==>
          domains[r, c] == old(domains[r, c])
        invariant forall r, c :: Point(r, c) in removedValues ==>
          removedValues[Point(r, c)] == old(domains[r, c]) * {v} && domains[r, c] == old(domains[r, c]) - {v} &&
          domains[r, c] != {}
        decreases todo
      {
        var neighbor :| neighbor in todo;
        todo := todo - {neighbor};
        if grid[neighbor.x, neighbor.y] == 0 {
          if neighbor !in removedValues {
            removedValues := removedValues[neighbor := {}];
          }
          if v in domains[neighbor.x, neighbor.y] {
            removedValues := removedValues[neighbor := removedValues[neighbor] + {v}];
            domains[neighbor.x, neighbor.y] := domains[neighbor.x, neighbor.y] - {v};
          }
          if domains[neighbor.x, neighbor.y] == {} {
            assert old(domains[neighbor.x, neighbor.y]) - {v} == {};
            UndoRemovals(removedValues);
            forall r, c | Point(r, c) in removedValues ensures domains[r, c] == old(domains[r, c]) {
              RestoreRemoved(old(domains[r, c]), v);
            }
            return false;
          }
        }
      }
      return true;
    }

    /** The restore step of forwardCheck: every value recorded as removed
        from a cell is added back to that cell's domain. */
    method UndoRemovals(removedValues: map<Point, set<int>>)
      requires Valid() && forall q {:trigger q in removedValues} :: q in removedValues ==> OnBoard(q)
      modifies domains
      ensures forall r, c :: 0 <= r < 9 && 0 <= c < 9 ==>
        domains[r, c] == if Point(r, c) in removedValues then old(domains[r, c]) + removedValues[Point(r, c)]
                         else old(domains[r, c])
    {
      var keys := removedValues.Keys;
      while keys != {}
        invariant keys <= removedValues.Keys
        invariant forall r, c :: 0 <= r < 9 && 0 <= c < 9 ==>
          domains[r, c] == if Point(r, c) in removedValues - keys then old(domains[r, c]) + removedValues[Point(r, c)]
                           else old(domains[r, c])
        decreases keys
      {
        var p :| p in keys;
        keys := keys - {p};
        domains[p.x, p.y] := domains[p.x, p.y] + removedValues[p];
      }
    }

    /** backtrack: depth-first search over the domain values of the first
        empty cell (in no particular order, as the source iterates a hash
        set). Success leaves a complete, conflict-free grid that keeps every
        value present on entry; failure leaves the grid as it was on entry,
        while the domains may have lost values: forward-check prunes made
        under a placement that later failed are not undone. */
    method Backtrack() returns (ok: bool)
      requires Valid() && InRange(GridValue()) && NoConflict(GridValue()) && DomainsInRange()
      requires AssignedSingleton()
      modifies grid, domains
      decreases EmptyCells(), 1
      ensures Valid() && InRange(GridValue()) && NoConflict(GridValue()) && DomainsInRange()
      ensures AssignedSingleton()
      ensures Complete(old(GridValue())) ==> ok
      ensures ok ==> Complete(GridValue()) && KeepsGivens(old(GridValue()), GridValue())
      ensures !ok ==> GridValue() == old(GridValue())
      ensures !ok ==> forall r, c :: 0 <= r < 9 && 0 <= c < 9 ==> domains[r, c] <= old(domains[r, c])
      ensures !ok ==> forall p :: FirstEmpty(GridValue(), p) ==> domains[p.x, p.y] == old(domains[p.x, p.y])
    {
      var emptyCell := FindEmptyCell();
      if emptyCell.None? {
        return true;
      }
      var row, col := emptyCell.value.x, emptyCell.value.y;
      var candidates := domains[row, col];
      while candidates != {}
        invariant candidates <= DIGITS
        invariant Valid() && GridValue() == old(GridValue()) && DomainsInRange() && AssignedSingleton()
        invariant forall r, c :: 0 <= r < 9 && 0 <= c < 9 ==> domains[r, c] <= old(domains[r, c])
        invariant domains[row, col] == old(domains[row, col])
        decreases candidates
      {
        NonEmptyHasMember(candidates);
        var num :| num in candidates;
        candidates := candidates - {num};
        var valid := IsValid(num, row, col);
        if valid {
          var solved := TryValue(row, col, num);
          if solved {
            return true;
          }
        }
      }
      forall p | FirstEmpty(GridValue(), p) ensures p == Point(row, col) {
        assert GridValue()[row][col] == 0;
      }
      return false;
    }

    /** One step of backtrack's loop, for a value num that no neighbour of
        the empty cell (row, col) holds: place it, narrow the cell's domain to
        it, forward check and recurse; on failure clear the cell and give it
        back its domain. */
    method TryValue(row: int, col: int, num: int) returns (solved: bool)
      requires Valid() && InRange(GridValue()) && NoConflict(GridValue()) && DomainsInRange()
      requires OnBoard(Point(row, col)) && grid[row, col] == 0 && 1 <= num <= 9
      requires FreeFor(GridValue(), Point(row, col), num) && AssignedSingleton()
      modifies grid, domains
      decreases EmptyCells(), 0
      ensures Valid() && InRange(GridValue()) && NoConflict(GridValue()) && DomainsInRange()
      ensures AssignedSingleton()
      ensures solved ==> Complete(GridValue()) && KeepsGivens(old(GridValue()), GridValue())
      ensures !solved ==> GridValue() == old(GridValue())
      ensures !solved ==> forall r, c :: 0 <= r < 9 && 0 <= c < 9 ==> domains[r, c] <= old(domains[r, c])
      ensures !solved ==> domains[row, col] == old(domains[row, col])
    {
      ghost var entry := GridValue();
      var oldDomain := Place(row, col, num);
      ghost var placed := GridValue();
      var consistent := ForwardCheck(row, col);
      if consistent {
        solved := Backtrack();
        if solved {
          KeepsGivensTransitive(entry, placed, GridValue());
          return true;
        }
      }
      Unplace(row, col, oldDomain, entry, num);
      return false;
    }

    /** The placement step of backtrack: num goes into the empty cell and the
        cell's domain becomes {num}; the old domain is handed back. A value
        no neighbour holds keeps the grid conflict-free. */
    method Place(row: int, col: int, num: int) returns (oldDomain: set<int>)
      requires Valid() && InRange(GridValue()) && NoConflict(GridValue()) && DomainsInRange()
      requires OnBoard(Point(row, col)) && grid[row, col] == 0 && 1 <= num <= 9
      requires FreeFor(GridValue(), Point(row, col), num) && AssignedSingleton()
      modifies grid, domains
      ensures Valid() && InRange(GridValue()) && NoConflict(GridValue()) && DomainsInRange() && AssignedSingleton()
      ensures GridValue() == Assign(old(GridValue()), Point(row, col), num)
      ensures KeepsGivens(old(GridValue()), GridValue())
      ensures EmptyCells() < old(EmptyCells())
      ensures oldDomain == old(domains[row, col]) && domains[row, col] == {num}
      ensures forall r, c :: 0 <= r < 9 && 0 <= c < 9 && (r != row || c != col) ==> domains[r, c] == old(domains[r, c])
    {
      AssignKeepsNoConflict(GridValue(), Point(row, col), num);
      grid[row, col] := num;
      SameGrid(GridValue(), Assign(old(GridValue()), Point(row, col), num));
      assert Point(row, col) in old(EmptyCells()) - EmptyCells();
      oldDomain := domains[row, col];
      domains[row, col] := {num};
    }

    /** The undo step of backtrack: the cell is cleared and gets back the
        domain it had before the placement, so the grid is the one placed
        into. */
    method Unplace(row: int, col: int, oldDomain: set<int>, ghost entry: Grid, ghost num: int)
      requires Valid() && OnBoard(Point(row, col)) && entry[row][col] == 0
      requires GridValue() == Assign(entry, Point(row, col), num) && AssignedSingleton()
      modifies grid, domains
      ensures Valid() && GridValue() == entry && AssignedSingleton()
      ensures domains[row, col] == oldDomain
      ensures forall r, c :: 0 <= r < 9 && 0 <= c < 9 && (r != row || c != col) ==> domains[r, c] == old(domains[r, c])
    {
      grid[row, col] := 0;
      AssignUndo(entry, Point(row, col), num);
      SameGrid(GridValue(), Assign(old(GridValue()), Point(row, col), 0));
      domains[row, col] := oldDomain;
    }
  }
}
