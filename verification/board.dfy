/** Board geometry shared by both solvers: cells, the peer relation of the
    constraint graph, 9x9 grids as values, and the units (rows, columns,
    3x3 blocks) of a grid. The board is SIZE = 9 cells wide with
    SUBGRID_SIZE = 3 boxes; both constants are written as literals. */
module Board {
  import opened Counting

  /** A cell of the board, as the source's Point: x is the row, y the column. */
  datatype Point = Point(x: int, y: int)

  predicate OnBoard(p: Point)
  {
    0 <= p.x < 9 && 0 <= p.y < 9
  }

  /** The first row (or column) of the 3x3 box band that holds index i. */
  function BoxStart(i: int): int
  {
    i - i % 3
  }

  predicate SameBox(p: Point, q: Point)
  {
    p.x / 3 == q.x / 3 && p.y / 3 == q.y / 3
  }

  /** p and q share a row, a column or a box (p == q included). */
  predicate Related(p: Point, q: Point)
  {
    p.x == q.x || p.y == q.y || SameBox(p, q)
  }

  /** The implicit constraint graph: two distinct cells of the board are
      neighbours when they share a row, a column or a box. */
  predicate Peers(p: Point, q: Point)
  {
    OnBoard(p) && OnBoard(q) && p != q && Related(p, q)
  }

  // ---------------------------------------------------------------------
  // The neighbour set of a cell has 20 cells.

  function RowPeers(p: Point): set<Point>
  {
    set c | 0 <= c < 9 && c != p.y :: Point(p.x, c)
  }

  function ColumnPeers(p: Point): set<Point>
  {
    set r | 0 <= r < 9 && r != p.x :: Point(r, p.y)
  }

  /** The two indices of i's box band other than i. */
  function OtherTwo(i: int): (int, int)
  {
    var b := BoxStart(i);
    if i == b then (b + 1, b + 2) else if i == b + 1 then (b, b + 2) else (b, b + 1)
  }

  /** The four cells of p's box that share neither its row nor its column. */
  function BoxOthers(p: Point): set<Point>
  {
    var (r1, r2) := OtherTwo(p.x);
    var (c1, c2) := OtherTwo(p.y);
    {Point(r1, c1), Point(r1, c2), Point(r2, c1), Point(r2, c2)}
  }

  lemma {:induction false} RowSegmentSize(r: int, k: int, n: nat)
    ensures |set c | 0 <= c < n && c != k :: Point(r, c)| == if 0 <= k < n then n - 1 else n
  {
    if n > 0 {
      RowSegmentSize(r, k, n - 1);
      var prev := set c | 0 <= c < n - 1 && c != k :: Point(r, c);
      var cur := set c | 0 <= c < n && c != k :: Point(r, c);
      if n - 1 == k {
        assert cur == prev;
      } else {
        assert cur == prev + {Point(r, n - 1)};
        assert Point(r, n - 1) !in prev;
      }
    }
  }

  lemma {:induction false} ColumnSegmentSize(c: int, k: int, n: nat)
    ensures |set r | 0 <= r < n && r != k :: Point(r, c)| == if 0 <= k < n then n - 1 else n
  {
    if n > 0 {
      ColumnSegmentSize(c, k, n - 1);
      var prev := set r | 0 <= r < n - 1 && r != k :: Point(r, c);
      var cur := set r | 0 <= r < n && r != k :: Point(r, c);
      if n - 1 == k {
        assert cur == prev;
      } else {
        assert cur == prev + {Point(n - 1, c)};
        assert Point(n - 1, c) !in prev;
      }
    }
  }

  lemma OtherTwoSpec(i: int)
    requires 0 <= i < 9
    ensures OtherTwo(i).0 != OtherTwo(i).1
    ensures forall j :: 0 <= j < 9 ==>
      (j / 3 == i / 3 && j != i <==> j == OtherTwo(i).0 || j == OtherTwo(i).1)
  {
  }

  /** The neighbours of p split into its row, its column and the rest of its box. */
  lemma PeersSplit(p: Point, q: Point)
    requires OnBoard(p)
    ensures Peers(p, q) <==> q in RowPeers(p) || q in ColumnPeers(p) || q in BoxOthers(p)
  {
    OtherTwoSpec(p.x);
    OtherTwoSpec(p.y);
    if q.x == p.x && 0 <= q.y < 9 && q.y != p.y {
      assert q == Point(p.x, q.y);
      assert q in RowPeers(p);
    }
    if q.y == p.y && 0 <= q.x < 9 && q.x != p.x {
      assert q == Point(q.x, p.y);
      assert q in ColumnPeers(p);
    }
  }

  lemma PeerPartsSizes(p: Point)
    requires OnBoard(p)
    ensures |RowPeers(p)| == 8 && |ColumnPeers(p)| == 8 && |BoxOthers(p)| == 4
    ensures RowPeers(p) !! ColumnPeers(p)
    ensures (RowPeers(p) + ColumnPeers(p)) !! BoxOthers(p)
  {
    OtherTwoSpec(p.x);
    OtherTwoSpec(p.y);
    RowSegmentSize(p.x, p.y, 9);
    ColumnSegmentSize(p.y, p.x, 9);
  }

  /** Any set holding exactly the neighbours of p has 20 cells, leaves p out,
      and every one of its cells has p as a neighbour in turn. */
  lemma PeerCount(p: Point, s: set<Point>)
    requires OnBoard(p)
    requires forall q :: q in s <==> Peers(p, q)
    ensures |s| == 20
    ensures p !in s
    ensures forall q :: q in s ==> Peers(q, p)
  {
    var rows, cols, box := RowPeers(p), ColumnPeers(p), BoxOthers(p);
    forall q ensures q in s <==> q in rows + cols + box {
      PeersSplit(p, q);
    }
    assert s == rows + cols + box;
    PeerPartsSizes(p);
    assert |rows + cols| == 16;
  }

  // ---------------------------------------------------------------------
  // Grids as values.

  /** A 9x9 grid of cell values; 0 stands for an empty cell. */
  type Grid = g: seq<seq<int>> | |g| == 9 && forall r :: 0 <= r < 9 ==> |g[r]| == 9
    witness seq(9, _ => seq(9, _ => 0))

  predicate InRange(g: Grid)
  {
    forall r, c :: 0 <= r < 9 && 0 <= c < 9 ==> 0 <= g[r][c] <= 9
  }

  predicate Complete(g: Grid)
  {
    forall r, c :: 0 <= r < 9 && 0 <= c < 9 ==> g[r][c] != 0
  }

  /** No two neighbouring cells hold the same non-zero value. */
  ghost predicate NoConflict(g: Grid)
  {
    forall p, q {:trigger Peers(p, q)} :: Peers(p, q) && g[p.x][p.y] != 0 ==> g[p.x][p.y] != g[q.x][q.y]
  }

  /** A complete, conflict-free grid of digits 1..9. */
  ghost predicate Solved(g: Grid)
  {
    InRange(g) && Complete(g) && NoConflict(g)
  }

  /** Every non-zero cell of before still holds its value in after. */
  predicate KeepsGivens(before: Grid, after: Grid)
  {
    forall r, c :: 0 <= r < 9 && 0 <= c < 9 && before[r][c] != 0 ==> after[r][c] == before[r][c]
  }

  /** No neighbour of p holds v. */
  ghost predicate FreeFor(g: Grid, p: Point, v: int)
  {
    forall q {:trigger Peers(p, q)} :: Peers(p, q) ==> g[q.x][q.y] != v
  }

  /** v occurs somewhere in the row, column or box of p, p itself included. */
  ghost predicate InUnits(g: Grid, p: Point, v: int)
  {
    exists q {:trigger Related(p, q)} :: OnBoard(q) && Related(p, q) && g[q.x][q.y] == v
  }

  /** g with cell p set to v. */
  function Assign(g: Grid, p: Point, v: int): Grid
    requires OnBoard(p)
  {
    g[p.x := g[p.x][p.y := v]]
  }

  /** Writing a cell and then writing back its old value gives the grid back. */
  lemma AssignUndo(g: Grid, p: Point, v: int)
    requires OnBoard(p)
    ensures Assign(Assign(g, p, v), p, g[p.x][p.y]) == g
  {
    assert Assign(Assign(g, p, v), p, g[p.x][p.y])[p.x] == g[p.x];
  }

  /** The contents of a 9x9 array as a grid value. */
  ghost function Snapshot(a: array2<int>): (g: Grid)
    requires a.Length0 == 9 && a.Length1 == 9
    reads a
    ensures forall r, c :: 0 <= r < 9 && 0 <= c < 9 ==> g[r][c] == a[r, c]
  {
    seq(9, r requires 0 <= r < 9 reads a => seq(9, c requires 0 <= c < 9 reads a => a[r, c]))
  }

  lemma SameGrid(g: Grid, h: Grid)
    requires forall r, c :: 0 <= r < 9 && 0 <= c < 9 ==> g[r][c] == h[r][c]
    ensures g == h
  {
    forall r | 0 <= r < 9 ensures g[r] == h[r] {
      assert forall c :: 0 <= c < 9 ==> g[r][c] == h[r][c];
    }
  }

  /** Writing a value that no neighbour holds keeps a grid conflict-free. */
  lemma AssignKeepsNoConflict(g: Grid, p: Point, v: int)
    requires OnBoard(p) && NoConflict(g) && FreeFor(g, p, v)
    ensures NoConflict(Assign(g, p, v))
  {
    var h := Assign(g, p, v);
    forall a, b | Peers(a, b) && h[a.x][a.y] != 0 ensures h[a.x][a.y] != h[b.x][b.y] {
      if a == p {
        assert Peers(p, b);
      } else if b == p {
        assert Peers(p, a);
      }
    }
  }

  lemma KeepsGivensTransitive(a: Grid, b: Grid, c: Grid)
    requires KeepsGivens(a, b) && KeepsGivens(b, c)
    ensures KeepsGivens(a, c)
  {
  }

  // ---------------------------------------------------------------------
  // Units.

  function Row(g: Grid, r: int): seq<int>
    requires 0 <= r < 9
  {
    g[r]
  }

  function Column(g: Grid, c: int): seq<int>
    requires 0 <= c < 9
  {
    seq(9, r requires 0 <= r < 9 => g[r][c])
  }

  /** The 3x3 block whose top-left cell is (br, bc), in row-major order. */
  function Block(g: Grid, br: int, bc: int): seq<int>
    requires 0 <= br <= 6 && 0 <= bc <= 6
  {
    g[br][bc..bc + 3] + g[br + 1][bc..bc + 3] + g[br + 2][bc..bc + 3]
  }

  /** Entry k of a block is the cell k / 3 rows down and k % 3 columns right. */
  lemma BlockAt(g: Grid, br: int, bc: int)
    requires 0 <= br <= 6 && 0 <= bc <= 6
    ensures |Block(g, br, bc)| == 9
    ensures forall k :: 0 <= k < 9 ==> Block(g, br, bc)[k] == g[br + k / 3][bc + k % 3]
  {
    var b := Block(g, br, bc);
    forall k | 0 <= k < 9 ensures b[k] == g[br + k / 3][bc + k % 3] {
      if k < 3 {
        assert k / 3 == 0 && k % 3 == k;
      } else if k < 6 {
        assert k / 3 == 1 && k % 3 == k - 3;
      } else {
        assert k / 3 == 2 && k % 3 == k - 6;
      }
    }
  }

  /** No row, column or 3x3 block repeats a value. */
  predicate UnitsDistinct(g: Grid)
  {
    && (forall r :: 0 <= r < 9 ==> Distinct(Row(g, r)))
    && (forall c :: 0 <= c < 9 ==> Distinct(Column(g, c)))
    && (forall i, j :: 0 <= i < 3 && 0 <= j < 3 ==> Distinct(Block(g, 3 * i, 3 * j)))
  }

  /** Conflict-free grids have no repeated non-zero value in a unit; on a
      complete grid that means no repeated value at all. */
  lemma NoConflictUnitsDistinct(g: Grid)
    requires Complete(g) && NoConflict(g)
    ensures UnitsDistinct(g)
  {
    forall r | 0 <= r < 9 ensures Distinct(Row(g, r)) {
      forall i, j | 0 <= i < j < 9 ensures g[r][i] != g[r][j] {
        assert Peers(Point(r, i), Point(r, j));
      }
    }
    forall c | 0 <= c < 9 ensures Distinct(Column(g, c)) {
      forall i, j | 0 <= i < j < 9 ensures g[i][c] != g[j][c] {
        assert Peers(Point(i, c), Point(j, c));
      }
    }
    forall bi, bj | 0 <= bi < 3 && 0 <= bj < 3 ensures Distinct(Block(g, 3 * bi, 3 * bj)) {
      BlockDistinct(g, bi, bj);
    }
  }

  lemma BlockDistinct(g: Grid, bi: int, bj: int)
    requires Complete(g) && NoConflict(g)
    requires 0 <= bi < 3 && 0 <= bj < 3
    ensures Distinct(Block(g, 3 * bi, 3 * bj))
  {
    var b := Block(g, 3 * bi, 3 * bj);
    BlockAt(g, 3 * bi, 3 * bj);
    forall i, j | 0 <= i < j < 9 ensures b[i] != b[j] {
      BlockEntryCell(bi, bj, i);
      BlockEntryCell(bi, bj, j);
      var p := Point(3 * bi + i / 3, 3 * bj + i % 3);
      var q := Point(3 * bi + j / 3, 3 * bj + j % 3);
      assert Peers(p, q);
    }
  }

  /** Entry k of block (bi, bj) lies on the board, inside that block, and
      different entries lie on different cells. */
  lemma BlockEntryCell(bi: int, bj: int, k: int)
    requires 0 <= bi < 3 && 0 <= bj < 3 && 0 <= k < 9
    ensures 0 <= k / 3 < 3 && 0 <= k % 3 < 3 && k == 3 * (k / 3) + k % 3
    ensures (3 * bi + k / 3) / 3 == bi && (3 * bj + k % 3) / 3 == bj
  {
  }

  /** A grid whose rows, columns and blocks repeat no value has no two equal neighbours. */
  lemma UnitsDistinctNoConflict(g: Grid)
    requires UnitsDistinct(g)
    ensures NoConflict(g)
  {
    forall p, q | Peers(p, q) && g[p.x][p.y] != 0 ensures g[p.x][p.y] != g[q.x][q.y] {
      if p.x == q.x {
        var row := Row(g, p.x);
        assert Distinct(row);
        if p.y < q.y {
          assert row[p.y] != row[q.y];
        } else {
          assert row[q.y] != row[p.y];
        }
      } else if p.y == q.y {
        var col := Column(g, p.y);
        assert Distinct(col);
        if p.x < q.x {
          assert col[p.x] != col[q.x];
        } else {
          assert col[q.x] != col[p.x];
        }
      } else {
        BoxPeersDiffer(g, p, q);
      }
    }
  }

  lemma BoxPeersDiffer(g: Grid, p: Point, q: Point)
    requires UnitsDistinct(g)
    requires OnBoard(p) && OnBoard(q) && p != q && SameBox(p, q)
    ensures g[p.x][p.y] != g[q.x][q.y]
  {
    var bi, bj := p.x / 3, p.y / 3;
    var b := Block(g, 3 * bi, 3 * bj);
    BlockAt(g, 3 * bi, 3 * bj);
    assert Distinct(b);
    var kp := (p.x % 3) * 3 + p.y % 3;
    var kq := (q.x % 3) * 3 + q.y % 3;
    assert kp / 3 == p.x % 3 && kp % 3 == p.y % 3;
    assert kq / 3 == q.x % 3 && kq % 3 == q.y % 3;
    assert b[kp] == g[p.x][p.y];
    assert b[kq] == g[q.x][q.y];
    assert kp != kq;
    if kp < kq {
      assert b[kp] != b[kq];
    } else {
      assert b[kq] != b[kp];
    }
  }

  /** On a complete grid, "no row, column or block repeats a value" and
      "no two neighbours are equal" are the same condition. */
  lemma UnitsDistinctIffNoConflict(g: Grid)
    requires Complete(g)
    ensures UnitsDistinct(g) <==> NoConflict(g)
  {
    if NoConflict(g) {
      NoConflictUnitsDistinct(g);
    }
    if UnitsDistinct(g) {
      UnitsDistinctNoConflict(g);
    }
  }

  /** In a solved grid every row, column and 3x3 block holds each of 1..9 exactly once. */
  lemma SolvedUnitsHoldAllDigits(g: Grid)
    requires Solved(g)
    ensures UnitsDistinct(g)
    ensures forall r :: 0 <= r < 9 ==> Elems(Row(g, r)) == DIGITS
    ensures forall c :: 0 <= c < 9 ==> Elems(Column(g, c)) == DIGITS
    ensures forall i, j :: 0 <= i < 3 && 0 <= j < 3 ==> Elems(Block(g, 3 * i, 3 * j)) == DIGITS
  {
    UnitsDistinctIffNoConflict(g);
    forall r | 0 <= r < 9 ensures Elems(Row(g, r)) == DIGITS {
      NineDistinctDigits(Row(g, r));
    }
    forall c | 0 <= c < 9 ensures Elems(Column(g, c)) == DIGITS {
      NineDistinctDigits(Column(g, c));
    }
    forall i, j | 0 <= i < 3 && 0 <= j < 3 ensures Elems(Block(g, 3 * i, 3 * j)) == DIGITS {
      var b := Block(g, 3 * i, 3 * j);
      BlockAt(g, 3 * i, 3 * j);
      forall k | 0 <= k < 9 ensures 1 <= b[k] <= 9 {
        assert b[k] == g[3 * i + k / 3][3 * j + k % 3];
      }
      NineDistinctDigits(b);
    }
  }
}
