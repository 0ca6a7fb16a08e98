/**
 * The world's board: a rectangle of cells, each Empty, holding Food, or
 * holding an Animal. The simulation's board is 50 by 50.
 */
module Grid {

  datatype CellType = Empty | Food | Animal

  const GridSize := 50

  predicate InBounds(grid: array2<CellType>, x: int, y: int) {
    0 <= x < grid.Length0 && 0 <= y < grid.Length1
  }

  /** The cells of `grid` holding `c`. */
  ghost function Cells(grid: array2<CellType>, c: CellType): set<(int, int)>
    reads grid
  {
    set x, y | 0 <= x < grid.Length0 && 0 <= y < grid.Length1 && grid[x, y] == c :: (x, y)
  }

  lemma CellsMembers(grid: array2<CellType>, c: CellType)
    ensures forall i, j :: (i, j) in Cells(grid, c) <==> InBounds(grid, i, j) && grid[i, j] == c
  {
  }

  /** When exactly the positions in `ps` hold `c`, those are the cells holding `c`. */
  lemma CellsExactly(grid: array2<CellType>, c: CellType, ps: set<(int, int)>)
    requires forall p :: p in ps ==> InBounds(grid, p.0, p.1)
    requires forall x, y :: InBounds(grid, x, y) ==> (grid[x, y] == c <==> (x, y) in ps)
    ensures Cells(grid, c) == ps
  {
    forall p | p in ps
      ensures p in Cells(grid, c)
    {
      assert grid[p.0, p.1] == c;
    }
  }

  /** A board on which no cell started or stopped holding `c` has the same cells holding `c`. */
  twostate lemma CellsKept(grid: array2<CellType>, new c: CellType)
    requires forall x, y :: InBounds(grid, x, y) ==> (grid[x, y] == c <==> old(grid[x, y]) == c)
    ensures Cells(grid, c) == old(Cells(grid, c))
  {
    assert forall p :: p in Cells(grid, c) <==> p in old(Cells(grid, c));
  }

  /** The positions of an n by m board. */
  ghost function Rect(n: nat, m: nat): set<(int, int)> {
    set x, y | 0 <= x < n && 0 <= y < m :: (x, y)
  }

  lemma RectMembers(n: nat, m: nat)
    ensures forall i, j :: (i, j) in Rect(n, m) <==> 0 <= i < n && 0 <= j < m
  {
  }

  /** Row x of an n by m board. */
  ghost function Row(x: int, m: nat): set<(int, int)> {
    set y | 0 <= y < m :: (x, y)
  }

  lemma {:induction false} RowCard(x: int, m: nat)
    ensures |Row(x, m)| == m
  {
    if m > 0 {
      RowCard(x, m - 1);
      assert Row(x, m) == Row(x, m - 1) + {(x, m - 1)};
    }
  }

  lemma RectSplit(n: nat, m: nat)
    requires n > 0
    ensures Rect(n, m) == Rect(n - 1, m) + Row(n - 1, m)
    ensures Rect(n - 1, m) !! Row(n - 1, m)
  {
  }

  /** An n by m board has n * m positions. */
  lemma {:induction false} RectCard(n: nat, m: nat)
    ensures |Rect(n, m)| == n * m
  {
    if n > 0 {
      RectCard(n - 1, m);
      RowCard(n - 1, m);
      RectSplit(n, m);
      assert n * m == (n - 1) * m + m;
    }
  }

  /** Removing any set takes away at most its size. */
  lemma CardDiff<T>(all: set<T>, taken: set<T>)
    ensures |all - taken| >= |all| - |taken|
  {
    CardRemoved(all, all * taken);
    CardRemoved(taken, all * taken);
    assert all - taken == all - all * taken;
  }

  /** Removing a subset takes away exactly its size. */
  lemma {:induction false} CardRemoved<T>(all: set<T>, taken: set<T>)
    requires taken <= all
    ensures |all - taken| == |all| - |taken|
  {
    if taken != {} {
      var t :| t in taken;
      CardRemoved(all - {t}, taken - {t});
      assert all - {t} - (taken - {t}) == all - taken;
    }
  }
}
