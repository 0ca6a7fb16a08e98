/**
 * The pieces of the replacement pass that decide where a replacement
 * animal goes and whose brain it inherits: the spawn radius, the search
 * for a free cell near the death cell, and roulette-wheel selection of a
 * parent weighted by Lifetime.
 */
module Replacement {
  import opened Grid
  import opened Animals

  const MinRadius := 1
  const MaxRadius := 5
  /** The initial population, by which the radius is scaled. */
  const AnimalCount := 10

  function Max(a: int, b: int): (m: int)
    ensures m >= a && m >= b && (m == a || m == b)
  {
    if a >= b then a else b
  }

  /**
   * The search radius for free cells: MaxRadius scaled by the share of the
   * initial population still alive (integer division), never below MinRadius.
   */
  function SpawnRadius(survivors: int): (r: int)
    ensures r >= MinRadius
    ensures survivors <= AnimalCount ==> r <= MaxRadius
    ensures survivors >= 0 ==> r == Max(MinRadius, survivors / 2)
  {
    Max(MinRadius, MaxRadius * survivors / Max(1, AnimalCount))
  }

  /** A larger surviving population never gives a smaller radius. */
  lemma SpawnRadiusMonotone(a: int, b: int)
    requires 0 <= a <= b
    ensures SpawnRadius(a) <= SpawnRadius(b)
  {
    assert a / 2 <= b / 2;
  }

  /** Sum of the Lifetimes of the first n animals of s. */
  function LifetimeSum(s: seq<Animal>, n: nat): (total: nat)
    requires n <= |s|
    reads s
  {
    if n == 0 then 0 else LifetimeSum(s, n - 1) + s[n - 1].Lifetime
  }

  /** The sum bounds each Lifetime it adds up, and is 0 exactly when all of them are. */
  lemma {:induction false} LifetimeSumBounds(s: seq<Animal>, n: nat)
    requires n <= |s|
    ensures forall k :: 0 <= k < n ==> s[k].Lifetime <= LifetimeSum(s, n)
    ensures LifetimeSum(s, n) == 0 <==> forall k :: 0 <= k < n ==> s[k].Lifetime == 0
  {
    if n > 0 {
      LifetimeSumBounds(s, n - 1);
    }
  }

  /** Prefix sums of non-negative Lifetimes never decrease. */
  lemma {:induction false} LifetimeSumMonotone(s: seq<Animal>, m: nat, n: nat)
    requires m <= n <= |s|
    ensures LifetimeSum(s, m) <= LifetimeSum(s, n)
    decreases n
  {
    if m < n {
      LifetimeSumMonotone(s, m, n - 1);
    }
  }

  /**
   * The roulette wheel over `survivors` for draw r: the index of the first
   * survivor at which the running sum of Lifetimes exceeds r, or -1 when
   * none does (where `Timer_Tick` falls back to a uniform pick).
   */
  method SelectParent(survivors: seq<Animal>, r: int) returns (idx: int)
    ensures -1 <= idx < |survivors|
    ensures idx >= 0 ==>
      r < LifetimeSum(survivors, idx + 1) && forall k :: 1 <= k <= idx ==> r >= LifetimeSum(survivors, k)
    ensures idx == -1 ==> forall k :: 1 <= k <= |survivors| ==> r >= LifetimeSum(survivors, k)
    ensures 0 <= r ==> (idx == -1 <==> r >= LifetimeSum(survivors, |survivors|))
    ensures 0 <= r && idx >= 0 ==> survivors[idx].Lifetime > 0
  {
    var acc := 0;
    idx := -1;
    for k := 0 to |survivors|
      invariant acc == LifetimeSum(survivors, k)
      invariant forall k' :: 1 <= k' <= k ==> r >= LifetimeSum(survivors, k')
    {
      acc := acc + survivors[k].Lifetime;
      if r < acc {
        idx := k;
        break;
      }
    }
    if idx == -1 && 0 <= r && |survivors| > 0 {
      assert r >= LifetimeSum(survivors, |survivors|);
    }
    if idx >= 0 && r >= LifetimeSum(survivors, |survivors|) {
      LifetimeSumMonotone(survivors, idx + 1, |survivors|);
    }
    if idx > 0 && 0 <= r {
      assert r >= LifetimeSum(survivors, idx);
    }
  }

  /**
   * Offset (rx, ry) names a cell the search for a free cell around (x, y)
   * accepts: within the radius on both axes, on the board, and Empty.
   */
  ghost predicate FreeNear(grid: array2<CellType>, x: int, y: int, radius: int, rx: int, ry: int)
    reads grid
  {
    -radius <= rx <= radius && -radius <= ry <= radius &&
    InBounds(grid, x + rx, y + ry) && grid[x + rx, y + ry] == Empty
  }

  /**
   * Where a replacement for an animal that died at (x, y) is placed: (x, y)
   * itself unless it now holds an animal; otherwise the first free cell in
   * the square of the given radius, scanning rx then ry from -radius up; and
   * when there is none, (x, y) again. `free` says the cell holds no animal.
   */
  method FindSpawnCell(grid: array2<CellType>, x: int, y: int, radius: int) returns (sx: int, sy: int, free: bool)
    requires InBounds(grid, x, y)
    ensures InBounds(grid, sx, sy)
    ensures free <==> grid[sx, sy] != CellType.Animal
    ensures grid[x, y] != CellType.Animal ==> sx == x && sy == y
    ensures grid[x, y] == CellType.Animal && free ==>
      FreeNear(grid, x, y, radius, sx - x, sy - y) &&
      forall rx, ry :: FreeNear(grid, x, y, radius, rx, ry) ==> !Before(rx, ry, sx - x, sy - y)
    ensures grid[x, y] == CellType.Animal && !free ==>
      sx == x && sy == y && forall rx, ry :: !FreeNear(grid, x, y, radius, rx, ry)
  {
    sx, sy := x, y;
    if grid[x, y] == CellType.Animal {
      var found := false;
      var rx := -radius;
      while rx <= radius && !found
        invariant !found ==> sx == x && sy == y
        invariant !found ==> forall rx', ry' :: FreeNear(grid, x, y, radius, rx', ry') ==> rx' >= rx
        invariant found ==>
          FreeNear(grid, x, y, radius, sx - x, sy - y) && forall rx', ry' :: FreeNear(grid, x, y, radius, rx', ry') ==> !Before(rx', ry', sx - x, sy - y)
        decreases radius + 1 - rx, if found then 0 else 1
      {
        var ry := -radius;
        while ry <= radius && !found
          invariant !found ==> sx == x && sy == y
          invariant !found ==> forall rx', ry' :: FreeNear(grid, x, y, radius, rx', ry') ==> !Before(rx', ry', rx, ry)
          invariant !found ==> forall rx', ry' :: FreeNear(grid, x, y, radius, rx', ry') ==> rx' >= rx
          invariant found ==>
            FreeNear(grid, x, y, radius, sx - x, sy - y) && forall rx', ry' :: FreeNear(grid, x, y, radius, rx', ry') ==> !Before(rx', ry', sx - x, sy - y)
          decreases radius + 1 - ry, if found then 0 else 1
        {
          var nx := sx + rx;
          var ny := sy + ry;
          if nx >= 0 && nx < grid.Length0 && ny >= 0 && ny < grid.Length1 && grid[nx, ny] == Empty {
            sx, sy := nx, ny;
            found := true;
          }
          ry := ry + 1;
        }
        rx := rx + 1;
      }
      free := found;
    } else {
      free := true;
    }
  }
}
