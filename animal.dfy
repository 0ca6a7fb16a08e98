/**
 * One animal: a position, an energy level and a brain. Each tick it loses
 * one unit of energy, senses the nearest food by Manhattan distance, asks
 * its brain for a move and takes it unless another animal is in the way.
 */
module Animals {
  import opened Rng
  import opened Network
  import opened Grid

  /** Energy is capped at this value when the animal eats. */
  const MaxEnergy := 100
  /** Energy gained by eating one food cell. */
  const FoodEnergy := 5
  /** `int.MaxValue`, where the nearest-food search starts its minimum. */
  const IntMax := 0x7fff_ffff

  /** An offset on the board, from the animal to a cell. */
  datatype Offset = Offset(dx: int, dy: int)

  function Abs(v: int): (r: int)
    ensures r >= 0 && (r == v || r == -v)
  {
    if v < 0 then -v else v
  }

  /** Manhattan distance from (x, y) to (i, j). */
  function Dist(x: int, y: int, i: int, j: int): nat {
    Abs(i - x) + Abs(j - y)
  }

  /** The distance is symmetric, zero exactly at the animal's own cell, and bounds both axis offsets. */
  lemma DistMetric(x: int, y: int, i: int, j: int)
    ensures Dist(x, y, i, j) == 0 <==> i == x && j == y
    ensures Dist(x, y, i, j) == Dist(i, j, x, y)
    ensures Abs(i - x) <= Dist(x, y, i, j) && Abs(j - y) <= Dist(x, y, i, j)
  {
  }

  /**
   * Cell (i, j) counts for the search from (x, y): it holds food and is
   * closer than the search's starting minimum.
   */
  ghost predicate Sensed(grid: array2<CellType>, x: int, y: int, i: int, j: int)
    reads grid
  {
    InBounds(grid, i, j) && grid[i, j] == Food && Dist(x, y, i, j) < IntMax
  }

  /** (i', j') comes before (i, j) when rows are scanned in order and each row by column. */
  predicate Before(i': int, j': int, i: int, j: int) {
    i' < i || (i' == i && j' < j)
  }

  /**
   * (i, j) is the food cell the search from (x, y) keeps: no sensed cell is
   * closer, and every sensed cell scanned before it is strictly farther.
   */
  ghost predicate NearestAt(grid: array2<CellType>, x: int, y: int, i: int, j: int)
    reads grid
  {
    Sensed(grid, x, y, i, j) &&
    (forall i', j' :: Sensed(grid, x, y, i', j') ==> Dist(x, y, i, j) <= Dist(x, y, i', j')) &&
    (forall i', j' :: Sensed(grid, x, y, i', j') && Before(i', j', i, j) ==> Dist(x, y, i, j) < Dist(x, y, i', j'))
  }

  /** Some cell counts for the search from (x, y). */
  ghost predicate AnySensed(grid: array2<CellType>, x: int, y: int)
    reads grid
  {
    exists i, j :: Sensed(grid, x, y, i, j)
  }

  /** The offset the search reports: to the nearest food cell, or (0, 0) when there is none. */
  ghost predicate IsNearestFood(grid: array2<CellType>, x: int, y: int, o: Offset)
    reads grid
  {
    if AnySensed(grid, x, y) then NearestAt(grid, x, y, x + o.dx, y + o.dy)
    else o == Offset(0, 0)
  }

  /** At most one offset is the nearest food: the search's answer is determined by the board. */
  lemma NearestFoodUnique(grid: array2<CellType>, x: int, y: int, o1: Offset, o2: Offset)
    requires IsNearestFood(grid, x, y, o1) && IsNearestFood(grid, x, y, o2)
    ensures o1 == o2
  {
    if AnySensed(grid, x, y) {
      var i1, j1, i2, j2 := x + o1.dx, y + o1.dy, x + o2.dx, y + o2.dy;
      assert NearestAt(grid, x, y, i1, j1);
      assert NearestAt(grid, x, y, i2, j2);
    }
  }

  /**
   * What the search knows after scanning every cell before (i, j): the best
   * cell so far, minDist its distance, or nothing found and minDist unmoved.
   */
  ghost predicate ScanState(grid: array2<CellType>, x: int, y: int, i: int, j: int, minDist: int, o: Offset)
    reads grid
  {
    if minDist == IntMax then
      o == Offset(0, 0) &&
      forall i', j' :: Sensed(grid, x, y, i', j') ==> !Before(i', j', i, j)
    else
      var ci, cj := x + o.dx, y + o.dy;
      Sensed(grid, x, y, ci, cj) && Before(ci, cj, i, j) && minDist == Dist(x, y, ci, cj) &&
      (forall i', j' :: Sensed(grid, x, y, i', j') && Before(i', j', i, j) ==> minDist <= Dist(x, y, i', j')) &&
      (forall i', j' :: Sensed(grid, x, y, i', j') && Before(i', j', ci, cj) ==> minDist < Dist(x, y, i', j'))
  }

  /** Sensing in Update: the offset from (x, y) to the nearest food cell, first in scan order on ties. */
  method NearestFood(grid: array2<CellType>, x: int, y: int) returns (o: Offset)
    ensures IsNearestFood(grid, x, y, o)
  {
    var minDist := IntMax;
    o := Offset(0, 0);
    for i := 0 to grid.Length0
      invariant ScanState(grid, x, y, i, 0, minDist, o)
    {
      minDist, o := ScanRow(grid, x, y, i, minDist, o);
    }
    if AnySensed(grid, x, y) {
      var i, j :| Sensed(grid, x, y, i, j);
      assert Before(i, j, grid.Length0, 0);
    }
  }

  /** The inner loop of the search: row i, column by column. */
  method ScanRow(grid: array2<CellType>, x: int, y: int, i: int, minDist: int, o: Offset)
    returns (minDist': int, o': Offset)
    requires 0 <= i < grid.Length0
    requires ScanState(grid, x, y, i, 0, minDist, o)
    ensures ScanState(grid, x, y, i + 1, 0, minDist', o')
  {
    minDist', o' := minDist, o;
    for j := 0 to grid.Length1
      invariant ScanState(grid, x, y, i, j, minDist', o')
    {
      minDist', o' := ScanCell(grid, x, y, i, j, minDist', o');
    }
    ScanRowDone(grid, x, y, i, minDist', o');
  }

  /** The body of the search for cell (i, j): a Food cell strictly closer than the best so far becomes the best. */
  method ScanCell(grid: array2<CellType>, x: int, y: int, i: int, j: int, minDist: int, o: Offset)
    returns (minDist': int, o': Offset)
    requires 0 <= i < grid.Length0 && 0 <= j < grid.Length1
    requires ScanState(grid, x, y, i, j, minDist, o)
    ensures ScanState(grid, x, y, i, j + 1, minDist', o')
  {
    minDist', o' := minDist, o;
    if grid[i, j] == Food {
      var dxx := i - x;
      var dyy := j - y;
      var dist := Abs(dxx) + Abs(dyy);
      assert dist == Dist(x, y, i, j);
      if dist < minDist {
        ScanTake(grid, x, y, i, j, minDist, o);
        minDist' := dist;
        o' := Offset(dxx, dyy);
      } else {
        ScanSkip(grid, x, y, i, j, minDist, o);
      }
    } else {
      ScanSkip(grid, x, y, i, j, minDist, o);
    }
  }

  /** A scanned cell that is no closer than the best so far changes nothing. */
  lemma ScanSkip(grid: array2<CellType>, x: int, y: int, i: int, j: int, minDist: int, o: Offset)
    requires 0 <= i < grid.Length0 && 0 <= j < grid.Length1
    requires ScanState(grid, x, y, i, j, minDist, o)
    requires grid[i, j] == Food ==> Dist(x, y, i, j) >= minDist
    ensures ScanState(grid, x, y, i, j + 1, minDist, o)
  {
  }

  /** A scanned food cell closer than the best so far becomes the best. */
  lemma ScanTake(grid: array2<CellType>, x: int, y: int, i: int, j: int, minDist: int, o: Offset)
    requires 0 <= i < grid.Length0 && 0 <= j < grid.Length1
    requires ScanState(grid, x, y, i, j, minDist, o)
    requires grid[i, j] == Food && Dist(x, y, i, j) < minDist
    ensures ScanState(grid, x, y, i, j + 1, Dist(x, y, i, j), Offset(i - x, j - y))
  {
  }

  /** A finished row of the scan is the start of the next one. */
  lemma ScanRowDone(grid: array2<CellType>, x: int, y: int, i: int, minDist: int, o: Offset)
    requires ScanState(grid, x, y, i, grid.Length1, minDist, o)
    ensures ScanState(grid, x, y, i + 1, 0, minDist, o)
  {
  }

  /** `Math.Clamp(v, lo, hi)`; it throws when lo > hi, so that is excluded. */
  function Clamp(v: int, lo: int, hi: int): (r: int)
    requires lo <= hi
    ensures lo <= r <= hi
    ensures lo <= v <= hi ==> r == v
    ensures v < lo ==> r == lo
    ensures v > hi ==> r == hi
  {
    if v < lo then lo else if v > hi then hi else v
  }

  /** The cell the move m leads to from (x, y), kept on the board. */
  function Target(grid: array2<CellType>, x: int, y: int, m: Move): (t: (int, int))
    requires grid.Length0 >= 1 && grid.Length1 >= 1
    ensures InBounds(grid, t.0, t.1)
    ensures InBounds(grid, x, y) && IsUnitMove(m) ==> -1 <= t.0 - x <= 1 && -1 <= t.1 - y <= 1
    ensures InBounds(grid, x + m.dx, y + m.dy) ==> t == (x + m.dx, y + m.dy)
  {
    (Clamp(x + m.dx, 0, grid.Length0 - 1), Clamp(y + m.dy, 0, grid.Length1 - 1))
  }

  /** The hunger input of the brain: 0 at full energy, 1 at none. */
  function Hunger(energy: int): (h: real)
    ensures 0 <= energy <= MaxEnergy ==> 0.0 <= h <= 1.0
    ensures energy == MaxEnergy ==> h == 0.0
    ensures energy == 0 ==> h == 1.0
  {
    1.0 - energy as real / 100.0
  }

  /** Energy after eating: five more, but never above the cap. */
  function Fed(energy: int): (r: int)
    ensures r <= MaxEnergy && r <= energy + FoodEnergy
    ensures r == energy + FoodEnergy || r == MaxEnergy
  {
    var e := energy + FoodEnergy;
    if e > MaxEnergy then MaxEnergy else e
  }

  class Animal {
    var X: int
    var Y: int
    var Energy: int
    /**
     * Read by the replacement pass to weigh parents; no code declares or
     * updates it, so it is an arbitrary non-negative number fixed at creation.
     */
    var Lifetime: nat
    /** Index into the ten-colour generation palette. */
    var color: nat
    const brain: NeuralNetwork

    /** A new animal with a fresh random brain. */
    constructor (x: int, y: int, energy: int, entropy: Entropy)
      requires entropy.Valid()
      modifies entropy
      ensures X == x && Y == y && Energy == energy
      ensures fresh(brain) && fresh(brain.w1) && fresh(brain.w2) && fresh(brain.rand) && brain.Valid()
      ensures entropy.next == old(entropy.next) + 1
    {
      X := x;
      Y := y;
      Energy := energy;
      brain := new NeuralNetwork(entropy);
    }

    /** A new animal with the given brain. */
    constructor WithBrain(x: int, y: int, energy: int, brain: NeuralNetwork)
      ensures X == x && Y == y && Energy == energy && GetBrain() == brain
    {
      X := x;
      Y := y;
      Energy := energy;
      this.brain := brain;
    }

    /** The animal's brain: the one it was created with, for as long as it lives. */
    function GetBrain(): (b: NeuralNetwork)
      ensures b == brain
    {
      brain
    }

    /**
     * One tick of the animal: energy down by one, sense the nearest food
     * from the current cell, run the brain on (hunger, tanh(dx / 5),
     * tanh(dy / 5)), and step to the clamped target unless it holds an
     * animal. The board is only read. `food` and `move` are what was sensed
     * and chosen.
     */
    method Update(grid: array2<CellType>, tanh: real -> real) returns (ghost food: Offset, ghost move: Move)
      requires brain.Valid() && grid.Length0 >= 1 && grid.Length1 >= 1
      modifies this`X, this`Y, this`Energy
      ensures Energy == old(Energy) - 1
      ensures IsNearestFood(grid, old(X), old(Y), food)
      ensures move == brain.Decide(tanh, Hunger(Energy), tanh(food.dx as real / 5.0), tanh(food.dy as real / 5.0))
      ensures IsUnitMove(move)
      ensures var t := Target(grid, old(X), old(Y), move);
        if grid[t.0, t.1] != CellType.Animal then X == t.0 && Y == t.1 else X == old(X) && Y == old(Y)
    {
      Energy := Energy - 1;
      var nearest := NearestFood(grid, X, Y);
      food := nearest;
      var hunger := Hunger(Energy);
      var foodDx := tanh(nearest.dx as real / 5.0);
      var foodDy := tanh(nearest.dy as real / 5.0);
      var m := brain.Forward(tanh, hunger, foodDx, foodDy);
      move := m;
      var newX := Clamp(X + m.dx, 0, grid.Length0 - 1);
      var newY := Clamp(Y + m.dy, 0, grid.Length1 - 1);
      assert (newX, newY) == Target(grid, X, Y, m);
      if grid[newX, newY] != CellType.Animal {
        X := newX;
        Y := newY;
      }
    }

    /** Eating: five more energy, capped at the maximum. */
    method Eat()
      modifies this`Energy
      ensures Energy == Fed(old(Energy))
    {
      Energy := Energy + FoodEnergy;
      if Energy > MaxEnergy {
        Energy := MaxEnergy;
      }
    }
  }
}
