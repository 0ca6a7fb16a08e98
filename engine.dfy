/**
 * The simulation window's state and its timer tick: the 50 by 50 board,
 * the roster of animals and the generation counter. A tick moves every
 * animal (eating or starving as it goes), and when some animal died it
 * starts a new generation, placing one replacement per death near the
 * death cell with a brain bred from the survivors.
 */
module Engine {
  import opened Rng
  import opened Network
  import opened Grid
  import opened Animals
  import opened Roster
  import opened Replacement

  /** Energy of every newly placed animal. */
  const StartEnergy := 10
  const FoodCount := 200
  /** Size of the generation colour palette. */
  const PaletteSize := 10
  const MutationRate := 0.1
  const MutationStrength := 0.5

  /** The cells the animals of `s` stand on, in order. */
  ghost function Positions(s: seq<Animal>): (r: seq<(int, int)>)
    reads s
    ensures |r| == |s| && forall m {:trigger r[m]} :: 0 <= m < |s| ==> r[m] == (s[m].X, s[m].Y)
  {
    if s == [] then [] else Positions(s[..|s| - 1]) + [(s[|s| - 1].X, s[|s| - 1].Y)]
  }

  /** Animals none of which moved stand on the cells they stood on. */
  twostate lemma PositionsKept(s: seq<Animal>)
    requires forall m :: 0 <= m < |s| ==> s[m].X == old(s[m].X) && s[m].Y == old(s[m].Y)
    ensures Positions(s) == old(Positions(s))
  {
    assert forall m :: 0 <= m < |s| ==> Positions(s)[m] == old(Positions(s))[m];
  }

  /** The energies of the animals of `s`, in order. */
  ghost function Energies(s: seq<Animal>): (r: seq<int>)
    reads s
    ensures |r| == |s| && forall m {:trigger r[m]} :: 0 <= m < |s| ==> r[m] == s[m].Energy
  {
    if s == [] then [] else Energies(s[..|s| - 1]) + [s[|s| - 1].Energy]
  }

  /** An animal's energy after one movement step: one unit is spent, then it is fed if it ate. */
  function EnergyAfter(energy: int, ate: bool): (r: int)
    ensures !ate ==> r == energy - 1
    ensures ate ==> r <= MaxEnergy && (r == energy - 1 + FoodEnergy || r == MaxEnergy)
    ensures energy <= MaxEnergy ==> (ate <==> r >= energy)
  {
    if ate then Fed(energy - 1) else energy - 1
  }

  /** The energies after a movement pass of animals that began it with energies `e0`; `ate` flags those that ate. */
  function PassEnergies(e0: seq<int>, ate: seq<bool>): (r: seq<int>)
    requires |ate| == |e0|
    ensures |r| == |e0| && forall m {:trigger r[m]} :: 0 <= m < |e0| ==> r[m] == EnergyAfter(e0[m], ate[m])
  {
    if e0 == [] then [] else PassEnergies(e0[..|e0| - 1], ate[..|e0| - 1]) + [EnergyAfter(e0[|e0| - 1], ate[|e0| - 1])]
  }

  /** The animals of such a pass that starve: they ate nothing and began with at most one unit of energy. */
  function Starved(e0: seq<int>, ate: seq<bool>): (r: seq<bool>)
    requires |ate| == |e0|
    ensures |r| == |e0| && forall m {:trigger r[m]} :: 0 <= m < |e0| ==> (r[m] <==> !ate[m] && e0[m] <= 1)
  {
    if e0 == [] then [] else Starved(e0[..|e0| - 1], ate[..|e0| - 1]) + [!ate[|e0| - 1] && e0[|e0| - 1] <= 1]
  }

  /** The k-th animal died exactly when its energy `en[k]` is used up. */
  ghost predicate OutOfEnergy(died: seq<bool>, en: seq<int>) {
    |died| == |en| && forall m :: 0 <= m < |died| ==> (died[m] <==> en[m] <= 0)
  }

  /** An animal that begins the pass with energy starves exactly when it ends the pass with none. */
  lemma StarvedIffSpent(e0: seq<int>, ate: seq<bool>)
    requires |ate| == |e0| && forall m :: 0 <= m < |e0| ==> e0[m] >= 1
    ensures OutOfEnergy(Starved(e0, ate), PassEnergies(e0, ate))
  {
  }

  /** Animals that satisfy AnimalOk all have energy left. */
  lemma EnergiesPositive(grid: array2<CellType>, s: seq<Animal>, e: seq<int>)
    requires forall a :: a in s ==> AnimalOk(grid, a)
    requires e == Energies(s)
    ensures forall m :: 0 <= m < |e| ==> e[m] >= 1
  {
    forall m | 0 <= m < |e|
      ensures e[m] >= 1
    {
      assert AnimalOk(grid, s[m]);
    }
  }

  /** What the world keeps true of every animal on its roster. */
  ghost predicate AnimalOk(grid: array2<CellType>, a: Animal)
    reads grid, a
  {
    InBounds(grid, a.X, a.Y) && grid[a.X, a.Y] != Food &&
    1 <= a.Energy <= MaxEnergy && a.color < PaletteSize && a.brain.Valid()
  }

  /** Each animal stands on a cell marked Animal and no two share a cell. */
  ghost predicate Separated(grid: array2<CellType>, s: seq<Animal>)
    reads grid, s
  {
    (forall a :: a in s ==> InBounds(grid, a.X, a.Y) && grid[a.X, a.Y] == CellType.Animal) &&
    (forall a, b :: a in s && b in s && a != b ==> a.X != b.X || a.Y != b.Y)
  }

  /** Separated survivors of `snap` stand on marked cells, and `cells` records those cells. */
  lemma SurvivorCells(grid: array2<CellType>, snap: seq<Animal>, died: seq<bool>, cells: seq<(int, int)>)
    requires |died| == |snap| && cells == Positions(snap) && Separated(grid, Survivors(snap, died))
    ensures forall p :: p in Survivors(cells, died) ==> p in Cells(grid, CellType.Animal)
  {
    CellsMembers(grid, CellType.Animal);
    forall p | p in Survivors(cells, died)
      ensures p in Cells(grid, CellType.Animal)
    {
      SurvivorsFrom(cells, died, p);
      var m :| 0 <= m < |cells| && !died[m] && cells[m] == p;
      SurvivorsKeep(snap, died, m);
    }
  }

  lemma {:induction false} DistinctCard<T>(s: seq<T>)
    requires Distinct(s)
    ensures |set x | x in s| == |s|
  {
    if s != [] {
      var n := |s| - 1;
      DistinctCard(s[..n]);
      assert (set x | x in s) == (set x | x in s[..n]) + {s[n]};
      assert s[n] !in s[..n];
    }
  }

  /** While fewer cells are taken than were free, a free one is left. */
  lemma SomeEmptyCell(grid: array2<CellType>, free: set<(int, int)>, placed: set<(int, int)>)
    requires |placed| < |free|
    requires forall i, j :: (i, j) in free && (i, j) !in placed ==> InBounds(grid, i, j) && grid[i, j] == Empty
    ensures exists i, j :: InBounds(grid, i, j) && grid[i, j] == Empty
  {
    CardDiff(free, placed);
    var p :| p in free - placed;
    assert p == (p.0, p.1);
    assert (p.0, p.1) in free && (p.0, p.1) !in placed;
    assert InBounds(grid, p.0, p.1) && grid[p.0, p.1] == Empty;
  }

  /** Positions on a 50 by 50 board are positions of Rect(50, 50). */
  lemma InRect(grid: array2<CellType>, ps: set<(int, int)>)
    requires grid.Length0 == GridSize && grid.Length1 == GridSize
    requires forall i, j :: (i, j) in ps ==> InBounds(grid, i, j)
    ensures ps <= Rect(GridSize, GridSize)
  {
    forall p | p in ps
      ensures p in Rect(GridSize, GridSize)
    {
      assert p == (p.0, p.1);
      assert (p.0, p.1) in ps;
      assert InBounds(grid, p.0, p.1);
    }
  }

  /** The census of a board once Food is placed on `pf` after animals on `pa`. */
  lemma FoodPlaced(grid: array2<CellType>, pa: set<(int, int)>, pf: set<(int, int)>)
    requires grid.Length0 == GridSize && grid.Length1 == GridSize
    requires |pa| == AnimalCount && pa <= Rect(GridSize, GridSize)
    requires |pf| == FoodCount && pf <= Rect(GridSize, GridSize) - pa
    requires forall i, j :: InBounds(grid, i, j) ==>
      grid[i, j] == if (i, j) in pf then Food else if (i, j) in pa then CellType.Animal else Empty
    ensures |Cells(grid, CellType.Animal)| == AnimalCount && |Cells(grid, Food)| == FoodCount
    ensures |Cells(grid, Empty)| == GridSize * GridSize - AnimalCount - FoodCount
  {
    CellsExactly(grid, CellType.Animal, pa);
    CellsExactly(grid, Food, pf);
    CellsExactly(grid, Empty, Rect(GridSize, GridSize) - pa - pf);
    RectCard(GridSize, GridSize);
    CardRemoved(Rect(GridSize, GridSize), pa);
    CardRemoved(Rect(GridSize, GridSize) - pa, pf);
  }

  class World {
    const grid: array2<CellType>
    var animals: seq<Animal>
    var generation: nat
    const rand: Random
    const entropy: Entropy

    ghost predicate Valid()
      reads this, grid, animals
    {
      grid.Length0 == GridSize && grid.Length1 == GridSize &&
      rand.Valid() && entropy.Valid() &&
      Distinct(animals) &&
      forall a :: a in animals ==> AnimalOk(grid, a)
    }

    /** A board with ten animals on distinct cells and 200 Food, in generation 0. */
    constructor (entropy: Entropy)
      requires entropy.Valid()
      modifies entropy
      ensures Valid() && Separated(grid, animals) && generation == 0
      ensures fresh(grid) && fresh(rand) && this.entropy == entropy
      ensures |animals| == AnimalCount && forall a :: a in animals ==> fresh(a) && fresh(a.brain.rand)
      ensures |Cells(grid, CellType.Animal)| == AnimalCount && |Cells(grid, Food)| == FoodCount
      ensures |Cells(grid, Empty)| == GridSize * GridSize - AnimalCount - FoodCount
    {
      grid := new CellType[GridSize, GridSize];
      animals := [];
      generation := 0;
      this.entropy := entropy;
      var r := entropy.NewRandom();
      rand := r;
      new;
      InitializeGrid();
      Populate();
    }

    /** The constructor's second half: ten animals, then 200 Food, on an Empty board. */
    method Populate()
      requires Valid() && animals == []
      requires forall i, j :: InBounds(grid, i, j) ==> grid[i, j] == Empty
      modifies grid, this`animals, entropy
      ensures Valid() && Separated(grid, animals)
      ensures |animals| == AnimalCount && forall a :: a in animals ==> fresh(a) && fresh(a.brain.rand)
      ensures |Cells(grid, CellType.Animal)| == AnimalCount && |Cells(grid, Food)| == FoodCount
      ensures |Cells(grid, Empty)| == GridSize * GridSize - AnimalCount - FoodCount
    {
      ghost var board := Rect(GridSize, GridSize);
      RectCard(GridSize, GridSize);
      RectMembers(GridSize, GridSize);
      ghost var pa, _ := SpawnAnimals(AnimalCount, board);
      InRect(grid, pa);
      CardRemoved(board, pa);
      ghost var pf := SpawnFood(FoodCount, board - pa);
      InRect(grid, pf);
      FoodPlaced(grid, pa, pf);
    }

    /** Every cell of the board becomes Empty. */
    method InitializeGrid()
      modifies grid
      ensures forall i, j :: InBounds(grid, i, j) ==> grid[i, j] == Empty
    {
      for i := 0 to grid.Length0
        invariant forall i', j :: 0 <= i' < i && 0 <= j < grid.Length1 ==> grid[i', j] == Empty
      {
        for j := 0 to grid.Length1
          invariant forall i', j' :: 0 <= i' < i && 0 <= j' < grid.Length1 ==> grid[i', j'] == Empty
          invariant forall j' :: 0 <= j' < j ==> grid[i, j'] == Empty
        {
          grid[i, j] := Empty;
        }
      }
    }

    /**
     * Places `count` new animals, each with a fresh random brain, the start
     * energy and the generation's colour, on Empty cells (which ones is
     * decided by the random draws, not modelled here), and marks them.
     */
    method SpawnAnimals(count: int, ghost free: set<(int, int)>) returns (ghost placed: set<(int, int)>, ghost born: seq<Animal>)
      requires Valid() && count <= |free|
      requires forall i, j :: (i, j) in free ==> InBounds(grid, i, j) && grid[i, j] == Empty
      modifies grid, this`animals, entropy
      ensures Valid()
      ensures |placed| == Max(0, count)
      ensures forall i, j :: (i, j) in placed ==> InBounds(grid, i, j) && old(grid[i, j]) == Empty
      ensures forall i, j :: (i, j) in free && (i, j) !in placed ==> InBounds(grid, i, j) && grid[i, j] == Empty
      ensures forall i, j :: InBounds(grid, i, j) ==>
        grid[i, j] == if (i, j) in placed then CellType.Animal else old(grid[i, j])
      ensures |born| == Max(0, count) && animals == old(animals) + born
      ensures forall a :: a in born ==>
        fresh(a) && fresh(a.brain.rand) && a.Energy == StartEnergy && a.color == generation % PaletteSize &&
        (a.X, a.Y) in placed
      ensures old(Separated(grid, animals)) ==> Separated(grid, animals)
    {
      ghost var sep := Separated(grid, animals);
      born := [];
      placed := {};
      var i := 0;
      while i < count
        invariant 0 <= i <= Max(0, count)
        invariant Valid()
        invariant |placed| == i
        invariant forall i', j :: (i', j) in placed ==> InBounds(grid, i', j) && old(grid[i', j]) == Empty
        invariant forall i', j :: (i', j) in free && (i', j) !in placed ==> InBounds(grid, i', j) && grid[i', j] == Empty
        invariant forall i', j :: InBounds(grid, i', j) ==>
          grid[i', j] == if (i', j) in placed then CellType.Animal else old(grid[i', j])
        invariant |born| == i && animals == old(animals) + born
        invariant forall a :: a in born ==> fresh(a) && fresh(a.brain.rand)
        invariant forall a :: a in born ==> a.Energy == StartEnergy && a.color == generation % PaletteSize
        invariant forall a :: a in born ==> (a.X, a.Y) in placed
        invariant sep ==> Separated(grid, animals)
      {
        SomeEmptyCell(grid, free, placed);
        var x, y :| InBounds(grid, x, y) && grid[x, y] == Empty;
        var a := AddAnimal(x, y);
        assert old(animals) + (born + [a]) == old(animals) + born + [a];
        born := born + [a];
        placed := placed + {(x, y)};
        i := i + 1;
      }
    }

    /** The body of SpawnAnimals' loop: a new animal with a fresh brain on the Empty cell (x, y). */
    method AddAnimal(x: int, y: int) returns (a: Animal)
      requires Valid() && InBounds(grid, x, y) && grid[x, y] == Empty
      modifies grid, this`animals, entropy
      ensures Valid()
      ensures forall i, j :: InBounds(grid, i, j) ==>
        grid[i, j] == if i == x && j == y then CellType.Animal else old(grid[i, j])
      ensures animals == old(animals) + [a]
      ensures fresh(a) && fresh(a.brain.rand)
      ensures a.X == x && a.Y == y && a.Energy == StartEnergy && a.color == generation % PaletteSize
      ensures old(Separated(grid, animals)) ==> Separated(grid, animals)
    {
      a := new Animal(x, y, StartEnergy, entropy);
      a.color := generation % PaletteSize;
      Enroll(a);
    }

    /**
     * Adds `a` to the roster and marks its cell, which holds no Food. The
     * animals stay on distinct cells when that cell held no animal.
     */
    method Enroll(a: Animal)
      requires Valid() && a !in animals
      requires InBounds(grid, a.X, a.Y) && grid[a.X, a.Y] != Food
      requires 1 <= a.Energy <= MaxEnergy && a.color < PaletteSize && a.brain.Valid()
      modifies grid, this`animals
      ensures Valid()
      ensures animals == old(animals) + [a]
      ensures forall i, j :: InBounds(grid, i, j) ==>
        grid[i, j] == if i == a.X && j == a.Y then CellType.Animal else old(grid[i, j])
      ensures old(Separated(grid, animals)) && old(grid[a.X, a.Y]) != CellType.Animal ==> Separated(grid, animals)
    {
      animals := animals + [a];
      grid[a.X, a.Y] := CellType.Animal;
    }

    /** Puts Food on `count` Empty cells (chosen by the random draws, not modelled here). */
    method SpawnFood(count: int, ghost free: set<(int, int)>) returns (ghost placed: set<(int, int)>)
      requires Valid() && Separated(grid, animals) && count <= |free|
      requires forall i, j :: (i, j) in free ==> InBounds(grid, i, j) && grid[i, j] == Empty
      modifies grid
      ensures Valid() && Separated(grid, animals)
      ensures |placed| == Max(0, count)
      ensures forall i, j :: (i, j) in placed ==> InBounds(grid, i, j) && old(grid[i, j]) == Empty
      ensures forall i, j :: InBounds(grid, i, j) ==>
        grid[i, j] == if (i, j) in placed then Food else old(grid[i, j])
    {
      placed := {};
      var i := 0;
      while i < count
        invariant 0 <= i <= Max(0, count)
        invariant Valid() && Separated(grid, animals)
        invariant |placed| == i
        invariant forall i', j :: (i', j) in placed ==> InBounds(grid, i', j) && old(grid[i', j]) == Empty
        invariant forall i', j :: (i', j) in free && (i', j) !in placed ==> InBounds(grid, i', j) && grid[i', j] == Empty
        invariant forall i', j :: InBounds(grid, i', j) ==>
          grid[i', j] == if (i', j) in placed then Food else old(grid[i', j])
      {
        SomeEmptyCell(grid, free, placed);
        var x, y :| InBounds(grid, x, y) && grid[x, y] == Empty;
        grid[x, y] := Food;
        placed := placed + {(x, y)};
        i := i + 1;
      }
    }

    /**
     * The movement pass's step for animal `a`: its cell is cleared, it
     * updates, and then it eats the Food it stepped onto, or dies when its
     * energy is used up (leaving the roster and its cell Empty), or else
     * marks its cell. Nothing is eaten when the animal stayed put.
     */
    method MoveAnimal(a: Animal, tanh: real -> real) returns (ate: bool, died: bool, ghost move: Move)
      requires grid.Length0 == GridSize && grid.Length1 == GridSize
      requires InBounds(grid, a.X, a.Y) && a.brain.Valid()
      modifies grid, a`X, a`Y, a`Energy, this`animals
      ensures InBounds(grid, a.X, a.Y) && IsUnitMove(move)
      ensures var t := Target(grid, old(a.X), old(a.Y), move);
        if (t.0 != old(a.X) || t.1 != old(a.Y)) && old(grid[t.0, t.1]) == CellType.Animal
        then a.X == old(a.X) && a.Y == old(a.Y)
        else a.X == t.0 && a.Y == t.1
      ensures var x, y := a.X, a.Y; ate <==> (x != old(a.X) || y != old(a.Y)) && old(grid[x, y]) == Food
      ensures var x, y := a.X, a.Y; x != old(a.X) || y != old(a.Y) ==> old(grid[x, y]) != CellType.Animal
      ensures died <==> !ate && old(a.Energy) - 1 <= 0
      ensures a.Energy == EnergyAfter(old(a.Energy), ate)
      ensures animals == if died then RemoveFirst(old(animals), a) else old(animals)
      ensures forall b :: b in animals ==> b in old(animals)
      ensures 1 <= old(a.Energy) <= MaxEnergy && !died ==> 1 <= a.Energy <= MaxEnergy
      ensures forall i, j :: InBounds(grid, i, j) && grid[i, j] == Food ==> old(grid[i, j]) == Food
      ensures grid[a.X, a.Y] == if died then Empty else CellType.Animal
      ensures a.X != old(a.X) || a.Y != old(a.Y) ==> grid[old(a.X), old(a.Y)] == Empty
      ensures forall i, j :: InBounds(grid, i, j) && (i != a.X || j != a.Y) && (i != old(a.X) || j != old(a.Y)) ==>
        grid[i, j] == old(grid[i, j])
    {
      grid[a.X, a.Y] := Empty;
      ghost var food;
      food, move := a.Update(grid, tanh);
      ate, died := false, false;
      if grid[a.X, a.Y] == Food {
        a.Eat();
        grid[a.X, a.Y] := CellType.Animal;
        ate := true;
      } else if a.Energy <= 0 {
        died := true;
        animals := RemoveFirst(animals, a);
      } else {
        grid[a.X, a.Y] := CellType.Animal;
      }
    }

    /**
     * The roster after the first k animals of `snap` have moved: the
     * survivors among them followed by the rest.
     */
    ghost predicate RosterAt(snap: seq<Animal>, k: nat, died: seq<bool>)
      reads this
    {
      Distinct(snap) && k <= |snap| && |died| == k && animals == Survivors(snap[..k], died) + snap[k..]
    }

    ghost predicate AllOk()
      reads this, grid, animals
    {
      forall a :: a in animals ==> AnimalOk(grid, a)
    }

    /** The death record: the flag says some animal died, and the death cells hold no Food. */
    ghost predicate DeathLog(k: nat, someoneDied: bool, deadPositions: seq<(int, int)>, died: seq<bool>)
      reads grid
    {
      |died| == k &&
      (someoneDied <==> exists m :: 0 <= m < k && died[m]) &&
      |deadPositions| == Count(died) &&
      (forall i, j :: (i, j) in deadPositions ==> InBounds(grid, i, j) && grid[i, j] != Food)
    }

    /** Food is left exactly on the cells of `food0` not eaten, each eaten once. */
    ghost predicate FoodLog(food0: set<(int, int)>, eaten: seq<(int, int)>)
      reads grid
    {
      (forall i, j :: InBounds(grid, i, j) ==> (grid[i, j] == Food <==> (i, j) in food0 && (i, j) !in eaten)) &&
      (forall i, j :: (i, j) in eaten ==> (i, j) in food0) &&
      Distinct(eaten)
    }

    /**
     * Where the movement pass stands after the first k animals of `snap`
     * have moved; the animals stay on distinct cells if they started so (`sep`).
     */
    ghost predicate Pass(snap: seq<Animal>, k: nat, food0: set<(int, int)>, sep: bool,
                         someoneDied: bool, deadPositions: seq<(int, int)>, died: seq<bool>, eaten: seq<(int, int)>)
      reads this, grid, animals
    {
      grid.Length0 == GridSize && grid.Length1 == GridSize &&
      RosterAt(snap, k, died) && AllOk() && DeathLog(k, someoneDied, deadPositions, died) && FoodLog(food0, eaten) &&
      (sep ==> Separated(grid, animals))
    }

    /**
     * What happened to each of the first k animals of a pass whose
     * energies were `e0` before it: each ended with energy `en` on the cell
     * `cells`, `ate` flags those that ate and `died` those whose energy ran
     * out; the death cells and the eaten cells are the cells of the animals
     * so flagged, in order.
     */
    ghost predicate OutcomeLog(k: nat, e0: seq<int>, en: seq<int>, cells: seq<(int, int)>, died: seq<bool>,
                               ate: seq<bool>, deadPositions: seq<(int, int)>, eaten: seq<(int, int)>)
    {
      k <= |e0| && |en| == k && |cells| == k && |died| == k && |ate| == k &&
      (forall m :: 0 <= m < k ==> (died[m] <==> !ate[m] && e0[m] - 1 <= 0)) &&
      (forall m :: 0 <= m < k ==> en[m] == EnergyAfter(e0[m], ate[m])) &&
      deadPositions == Flagged(cells, died) && eaten == Flagged(cells, ate)
    }

    /** One more animal's outcome joins the log. */
    lemma LogStep(k: nat, e0: seq<int>, en: seq<int>, cells: seq<(int, int)>, died: seq<bool>, ate: seq<bool>,
                  deadPositions: seq<(int, int)>, eaten: seq<(int, int)>, cell: (int, int), e: int, dead: bool, ateNow: bool)
      requires OutcomeLog(k, e0, en, cells, died, ate, deadPositions, eaten) && k < |e0|
      requires dead <==> !ateNow && e0[k] - 1 <= 0
      requires e == EnergyAfter(e0[k], ateNow)
      ensures OutcomeLog(k + 1, e0, en + [e], cells + [cell], died + [dead], ate + [ateNow],
                         if dead then deadPositions + [cell] else deadPositions, if ateNow then eaten + [cell] else eaten)
    {
      FlaggedStep(cells, died, cell, dead);
      FlaggedStep(cells, ate, cell, ateNow);
    }

    /**
     * The first k animals of `snap` stand on `cells` with energies `en`;
     * the others still have their energies `e0` from before the pass.
     */
    ghost predicate Moved(snap: seq<Animal>, k: nat, e0: seq<int>, p0: seq<(int, int)>, en: seq<int>, cells: seq<(int, int)>)
      reads snap
    {
      k <= |snap| == |e0| == |p0| && |en| == k && |cells| == k &&
      (forall m :: 0 <= m < k ==> cells[m] == (snap[m].X, snap[m].Y) && snap[m].Energy == en[m]) &&
      (forall m :: k <= m < |snap| ==> snap[m].Energy == e0[m] && (snap[m].X, snap[m].Y) == p0[m])
    }

    /**
     * The Animal marks after the first k animals of a pass moved, where
     * `animal0` were the marked cells and `p0` the animals' cells before
     * it: a marked cell is an old mark not yet left by its animal or the
     * cell of a survivor, and an old mark that was no animal's cell stays.
     */
    ghost predicate Marks(animal0: set<(int, int)>, p0: seq<(int, int)>, k: nat, cells: seq<(int, int)>, died: seq<bool>)
      reads grid
    {
      k <= |p0| && |cells| == |died| &&
      (forall i, j :: InBounds(grid, i, j) && grid[i, j] == CellType.Animal ==>
        ((i, j) in animal0 && (i, j) !in p0[..k]) || (i, j) in Survivors(cells, died)) &&
      (forall i, j :: InBounds(grid, i, j) && (i, j) in animal0 && (i, j) !in p0 ==> grid[i, j] == CellType.Animal)
    }

    /** The Animal marks after a whole pass, stated of the set of marked cells. */
    lemma PassMarks(animal0: set<(int, int)>, p0: seq<(int, int)>, cells: seq<(int, int)>, died: seq<bool>)
      requires Marks(animal0, p0, |p0|, cells, died)
      requires forall p :: p in animal0 ==> InBounds(grid, p.0, p.1)
      ensures forall p :: p in Cells(grid, CellType.Animal) ==> (p in animal0 && p !in p0) || p in Survivors(cells, died)
      ensures forall p :: p in animal0 && p !in p0 ==> p in Cells(grid, CellType.Animal)
    {
      CellsMembers(grid, CellType.Animal);
      assert p0[..|p0|] == p0;
    }

    /**
     * The Animal marks after the k-th animal moved from its cell p0[k] =
     * (x0, y0) to (x1, y1), marking it unless it died: only those two
     * cells changed, and it moved only onto an unmarked cell.
     */
    twostate lemma StepKeepsMarks(new animal0: set<(int, int)>, new p0: seq<(int, int)>, new k: nat,
                                  new cells: seq<(int, int)>, new died: seq<bool>,
                                  new x0: int, new y0: int, new x1: int, new y1: int, new dead: bool)
      requires k < |p0| && |cells| == |died| && p0[k] == (x0, y0)
      requires forall i, j :: InBounds(grid, i, j) && old(grid[i, j]) == CellType.Animal ==>
        ((i, j) in animal0 && (i, j) !in p0[..k]) || (i, j) in Survivors(cells, died)
      requires forall i, j :: InBounds(grid, i, j) && (i, j) in animal0 && (i, j) !in p0 ==> old(grid[i, j]) == CellType.Animal
      requires InBounds(grid, x0, y0) && InBounds(grid, x1, y1) && grid[x1, y1] == (if dead then Empty else CellType.Animal)
      requires x1 != x0 || y1 != y0 ==> grid[x0, y0] == Empty && old(grid[x1, y1]) != CellType.Animal
      requires forall i, j :: InBounds(grid, i, j) && (i != x1 || j != y1) && (i != x0 || j != y0) ==>
        grid[i, j] == old(grid[i, j])
      ensures Marks(animal0, p0, k + 1, cells + [(x1, y1)], died + [dead])
    {
      var cells' := cells + [(x1, y1)];
      assert p0[..k + 1] == p0[..k] + [(x0, y0)];
      SurvivorsStep(cells', died, |cells|, dead);
      assert cells'[..|cells| + 1] == cells' && cells'[..|cells|] == cells;
      forall i, j | InBounds(grid, i, j) && grid[i, j] == CellType.Animal
        ensures ((i, j) in animal0 && (i, j) !in p0[..k + 1]) || (i, j) in Survivors(cells', died + [dead])
      {
        if (i != x1 || j != y1) && (i != x0 || j != y0) {
          assert old(grid[i, j]) == CellType.Animal;
        }
      }
      forall i, j | InBounds(grid, i, j) && (i, j) in animal0 && (i, j) !in p0
        ensures grid[i, j] == CellType.Animal
      {
        assert p0[k] in p0;
      }
    }

    /** The movement pass's loop body for animal snap[k]. */
    method MoveStep(snap: seq<Animal>, k: nat, a: Animal, tanh: real -> real, ghost food0: set<(int, int)>, ghost sep: bool,
                    ghost animal0: set<(int, int)>, ghost p0: seq<(int, int)>, ghost cells: seq<(int, int)>,
                    someoneDied: bool, deadPositions: seq<(int, int)>, ghost died: seq<bool>, ghost eaten: seq<(int, int)>)
      returns (ateNow: bool, dead: bool,
               someoneDied': bool, deadPositions': seq<(int, int)>, ghost died': seq<bool>, ghost eaten': seq<(int, int)>)
      requires k < |snap| && a == snap[k] && Pass(snap, k, food0, sep, someoneDied, deadPositions, died, eaten)
      requires Marks(animal0, p0, k, cells, died) && k < |p0| && p0[k] == (a.X, a.Y)
      modifies grid, this`animals, a`X, a`Y, a`Energy
      ensures Pass(snap, k + 1, food0, sep, someoneDied', deadPositions', died', eaten')
      ensures dead <==> !ateNow && old(a.Energy) - 1 <= 0
      ensures a.Energy == EnergyAfter(old(a.Energy), ateNow)
      ensures died' == died + [dead]
      ensures deadPositions' == if dead then deadPositions + [(a.X, a.Y)] else deadPositions
      ensures eaten' == if ateNow then eaten + [(a.X, a.Y)] else eaten
      ensures Marks(animal0, p0, k + 1, cells + [(a.X, a.Y)], died')
    {
      assert animals == Survivors(snap[..k], died) + snap[k..];
      SurvivorsRemoveStep(snap, k, died, false, animals, animals);
      ghost var x0, y0 := a.X, a.Y;
      ghost var move;
      ateNow, dead, move := MoveAnimal(a, tanh);
      ghost var x1, y1 := a.X, a.Y;
      SurvivorsRemoveStep(snap, k, died, dead, old(animals), animals);
      someoneDied', deadPositions', eaten' := someoneDied, deadPositions, eaten;
      if dead {
        someoneDied' := true;
        deadPositions' := deadPositions + [(a.X, a.Y)];
      }
      if ateNow {
        eaten' := eaten + [(a.X, a.Y)];
      }
      died' := died + [dead];
      StepKeepsOk(a);
      StepKeepsDeaths(k, someoneDied, deadPositions, died, someoneDied', deadPositions', dead, x1, y1);
      StepKeepsFood(food0, eaten, eaten', x0, y0, x1, y1, ateNow);
      StepKeepsMarks(animal0, p0, k, cells, died, x0, y0, x1, y1, dead);
      if sep {
        StepKeepsSeparated(a, x0, y0, x1, y1, dead);
      }
    }

    /** The pass's outcomes, stated of the animals' cells and energies before and after the pass. */
    twostate lemma PassOutcomes(snap: seq<Animal>, new e0: seq<int>, new p0: seq<(int, int)>, new en: seq<int>,
                                new cells: seq<(int, int)>,
                                new died: seq<bool>, new ate: seq<bool>, new deadPositions: seq<(int, int)>,
                                new eaten: seq<(int, int)>)
      requires OutcomeLog(|snap|, e0, en, cells, died, ate, deadPositions, eaten) && Moved(snap, |snap|, e0, p0, en, cells)
      requires e0 == old(Energies(snap)) && forall m :: 0 <= m < |e0| ==> e0[m] >= 1
      ensures cells == Positions(snap)
      ensures died == Starved(e0, ate) && Energies(snap) == PassEnergies(e0, ate)
      ensures OutOfEnergy(died, PassEnergies(e0, ate))
    {
      StarvedIffSpent(e0, ate);
    }

    /** MoveStep, recording the moved animal's cell, energy and outcome. */
    method TrackStep(snap: seq<Animal>, k: nat, a: Animal, tanh: real -> real, ghost food0: set<(int, int)>, ghost sep: bool,
                     ghost e0: seq<int>, ghost animal0: set<(int, int)>, ghost p0: seq<(int, int)>,
                     ghost en: seq<int>, ghost cells: seq<(int, int)>, ghost ate: seq<bool>, someoneDied: bool, deadPositions: seq<(int, int)>, ghost died: seq<bool>, ghost eaten: seq<(int, int)>)
      returns (ghost en': seq<int>, ghost cells': seq<(int, int)>, ghost ate': seq<bool>,
               someoneDied': bool, deadPositions': seq<(int, int)>, ghost died': seq<bool>, ghost eaten': seq<(int, int)>)
      requires k < |snap| && a == snap[k] && Distinct(snap) && Pass(snap, k, food0, sep, someoneDied, deadPositions, died, eaten)
      requires OutcomeLog(k, e0, en, cells, died, ate, deadPositions, eaten) && Moved(snap, k, e0, p0, en, cells)
      requires Marks(animal0, p0, k, cells, died)
      modifies grid, this`animals, a`X, a`Y, a`Energy
      ensures Pass(snap, k + 1, food0, sep, someoneDied', deadPositions', died', eaten')
      ensures OutcomeLog(k + 1, e0, en', cells', died', ate', deadPositions', eaten') && Moved(snap, k + 1, e0, p0, en', cells')
      ensures Marks(animal0, p0, k + 1, cells', died')
    {
      var ateNow, dead;
      ateNow, dead, someoneDied', deadPositions', died', eaten' :=
        MoveStep(snap, k, a, tanh, food0, sep, animal0, p0, cells, someoneDied, deadPositions, died, eaten);
      en', cells', ate' := en + [a.Energy], cells + [(a.X, a.Y)], ate + [ateNow];
      LogStep(k, e0, en, cells, died, ate, deadPositions, eaten, (a.X, a.Y), a.Energy, dead, ateNow);
      OthersStay(snap, k, a);
    }

    /** When only `a`, the k-th animal of `snap`, moved, the others keep their cells and energies. */
    twostate lemma OthersStay(snap: seq<Animal>, new k: nat, new a: Animal)
      requires Distinct(snap) && k < |snap| && a == snap[k]
      requires forall b: Animal :: old(allocated(b)) && b != a ==> b.X == old(b.X) && b.Y == old(b.Y) && b.Energy == old(b.Energy)
      ensures forall m :: 0 <= m < |snap| && m != k ==>
        snap[m].X == old(snap[m].X) && snap[m].Y == old(snap[m].Y) && snap[m].Energy == old(snap[m].Energy)
    {
      forall m | 0 <= m < |snap| && m != k
        ensures snap[m].X == old(snap[m].X) && snap[m].Y == old(snap[m].Y) && snap[m].Energy == old(snap[m].Energy)
      {
        assert snap[m] != a;
      }
    }

    /** A movement step that creates no Food keeps every animal's facts. */
    twostate lemma StepKeepsOk(a: Animal)
      requires old(AllOk()) && a in old(animals)
      requires forall b :: b in animals ==> b in old(animals)
      requires a in animals ==> AnimalOk(grid, a)
      requires forall b :: b in old(animals) && b != a ==>
        b.X == old(b.X) && b.Y == old(b.Y) && b.Energy == old(b.Energy) && b.color == old(b.color)
      requires forall i, j :: InBounds(grid, i, j) && grid[i, j] == Food ==> old(grid[i, j]) == Food
      ensures AllOk()
    {
      forall b | b in animals
        ensures AnimalOk(grid, b)
      {
        if b != a {
          assert old(AnimalOk(grid, b));
        }
      }
    }

    /** The death record after one more animal moved, dying at (x1, y1) when `dead`. */
    twostate lemma StepKeepsDeaths(new k: nat, new someoneDied: bool, new deadPositions: seq<(int, int)>, new died: seq<bool>,
                                   new someoneDied': bool, new deadPositions': seq<(int, int)>, new dead: bool, new x1: int, new y1: int)
      requires |died| == k && (someoneDied <==> exists m :: 0 <= m < k && died[m])
      requires |deadPositions| == Count(died)
      requires forall i, j :: (i, j) in deadPositions ==> InBounds(grid, i, j) && old(grid[i, j]) != Food
      requires InBounds(grid, x1, y1) && (dead ==> grid[x1, y1] != Food)
      requires forall i, j :: InBounds(grid, i, j) && grid[i, j] == Food ==> old(grid[i, j]) == Food
      requires someoneDied' == (someoneDied || dead)
      requires deadPositions' == if dead then deadPositions + [(x1, y1)] else deadPositions
      ensures DeathLog(k + 1, someoneDied', deadPositions', died + [dead])
    {
      assert (died + [dead])[..k] == died;
      if someoneDied {
        var m :| 0 <= m < k && died[m];
        assert (died + [dead])[m];
      }
      if dead {
        assert (died + [dead])[k];
      }
    }

    /**
     * The Food record after one animal moved from (x0, y0) to (x1, y1),
     * leaving both cells without Food and eating at (x1, y1) when `ate`.
     */
    twostate lemma StepKeepsFood(new food0: set<(int, int)>, new eaten: seq<(int, int)>, new eaten': seq<(int, int)>,
                                 new x0: int, new y0: int, new x1: int, new y1: int, new ate: bool)
      requires forall i, j :: InBounds(grid, i, j) ==> (old(grid[i, j]) == Food <==> (i, j) in food0 && (i, j) !in eaten)
      requires forall i, j :: (i, j) in eaten ==> (i, j) in food0
      requires Distinct(eaten)
      requires InBounds(grid, x0, y0) && old(grid[x0, y0]) != Food
      requires InBounds(grid, x1, y1) && grid[x1, y1] != Food && grid[x0, y0] != Food
      requires forall i, j :: InBounds(grid, i, j) && (i != x1 || j != y1) && (i != x0 || j != y0) ==>
        grid[i, j] == old(grid[i, j])
      requires ate <==> (x1 != x0 || y1 != y0) && old(grid[x1, y1]) == Food
      requires eaten' == if ate then eaten + [(x1, y1)] else eaten
      ensures FoodLog(food0, eaten')
    {
      forall i, j | InBounds(grid, i, j)
        ensures grid[i, j] == Food <==> (i, j) in food0 && (i, j) !in eaten'
      {
        if (i != x1 || j != y1) && (i != x0 || j != y0) {
          assert grid[i, j] == old(grid[i, j]);
        }
      }
      if ate {
        assert (x1, y1) !in eaten;
        forall m, n | 0 <= m < n < |eaten'|
          ensures eaten'[m] != eaten'[n]
        {
          if n == |eaten| {
            assert eaten'[m] == eaten[m] && eaten[m] in eaten;
          } else {
            assert eaten'[m] == eaten[m] && eaten'[n] == eaten[n];
          }
        }
      }
    }

    /**
     * Animals stay on distinct marked cells when `a` moved from (x0, y0)
     * only onto a cell no animal held, and left the roster if it died.
     */
    twostate lemma StepKeepsSeparated(a: Animal, new x0: int, new y0: int, new x1: int, new y1: int, new dead: bool)
      requires old(Separated(grid, animals)) && a in old(animals) && old(a.X) == x0 && old(a.Y) == y0
      requires a.X == x1 && a.Y == y1
      requires forall b :: b in animals ==> b in old(animals)
      requires dead ==> a !in animals
      requires forall b :: b in old(animals) && b != a ==> b.X == old(b.X) && b.Y == old(b.Y)
      requires InBounds(grid, a.X, a.Y) && (!dead ==> grid[a.X, a.Y] == CellType.Animal)
      requires x1 != x0 || y1 != y0 ==> old(grid[x1, y1]) != CellType.Animal
      requires forall i, j :: InBounds(grid, i, j) && (i != a.X || j != a.Y) && (i != x0 || j != y0) ==>
        grid[i, j] == old(grid[i, j])
      ensures Separated(grid, animals)
    {
      forall b | b in animals && b != a
        ensures b.X != x0 || b.Y != y0
        ensures b.X != a.X || b.Y != a.Y
        ensures grid[b.X, b.Y] == CellType.Animal
      {
        assert b in old(animals);
      }
    }

    /**
     * The movement pass over a snapshot of the roster: every animal moves
     * in roster order. `died` flags the animals that died, `eaten` lists
     * the Food cells eaten, and `deadPositions` the cells where animals
     * died, in order; the roster keeps exactly the animals that lived.
     */
    method MovePass(tanh: real -> real)
      returns (someoneDied: bool, deadPositions: seq<(int, int)>, ghost died: seq<bool>, ghost eaten: seq<(int, int)>,
               ghost ate: seq<bool>, ghost cells: seq<(int, int)>)
      requires Valid()
      modifies grid, this`animals, animals`X, animals`Y, animals`Energy
      ensures Valid()
      ensures |died| == |old(animals)| && animals == Survivors(old(animals), died)
      ensures someoneDied <==> exists k :: 0 <= k < |died| && died[k]
      ensures |deadPositions| == Count(died)
      ensures forall i, j :: (i, j) in deadPositions ==> InBounds(grid, i, j) && grid[i, j] != Food
      ensures forall i, j :: InBounds(grid, i, j) ==>
        (grid[i, j] == Food <==> old(grid[i, j]) == Food && (i, j) !in eaten)
      ensures forall i, j :: (i, j) in eaten ==> InBounds(grid, i, j) && old(grid[i, j]) == Food
      ensures Distinct(eaten)
      ensures old(Separated(grid, animals)) ==> Separated(grid, animals)
      ensures |ate| == |cells| == |old(animals)|
      ensures cells == Positions(old(animals))
      ensures died == Starved(old(Energies(animals)), ate)
      ensures Energies(old(animals)) == PassEnergies(old(Energies(animals)), ate)
      ensures OutOfEnergy(died, Energies(old(animals)))
      ensures deadPositions == Flagged(cells, died) && eaten == Flagged(cells, ate)
      ensures forall p :: p in Cells(grid, CellType.Animal) ==>
        (p in old(Cells(grid, CellType.Animal)) && p !in old(Positions(animals))) || p in Survivors(cells, died)
      ensures forall p :: p in old(Cells(grid, CellType.Animal)) && p !in old(Positions(animals)) ==>
        p in Cells(grid, CellType.Animal)
      ensures old(Separated(grid, animals)) ==> forall p :: p in Survivors(cells, died) ==> p in Cells(grid, CellType.Animal)
    {
      var snap := animals;
      ghost var animal0 := Cells(grid, CellType.Animal);
      CellsMembers(grid, CellType.Animal);
      ghost var p0 := Positions(snap);
      ghost var food0 := Cells(grid, Food);
      CellsMembers(grid, Food);
      ghost var e0 := Energies(snap);
      EnergiesPositive(grid, snap, e0);
      ghost var sep := Separated(grid, animals);
      assert snap[0..] == snap;
      ghost var en;
      someoneDied, deadPositions, died, eaten, ate, cells, en := MoveLoop(snap, tanh, food0, sep, e0, animal0, p0);
      PassRoster(snap, food0, sep, someoneDied, deadPositions, died, eaten);
      PassOutcomes(snap, e0, p0, en, cells, died, ate, deadPositions, eaten);
      PassMarks(animal0, p0, cells, died);
      if sep {
        SurvivorCells(grid, snap, died, cells);
      }
    }

    /**
     * The movement pass as the timer tick uses it: MovePass's facts about
     * the roster, the death cells and the Animal marks, without the
     * energies, with the Food left stated as a set and counted.
     */
    method MoveRoster(tanh: real -> real)
      returns (someoneDied: bool, deadPositions: seq<(int, int)>, ghost died: seq<bool>, ghost eaten: seq<(int, int)>,
               ghost ate: seq<bool>, ghost cells: seq<(int, int)>)
      requires Valid()
      modifies grid, this`animals, animals`X, animals`Y, animals`Energy
      ensures Valid()
      ensures |died| == |old(animals)| && animals == Survivors(old(animals), died)
      ensures |animals| == |old(animals)| - Count(died) && |deadPositions| == Count(died)
      ensures someoneDied <==> exists k :: 0 <= k < |died| && died[k]
      ensures someoneDied <==> deadPositions != []
      ensures forall i, j :: (i, j) in deadPositions ==> InBounds(grid, i, j) && grid[i, j] != Food
      ensures |Cells(grid, Food)| == |old(Cells(grid, Food))| - Count(ate)
      ensures Cells(grid, Food) == old(Cells(grid, Food)) - (set p | p in eaten)
      ensures forall m :: 0 <= m < |eaten| ==> eaten[m] in old(Cells(grid, Food))
      ensures Distinct(eaten)
      ensures old(Separated(grid, animals)) ==> Separated(grid, animals)
      ensures |ate| == |cells| == |old(animals)|
      ensures cells == Positions(old(animals))
      ensures deadPositions == Flagged(cells, died) && eaten == Flagged(cells, ate)
      ensures forall p :: p in Cells(grid, CellType.Animal) ==>
        (p in old(Cells(grid, CellType.Animal)) && p !in old(Positions(animals))) || p in Survivors(cells, died)
      ensures forall p :: p in old(Cells(grid, CellType.Animal)) && p !in old(Positions(animals)) ==>
        p in Cells(grid, CellType.Animal)
      ensures old(Separated(grid, animals)) ==> forall p :: p in Survivors(cells, died) ==> p in Cells(grid, CellType.Animal)
    {
      ghost var food0 := Cells(grid, Food);
      CellsMembers(grid, Food);
      ghost var snap := animals;
      someoneDied, deadPositions, died, eaten, ate, cells := MovePass(tanh);
      SurvivorsCount(snap, died);
      CountPositive(died);
      FoodEaten(food0, eaten);
      forall m | 0 <= m < |eaten|
        ensures eaten[m] in food0
      {
        var e := eaten[m];
        assert (e.0, e.1) in eaten;
      }
    }

    /** MovePass on the roster `snap`, its Food cells `food0` and its animals' energies `e0`. */
    method MoveLoop(snap: seq<Animal>, tanh: real -> real, ghost food0: set<(int, int)>, ghost sep: bool, ghost e0: seq<int>,
                    ghost animal0: set<(int, int)>, ghost p0: seq<(int, int)>)
      returns (someoneDied: bool, deadPositions: seq<(int, int)>, ghost died: seq<bool>, ghost eaten: seq<(int, int)>,
               ghost ate: seq<bool>, ghost cells: seq<(int, int)>, ghost en: seq<int>)
      requires Pass(snap, 0, food0, sep, false, [], [], []) && Moved(snap, 0, e0, p0, [], [])
      requires Marks(animal0, p0, 0, [], [])
      modifies grid, this`animals, snap`X, snap`Y, snap`Energy
      ensures Pass(snap, |snap|, food0, sep, someoneDied, deadPositions, died, eaten)
      ensures OutcomeLog(|snap|, e0, en, cells, died, ate, deadPositions, eaten) && Moved(snap, |snap|, e0, p0, en, cells)
      ensures Marks(animal0, p0, |snap|, cells, died)
    {
      someoneDied, deadPositions, died, eaten := false, [], [], [];
      ate, cells, en := [], [], [];
      for k := 0 to |snap|
        invariant Pass(snap, k, food0, sep, someoneDied, deadPositions, died, eaten)
        invariant OutcomeLog(k, e0, en, cells, died, ate, deadPositions, eaten) && Moved(snap, k, e0, p0, en, cells)
        invariant Marks(animal0, p0, k, cells, died)
      {
        en, cells, ate, someoneDied, deadPositions, died, eaten :=
          TrackStep(snap, k, snap[k], tanh, food0, sep, e0, animal0, p0, en, cells, ate, someoneDied, deadPositions, died, eaten);
      }
    }

    /** A finished movement pass over `snap`, the roster at its start: the roster, Food and death facts. */
    twostate lemma PassRoster(snap: seq<Animal>, new food0: set<(int, int)>, new sep: bool, new someoneDied: bool,
                              new deadPositions: seq<(int, int)>, new died: seq<bool>, new eaten: seq<(int, int)>)
      requires old(Valid()) && snap == old(animals) && rand.Valid() && entropy.Valid()
      requires forall i, j :: (i, j) in food0 <==> InBounds(grid, i, j) && old(grid[i, j]) == Food
      requires sep == old(Separated(grid, animals))
      requires Pass(snap, |snap|, food0, sep, someoneDied, deadPositions, died, eaten)
      ensures Valid()
      ensures |died| == |old(animals)| && animals == Survivors(old(animals), died)
      ensures someoneDied <==> exists k :: 0 <= k < |died| && died[k]
      ensures |deadPositions| == Count(died)
      ensures forall i, j :: (i, j) in deadPositions ==> InBounds(grid, i, j) && grid[i, j] != Food
      ensures forall i, j :: InBounds(grid, i, j) ==>
        (grid[i, j] == Food <==> old(grid[i, j]) == Food && (i, j) !in eaten)
      ensures forall i, j :: (i, j) in eaten ==> InBounds(grid, i, j) && old(grid[i, j]) == Food
      ensures Distinct(eaten)
      ensures old(Separated(grid, animals)) ==> Separated(grid, animals)
    {
      assert snap[..|snap|] == snap && snap[|snap|..] == [];
      assert animals == Survivors(snap, died);
      SurvivorsDistinct(snap, died);
    }

    /**
     * The brain of one replacement. With survivors and a positive Lifetime
     * total, a draw below the total picks the first survivor whose running
     * Lifetime sum exceeds it; with survivors but a zero total, a uniform
     * draw picks one; the chosen parent's brain is cloned and mutated with
     * its own generator. With no survivors the brain is a fresh random
     * network. `parent` is the chosen index into `survivors`, or -1, and
     * `cursor` the parent generator's position when the clone was taken.
     */
    method Breed(survivors: seq<Animal>, total: nat, ghost rands: set<Random>)
      returns (brain: NeuralNetwork, ghost parent: int, ghost cursor: nat)
      requires rand.Valid() && entropy.Valid()
      requires forall a :: a in survivors ==> a.brain.Valid() && a.brain.rand in rands
      requires total == LifetimeSum(survivors, |survivors|)
      modifies rand, entropy, rands
      ensures fresh(brain) && fresh(brain.rand) && brain.Valid() && entropy.next == old(entropy.next) + 1
      ensures -1 <= parent < |survivors| && (parent == -1 <==> survivors == [])
      ensures survivors != [] && total > 0 ==>
        var r := Scale(rand.source(old(rand.cursor)), total);
        r < LifetimeSum(survivors, parent + 1) && forall k :: 1 <= k <= parent ==> r >= LifetimeSum(survivors, k)
      ensures survivors != [] && total > 0 ==> survivors[parent].Lifetime > 0
      ensures survivors != [] && total == 0 ==> parent == Scale(rand.source(old(rand.cursor)), |survivors|)
      ensures parent >= 0 ==>
        var p := survivors[parent].brain;
        cursor == old(p.rand.cursor) + (if p.rand == rand then 1 else 0) &&
        brain.Weights() == Mutated(p.Weights(), p.rand.source, cursor, MutationRate, MutationStrength).0 &&
        WithinMutation(p.Weights(), brain.Weights(), MutationStrength)
    {
      cursor := 0;
      var pick;
      if |survivors| > 0 && total > 0 {
        var r := rand.Next(total);
        pick := SelectParent(survivors, r);
        if pick < 0 {
          assert false;
        }
      } else if |survivors| > 0 {
        pick := rand.Next(|survivors|);
      } else {
        parent := -1;
        brain := new NeuralNetwork(entropy);
        return;
      }
      parent := pick;
      var p := survivors[pick].GetBrain();
      cursor := p.rand.cursor;
      brain := p.CloneAndMutate(MutationRate, MutationStrength, entropy);
      MutatedWithinStrength(p.Weights(), p.rand.source, cursor, MutationRate, MutationStrength);
    }

    /**
     * The replacement for the animal that died at (x, y): the cell chosen
     * by FindSpawnCell is marked, and an animal with the start energy, the
     * generation's colour and a brain bred from `survivors` joins the
     * roster. When no cell near (x, y) was free (`free` false), the new
     * animal shares (x, y) with the animal already there. `rands` holds
     * the survivors' brain generators, which breeding may advance.
     */
    method SpawnReplacement(survivors: seq<Animal>, total: nat, radius: int, x: int, y: int, ghost rands: set<Random>)
      returns (a: Animal, ghost free: bool, ghost parent: int)
      requires Valid() && InBounds(grid, x, y) && grid[x, y] != Food
      requires forall b :: b in survivors ==> b.brain.Valid() && b.brain.rand in rands
      requires total == LifetimeSum(survivors, |survivors|)
      modifies grid, this`animals, rand, entropy, rands
      ensures Valid() && animals == old(animals) + [a]
      ensures fresh(a) && fresh(a.brain.rand) && a.Energy == StartEnergy && a.color == generation % PaletteSize && a.brain.Valid()
      ensures old(grid[x, y]) != CellType.Animal ==> a.X == x && a.Y == y
      ensures var sx, sy := a.X, a.Y; old(grid[x, y]) == CellType.Animal && free ==>
        old(FreeNear(grid, x, y, radius, sx - x, sy - y)) &&
        forall rx, ry :: old(FreeNear(grid, x, y, radius, rx, ry)) ==> !Before(rx, ry, sx - x, sy - y)
      ensures old(grid[x, y]) == CellType.Animal && !free ==>
        a.X == x && a.Y == y && forall rx, ry :: !old(FreeNear(grid, x, y, radius, rx, ry))
      ensures radius >= 0 ==> -radius <= a.X - x <= radius && -radius <= a.Y - y <= radius
      ensures InBounds(grid, a.X, a.Y) && var sx, sy := a.X, a.Y;
        old(grid[sx, sy]) != Food && (free <==> old(grid[sx, sy]) != CellType.Animal)
      ensures forall i, j :: InBounds(grid, i, j) ==>
        grid[i, j] == if i == a.X && j == a.Y then CellType.Animal else old(grid[i, j])
      ensures old(Separated(grid, animals)) && free ==> Separated(grid, animals)
      ensures -1 <= parent < |survivors| && (parent == -1 <==> survivors == [])
      ensures parent >= 0 && total > 0 ==> survivors[parent].Lifetime > 0
    {
      var sx, sy, found := FindSpawnCell(grid, x, y, radius);
      forall rx, ry
        ensures old(FreeNear(grid, x, y, radius, rx, ry)) == FreeNear(grid, x, y, radius, rx, ry)
      {
      }
      free := found;
      a, parent := Replace(survivors, total, sx, sy, rands);
    }

    /** A replacement bred from `survivors` on the cell (x, y), chosen already. */
    method Replace(survivors: seq<Animal>, total: nat, x: int, y: int, ghost rands: set<Random>)
      returns (a: Animal, ghost parent: int)
      requires Valid() && InBounds(grid, x, y) && grid[x, y] != Food
      requires forall b :: b in survivors ==> b.brain.Valid() && b.brain.rand in rands
      requires total == LifetimeSum(survivors, |survivors|)
      modifies grid, this`animals, rand, entropy, rands
      ensures Valid() && animals == old(animals) + [a]
      ensures fresh(a) && fresh(a.brain.rand) && a.X == x && a.Y == y && a.Energy == StartEnergy && a.color == generation % PaletteSize
      ensures a.brain.Valid()
      ensures forall i, j :: InBounds(grid, i, j) ==>
        grid[i, j] == if i == x && j == y then CellType.Animal else old(grid[i, j])
      ensures old(Separated(grid, animals)) && old(grid[x, y]) != CellType.Animal ==> Separated(grid, animals)
      ensures -1 <= parent < |survivors| && (parent == -1 <==> survivors == [])
      ensures parent >= 0 && total > 0 ==> survivors[parent].Lifetime > 0
    {
      var brain, p, _ := Breed(survivors, total, rands);
      parent := p;
      Untouched();
      a := Place(x, y, brain);
    }

    /** A new animal with the start energy, the generation's colour and `brain`, on the cell (x, y). */
    method Place(x: int, y: int, brain: NeuralNetwork) returns (a: Animal)
      requires Valid() && InBounds(grid, x, y) && grid[x, y] != Food && brain.Valid()
      modifies grid, this`animals
      ensures Valid() && animals == old(animals) + [a]
      ensures fresh(a) && a.X == x && a.Y == y && a.Energy == StartEnergy && a.color == generation % PaletteSize
      ensures a.brain == brain
      ensures forall i, j :: InBounds(grid, i, j) ==>
        grid[i, j] == if i == x && j == y then CellType.Animal else old(grid[i, j])
      ensures old(Separated(grid, animals)) && old(grid[x, y]) != CellType.Animal ==> Separated(grid, animals)
    {
      a := new Animal.WithBrain(x, y, StartEnergy, brain);
      a.color := generation % PaletteSize;
      Enroll(a);
    }

    /** A step that moves no animal and does not touch the board keeps the world's facts. */
    twostate lemma Untouched()
      requires old(Valid()) && animals == old(animals)
      requires forall b :: b in animals ==> b.X == old(b.X) && b.Y == old(b.Y) && b.Energy == old(b.Energy) && b.color == old(b.color)
      requires forall i, j :: InBounds(grid, i, j) ==> grid[i, j] == old(grid[i, j])
      ensures Valid() && (old(Separated(grid, animals)) ==> Separated(grid, animals))
    {
      forall b | b in animals
        ensures AnimalOk(grid, b)
      {
        assert old(AnimalOk(grid, b));
      }
    }

    /**
     * The replacement pass after a movement pass in which some animal died:
     * a new generation begins, and for each death cell in order a
     * replacement is placed within the spawn radius for the current
     * population and bred from the animals alive at the start of the pass.
     * `born` lists the replacements and `spots` their cells, in order;
     * `frees[k]` says the k-th replacement found its cell free of animals,
     * and a replacement that did not shares its death cell with the animal
     * already there.
     */
    method ReplacePass(deadPositions: seq<(int, int)>)
      returns (ghost born: seq<Animal>, ghost spots: seq<(int, int)>, ghost frees: seq<bool>)
      requires Valid()
      requires forall i, j :: (i, j) in deadPositions ==> InBounds(grid, i, j) && grid[i, j] != Food
      modifies grid, this`animals, this`generation, rand, entropy, set a | a in animals :: a.brain.rand
      ensures Valid() && generation == old(generation) + 1
      ensures |born| == |deadPositions| && animals == old(animals) + born
      ensures forall a :: a in born ==> fresh(a) && fresh(a.brain.rand) && a.Energy == StartEnergy && a.color == generation % PaletteSize
      ensures var radius := SpawnRadius(|old(animals)|);
        forall k :: 0 <= k < |born| ==>
          -radius <= born[k].X - deadPositions[k].0 <= radius && -radius <= born[k].Y - deadPositions[k].1 <= radius
      ensures forall i, j :: InBounds(grid, i, j) ==> (grid[i, j] == Food <==> old(grid[i, j]) == Food)
      ensures spots == Positions(born) && |frees| == |born|
      ensures forall i, j :: InBounds(grid, i, j) ==>
        (grid[i, j] == CellType.Animal <==> old(grid[i, j]) == CellType.Animal || (i, j) in spots)
      ensures forall k :: 0 <= k < |born| ==>
        (frees[k] <==> spots[k] !in old(Cells(grid, CellType.Animal)) && spots[k] !in spots[..k])
      ensures forall k :: 0 <= k < |born| && !frees[k] ==> spots[k] == deadPositions[k]
      ensures old(Separated(grid, animals)) && (forall k :: 0 <= k < |frees| ==> frees[k]) ==> Separated(grid, animals)
    {
      ghost var rands := set a | a in animals :: a.brain.rand;
      ghost var sep := Separated(grid, animals);
      ghost var food0 := Cells(grid, Food);
      CellsMembers(grid, Food);
      ghost var animal0 := Cells(grid, CellType.Animal);
      CellsMembers(grid, CellType.Animal);
      generation := generation + 1;
      var survivors := animals;
      var radius := SpawnRadius(|animals|);
      var total := LifetimeSum(animals, |animals|);
      born, spots, frees := ReplaceLoop(survivors, rands, total, radius, food0, sep, animal0, deadPositions);
    }

    /** The replacement pass's loop over the death cells, from the state the pass set up. */
    method ReplaceLoop(survivors: seq<Animal>, ghost rands: set<Random>, total: nat, radius: int, ghost food0: set<(int, int)>,
                       ghost sep: bool, ghost animal0: set<(int, int)>, deadPositions: seq<(int, int)>)
      returns (ghost born: seq<Animal>, ghost spots: seq<(int, int)>, ghost frees: seq<bool>)
      requires radius >= 0
      requires Replacing(survivors, rands, total, radius, food0, deadPositions, 0, [])
      requires Placed(sep, animal0, deadPositions, 0, [], [], [])
      modifies grid, this`animals, rand, entropy, rands
      ensures Replacing(survivors, rands, total, radius, food0, deadPositions, |deadPositions|, born)
      ensures Placed(sep, animal0, deadPositions, |deadPositions|, born, spots, frees)
      ensures forall a :: a in born ==> fresh(a) && fresh(a.brain.rand)
    {
      born, spots, frees := [], [], [];
      for k := 0 to |deadPositions|
        invariant Replacing(survivors, rands, total, radius, food0, deadPositions, k, born)
        invariant Placed(sep, animal0, deadPositions, k, born, spots, frees)
        invariant forall a :: a in born ==> fresh(a) && fresh(a.brain.rand)
      {
        var a;
        ghost var free;
        a, free := ReplaceStep(survivors, rands, total, radius, food0, sep, animal0, deadPositions, k, born, spots, frees);
        born, spots, frees := born + [a], spots + [(a.X, a.Y)], frees + [free];
      }
    }

    /**
     * Where the replacement pass stands after the first k death cells:
     * the roster is the survivors followed by their replacements, and Food
     * is where it was (`food0`).
     */
    ghost predicate Replacing(survivors: seq<Animal>, rands: set<Random>, total: nat, radius: int, food0: set<(int, int)>,
                              deadPositions: seq<(int, int)>, k: nat, born: seq<Animal>)
      reads this, grid, animals, survivors, born
    {
      Valid() && k <= |deadPositions| && |born| == k && animals == survivors + born &&
      (forall b :: b in survivors ==> b.brain.Valid() && b.brain.rand in rands) &&
      total == LifetimeSum(survivors, |survivors|) &&
      (forall a :: a in born ==> a.Energy == StartEnergy && a.color == generation % PaletteSize) &&
      (forall m :: 0 <= m < k ==>
        -radius <= born[m].X - deadPositions[m].0 <= radius && -radius <= born[m].Y - deadPositions[m].1 <= radius) &&
      (forall i, j :: InBounds(grid, i, j) ==> (grid[i, j] == Food <==> (i, j) in food0)) &&
      (forall i, j :: (i, j) in deadPositions ==> InBounds(grid, i, j) && (i, j) !in food0)
    }

    /**
     * The cells of the first k replacements: they stand on `spots`, the
     * Animal cells are those of `animal0` and `spots`, the m-th found its
     * cell free of animals exactly when `frees[m]`, and one that did not
     * stands on its death cell; the animals stay on distinct cells if they
     * started so (`sep`) and every replacement found a free cell.
     */
    ghost predicate Placed(sep: bool, animal0: set<(int, int)>, deadPositions: seq<(int, int)>, k: nat, born: seq<Animal>,
                           spots: seq<(int, int)>, frees: seq<bool>)
      reads this, grid, animals, born
    {
      k <= |deadPositions| && |born| == k && |spots| == k && |frees| == k &&
      (forall m :: 0 <= m < k ==> spots[m] == (born[m].X, born[m].Y)) &&
      (forall i, j :: InBounds(grid, i, j) ==> (grid[i, j] == CellType.Animal <==> (i, j) in animal0 || (i, j) in spots)) &&
      (forall m :: 0 <= m < k ==> (frees[m] <==> spots[m] !in animal0 && spots[m] !in spots[..m])) &&
      (forall m :: 0 <= m < k && !frees[m] ==> spots[m] == deadPositions[m]) &&
      (sep && (forall m :: 0 <= m < k ==> frees[m]) ==> Separated(grid, animals))
    }

    /** The replacement pass's loop body for death cell k. */
    method ReplaceStep(survivors: seq<Animal>, ghost rands: set<Random>, total: nat, radius: int, ghost food0: set<(int, int)>,
                       ghost sep: bool, ghost animal0: set<(int, int)>, deadPositions: seq<(int, int)>, k: nat,
                       ghost born: seq<Animal>, ghost spots: seq<(int, int)>, ghost frees: seq<bool>)
      returns (a: Animal, ghost free: bool)
      requires k < |deadPositions| && radius >= 0
      requires Replacing(survivors, rands, total, radius, food0, deadPositions, k, born)
      requires Placed(sep, animal0, deadPositions, k, born, spots, frees)
      modifies grid, this`animals, rand, entropy, rands
      ensures fresh(a) && fresh(a.brain.rand) && Replacing(survivors, rands, total, radius, food0, deadPositions, k + 1, born + [a])
      ensures Placed(sep, animal0, deadPositions, k + 1, born + [a], spots + [(a.X, a.Y)], frees + [free])
    {
      var d := deadPositions[k];
      assert d == (d.0, d.1) && (d.0, d.1) in deadPositions;
      ghost var parent;
      a, free, parent := SpawnReplacement(survivors, total, radius, d.0, d.1, rands);
      assert survivors + (born + [a]) == survivors + born + [a];
      assert (spots + [(a.X, a.Y)])[..k] == spots;
      assert forall m :: 0 <= m < k ==> (spots + [(a.X, a.Y)])[..m] == spots[..m];
    }

    /**
     * One timer tick: the movement pass over the roster, then, when some
     * animal died, a new generation with one replacement per death cell.
     * `cells` are the cells the animals of the old roster ended on, `ate`
     * flags those that ate and `died` those whose energy ran out;
     * `eaten` and `deadPositions` are the cells of the animals so
     * flagged. `marked` are the Animal cells between the two passes;
     * `born` lists the replacements, `spots` their cells, and `frees[k]`
     * says the k-th found a cell free of animals.
     */
    method TimerTick(tanh: real -> real)
      returns (ghost died: seq<bool>, ghost ate: seq<bool>, ghost cells: seq<(int, int)>, ghost eaten: seq<(int, int)>,
               ghost deadPositions: seq<(int, int)>, ghost born: seq<Animal>, ghost spots: seq<(int, int)>,
               ghost frees: seq<bool>, ghost marked: set<(int, int)>)
      requires Valid()
      modifies grid, this`animals, this`generation, animals`X, animals`Y, animals`Energy, rand, entropy
      modifies set a | a in animals :: a.brain.rand
      ensures Valid()
      ensures |died| == |old(animals)| && animals == Survivors(old(animals), died) + born
      ensures |animals| == |old(animals)| && |born| == Count(died)
      ensures (exists k :: 0 <= k < |died| && died[k]) <==> generation == old(generation) + 1
      ensures generation == old(generation) || generation == old(generation) + 1
      ensures forall a :: a in born ==> fresh(a) && fresh(a.brain.rand) && a.Energy == StartEnergy && a.color == generation % PaletteSize
      ensures |ate| == |old(animals)| && cells == Positions(old(animals))
      ensures deadPositions == Flagged(cells, died) && eaten == Flagged(cells, ate)
      ensures |Cells(grid, Food)| == |old(Cells(grid, Food))| - Count(ate)
      ensures Cells(grid, Food) == old(Cells(grid, Food)) - (set p | p in eaten)
      ensures forall m :: 0 <= m < |eaten| ==> eaten[m] in old(Cells(grid, Food))
      ensures Distinct(eaten)
      ensures |deadPositions| == |born|
      ensures var radius := SpawnRadius(|Survivors(old(animals), died)|);
        forall k :: 0 <= k < |born| ==>
          -radius <= born[k].X - deadPositions[k].0 <= radius && -radius <= born[k].Y - deadPositions[k].1 <= radius
      ensures forall p :: p in marked ==>
        (p in old(Cells(grid, CellType.Animal)) && p !in old(Positions(animals))) || p in Survivors(cells, died)
      ensures forall p :: p in old(Cells(grid, CellType.Animal)) && p !in old(Positions(animals)) ==> p in marked
      ensures old(Separated(grid, animals)) ==> forall p :: p in Survivors(cells, died) ==> p in marked
      ensures spots == Positions(born) && |frees| == |born|
      ensures forall i, j :: InBounds(grid, i, j) ==> (grid[i, j] == CellType.Animal <==> (i, j) in marked || (i, j) in spots)
      ensures forall k :: 0 <= k < |born| ==> (frees[k] <==> spots[k] !in marked && spots[k] !in spots[..k])
      ensures forall k :: 0 <= k < |born| && !frees[k] ==> spots[k] == deadPositions[k]
      ensures old(Separated(grid, animals)) && (forall k :: 0 <= k < |frees| ==> frees[k]) ==> Separated(grid, animals)
    {
      var snap := animals;
      var someoneDied, dead;
      someoneDied, dead, died, eaten, ate, cells := MoveRoster(tanh);
      marked := Cells(grid, CellType.Animal);
      CellsMembers(grid, CellType.Animal);
      deadPositions := dead;
      born, spots, frees := Renew(someoneDied, dead, snap);
    }

    /**
     * The second half of a tick: when some animal died, the replacement
     * pass for the death cells `deadPositions`; otherwise nothing. The
     * animals of `snap` keep their cells and energies.
     */
    method Renew(someoneDied: bool, deadPositions: seq<(int, int)>, ghost snap: seq<Animal>)
      returns (ghost born: seq<Animal>, ghost spots: seq<(int, int)>, ghost frees: seq<bool>)
      requires Valid() && (someoneDied <==> deadPositions != [])
      requires forall i, j :: (i, j) in deadPositions ==> InBounds(grid, i, j) && grid[i, j] != Food
      modifies grid, this`animals, this`generation, rand, entropy, set a | a in animals :: a.brain.rand
      ensures Valid() && generation == old(generation) + (if someoneDied then 1 else 0)
      ensures |born| == |deadPositions| && animals == old(animals) + born
      ensures forall a :: a in born ==> fresh(a) && fresh(a.brain.rand) && a.Energy == StartEnergy && a.color == generation % PaletteSize
      ensures var radius := SpawnRadius(|old(animals)|);
        forall k :: 0 <= k < |born| ==>
          -radius <= born[k].X - deadPositions[k].0 <= radius && -radius <= born[k].Y - deadPositions[k].1 <= radius
      ensures Cells(grid, Food) == old(Cells(grid, Food))
      ensures spots == Positions(born) && |frees| == |born|
      ensures forall i, j :: InBounds(grid, i, j) ==>
        (grid[i, j] == CellType.Animal <==> old(grid[i, j]) == CellType.Animal || (i, j) in spots)
      ensures forall k :: 0 <= k < |born| ==>
        (frees[k] <==> spots[k] !in old(Cells(grid, CellType.Animal)) && spots[k] !in spots[..k])
      ensures forall k :: 0 <= k < |born| && !frees[k] ==> spots[k] == deadPositions[k]
      ensures old(Separated(grid, animals)) && (forall k :: 0 <= k < |frees| ==> frees[k]) ==> Separated(grid, animals)
      ensures Positions(snap) == old(Positions(snap))
    {
      if someoneDied {
        born, spots, frees := ReplacePass(deadPositions);
      } else {
        born, spots, frees := [], [], [];
      }
      CellsKept(grid, Food);
      PositionsKept(snap);
    }

    /** After the tick Food is left on the old Food cells not eaten, which counts them. */
    lemma FoodEaten(food0: set<(int, int)>, eaten: seq<(int, int)>)
      requires forall i, j :: (i, j) in eaten ==> (i, j) in food0
      requires forall i, j :: (i, j) in food0 ==> InBounds(grid, i, j)
      requires forall i, j :: InBounds(grid, i, j) ==> (grid[i, j] == Food <==> (i, j) in food0 && (i, j) !in eaten)
      requires Distinct(eaten)
      ensures Cells(grid, Food) == food0 - (set p | p in eaten)
      ensures |Cells(grid, Food)| == |food0| - |eaten|
    {
      var es := set p | p in eaten;
      forall p | p in food0 - es
        ensures InBounds(grid, p.0, p.1)
      {
        assert p == (p.0, p.1);
      }
      forall p | p in es
        ensures p in food0
      {
        assert p == (p.0, p.1) && (p.0, p.1) in eaten;
      }
      CellsExactly(grid, Food, food0 - es);
      DistinctCard(eaten);
      CardRemoved(food0, es);
    }
  }

  /**
   * The form's life: a new world, then `ticks` firings of the timer. The
   * population stays at ten, Food never grows back, and the generation
   * counts at most one step per tick.
   */
  method Run(entropy: Entropy, tanh: real -> real, ticks: nat) returns (w: World)
    requires entropy.Valid()
    modifies entropy
    ensures w.Valid() && |w.animals| == AnimalCount && w.generation <= ticks
    ensures |Cells(w.grid, Food)| <= FoodCount
  {
    w := new World(entropy);
    for t := 0 to ticks
      invariant w.Valid() && |w.animals| == AnimalCount && w.generation <= t
      invariant |Cells(w.grid, Food)| <= FoodCount
      invariant fresh(w.grid) && fresh(w.rand) && w.entropy == entropy
      invariant forall a :: a in w.animals ==> fresh(a) && fresh(a.brain.rand)
    {
      // The roster as a frame (`animals`X`) is checked position by position.
      forall i | 0 <= i < |w.animals|
        ensures fresh(w.animals[i])
      {
        assert w.animals[i] in w.animals;
      }
      ghost var died, ate, cells, eaten, deadPositions, born, spots, frees, marked;
      died, ate, cells, eaten, deadPositions, born, spots, frees, marked := w.TimerTick(tanh);
    }
  }
}
