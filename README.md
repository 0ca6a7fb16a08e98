# AnimalEvo in Dafny

This is a verified model of the simulation engine of AnimalEvo, a grid-world foraging game. The game has a 50 by 50 board of cells. Each cell is Empty, holds Food, or holds an Animal. A roster of ten animals moves across the board, and each animal is steered by a small neural network (its brain).

On every timer tick, each animal in turn does four things:
- it clears its cell;
- it loses one unit of energy;
- it finds the nearest Food by Manhattan distance;
- it asks its brain for a move of at most one cell on each axis, and takes the move unless another animal is in the way.

It then eats the Food it landed on, or dies when its energy is used up, or marks its new cell.

If any animal died in the tick, a new generation begins. Each death cell receives one replacement, with these rules:
- the replacement goes on the death cell, or on the first Empty cell within a spawn radius when the death cell is taken;
- its brain is a mutated clone of a survivor's brain;
- the survivor is chosen by a roulette wheel weighted by `Lifetime`.

The model is organised by source file:

| file | module | models |
|---|---|---|
| `rng.dfy` | `Rng` | `System.Random`: each generator is a stream of draws in [0, 1) plus a cursor. `Entropy` hands each modelled generator (the world's and each network's) its own stream. |
| `network.dfy` | `Network` | `NeuralNetwork`: the 3-4-2 policy, its random initialisation, the forward pass and `CloneAndMutate`. |
| `grid.dfy` | `Grid` | The cell type and counting lemmas for sets of cells. |
| `animal.dfy` | `Animals` | `Animal`: the nearest-food scan, `Update` and `Eat`. |
| `roster.dfy` | `Roster` | `List.Remove`, and the survivors of a movement pass as a function of which animals died. |
| `replacement.dfy` | `Replacement` | The spawn radius, the roulette wheel and the search for a free spawn cell. |
| `engine.dfy` | `Engine` | `Form1`'s state (board, roster, generation counter): its constructor, `InitializeGrid`, `SpawnAnimals`, `SpawnFood` and `Timer_Tick`. |

The model works in place, as the source does:
- the grid is an `array2`;
- the roster is a `seq` field that the methods reassign;
- animals and networks are classes whose fields the methods update;
- loops stay loops, each with its invariants.

`Timer_Tick` is split into its two passes (`MovePass`, `ReplacePass`). Each loop body is its own method (`MoveStep`, `ReplaceStep`), and ghost predicates (`Pass` and `OutcomeLog` for the movement loop, `Replacing` and `Placed` for the replacement loop) carry what the loop keeps true. The specification functions state what the methods compute:
- `Survivors`, `Count` and `Flagged` describe the roster after a pass and the cells logged in it;
- `Positions`, `Energies`, `Starved` and `PassEnergies` describe where each animal of the old roster ends up, who starved and the energies left;
- `Mutated` describes the weights of a clone;
- `IsNearestFood` describes the sensed food offset;
- `SpawnRadius` and `LifetimeSum` describe the replacement pass.

Two behaviours of the code deserve a note:
- **Spawn radius.** The formula at `AnimalEvoApp/Form1.cs:161` gives `max(1, 5 * alive / 10)`, so the radius grows with the number of survivors; `SpawnRadiusMonotone` proves it.
- **Lifetime.** The parent roulette is weighted by `Lifetime`, but no code declares that field or updates it, so `Animal.Lifetime` is a value fixed at creation and never changed.

## Model

| member | source | states |
|---|---|---|
| Rng.Scale | AnimalEvoApp/Form1.cs:196 | A draw in [0, 1) scaled to n lands in [0, n) when n > 0, and is 0 when n is 0. |
| Rng.Random.NextDouble | AnimalEvoApp/NeuralNetwork.cs:28 | Returns the generator's next draw, which lies in [0, 1), and advances the cursor by one. |
| Rng.Random.Next | AnimalEvoApp/Form1.cs:196 | Returns the next draw scaled to [0, n) and advances the cursor by one. |
| Rng.Entropy.NewRandom | AnimalEvoApp/NeuralNetwork.cs:17 | Creates a fresh valid generator at cursor 0 on the next unused stream. |
| Network.Step | AnimalEvoApp/NeuralNetwork.cs:35-40 | The result is 1, 0 or -1. It is 1 iff x > 0.1 and -1 iff x < -0.1. |
| Network.ReLU | AnimalEvoApp/NeuralNetwork.cs:100 | The result is non-negative, at least x, and equal to either x or 0. |
| Network.MutateOne | AnimalEvoApp/NeuralNetwork.cs:81-93 | The weight is copied and the draw at the cursor is taken. When that draw is below the rate, a second draw is taken and the weight shifts by it rescaled to [-strength, strength); otherwise exactly one draw is used and the weight is unchanged. |
| Network.MutateOneWithin | AnimalEvoApp/NeuralNetwork.cs:82-83 | With a second draw in [0, 1), the mutated weight equals the parent's or differs from it by at most the strength. |
| Network.Mutated | AnimalEvoApp/NeuralNetwork.cs:77-95 | The clone has as many weights as the parent. Each weight uses one or two draws. |
| Network.MutatedWithinStrength | AnimalEvoApp/NeuralNetwork.cs:81-83 | Given draws in [0, 1), each clone weight equals the parent's weight or differs from it by at most the mutation strength. |
| Network.MutatedAtZeroRate | AnimalEvoApp/NeuralNetwork.cs:82 | With a rate of 0 or less, the clone equals the parent, and exactly one draw per weight is used. |
| Network.MutatedStep | AnimalEvoApp/NeuralNetwork.cs:79-84 | Mutating one more weight appends that weight's MutateOne result and continues from its cursor. |
| Network.NeuralNetwork.constructor | AnimalEvoApp/NeuralNetwork.cs:19-22 | The matrices are fresh with shapes 3x4 and 4x2. Every weight is draw k of a fresh generator, rescaled into [-1, 1). |
| Network.NeuralNetwork.RandomizeRow | AnimalEvoApp/NeuralNetwork.cs:27-28 | Row i gets consecutive draws rescaled to [-1, 1), in column order. The other rows are unchanged. |
| Network.NeuralNetwork.RandomizeWeights | AnimalEvoApp/NeuralNetwork.cs:24-33 | Weight k, in w1-then-w2 row-major order, is draw k rescaled. Every weight lies in [-1, 1). |
| Network.NeuralNetwork.Decide | AnimalEvoApp/NeuralNetwork.cs:42-71 | For any inputs, weights and tanh, the move has both components in {-1, 0, 1}. |
| Network.NeuralNetwork.HiddenLayer | AnimalEvoApp/NeuralNetwork.cs:47-54 | Each hidden activation is ReLU of the input-weighted sum over w1's column. |
| Network.NeuralNetwork.OutputLayer | AnimalEvoApp/NeuralNetwork.cs:56-64 | Each output is tanh of the hidden-weighted sum over w2's column. |
| Network.NeuralNetwork.Forward | AnimalEvoApp/NeuralNetwork.cs:42-71 | The move is the quantised output of the two layers, a unit move. The method writes no weight. |
| Network.NeuralNetwork.MutateEntry | AnimalEvoApp/NeuralNetwork.cs:81-83 | The entry becomes the parent's weight passed through MutateOne. The mutated prefix grows by that weight, and every other entry is unchanged. |
| Network.NeuralNetwork.MutateRow | AnimalEvoApp/NeuralNetwork.cs:79-84 | Row i of the clone becomes the next row of the mutated weight sequence. The other rows are unchanged. |
| Network.NeuralNetwork.MutateFirstRow | AnimalEvoApp/NeuralNetwork.cs:77-85 | One outer pass of the w1 loop. The rows filled so far keep their mutated values. |
| Network.NeuralNetwork.MutateFirstLayer | AnimalEvoApp/NeuralNetwork.cs:77-85 | The clone's w1 equals the mutation of the parent's first 12 weights, starting from the parent generator's cursor. |
| Network.NeuralNetwork.MutateSecondLayer | AnimalEvoApp/NeuralNetwork.cs:87-95 | The clone's w2 continues the same mutated sequence, so both layers together give the mutation of all 20 weights. |
| Network.NeuralNetwork.CloneAndMutate | AnimalEvoApp/NeuralNetwork.cs:73-98 | The parent's weights are unchanged. The clone is fresh with shapes 3x4 and 4x2. Its weights are exactly Mutated of the parent's weights and draws, so the clone's random start weights play no part. The clone's own generator is on the next unused stream, with the cursor past its 20 start draws. |
| Animals.Abs | AnimalEvoApp/Animal.cs:49 | The absolute value is non-negative and equals v or -v. |
| Animals.DistMetric | AnimalEvoApp/Animal.cs:47-49 | The Manhattan distance is zero exactly at the animal's own cell, is symmetric, and bounds the offset on each axis. |
| Animals.NearestFoodUnique | AnimalEvoApp/Animal.cs:39-57 | At most one offset satisfies the nearest-food relation, so the board determines the scan's answer. |
| Animals.NearestFood | AnimalEvoApp/Animal.cs:38-58 | The offset points to a Food cell of minimal Manhattan distance. On ties it is the first such cell in row-major order, because the comparison is strict. With no Food the offset is (0, 0). |
| Animals.ScanRow | AnimalEvoApp/Animal.cs:43-57 | Scanning row i moves the best-so-far state from the start of row i to the start of row i + 1. |
| Animals.ScanSkip | AnimalEvoApp/Animal.cs:45-50 | A cell that is not Food, or not strictly closer, leaves the best-so-far state valid one cell further on. |
| Animals.ScanTake | AnimalEvoApp/Animal.cs:50-55 | A strictly closer Food cell becomes the best so far. |
| Animals.ScanCell | AnimalEvoApp/Animal.cs:45-55 | One cell of the scan keeps the best-so-far state valid one cell further on: a strictly closer Food cell is taken, anything else is skipped. |
| Animals.ScanRowDone | AnimalEvoApp/Animal.cs:41-43 | The state at the end of row i is the state at the start of row i + 1. |
| Animals.Clamp | AnimalEvoApp/Animal.cs:66-67 | The result lies in [lo, hi]. It is v when v is inside, lo when v is below, and hi when v is above. |
| Animals.Target | AnimalEvoApp/Animal.cs:66-67 | The candidate cell is on the board, and for a unit move it is within one cell of (X, Y) on each axis. |
| Animals.Hunger | AnimalEvoApp/Animal.cs:60 | For energy in [0, 100], hunger lies in [0, 1]. It is 0 at full energy and 1 at none. |
| Animals.Fed | AnimalEvoApp/Animal.cs:78-79 | Energy after eating is min(100, energy + 5). |
| Animals.Animal.constructor | AnimalEvoApp/Animal.cs:17-23 | X, Y and Energy are set as given, and the brain is a fresh valid network. |
| Animals.Animal.WithBrain | AnimalEvoApp/Animal.cs:25-31 | X, Y and Energy are set as given, and GetBrain returns the brain passed in. |
| Animals.Animal.GetBrain | AnimalEvoApp/Animal.cs:82 | Returns the animal's own brain, the network it was created with. |
| Animals.Animal.Update | AnimalEvoApp/Animal.cs:33-74 | Energy drops by exactly 1 and the board is only read. The sensed offset is the nearest food and the move is the brain's decision on it. The animal steps to the clamped target iff that cell is not Animal. |
| Animals.Animal.Eat | AnimalEvoApp/Animal.cs:76-80 | Energy becomes min(100, Energy + 5). |
| Roster.RemoveFirst | AnimalEvoApp/Form1.cs:143 | An absent element leaves the list unchanged. A present one makes it one shorter and adds no element. |
| Roster.RemoveFirstAt | AnimalEvoApp/Form1.cs:143 | When s[i] does not occur before i, removing it cuts exactly position i. |
| Roster.Survivors | AnimalEvoApp/Form1.cs:139-144 | Every survivor is an animal of the roster, and there are no more survivors than animals. |
| Roster.Count | AnimalEvoApp/Form1.cs:141-142 | The number of set flags, such as deaths, is at most the number of animals. |
| Roster.Flagged | AnimalEvoApp/Form1.cs:142 | The cells logged for the flagged animals: exactly one per set flag. |
| Roster.FlaggedStep | AnimalEvoApp/Form1.cs:139-142 | One more animal appends its cell to the log iff its flag is set. |
| Roster.SurvivorsCount | AnimalEvoApp/Form1.cs:143 | Survivors plus deaths add up to the roster's length. |
| Roster.CountPositive | AnimalEvoApp/Form1.cs:141 | The death count is positive iff some animal's death flag is set. |
| Roster.SurvivorsStep | AnimalEvoApp/Form1.cs:124-149 | One more animal's outcome appends it to the survivors iff it lived. |
| Roster.NotInEarlierSurvivors | AnimalEvoApp/Form1.cs:124 | In a roster of distinct animals, animal k is not among the survivors of the animals before it. |
| Roster.SurvivorsFrom | AnimalEvoApp/Form1.cs:139-144 | Every survivor is an element whose death flag is not set. |
| Roster.SurvivorsKeep | AnimalEvoApp/Form1.cs:139-144 | Every element whose death flag is not set survives. |
| Roster.SurvivorsDistinct | AnimalEvoApp/Form1.cs:124-149 | The survivors of a roster of distinct animals are distinct. |
| Roster.SurvivorsRemoveStep | AnimalEvoApp/Form1.cs:124-149 | Removing animal k from the live list when it dies keeps the list as "survivors so far, then the rest". The removed animal is then gone. |
| Roster.RemoveStep | AnimalEvoApp/Form1.cs:143 | The same step as SurvivorsRemoveStep, once animal k is known to occur only once. |
| Roster.RemoveMiddle | AnimalEvoApp/Form1.cs:143 | Removing an element that occurs once, between two parts, joins the parts. |
| Roster.RemoveFirstMiddle | AnimalEvoApp/Form1.cs:143 | Remove cuts the first occurrence wherever it sits. |
| Replacement.Max | AnimalEvoApp/Form1.cs:161 | The result is the larger argument. |
| Replacement.SpawnRadius | AnimalEvoApp/Form1.cs:159-161 | The radius is max(1, survivors / 2), which is max(1, 5 * survivors / 10) with integer division. It is at least 1, and at most 5 for at most 10 survivors. |
| Replacement.SpawnRadiusMonotone | AnimalEvoApp/Form1.cs:161 | More survivors never give a smaller radius. |
| Replacement.LifetimeSumBounds | AnimalEvoApp/Form1.cs:164 | The total Lifetime of the survivors is at least each survivor's Lifetime, and is 0 iff every survivor's Lifetime is 0. |
| Replacement.LifetimeSumMonotone | AnimalEvoApp/Form1.cs:199-202 | The running Lifetime sum never decreases. |
| Replacement.SelectParent | AnimalEvoApp/Form1.cs:196-208 | The index is the first survivor whose running Lifetime sum exceeds r, or -1 iff no sum does (r at least the total). For r >= 0 the chosen survivor has a positive Lifetime. |
| Replacement.FindSpawnCell | AnimalEvoApp/Form1.cs:168-188 | If the death cell holds no animal, the result is that cell. Otherwise it is the first Empty in-bounds cell of the square of the given radius, scanned rx-outer and ry-inner. If there is none, it is the death cell again, with free false. |
| Engine.Positions | AnimalEvoApp/Form1.cs:142 | One cell per animal, in roster order: the k-th is where the k-th animal stands. |
| Engine.Energies | AnimalEvoApp/Form1.cs:139 | One energy per animal, in roster order: the k-th is the k-th animal's energy. |
| Engine.EnergyAfter | AnimalEvoApp/Form1.cs:127-132 | An animal that did not eat ends its turn with one unit less. One that ate ends with at most 100: the decremented energy plus 5, or 100. For an energy within the cap, the animal ends with at least its old energy iff it ate. |
| Engine.PassEnergies | AnimalEvoApp/Form1.cs:127-132 | The k-th animal's energy after its turn: one less than before, then min(100, that + 5) if it ate. |
| Engine.Starved | AnimalEvoApp/Form1.cs:130-139 | The k-th animal dies iff it did not eat and its energy before the turn was at most 1, so the turn's decrement brought it to 0 or below. |
| Engine.StarvedIffSpent | AnimalEvoApp/Form1.cs:139 | For a roster whose energies were all positive, an animal starved iff its energy after the turn is 0 or less. So a dead animal has no energy left and a surviving one has at least 1. |
| Engine.EnergiesPositive | AnimalEvoApp/Form1.cs:139-147 | Every animal on the roster has at least one unit of energy, because one whose energy ran out was removed. |
| Engine.SurvivorCells | AnimalEvoApp/Form1.cs:146-148 | When the survivors stand on distinct marked cells, the cell recorded for each survivor is marked Animal. |
| Engine.DistinctCard | AnimalEvoApp/Form1.cs:130-137 | A list of n distinct Food cells forms a set of n cells. |
| Engine.SomeEmptyCell | AnimalEvoApp/Form1.cs:89-93 | While fewer cells are taken than were free, an Empty cell is left, so the rejection loop has a cell to find. |
| Engine.FoodPlaced | AnimalEvoApp/Form1.cs:50-52 | After start-up the board has exactly 10 Animal cells, 200 Food cells and 2290 Empty cells. |
| Engine.World.constructor | AnimalEvoApp/Form1.cs:40-52 | The new world is in generation 0 with ten animals on distinct marked cells. Its board has 10 Animal, 200 Food and 2290 Empty cells. The board, the generator and every animal with its brain's generator are new objects, so a caller may tick the world. |
| Engine.World.Populate | AnimalEvoApp/Form1.cs:51-52 | Spawning ten animals and then 200 Food on an Empty board gives the census above, with every animal and its brain's generator new. |
| Engine.World.InitializeGrid | AnimalEvoApp/Form1.cs:67-71 | Every cell of the board becomes Empty. |
| Engine.World.SpawnAnimals | AnimalEvoApp/Form1.cs:84-102 | Exactly count cells that were Empty become Animal, and no other cell changes. Each new animal stands on one of them with the start energy and the generation's colour. Distinct positions are preserved. |
| Engine.World.AddAnimal | AnimalEvoApp/Form1.cs:95-100 | One fresh animal, with a fresh brain generator, on the Empty cell (x, y), which alone becomes Animal. |
| Engine.World.Enroll | AnimalEvoApp/Form1.cs:99-100 | The animal joins the roster and its cell alone becomes Animal. Distinct cells are kept when that cell held no animal. |
| Engine.World.SpawnFood | AnimalEvoApp/Form1.cs:104-117 | Exactly count cells that were Empty become Food, and no other cell changes. |
| Engine.World.MoveAnimal | AnimalEvoApp/Form1.cs:126-148 | Vacate, move, then eat, die or re-mark. An animal eats iff it moved onto Food. It dies iff it did not eat and its energy reached 0, and then it leaves the roster and its cell is Empty. No Food is created, and only the old and new cells change. |
| Engine.World.MoveStep | AnimalEvoApp/Form1.cs:124-149 | One animal's turn keeps the pass invariant: the roster shape, the death record, the Food record and distinct cells. |
| Engine.World.StepKeepsOk | AnimalEvoApp/Form1.cs:124-149 | A turn that creates no Food keeps every live animal's facts. |
| Engine.World.StepKeepsDeaths | AnimalEvoApp/Form1.cs:139-142 | The death flag and the death-cell list stay in step with the deaths so far. |
| Engine.World.StepKeepsFood | AnimalEvoApp/Form1.cs:130-138 | Food remains exactly on the start-of-pass Food cells not yet eaten, and each cell is eaten at most once. |
| Engine.World.StepKeepsMarks | AnimalEvoApp/Form1.cs:126-148 | After animal k left its starting cell and, unless it died, marked the cell it moved to, a marked cell is still an old mark not yet left by its animal or a survivor's cell, and old marks that were no animal's cell stay. |
| Engine.World.PassMarks | AnimalEvoApp/Form1.cs:124-149 | After the whole pass, the marked cells are within the old marks that were no animal's starting cell plus the survivors' cells, and contain all those old marks. |
| Engine.World.StepKeepsSeparated | AnimalEvoApp/Form1.cs:126-148 | Animals stay on distinct marked cells when the mover stepped only onto a cell no animal held. |
| Engine.World.MovePass | AnimalEvoApp/Form1.cs:121-149 | The roster becomes the survivors of the pass, in order. The flag is set iff some death occurred. `cells` are the cells each animal of the old roster ends on, and `deadPositions` are exactly those of the animals that died, in order, none holding Food. An animal dies iff it did not eat and its energy ran out, which is iff its energy after the pass is 0 or less, and the energies left are PassEnergies of the old ones. The eaten cells are exactly those of the animals that ate, in order and distinct; Food afterwards is the old Food minus them. A cell is marked Animal afterwards only if it is a survivor's cell, or was marked and was no animal's starting cell; every such old mark stays. Distinct marked cells are preserved, and then every survivor's cell is marked. |
| Engine.World.MoveRoster | AnimalEvoApp/Form1.cs:121-149 | MovePass's roster, death-cell and Animal-mark facts. The eaten cells are distinct old Food cells, those of the animals that ate, and the Food cells afterwards are the old ones minus them, so their number drops by the number of animals that ate. The roster is shorter by the number of deaths. |
| Engine.World.MoveLoop | AnimalEvoApp/Form1.cs:124-149 | The loop over every animal of the snapshot ends with the pass invariant and the full outcome log: each animal's cell, energy and death and eating flags. |
| Engine.World.TrackStep | AnimalEvoApp/Form1.cs:124-149 | One animal's turn extends the outcome log by its cell, energy and flags, and the animals not yet moved keep their energies. |
| Engine.World.LogStep | AnimalEvoApp/Form1.cs:130-142 | Logging one more turn keeps the death and eating flags, the energies and the death and eaten cell lists in step. |
| Engine.World.OthersStay | AnimalEvoApp/Form1.cs:126-148 | When only the k-th animal was touched, the other animals of a roster of distinct animals keep their cells and energies. |
| Engine.World.PassOutcomes | AnimalEvoApp/Form1.cs:124-149 | The finished log, restated: the cells are Positions of the roster, the death flags are Starved, the energies are PassEnergies, and an animal died iff its energy is used up. |
| Engine.World.PassRoster | AnimalEvoApp/Form1.cs:124-149 | A finished pass gives the roster, death-cell, Food and distinctness facts of MovePass. |
| Engine.World.Breed | AnimalEvoApp/Form1.cs:192-221 | With a positive Lifetime total, the parent is the first survivor whose running sum exceeds the draw, its Lifetime is positive, and the null fallback is never taken. With a zero total the parent is the uniform draw. With no survivors the brain is fresh. A cloned brain is the parent's Mutated weights, each within the mutation strength. |
| Engine.World.SpawnReplacement | AnimalEvoApp/Form1.cs:168-226 | When the death cell held no animal, the replacement stands on it. Otherwise it stands on the first Empty cell within the radius in rx-outer, ry-inner order, or, when there is none, on the death cell itself with `free` false. Its cell held no Food and is the only cell that changes. It has the start energy and the generation's colour, with a parent of positive Lifetime when the total is positive. |
| Engine.World.Replace | AnimalEvoApp/Form1.cs:190-226 | A replacement with a valid brain, taken from Breed, joins the roster on the chosen cell, which alone becomes Animal, with the start energy, the generation's colour and a parent of positive Lifetime when the total is positive. |
| Engine.World.Place | AnimalEvoApp/Form1.cs:190 | The new animal with the given brain joins the roster on (x, y), which alone becomes Animal. |
| Engine.World.Untouched | AnimalEvoApp/Form1.cs:210 | Breeding, which moves no animal and leaves the board alone, keeps the world's facts. |
| Engine.World.ReplacePass | AnimalEvoApp/Form1.cs:154-228 | The generation grows by one. One replacement per death cell is appended, in order, within the radius for the survivor count. Each has the start energy and the new generation's colour. No Food changes. The Animal cells become the old ones plus the replacements' `spots`. `frees[k]` holds iff the k-th replacement's cell held no animal before it, and a replacement that found none stands on its death cell. Distinct marked cells are kept when every replacement found a free cell. |
| Engine.World.ReplaceLoop | AnimalEvoApp/Form1.cs:166-227 | The loop over the death cells ends with the replacement invariant and the placement record for all of them, every replacement and its brain's generator fresh. |
| Engine.World.ReplaceStep | AnimalEvoApp/Form1.cs:166-227 | One death cell's replacement keeps the replacement invariant and extends the placement record by its cell and free flag. |
| Engine.World.TimerTick | AnimalEvoApp/Form1.cs:119-231 | The population is unchanged: the survivors plus one replacement per death, each replacement and its brain's generator new. The generation grows by exactly one iff some animal died, and new animals get colour generation % 10. `cells` are where the old roster's animals end up, and the death and eaten cells are exactly those of the animals that died and ate. The eaten cells are distinct old Food cells, and the Food cells afterwards are the old ones minus them, so their number drops by exactly the number of animals that ate. `marked` are the Animal cells between the two passes: the survivors' cells and the old marks that were no animal's starting cell (exactly these when the animals started on distinct marked cells). The Animal cells afterwards are `marked` plus the replacements' `spots`. The k-th replacement stands within the spawn radius for the survivors of its death cell. `frees[k]` holds iff its cell was neither in `marked` nor taken by an earlier replacement, and when it does not hold the replacement stands on its death cell. Distinct marked cells are kept when every replacement found a free cell. |
| Engine.World.Renew | AnimalEvoApp/Form1.cs:151-228 | When some animal died, the replacement pass; otherwise nothing changes. The generation grows by one iff some animal died, the set of Food cells and the old animals' cells stay as they were. One replacement per death cell is appended, within the radius for the survivor count. The Animal cells become the old ones plus the replacements' `spots`; `frees[k]` holds iff the k-th replacement's cell held no animal before the pass and was taken by no earlier replacement, and when it does not hold the replacement stands on its death cell. Distinct marked cells are kept when every replacement found a free cell. |
| Engine.Run | AnimalEvoApp/Form1.cs:50-56 | A new world ticked any number of times keeps its invariant and exactly ten animals. Its Food never exceeds 200, and the generation grows by at most one per tick. |
| Engine.World.FoodEaten | AnimalEvoApp/Form1.cs:130-137 | Food left on the old Food cells minus n distinct eaten ones: the Food cells are that set difference, n fewer than before. |

## Left out

- Drawing is not modelled: `Form1_Paint`, the background bitmap in `InitializeGrid`, window setup and the `Timer`'s 400 ms interval (`Run` models its firing as a count of ticks). It is presentation only. A colour is kept as its index into the ten-entry palette.
- `double` arithmetic is modelled as exact `real`. `Math.Tanh` is a function parameter about which nothing is assumed, so no IEEE rounding is modelled.
- `System.Random` is modelled as an injected stream of draws in [0, 1). `Next(n)` is the floor of the draw times n. Nothing is claimed about distributions.
- Clock seeding of `new Random()` becomes the `Entropy` object, which hands each modelled generator its own stream.
- The rejection loops of `SpawnAnimals`/`SpawnFood` are replaced by a choice of some Empty cell; the draws that pick it are not modelled. The callers must supply enough Empty cells, and the loops' termination is not modelled.
- `Animal`'s private `rand` field is left out. It is never drawn from; in the model no stream is handed out for it.
- `foodList` is left out. Nothing adds to it, so its removal step at `AnimalEvoApp/Form1.cs:134-136` has no effect.
- No update rule for `Lifetime` is modelled: the field is non-negative and fixed at creation, because no code declares or updates it.
- 32-bit overflow is not modelled: energy, distances, the Lifetime total and the `generation` counter are unbounded integers. Only the `int.MaxValue` start of the nearest-food minimum is kept.
- `Math.Clamp` throws when its bounds are crossed. `Clamp` requires ordered bounds instead, which a non-empty board always gives.
- The commented-out old `Animal` class is dead code and is not modelled.
- Engine.World.SpawnReplacement: does not restate the brain inheritance; Breed's contract states it. Repeating it here made the proof too costly.
- Engine.World.Replace: does not restate the brain inheritance either (the parent's Mutated weights, within the mutation strength); Breed's contract states it, and Replace takes Breed's brain unchanged. Repeating it made this proof and its callers' proofs too costly.
- Engine.World.MoveRoster: does not restate which animals died or ate in terms of energy (`Starved`, `PassEnergies`, `OutOfEnergy`); MovePass states that.
- Engine.World.ReplacePass: states the radius bound for every replacement, but not the parent chosen for each one. The per-replacement roulette facts are stated by Breed and SpawnReplacement.
- Engine.World.TimerTick: does not restate which animals died or ate in terms of energy; MovePass states that (`Starved`, `PassEnergies`). Carrying those clauses up made the tick's proof too costly.
- Engine.World.TimerTick: distinct marked cells are promised only when every replacement found a free cell. The source overwrites a cell when no free cell is within the radius, as `FindSpawnCell` states.
