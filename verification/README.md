# Hex-board core of the PokeChess autobattler, in Dafny

This project models the board rules of the PokeChess autobattler:

- the axial hex coordinate and its distance;
- the plan that decides how many boards to lay out and which 56 cells make up a board;
- the per-board occupancy ledger (`BoardManager`), which maps occupied cells to unit ids;
- the single-unit A* pathfinder;
- the one-cell-per-tick movement of a unit (`UnitController`).

Each C# file is one Dafny module:

| file | module | form |
|---|---|---|
| `hex_coord.dfy` | `Hex` | datatype, functions and metric lemmas |
| `board_generation_plan.dfy` | `BoardGeneration` | a pure clamp; the row-major enumeration is a method with nested loops |
| `board_manager.dfy` | `Board` | class `BoardManager`, whose `occupants: map<HexCoord, UnitId>` field is reassigned by its mutators |
| `hex_pathfinder.dfy` | `Pathfinding` | the A* `while` loop, the lowest-f scan and the path rebuild as methods with loop invariants |
| `unit_controller.dfy` | `Units` | class `UnitController`, whose `cell` field moves in step with its board's ledger |
| `collections.dfy` | `Collections` | two cardinality facts about sequences and sets |

Conventions:

- A unit's `NetworkId` is a `nat`, and `0` (`NoUnit`) is the default, invalid id.
- Fusion's `HasStateAuthority` is a plain `bool` field: one on the board and one on the unit.
- A missing board reference is `null`. The pathfinder and the unit take a `BoardManager?`.

What the proofs establish:

- Hex distance is a metric. The six neighbour offsets are exactly the cells at distance 1.
- The board plan enumerates each of the 56 cells once, in row-major order.
- Each ledger mutator succeeds exactly under the guards the source checks. On success it changes exactly one or two entries; otherwise it leaves the ledger untouched. Every mutator keeps the ledger's cells on the board with valid ids.
- The pathfinder never mutates the board and always terminates. It closes a new board cell on every iteration, so it expands at most 56 cells. When it succeeds it returns a legal walk:
  - from start to goal;
  - over board cells only;
  - one hex per step;
  - every cell after the start free.
- The pathfinder is complete: it succeeds exactly when such a walk exists.
- Moving a unit one step keeps the unit's `cell` and the board's ledger in agreement.

`TryDeployUnit` checks only the target cell (`BoardManager.cs`, lines 72-78), so one id can occupy two cells. The model follows the code:

- `Board.DeployUniqueIdsIff` states exactly when a deploy keeps ids unique.
- `Board.DuplicateIdDeployment` shows one id accepted onto two cells.
- `Board.MoveKeepsInvariants` shows that moves keep ids unique.

## Model

| member | source | states |
|---|---|---|
| Hex.NeighborDirectionsOpposite | Assets/Scripts/Autobattler/HexCoord.cs:27-35 | the offset table has six entries; each is one hex long; direction i + 3 is the reverse of direction i |
| Hex.Distance | Assets/Scripts/Autobattler/HexCoord.cs:40-46 | the distance is non-negative, and twice it equals the sum of the three absolute cube differences, so the halving is exact |
| Hex.DistanceIsCubeMax | Assets/Scripts/Autobattler/HexCoord.cs:40-46 | the distance is the largest of the three absolute cube-coordinate differences |
| Hex.DistanceZeroIff | Assets/Scripts/Autobattler/HexCoord.cs:40-46 | the distance from a cell to itself is 0, and a distance is 0 only between equal cells |
| Hex.DistanceSymmetric | Assets/Scripts/Autobattler/HexCoord.cs:40-46 | the distance from a to b equals the distance from b to a |
| Hex.DistanceTriangle | Assets/Scripts/Autobattler/HexCoord.cs:37-46 | triangle inequality: Distance(a, c) <= Distance(a, b) + Distance(b, c) |
| Hex.Neighbor | Assets/Scripts/Autobattler/HexCoord.cs:51-55 | the neighbour in each of the six directions is at distance 1 |
| Hex.NeighborsDistinct | Assets/Scripts/Autobattler/HexCoord.cs:27-35 | the six neighbours are pairwise distinct and all differ from the origin |
| Hex.DistanceOneIsNeighbor | Assets/Scripts/Autobattler/HexCoord.cs:27-55 | every cell at distance 1 is one of the six direction neighbours |
| Hex.Equals | Assets/Scripts/Autobattler/HexCoord.cs:57-60 | field-wise equality holds exactly when the two coordinates are the same value |
| Hex.NotEquals | Assets/Scripts/Autobattler/HexCoord.cs:77-80 | `!=` holds exactly when the two coordinates differ |
| BoardGeneration.CalculateBoardCount | Assets/Scripts/Autobattler/BoardGenerationPlan.cs:10-20 | returns 0 when either count is not positive; otherwise lies in 0..8, never exceeds either count, and equals one of the two counts or 8 |
| BoardGeneration.BoardCountExamples | Assets/Tests/EditMode/Autobattler/BoardGenerationPlanTests.cs:9-21 | the unit-test cases: (10, 9) gives MaxBoardCount; (0, 1) and (4, 0) give 0 |
| BoardGeneration.BoardCountOriginBound | Assets/Scripts/Autobattler/BoardGenerationPlan.cs:12-20 | a case beyond the unit tests: (3, 5) gives 3, so fewer origins than players and than 8 bound the count |
| BoardGeneration.RowMajorBijection | Assets/Scripts/Autobattler/BoardGenerationPlan.cs:22-31 | row-major index k maps to a board cell; each board cell (q, r) is hit by index 7r + q; distinct indices give distinct cells |
| BoardGeneration.BoardCellsCoverBoard | Assets/Scripts/Autobattler/BoardGenerationPlan.cs:22-31 | the row-major sequence has 56 elements, no repeats, and contains exactly the cells inside the board |
| BoardGeneration.InsideCellCount | Assets/Tests/EditMode/Autobattler/BoardGenerationPlanTests.cs:23-33 | the board has BoardWidth * BoardHeight = 56 cells |
| BoardGeneration.EnumerateBoardCoords | Assets/Scripts/Autobattler/BoardGenerationPlan.cs:22-31 | the nested loops yield 56 coordinates; element k is (k % 7, k / 7); every inside cell occurs exactly once and nothing else occurs |
| Board.IsInside | Assets/Scripts/Autobattler/BoardManager.cs:26-29 | a cell is on the board exactly when its column is in 0..6 and its row-major index 7r + q is one of the 56 slots |
| Board.IsDeployZone | Assets/Scripts/Autobattler/BoardManager.cs:34-37 | a deploy-zone cell is on the board; the zone is exactly the board cells with row-major index at least 28, the back half |
| Board.MoveEntry | Assets/Scripts/Autobattler/BoardManager.cs:99-105 | after the move, `from` is empty; `to` holds `from`'s old occupant; every other cell keeps its occupant; the occupied count is unchanged |
| Board.DeployKeepsWellPlaced | Assets/Scripts/Autobattler/BoardManager.cs:67-78 | a deploy of a valid id onto a deploy-zone cell keeps every occupied cell on the board with a valid id |
| Board.MoveKeepsInvariants | Assets/Scripts/Autobattler/BoardManager.cs:93-105 | a move onto an inside, empty cell keeps occupied cells on the board with valid ids, and keeps ids unique if they were |
| Board.DeployUniqueIdsIff | Assets/Scripts/Autobattler/BoardManager.cs:58-80 | a deploy onto an empty cell keeps ids unique if and only if the id is not already on the board |
| Board.InsideOnly | Assets/Scripts/Autobattler/BoardManager.cs:125-135 | filtering keeps exactly the inside cells of the input, in order, and never lengthens it |
| Board.AllNeighborsExact | Assets/Scripts/Autobattler/BoardManager.cs:127-129 | the six direction neighbours that GetNeighbors scans are pairwise distinct and are exactly the cells at distance 1 |
| Board.BoardManager.constructor | Assets/Scripts/Autobattler/BoardManager.cs:21 | a new board has an empty ledger |
| Board.BoardManager.IsOccupied | Assets/Scripts/Autobattler/BoardManager.cs:42-45 | on a valid board, an occupied cell is a ledger key, lies on the board and holds a valid id |
| Board.BoardManager.TryGetOccupant | Assets/Scripts/Autobattler/BoardManager.cs:50-53 | yields a value exactly when the cell is occupied, and then yields its occupant; on a valid board that occupant is never the default id |
| Board.BoardManager.TryDeployUnit | Assets/Scripts/Autobattler/BoardManager.cs:58-80 | succeeds if and only if the board has authority, the id is valid and the cell is an empty deploy-zone cell; then the ledger is the old one plus that entry, otherwise unchanged; keeps the board invariant |
| Board.BoardManager.TryMoveUnit | Assets/Scripts/Autobattler/BoardManager.cs:85-107 | succeeds if and only if the board has authority, `to` is an empty inside cell and `from` is occupied; moving onto the same cell always fails; on success the ledger is MoveEntry of the old one, otherwise unchanged; keeps the board invariant |
| Board.BoardManager.RemoveUnit | Assets/Scripts/Autobattler/BoardManager.cs:112-120 | reports true if and only if the board has authority and the cell was occupied; with authority the cell is empty afterwards and every other entry is kept, without authority nothing changes |
| Board.BoardManager.GetNeighbors | Assets/Scripts/Autobattler/BoardManager.cs:125-135 | yields the inside neighbours in direction order, at most 6 of them; a cell is yielded if and only if it is inside and at distance 1, whether occupied or not |
| Board.DuplicateIdDeployment | Assets/Scripts/Autobattler/BoardManager.cs:58-80 | with authority, deploying id 1 onto (0, 4) and then onto (1, 4) succeeds both times, leaving one id on two cells |
| Pathfinding.StepsBoundDistance | Assets/Scripts/Autobattler/HexPathfinder.cs:48-68 | a walk of unit steps spans a hex distance of at most its number of steps |
| Pathfinding.BoardPathLength | Assets/Scripts/Autobattler/HexPathfinder.cs:60-68 | every board path from start to goal has at least Distance(start, goal) + 1 cells |
| Pathfinding.RemoveFirst | Assets/Scripts/Autobattler/HexPathfinder.cs:45 | removing a present cell shortens the list by one and keeps every other cell; an absent cell leaves it unchanged; on a list without repeats the cell is gone afterwards; the order of the rest is given by RemoveFirstSplices |
| Pathfinding.ScoreOrMax | Assets/Scripts/Autobattler/HexPathfinder.cs:99-102 | a scored cell yields its score; while every recorded score is below int.MaxValue, the int.MaxValue sentinel comes back exactly for unscored cells |
| Pathfinding.FirstIndex | Assets/Scripts/Autobattler/HexPathfinder.cs:45 | the position List.Remove acts on: an index holding the cell, with no earlier occurrence of it |
| Pathfinding.RemoveFirstSplices | Assets/Scripts/Autobattler/HexPathfinder.cs:45 | removal yields the list with its first occurrence of the cell cut out and every other cell kept in its order, which preserves the first-minimum tie-break of later scans |
| Pathfinding.GetLowestFScore | Assets/Scripts/Autobattler/HexPathfinder.cs:80-102 | returns a candidate with the minimal f-score, where an unscored cell counts as int.MaxValue; every earlier candidate scores strictly higher, so the first minimum wins |
| Pathfinding.LinkedExtend | Assets/Scripts/Autobattler/HexPathfinder.cs:109-113 | appending the predecessor of the trail's last cell keeps every trail cell linked to the next by cameFrom |
| Pathfinding.TrailReversedIsPath | Assets/Scripts/Autobattler/HexPathfinder.cs:104-116 | a cameFrom chain ending at a cell without a predecessor, reversed, is a board path from the search start |
| Pathfinding.ReversedTrailCells | Assets/Scripts/Autobattler/HexPathfinder.cs:104-116 | every cell of a reversed predecessor chain that ends at the start lies on the board, and every cell after the start is free |
| Pathfinding.ReversedTrailSteps | Assets/Scripts/Autobattler/HexPathfinder.cs:104-116 | consecutive cells of a reversed predecessor chain are one hex apart |
| Pathfinding.BuildPath | Assets/Scripts/Autobattler/HexPathfinder.cs:104-116 | following the links back from a reached cell and reversing gives a board path from the start to that cell |
| Pathfinding.RelaxKeepsChainInv | Assets/Scripts/Autobattler/HexPathfinder.cs:60-68 | relaxing a free, unclosed neighbour of a closed cell keeps every link a unit step between free board cells, with g one higher than its predecessor's |
| Pathfinding.RelaxKeepsSearchInv | Assets/Scripts/Autobattler/HexPathfinder.cs:60-73 | one relaxation keeps the whole search state sound: open cells are distinct, scored and not closed; closed cells are scored board cells other than the goal; every scored cell is open or closed |
| Pathfinding.Relax | Assets/Scripts/Autobattler/HexPathfinder.cs:50-73 | a neighbour that is closed, occupied, or already scored at g no higher than the current cell's g + 1 leaves the open list and all three maps unchanged; otherwise its predecessor becomes the current cell, its g-score the current g + 1, its f-score that g plus its hex distance to the goal, and it is appended to the open list unless already there; either way the search state stays sound, every scored cell keeps f = g + h, and scored cells stay scored |
| Pathfinding.ExpandNeighbors | Assets/Scripts/Autobattler/HexPathfinder.cs:48-74 | after the loop over the board neighbours, every neighbour is closed, occupied or scored, scored cells stay scored, the search state stays sound, and every scored cell keeps f = g + h (its g-score plus its hex distance to the goal) |
| Pathfinding.SettledGrows | Assets/Scripts/Autobattler/HexPathfinder.cs:48-74 | once a neighbour is relaxed, it and every earlier neighbour of the loop are closed, occupied or scored, however many cells the relaxation scored |
| Pathfinding.NoPathOutOfRegion | Assets/Scripts/Autobattler/HexPathfinder.cs:36-77 | no board path leaves a region that holds the start, excludes the goal and is closed under free unit steps; this is why an exhausted open list means no path |
| Pathfinding.ClosedWithinBoard | Assets/Scripts/Autobattler/HexPathfinder.cs:36-75 | any set of board cells, such as the closed set, has at most 56 elements, which bounds the number of expansions |
| Pathfinding.TryFindPath | Assets/Scripts/Autobattler/HexPathfinder.cs:10-78 | fails with an empty path when the board is missing, an end is off the board, or the goal is occupied and differs from the start; returns [start] when start == goal; on success returns a board path of at least Distance + 1 cells; succeeds if and only if some board path exists |
| Units.UnitController.constructor | Assets/Scripts/Autobattler/UnitController.cs:13-20 | a new unit keeps its id, authority and board reference; its cell and target start at their defaults |
| Units.UnitController.InitializeAt | Assets/Scripts/Autobattler/UnitController.cs:58-74 | succeeds if and only if the unit and the board have authority, a board is present, the id is valid and the spawn cell is an empty deploy-zone cell; then the unit stands on it with no target and the board records it there; otherwise nothing changes |
| Units.UnitController.TryMoveOneStep | Assets/Scripts/Autobattler/UnitController.cs:80-105 | succeeds if and only if both authorities hold, a board is present, the unit's cell is occupied and differs from the target, and a board path exists; then the unit's new cell is the second cell of a board path from its old cell to the target, an empty inside cell at distance 1, and the ledger entry moves with it; otherwise nothing changes; a unit recorded on its cell stays recorded there |

## Left out

- Replication and engine hooks: Fusion `[Networked]` replication is out of scope. `Spawned` and `FixedUpdateNetwork` in `UnitController.cs` are engine callbacks; `Runner.IsServer` gates only those.
- Combat state: `HP`, `Mana` and `AttackCooldown` in `UnitController.cs` are not modelled, and neither is the `AttackCooldown` reset in `InitializeAt`. They are combat data that this movement slice only carries; `TickTimer` is a Fusion type.
- Hashing and printing: `GetHashCode` and `ToString` of `HexCoord` are not modelled. They are hashing and formatting only.
- Hex.Distance: does not model C# 32-bit overflow on extreme coordinates, because coordinates on a board are tiny; integers are unbounded.
- Pathfinding.TryFindPath: proves that any path found is at least Distance + 1 long and that the search is complete. It does not prove that the path is a shortest one, or that an empty board gives exactly Distance + 1 cells, because optimality of A* under a consistent heuristic would need an invariant over f-score order that the model does not carry.
- Pathfinding.ExpandNeighbors: the contract gives the invariants the loop keeps (a sound search state, f = g + h for every scored cell, every neighbour closed, occupied or scored, scored cells stay scored), not the fold of `Relax`'s per-neighbour updates over the neighbour list, because the search only needs those invariants and `Relax` states each single update exactly.
- Units.UnitController.TryMoveOneStep: states that the new cell is the second cell of a board path to the target, not which of several such paths A* picks, because the pathfinder's contract does not pin down its tie-breaking over whole paths.
- Pathfinding.TryFindPath: the returned path is a fresh `seq` value. The source fills a caller's `List` through an `out` parameter.
- The remaining files of the repository are not part of this model: the lobby bootstrap, the placement controller, the board generator, the spawner, the game-flow manager, `UnitStats` and `HexTile`. They hold UI, input, rendering, spawning and session plumbing with no board logic of their own.
