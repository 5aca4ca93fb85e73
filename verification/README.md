# Alugard puzzle: a Dafny model of the puzzle core

Alugard is an octagon jigsaw. An image is cut into the octagons of a
4.8.8 tessellation. The pieces are scrambled into a tray, and the player
drops them back into their home cells. This project models the three pure
components behind that game and proves properties of each.

- **Tessellation engine** (`octagon_grid.dfy`, `cell_ids.dfy`,
  `lattices.dfy`)
  - Row-major construction of a `cols × rows` grid of octagon cells.
  - Their `oct_<col>_<row>` ids.
  - The eight-direction neighbour record.
  - The neighbour status record.
  - The point-in-octagon and find-cell-at-point hit tests.
- **Scramble** (`scramble.dfy`)
  - One fresh piece per cell.
  - A Fisher–Yates shuffle.
  - The jittered and clamped tray layout.
- **Puzzle state machine** (`game_store.dfy`, `win_check.dfy`)
  - The reducer `Step(state, action)` for every action type, and its
    initial state.
  - The win check, the completion fraction and the per-piece neighbour
    score.

Proofs about these components:

- `store_invariants.dfy` proves that the reducer keeps the occupancy map and
  the pieces' current cells in agreement. It also proves that reachable
  states stay in the four phases the reducer produces, with an accurate
  completion fraction.
- `store_properties.dfy` states what each action changes and what it
  leaves alone.
- `game_setup.dfy` connects the components. A scramble of a built grid is a
  valid `START_GAME` payload.

The shared entities (`Cell`, `Piece`, `GameState`, `Phase`, `Direction`,
the occupancy map) are in `puzzle_types.dfy`. `Option` is in
`wrappers.dfy`.

Modelling choices:

- **Ids are strings.** Cell ids are `"oct_" + decimal(col) + "_" + decimal(row)`.
  The rendering is proved injective, which makes the ids of a grid
  pairwise distinct. Records keyed by id are Dafny maps, and the reducer
  accepts any string as a piece or cell id. For the code's plain-object
  records this agrees as long as no id is the name of a property inherited
  from `Object.prototype` (`toString`, `constructor`, `__proto__`, …).
  Cell ids never are: `CellIds.CellIdIsOwnKey`.
- **JavaScript truthiness.** A `string | null` value is truthy when it is
  present and non-empty (`Truthy`).
- **Missing keys.** The occupancy map is a `map<string, Option<string>>`.
  A key that is absent reads as `null` (`Lookup`), which is what
  `occupancyMap[id] ?? null` gives for any id that is not an inherited
  property name.
- **Geometry is over `real`.** The corner cut `d = s·√2/2` is irrational,
  so `d` is a parameter next to `s`.
  - `Lattice` writes the products `col·(s + d)` as repeated addition, which
    keeps the proofs in linear arithmetic.
  - `LatticeIsProduct` ties the two forms together.
- **Randomness is an oracle.** `Math.random` is a function
  `random: nat -> real` with every value in `[0, 1)`. The draws are
  consumed in call order:
  - the shuffle of `n` pieces uses draws `0 … n−2`;
  - tray index `i` then uses two draws, one for `x` and one for `y`, when
    the scatter is positive.
- **Neighbour order.** `Object.values` of a neighbour record is read in the
  order N, S, E, W, NE, NW, SE, SW. This is the order `buildNeighborMap`
  inserts the directions. Every result that depends on the neighbour list
  (scores, rescoring) is order-independent anyway.

Behaviours of the code worth noting, each modelled as the code has it:

- `PICKUP_PIECE` does not refresh the scores of the lifted piece's former
  neighbours, so their scores go stale. `StoreProperties.PickupOutcome`
  states this.
- The comment at `src/store/gameStore.tsx:134` speaks of the evicted
  piece's neighbours. The loop below it walks the neighbours of the moved
  piece's previous cell. `GameStore.PlacePieces` and
  `StoreProperties.PlaceFrame` model the loop.
- `SCRAMBLE` is declared as an action but has no case of its own. It falls
  through to the identity (`StoreProperties.ScrambleIsIdentity`).
- `PLACE_PIECE` rejects only unknown pieces. It writes any cell id into
  the occupancy map, including ids that are not grid cells. Neighbour
  rescoring happens only when the target is a grid cell.
- `START_GAME` does not check the current phase. It works from any state.

The occupancy invariant (`StoreInvariants.Consistent`) holds only for
*admissible* actions (`StoreInvariants.Admissible`):

- **`PLACE_PIECE` needs a non-empty cell id.** With `cellId == ""` the
  reducer records the piece under the key `""`. It then treats the piece's
  current cell `""` as falsy and never frees that entry.
- **`START_GAME` needs unplaced pieces with non-empty ids.**
  `GameSetup.ScrambledStart` shows that the scramble of a built grid
  produces exactly such pieces.

## Model

| member | source | states |
|---|---|---|
| CellIds.CellIdOf | src/utils/octagonGrid.ts:108-110 | a cell id is a string of more than four characters starting with `oct_` |
| CellIds.DecimalRoundTrip | src/utils/octagonGrid.ts:108-110 | reading back the decimal rendering of a coordinate gives the coordinate |
| CellIds.CellIdInjective | src/utils/octagonGrid.ts:108-110 | two coordinate pairs get the same id exactly when they are equal |
| CellIds.CellIdIsOwnKey | src/utils/octagonGrid.ts:108-110 | no cell id is the name of a property every plain object inherits, so the code's records keyed by cell ids behave as maps |
| Lattices.LatticeIsProduct | src/utils/octagonGrid.ts:68-69 | `k` repeated steps from an offset land at `offset + k·step` |
| Lattices.LatticeGap | src/utils/octagonGrid.ts:56-69 | origins at different lattice indices are at least one step apart |
| PuzzleTypes.NeighborIds | src/utils/winCheck.ts:42-43 | the truthy values of a neighbour record: every listed id is a value of some direction and every truthy value is listed; at most 8 ids, and no repeats when no two directions share an id |
| WinCheck.Completion | src/utils/winCheck.ts:20-28 | the fraction is 0 for no pieces and lies in [0, 1]; times the piece count it is the number of home pieces; it is 1 exactly when there are pieces and the win check holds, and 0 exactly when no piece is home |
| WinCheck.CompletionOneIffWin | src/utils/winCheck.ts:10-28 | all pieces are home exactly when the win check holds (vacuously so for no pieces) |
| WinCheck.CheckWin | src/utils/winCheck.ts:10-15 | the win check holds exactly when the home pieces are all the pieces |
| WinCheck.IsHome | src/utils/winCheck.ts:12 | a piece is home when it is placed in the cell whose id is its own; no contract of its own, its meaning is carried by `WinCheck.CheckWin`, `WinCheck.Completion` and `StoreProperties.PlaceHomeStatus` |
| WinCheck.CountHome | src/utils/winCheck.ts:41-46 | the count of neighbour cells holding their own piece is at most the number of neighbour cells |
| WinCheck.NeighborScore | src/utils/winCheck.ts:34-47 | an id that is not a grid cell scores 0; a score is at most 8 and at most the cell's number of neighbour ids |
| WinCheck.CountHomeIsSetSize | src/utils/winCheck.ts:41-46 | for distinct neighbour ids the score is the size of the set of neighbour cells `n` with `occupancyMap[n] == n` |
| WinCheck.CountHomeFrame | src/utils/winCheck.ts:41-46 | the score does not change when an occupancy entry outside the listed cells changes |
| WinCheck.ScoreIgnoresOwnOccupant | src/utils/winCheck.ts:34-47 | when a cell is not its own neighbour, its score does not depend on who occupies the cell itself |
| OctagonGrid.Opposite | src/utils/octagonGrid.ts:14-17 | the opposite direction has the negated column and row offsets |
| OctagonGrid.OffsetsDistinct | src/utils/octagonGrid.ts:14-17 | no direction has a zero offset, and distinct directions have distinct offsets |
| OctagonGrid.PresentIffInGrid | src/utils/octagonGrid.ts:134-141 | for a cell inside the grid, each direction's guard holds exactly when the offset coordinates are inside the grid |
| OctagonGrid.AddNeighbors | src/utils/octagonGrid.ts:133-142 | after the guarded assignments for a list of directions, the record holds exactly the listed directions whose guard passed, each mapped to the id of the offset coordinates |
| OctagonGrid.BuildNeighborMap | src/utils/octagonGrid.ts:127-143 | a direction is present exactly when its guard passes, and then it names the id of the offset coordinates |
| OctagonGrid.NeighborMapInGrid | src/utils/octagonGrid.ts:127-143 | for a cell inside the grid, a direction is present exactly when its offset coordinates are inside the grid, and it names their id |
| OctagonGrid.NeighborsDiffer | src/utils/octagonGrid.ts:127-143 | no recorded neighbour is the cell itself, and two directions never name the same cell |
| OctagonGrid.NeighborMapInjective | src/utils/octagonGrid.ts:127-143 | the neighbour record is injective and does not list the cell's own id |
| OctagonGrid.NeighborSymmetric | src/utils/octagonGrid.ts:134-141 | B is A's neighbour in a direction exactly when A is B's neighbour in the opposite direction |
| OctagonGrid.CornerOfTwoByTwo | src/utils/octagonGrid.ts:134-141 | in a 2 × 2 grid `oct_0_0` has exactly the E, S and SE neighbours `oct_1_0`, `oct_0_1`, `oct_1_1` |
| OctagonGrid.CenteringOffset | src/utils/octagonGrid.ts:59-62 | the centring offset is never negative, and it is either 0 or half the slack `(board − (count·(s + d) + d))/2`, whichever is larger |
| OctagonGrid.MakeCell | src/utils/octagonGrid.ts:66-99 | one cell of the grid from its column and row; no contract of its own, its geometry and ids are stated by `OctagonGrid.GridCellGeometry`, `OctagonGrid.LatticeOrigin` and `OctagonGrid.GridCellFields` |
| OctagonGrid.BuildGrid | src/utils/octagonGrid.ts:47-102 | the result has `cols·rows` cells, and index `i` holds the cell of column `i % cols` and row `i / cols` |
| OctagonGrid.GridCellAt | src/utils/octagonGrid.ts:66-99 | the cell at index `row·cols + col` has that column, that row and the id of `(col, row)` |
| OctagonGrid.GridCellFields | src/utils/octagonGrid.ts:83-96 | every built cell lies inside the grid, carries the id of its coordinates and carries the neighbour record of its coordinates |
| OctagonGrid.GridCellGeometry | src/utils/octagonGrid.ts:68-81 | every built cell has its origin on the lattice of the geometry, its centre `W/2` past its origin, and image offsets equal to its origin |
| OctagonGrid.LatticeOrigin | src/utils/octagonGrid.ts:68-69 | the origin of a cell on the lattice is `offset + index·(s + d)` on both axes |
| OctagonGrid.GridOffsetsNonNegative | src/utils/octagonGrid.ts:61-62 | both centring offsets are non-negative |
| OctagonGrid.GridIdsDistinct | src/utils/octagonGrid.ts:66-110 | different positions of a built grid hold different coordinates and different ids |
| OctagonGrid.GridAdjacencySymmetric | src/utils/octagonGrid.ts:127-143 | within a built grid, cell j is cell i's neighbour in a direction exactly when i is j's neighbour in the opposite direction |
| OctagonGrid.GridNeighborCoordinates | src/utils/octagonGrid.ts:127-143 | each neighbour a built cell records lies inside the grid at the direction's offset, under that position's id |
| OctagonGrid.GridNeighborsInGrid | src/utils/octagonGrid.ts:127-143 | each neighbour id a built cell records is the id of a cell of the same grid at the direction's offset |
| OctagonGrid.StatusOf | src/utils/octagonGrid.ts:159-166 | the status record has exactly the listed ids as keys; each value is whether that cell holds its own piece |
| OctagonGrid.ComputeNeighborStatus | src/utils/octagonGrid.ts:155-167 | the keys are exactly the cell's truthy neighbour ids; a value is true exactly when the occupancy entry exists and equals the key |
| OctagonGrid.ScoreCountsTrueStatus | src/utils/octagonGrid.ts:155-167 | the neighbour score of a cell is the number of true entries of its neighbour status |
| OctagonGrid.IsPointInOctagon | src/utils/octagonGrid.ts:196-210 | a local point is inside exactly when both coordinates lie in `[0, W]` and all four corner-cut sums are at least `d` |
| OctagonGrid.OctagonOutlineAgrees | src/utils/octagonGrid.ts:10-12 | the hit test accepts all eight outline vertices and the centre, and rejects the four corners of the bounding box |
| OctagonGrid.OctagonConvex | src/utils/octagonGrid.ts:196-210 | the accepted region is convex: the midpoint of two accepted points is accepted |
| OctagonGrid.FindCellAtPoint | src/utils/octagonGrid.ts:173-193 | the result is null exactly when no cell passes both tests; otherwise it is the first cell in list order that passes both |
| OctagonGrid.CentreMissesOtherCell | src/utils/octagonGrid.ts:173-193 | the centre of a built cell is outside the bounding box of every other cell of the grid |
| OctagonGrid.FindCellAtCentre | src/utils/octagonGrid.ts:173-193 | hit-testing the centre of any built cell finds that cell |
| Scramble.FreshPiecesIds | src/utils/scramble.ts:24-31 | the fresh pieces carry the cells' ids in the cells' order |
| Scramble.FreshPieces | src/utils/scramble.ts:24-31 | one piece per cell in cell order; piece `i` carries cell `i`'s id, has no cell, is unplaced and scores 0 |
| Scramble.PickIndex | src/utils/scramble.ts:69 | the drawn partner index is at most the current index |
| Scramble.PickIndexIsFloor | src/utils/scramble.ts:69 | the drawn index is `⌊r·(i + 1)⌋` |
| Scramble.SwapPermutes | src/utils/scramble.ts:70 | a swap exchanges the two positions, leaves every other position alone, and keeps the multiset |
| Scramble.ShuffleFrom | src/utils/scramble.ts:68-71 | the reference recursion of the loop from position `i` down to 1 keeps the length; `Scramble.ShuffleFromPermutes` shows it permutes |
| Scramble.Shuffle | src/utils/scramble.ts:66-73 | the reference shuffle keeps the length; `Scramble.ShufflePermutes` shows it is a permutation and `Scramble.FisherYates` that the in-place loop computes it |
| Scramble.ShuffleFromPermutes | src/utils/scramble.ts:68-71 | shuffling downwards from any position keeps the multiset of elements |
| Scramble.ShufflePermutes | src/utils/scramble.ts:66-73 | the shuffle is a permutation of its input |
| Scramble.ShuffleSameElements | src/utils/scramble.ts:66-73 | an element is in the shuffle exactly when it is in the input |
| Scramble.FisherYates | src/utils/scramble.ts:66-73 | the in-place loop returns a permutation of the same length, equal to the shuffle of the input with the draws taken in order, and uses `n − 1` draws |
| Scramble.ShuffleKeepsIds | src/utils/scramble.ts:24-34 | the shuffled pieces carry the same multiset of ids as before |
| Scramble.ShuffledFreshAreUnplaced | src/utils/scramble.ts:24-34 | after the shuffle, every fresh piece still has no cell, is unplaced and has score 0 |
| Scramble.RandBetween | src/utils/scramble.ts:75-77 | the value lies in `[min, max]`, and below `max` when `min < max` |
| Scramble.TrayColumns | src/utils/scramble.ts:38 | there is at least one tray column; more than one column fits in the tray width; a tray two slots wide gets more than one column |
| Scramble.JitteredX | src/utils/scramble.ts:46-51 | with positive scatter, x is within ±0.3·scatter of the slot column; otherwise it is the slot column |
| Scramble.JitteredY | src/utils/scramble.ts:47-52 | with positive scatter, y is within ±0.1·scatter of the slot row; otherwise it is the slot row |
| Scramble.ClampX | src/utils/scramble.ts:56 | x ends non-negative and either at most `trayWidth − pieceSize` or 0; an x already in `[0, trayWidth − pieceSize]` is kept |
| Scramble.ClampY | src/utils/scramble.ts:57 | y ends non-negative and, for a non-negative tray height, at most `1.5·trayHeight`; a y already in range is kept |
| Scramble.Place | src/utils/scramble.ts:41-60 | laying out a piece changes only its position, which ends inside the clamped bounds |
| Scramble.LayOut | src/utils/scramble.ts:41-60 | the layout keeps the length; every laid-out piece keeps its id, cell, placement flag and score, and lies inside the clamped tray bounds |
| Scramble.LayOutKeepsIds | src/utils/scramble.ts:59 | the layout keeps every id in its place |
| Scramble.CreateAndScramblePieces | src/utils/scramble.ts:17-63 | one piece per cell with the same id multiset as the cells; every piece unplaced, in the tray, with score 0; positions within the clamped bounds; the result is the layout of the shuffled fresh pieces |
| GameStore.IndexBy | src/store/gameStore.tsx:63-65 | the keys are exactly the elements' keys, and each stored element is an element of the list with that key |
| GameStore.IndexByKeepsLast | src/store/gameStore.tsx:63-65 | an element that no later element shares its key with is the one stored under its key |
| GameStore.IndexByFindsEach | src/store/gameStore.tsx:63-65 | with distinct keys, every element is stored under its own key |
| GameStore.RescoreOne | src/store/gameStore.tsx:121-132 | one pass of a rescoring loop keeps the set of piece keys |
| GameStore.Rescore | src/store/gameStore.tsx:117-153 | a rescoring loop keeps the piece keys; it refreshes the score of exactly the known pieces occupying one of the truthy listed cells and leaves every other record as it was |
| GameStore.Refreshed | src/store/gameStore.tsx:124-131 | a refreshed record differs from the old one only in its score, which is at most 8, and 0 for a piece in the tray |
| GameStore.Evictee | src/store/gameStore.tsx:94-97 | an evictee is a known piece with a non-empty id other than the moved one |
| GameStore.PlacePieces | src/store/gameStore.tsx:95-153 | after eviction, the move and rescoring, the same piece keys remain |
| GameStore.Place | src/store/gameStore.tsx:80-171 | an unknown piece leaves the state unchanged; otherwise the move count grows by one and the phase becomes solving or won; the piece set, grid, level, image and clock stay |
| GameStore.StartGameState | src/store/gameStore.tsx:56-78 | phase `scrambled`, counters and completion zeroed, level and image kept; every grid cell id maps to null and no other key is present; the pieces are keyed by exactly their ids, each record an input piece |
| GameStore.Pickup | src/store/gameStore.tsx:173-190 | an unknown piece or one with no current cell leaves the state as it is; otherwise the piece keys, phase, move count and grid stay |
| GameStore.Step | src/store/gameStore.tsx:46-208 | only START_GAME, SET_LEVEL and RESET change the piece set, grid or level; the move count stays, grows by one on a placement, or restarts at 0; `StoreInvariants.StepKeepsConsistent` and `StoreInvariants.StepKeepsPhaseAndCompletion` state what every admissible action preserves |
| GameStore.Run | src/store/gameStore.tsx:221 | a run without restarting actions keeps the piece set, grid and level, and adds at most one move per action; `StoreInvariants.ReachableStates` states the invariants of every run |
| StoreInvariants.OccupancyIffCurrentCell | src/types/puzzle.ts:88-89 | under the invariant, a cell records a piece exactly when that piece sits in that cell |
| StoreInvariants.OccupancyInjective | src/types/puzzle.ts:88-89 | under the invariant, no piece is recorded in two cells |
| StoreInvariants.RescoreOnlyScores | src/store/gameStore.tsx:117-153 | rescoring changes nothing of any record but its score |
| StoreInvariants.AgreeIgnoresScores | src/types/puzzle.ts:52-65 | scores play no part in the occupancy invariant |
| StoreInvariants.PlacePiecesOnlyRescore | src/store/gameStore.tsx:117-153 | the final records of a move differ from the evicted-and-moved records only in scores |
| StoreInvariants.CurrentCellTruthy | src/store/gameStore.tsx:89 | under the invariant, a piece's current cell is truthy exactly when it has one |
| StoreInvariants.EvicteeIsOccupant | src/store/gameStore.tsx:86-103 | under the invariant, the evictee is the piece that held the target cell, if that is not the moved piece |
| StoreInvariants.PlacedAgree | src/store/gameStore.tsx:86-115 | after eviction and the move, the records and the new occupancy agree |
| StoreInvariants.PlaceKeepsConsistent | src/store/gameStore.tsx:80-171 | `PLACE_PIECE` with a non-empty cell id keeps the occupancy invariant |
| StoreInvariants.PickupKeepsConsistent | src/store/gameStore.tsx:173-190 | `PICKUP_PIECE` keeps the occupancy invariant |
| StoreInvariants.StartGameKeepsConsistent | src/store/gameStore.tsx:56-78 | `START_GAME` with unplaced pieces with non-empty ids establishes the invariant |
| StoreInvariants.InitialConsistent | src/store/gameStore.tsx:30-41 | the initial state satisfies the invariant |
| StoreInvariants.StepKeepsConsistent | src/store/gameStore.tsx:46-208 | every admissible action keeps the invariant |
| StoreInvariants.RunKeepsConsistent | src/store/gameStore.tsx:221 | any sequence of admissible actions from a consistent state ends consistent |
| StoreInvariants.StartGameCompletion | src/store/gameStore.tsx:56-78 | the completion fraction `START_GAME` sets is the fraction of home pieces (none) |
| StoreInvariants.StepKeepsPhaseAndCompletion | src/store/gameStore.tsx:46-208 | every admissible action keeps the phase among idle, scrambled, solving and won, and the completion fraction in [0, 1] and accurate |
| StoreInvariants.ReachableStates | src/store/gameStore.tsx:221 | every state reached by admissible actions is consistent, in one of the four reducer phases, with an accurate completion fraction in [0, 1] |
| StoreInvariants.InitialReachable | src/store/gameStore.tsx:30-41 | the initial state is consistent, idle, with an accurate completion fraction |
| StoreProperties.PlaceUnknownPiece | src/store/gameStore.tsx:82-83 | placing an unknown piece returns the state unchanged |
| StoreProperties.MovedPieceKeepsScore | src/store/gameStore.tsx:105-131 | the rescoring passes leave the moved piece's record exactly as the move wrote it |
| StoreProperties.PlaceOutcome | src/store/gameStore.tsx:80-171 | the target cell records the piece; the piece sits there, placed, with its target's score, id and position kept; move count +1; completion recomputed; phase `won` exactly when the win check holds, else `solving`; piece keys, grid, level, image, clock and side length kept |
| StoreProperties.PlaceFreesPreviousCell | src/store/gameStore.tsx:88-91 | the moved piece's previous cell, if different from the target, ends empty |
| StoreProperties.PlaceEvicts | src/store/gameStore.tsx:93-103 | under the invariant, a different prior occupant goes back to the tray unplaced, no cell records it, and the moved piece's old cell ends empty (eviction, not swap) |
| StoreProperties.PlaceOtherRecord | src/store/gameStore.tsx:117-153 | any record other than the moved piece and the evictee is refreshed for the new occupancy exactly when the move rescores it, and otherwise untouched |
| StoreProperties.PlaceFrame | src/store/gameStore.tsx:105-153 | besides the moved piece and the evictee, a record changes at most in its score; it is untouched unless it occupies a neighbour of the target or of the old cell, and then it is refreshed for the new occupancy |
| StoreProperties.PlaceOccupancyFrame | src/store/gameStore.tsx:85-106 | occupancy entries other than the target cell and the moved piece's old cell are untouched |
| StoreProperties.PlaceHomeStatus | src/store/gameStore.tsx:86-115 | under the invariant, the moved piece is home afterwards exactly when the target is its own cell, the target's prior occupant is not home, and every other piece keeps its home status |
| StoreProperties.PlaceHomeKeys | src/store/gameStore.tsx:86-115 | under the invariant, the home set after a move is the old one without the moved piece and the target's prior occupant, plus the moved piece when the target is its own cell |
| StoreProperties.PlaceHomeCount | src/store/gameStore.tsx:80-171 | a tray piece placed in its own empty cell adds one home piece; a tray piece placed in a cell whose own piece sits there removes one |
| StoreProperties.OnlyOwnerCanHoldCell | src/types/puzzle.ts:88-89 | when every piece but `p` is home, `p`'s cell is empty or holds `p` |
| StoreProperties.PlaceLastPieceWins | src/store/gameStore.tsx:156-170 | placing the only piece not yet home into its own cell gives phase `won`, completion 1 and a true win check |
| StoreProperties.PickupIdle | src/store/gameStore.tsx:173-176 | picking up an unknown piece or one in the tray returns the state unchanged |
| StoreProperties.PickupOutcome | src/store/gameStore.tsx:173-190 | the piece's cell ends empty and every other entry is kept; the piece goes to the tray unplaced; every other record, including stale scores, is kept; completion recomputed; phase, move count and clock kept |
| StoreProperties.PickupHomePieceLowersCompletion | src/store/gameStore.tsx:178-188 | under the invariant, lifting a home piece lowers the number of home pieces by one |
| StoreProperties.TickCounts | src/store/gameStore.tsx:192-195 | the clock advances by exactly one only in `solving` or `scrambled`; otherwise nothing changes |
| StoreProperties.WinIdempotent | src/store/gameStore.tsx:197-199 | WIN sets `won`, changes nothing else, and a second WIN changes nothing |
| StoreProperties.ScrambleIsIdentity | src/store/gameStore.tsx:205-206 | SCRAMBLE leaves the state unchanged |
| StoreProperties.ResetKeepsLevel | src/store/gameStore.tsx:201-203 | RESET gives the initial state with only level and image index kept |
| StoreProperties.SetLevelForgets | src/store/gameStore.tsx:48-54 | SET_LEVEL gives the same idle, pieceless state from any prior state, with the level and image index `level − 1` |
| StoreProperties.StartGameIndexesPieces | src/store/gameStore.tsx:63-65 | with distinct ids, START_GAME stores every piece under its id |
| StoreProperties.GridMapKeepsLast | src/store/gameStore.tsx:107 | a cell that no later cell shares its id with is the one the grid map stores under that id |
| GameSetup.BuiltGridMapFindsCells | src/store/gameStore.tsx:107 | the grid map of a built grid finds every cell under its id |
| GameSetup.ScrambledStart | src/utils/scramble.ts:17-63 | scrambled pieces for a built grid form an admissible START_GAME; the new game is consistent, its pieces are keyed by exactly the grid's cell ids, no piece is home, and a non-empty game is not won |

## Left out

- `computeSideLength` (`src/utils/octagonGrid.ts:25-42`): floating-point
  arithmetic with `Math.SQRT2` and `Math.floor`. The side length `s` and
  the corner cut `d` are inputs.
- `buildClipPath` (`src/utils/octagonGrid.ts:112-125`): `toFixed(2)`
  string formatting. `Cell` has no `clipPath` field.
  `OctagonGrid.OctagonVertices` lists the eight outline points the path
  draws.
- Floating point in general. Coordinates, scatter and completion are exact
  reals. Rounding in the source's `number` arithmetic is not modelled.
- `Math.random` is an oracle. Only permutation and bounds are proved, not
  uniformity of the shuffle.
- Scramble.TrayColumns: requires `pieceSize >= 0`. The source divides by
  `pieceSize + 8` for any size.
- OctagonGrid.BuildGrid: `cols` and `rows` are natural numbers. The source
  also loops over negative or fractional bounds.
- GameStore.Evictee: a prior occupant that is not a known piece is not
  evicted, so the pieces stay unchanged. The source writes a partial record
  (`currentCellId: null, isPlaced: false`) under that id. Under the
  occupancy invariant such an occupant does not exist.
- StoreInvariants.StepKeepsConsistent: proved only for admissible actions.
  The reducer itself accepts an empty cell id and pre-placed pieces in
  `START_GAME`, and with those the invariant can break.
- Ids that are names of `Object.prototype` properties (`toString`,
  `constructor`, `__proto__`, …). On the code's plain-object records such
  an id reads an inherited property or, for `__proto__`, rewrites the
  prototype. The model's records are maps, so its statements about
  unknown pieces (`StoreProperties.PlaceUnknownPiece`), indexing
  (`GameStore.IndexBy`) and eviction (`GameStore.Evictee`) hold for the
  code only for other ids. The ids the game dispatches are cell ids, which
  are never such names (`CellIds.CellIdIsOwnKey`).
- The React context, provider and hooks (`src/store/gameStore.tsx:210-242`)
  are wiring around the reducer.
- The presentation and input layers: components, the drag-and-drop hooks,
  the canvas renderer, the timer hook, and the `useOctagonGrid` memo
  wrapper. They are the external source of actions and are not part of
  this model.
- The level table in `src/config/levels.ts` is static data. Grid shape and
  scatter are parameters.
