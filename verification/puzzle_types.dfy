/** The entities of the puzzle: octagon cells, pieces, the game phase and the
    game state, with the small lookups every component shares. */
module PuzzleTypes {
  import opened Wrappers

  /** The phases a game can be in. The reducer only ever produces `Idle`,
      `Scrambled`, `Solving` and `Won`; `Loading` and `Exploding` belong to
      the presentation layer. */
  datatype Phase = Idle | Loading | Exploding | Scrambled | Solving | Won

  /** The eight compass directions a neighbour can lie in. */
  datatype Direction = N | S | E | W | NE | NW | SE | SW

  /** Every direction, in the order the grid builder inserts them (which is
      also the order in which the source enumerates a neighbour record). */
  const Directions: seq<Direction> := [N, S, E, W, NE, NW, SE, SW]

  /** The position of `dir` in `Directions`. */
  function DirectionIndex(dir: Direction): (k: nat)
    ensures k < |Directions| && Directions[k] == dir
  {
    match dir
    case N => 0
    case S => 1
    case E => 2
    case W => 3
    case NE => 4
    case NW => 5
    case SE => 6
    case SW => 7
  }

  /** A partial record from direction to neighbouring cell id. */
  type NeighborMap = map<Direction, string>

  /** One octagon tile of the solution grid. The CSS clip-path string is not
      part of the model. */
  datatype Cell = Cell(
    id: string,
    col: nat,
    row: nat,
    originX: real,
    originY: real,
    centerX: real,
    centerY: real,
    bgOffsetX: real,
    bgOffsetY: real,
    neighbors: NeighborMap)

  /** A movable piece; its `id` is the id of its home cell.
      `currentCellId == None` means the piece lies in the tray. */
  datatype Piece = Piece(
    id: string,
    currentCellId: Option<string>,
    x: real,
    y: real,
    isPlaced: bool,
    correctNeighborCount: nat)

  /** cell id -> occupying piece id (`None` for an empty cell). A key that is
      absent plays the part of JavaScript's `undefined`. */
  type Occupancy = map<string, Option<string>>

  datatype GameState = GameState(
    phase: Phase,
    level: int,
    imageIndex: int,
    grid: seq<Cell>,
    pieces: map<string, Piece>,
    occupancyMap: Occupancy,
    moveCount: nat,
    elapsedSeconds: nat,
    completionPct: real,
    sideLength: real)

  predicate DistinctDirections(dirs: seq<Direction>) {
    forall a, b :: 0 <= a < b < |dirs| ==> dirs[a] != dirs[b]
  }

  /** No two directions of `nm` name the same cell. */
  predicate Injective(nm: NeighborMap) {
    forall d1, d2 :: d1 in nm && d2 in nm && d1 != d2 ==> nm[d1] != nm[d2]
  }

  /** JavaScript truthiness of a `string | null` value: null and "" are falsy. */
  predicate Truthy(o: Option<string>) {
    o.Some? && o.value != ""
  }

  /** `occupancyMap[id]`, with a missing key read as null. */
  function Lookup(occ: Occupancy, id: string): (r: Option<string>)
    ensures r.Some? <==> id in occ && occ[id].Some?
    ensures r.Some? ==> r == occ[id]
  {
    if id in occ then occ[id] else None
  }

  /** The truthy values of `nm` for the directions `dirs`, in that order. */
  function ValuesIn(nm: NeighborMap, dirs: seq<Direction>): (r: seq<string>)
    ensures |r| <= |dirs|
    ensures forall id :: id in r <==> exists k :: 0 <= k < |dirs| && dirs[k] in nm && nm[dirs[k]] == id && id != ""
    ensures DistinctDirections(dirs) && Injective(nm) ==>
              forall i, j :: 0 <= i < j < |r| ==> r[i] != r[j]
  {
    if |dirs| == 0 then []
    else
      var rest := ValuesIn(nm, dirs[1..]);
      assert forall k :: 0 <= k < |dirs| - 1 ==> dirs[1..][k] == dirs[k + 1];
      if dirs[0] in nm && nm[dirs[0]] != "" then
        var head := nm[dirs[0]];
        assert DistinctDirections(dirs) && Injective(nm) ==> head !in rest;
        [head] + rest
      else rest
  }

  /** `Object.values(cell.neighbors)` with the falsy ids skipped: the
      neighbour ids every pass over a neighbour record visits. */
  function NeighborIds(nm: NeighborMap): (r: seq<string>)
    ensures |r| <= 8
    ensures forall id :: id in r <==> id != "" && exists dir :: dir in nm && nm[dir] == id
    ensures Injective(nm) ==> forall i, j :: 0 <= i < j < |r| ==> r[i] != r[j]
  {
    var r := ValuesIn(nm, Directions);
    assert forall dir | dir in nm && nm[dir] != "" :: nm[dir] in r by {
      forall dir | dir in nm && nm[dir] != "" ensures nm[dir] in r {
        var k := DirectionIndex(dir);
        assert Directions[k] in nm && nm[Directions[k]] == nm[dir];
      }
    }
    r
  }
}
