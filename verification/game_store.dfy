/** The game reducer: a total function from a state and an action to the
    next state, over immutable maps. */
module GameStore {
  import opened Wrappers
  import opened PuzzleTypes
  import opened WinCheck

  /** The actions the reducer accepts. `Scramble` is declared but has no
      case of its own. */
  datatype Action =
    | StartGame(grid: seq<Cell>, pieces: seq<Piece>, sideLength: real)
    | Scramble
    | PlacePiece(pieceId: string, cellId: string)
    | PickupPiece(pieceId: string)
    | Tick
    | Win
    | Reset
    | SetLevel(level: int)

  /** The state before any game: idle, level 1, nothing on the board. */
  const InitialState: GameState := GameState(
    phase := Idle, level := 1, imageIndex := 0, grid := [], pieces := map[],
    occupancyMap := map[], moveCount := 0, elapsedSeconds := 0,
    completionPct := 0.0, sideLength := 0.0)

  // ---------------------------------------------------------------------
  // Indexing a list by id
  // ---------------------------------------------------------------------

  /** `new Map(xs.map(x => [key(x), x]))`, or the same loop over a plain
      record: each element stored under its key, a later element replacing
      an earlier one with the same key. */
  function IndexBy<T>(xs: seq<T>, key: T -> string): (m: map<string, T>)
    ensures m.Keys == set i | 0 <= i < |xs| :: key(xs[i])
    ensures forall k :: k in m ==> key(m[k]) == k && m[k] in xs
  {
    if |xs| == 0 then map[]
    else
      var init := IndexBy(xs[..|xs| - 1], key);
      var last := xs[|xs| - 1];
      assert forall i :: 0 <= i < |xs| - 1 ==> xs[..|xs| - 1][i] == xs[i];
      var m := init[key(last) := last];
      assert m.Keys == set i | 0 <= i < |xs| :: key(xs[i]) by {
        assert init.Keys == set i | 0 <= i < |xs| - 1 :: key(xs[i]);
      }
      m
  }

  /** An element that no later element shares its key with is the one
      stored under that key. */
  lemma {:induction false} IndexByKeepsLast<T>(xs: seq<T>, key: T -> string, i: int)
    requires 0 <= i < |xs|
    requires forall j :: i < j < |xs| ==> key(xs[j]) != key(xs[i])
    ensures key(xs[i]) in IndexBy(xs, key) && IndexBy(xs, key)[key(xs[i])] == xs[i]
  {
    if i < |xs| - 1 {
      var init := xs[..|xs| - 1];
      assert init[i] == xs[i];
      assert forall j :: i < j < |init| ==> init[j] == xs[j];
      IndexByKeepsLast(init, key, i);
    }
  }

  /** With distinct keys, every element is found under its own key. */
  lemma IndexByFindsEach<T>(xs: seq<T>, key: T -> string, i: int)
    requires forall a, b :: 0 <= a < b < |xs| ==> key(xs[a]) != key(xs[b])
    requires 0 <= i < |xs|
    ensures key(xs[i]) in IndexBy(xs, key) && IndexBy(xs, key)[key(xs[i])] == xs[i]
  {
    IndexByKeepsLast(xs, key, i);
  }

  /** The grid as a map from cell id to cell. */
  function GridMap(grid: seq<Cell>): map<string, Cell> {
    IndexBy(grid, (c: Cell) => c.id)
  }

  // ---------------------------------------------------------------------
  // Neighbour rescoring
  // ---------------------------------------------------------------------

  /** The score of a piece sitting at `cur`; a piece in the tray scores 0
      (no cell has the null id). */
  function CurScore(cur: Option<string>, occ: Occupancy, gridMap: map<string, Cell>): nat {
    match cur
    case None => 0
    case Some(c) => NeighborScore(c, occ, gridMap)
  }

  /** The piece record `p` with its score refreshed for the occupancy `occ`. */
  function Refreshed(p: Piece, occ: Occupancy, gridMap: map<string, Cell>): (r: Piece)
    ensures r == p.(correctNeighborCount := r.correctNeighborCount)
    ensures r.correctNeighborCount <= 8
    ensures p.currentCellId.None? ==> r.correctNeighborCount == 0
  {
    p.(correctNeighborCount := CurScore(p.currentCellId, occ, gridMap))
  }

  /** Whether the truthy occupant of one of the truthy cells `ids` is `k`. */
  predicate OccupiesOneOf(k: string, ids: seq<string>, occ: Occupancy) {
    k != "" && exists i :: 0 <= i < |ids| && ids[i] != "" && Lookup(occ, ids[i]) == Some(k)
  }

  /** One pass of a rescoring loop: the known piece occupying `id`, if any,
      gets its score refreshed. */
  function RescoreOne(pieces: map<string, Piece>, id: string, occ: Occupancy, gridMap: map<string, Cell>): (r: map<string, Piece>)
    ensures r.Keys == pieces.Keys
  {
    if id == "" then pieces
    else
      var occupant := Lookup(occ, id);
      if Truthy(occupant) && occupant.value in pieces then
        pieces[occupant.value := Refreshed(pieces[occupant.value], occ, gridMap)]
      else pieces
  }

  /** A whole rescoring loop over the cells `ids`: exactly the known pieces
      occupying one of them get a fresh score; no other record changes. */
  function Rescore(pieces: map<string, Piece>, ids: seq<string>, occ: Occupancy, gridMap: map<string, Cell>): (r: map<string, Piece>)
    ensures r.Keys == pieces.Keys
    ensures forall k :: k in pieces ==>
              r[k] == if OccupiesOneOf(k, ids, occ) then Refreshed(pieces[k], occ, gridMap) else pieces[k]
    decreases |ids|
  {
    if |ids| == 0 then pieces
    else
      var once := RescoreOne(pieces, ids[0], occ, gridMap);
      var r := Rescore(once, ids[1..], occ, gridMap);
      assert forall k :: k in pieces ==>
               (OccupiesOneOf(k, ids, occ) <==>
                 (k != "" && ids[0] != "" && Lookup(occ, ids[0]) == Some(k)) || OccupiesOneOf(k, ids[1..], occ)) by {
        forall k | k in pieces
          ensures OccupiesOneOf(k, ids, occ) <==>
                  (k != "" && ids[0] != "" && Lookup(occ, ids[0]) == Some(k)) || OccupiesOneOf(k, ids[1..], occ)
        {
          if OccupiesOneOf(k, ids[1..], occ) {
            var i :| 0 <= i < |ids[1..]| && ids[1..][i] != "" && Lookup(occ, ids[1..][i]) == Some(k);
            assert ids[i + 1] == ids[1..][i];
          }
          if OccupiesOneOf(k, ids, occ) && !(k != "" && ids[0] != "" && Lookup(occ, ids[0]) == Some(k)) {
            var i :| 0 <= i < |ids| && ids[i] != "" && Lookup(occ, ids[i]) == Some(k);
            assert i > 0 && ids[1..][i - 1] == ids[i];
          }
        }
      }
      r
  }

  /** The neighbour ids of `cellId` when it is a grid cell, none otherwise. */
  function NeighborsOf(cellId: string, gridMap: map<string, Cell>): seq<string> {
    if cellId in gridMap then NeighborIds(gridMap[cellId].neighbors) else []
  }

  // ---------------------------------------------------------------------
  // PLACE_PIECE
  // ---------------------------------------------------------------------

  /** The occupancy with the cell `prev` freed, if `prev` is truthy. */
  function Vacate(occ: Occupancy, prev: Option<string>): Occupancy {
    if Truthy(prev) then occ[prev.value := None] else occ
  }

  /** The piece the target cell held once the moved piece left its old cell,
      when it is a known piece other than the moved one. */
  function Evictee(pieces: map<string, Piece>, occ: Occupancy, pieceId: string, cellId: string): (q: Option<string>)
    ensures q.Some? ==> q.value in pieces && q.value != pieceId && q.value != ""
  {
    var e := Lookup(occ, cellId);
    if Truthy(e) && e.value != pieceId && e.value in pieces then e else None
  }

  /** `p` sent back to the tray; its position and score are kept. */
  function ToTray(p: Piece): Piece {
    p.(currentCellId := None, isPlaced := false)
  }

  /** The pieces after eviction, before the moved piece is written. */
  function AfterEviction(pieces: map<string, Piece>, q: Option<string>): map<string, Piece>
    requires q.Some? ==> q.value in pieces
  {
    if q.Some? then pieces[q.value := ToTray(pieces[q.value])] else pieces
  }

  /** The occupancy after a move: the moved piece's old cell freed, then the
      target cell given to the moved piece. */
  function PlaceOccupancy(s: GameState, pieceId: string, cellId: string): Occupancy
    requires pieceId in s.pieces
  {
    Vacate(s.occupancyMap, s.pieces[pieceId].currentCellId)[cellId := Some(pieceId)]
  }

  /** The piece the move evicts, if any. */
  function PlaceEvictee(s: GameState, pieceId: string, cellId: string): (q: Option<string>)
    requires pieceId in s.pieces
    ensures q.Some? ==> q.value in s.pieces && q.value != pieceId && q.value != ""
  {
    Evictee(s.pieces, Vacate(s.occupancyMap, s.pieces[pieceId].currentCellId), pieceId, cellId)
  }

  /** The moved piece's record before any neighbour rescoring. */
  function MovedPiece(s: GameState, pieceId: string, cellId: string): Piece
    requires pieceId in s.pieces
  {
    s.pieces[pieceId].(currentCellId := Some(cellId), isPlaced := true,
                       correctNeighborCount := NeighborScore(cellId, PlaceOccupancy(s, pieceId, cellId), GridMap(s.grid)))
  }

  /** The piece records after a move: the evictee back in the tray, the moved
      piece in the target cell, then the occupants of the target cell's
      neighbours rescored and, when the moved piece came from a cell, the
      occupants of that cell's neighbours too (both only when the target is
      a grid cell). */
  function PlacePieces(s: GameState, pieceId: string, cellId: string): (r: map<string, Piece>)
    requires pieceId in s.pieces
    ensures r.Keys == s.pieces.Keys
  {
    var prev := s.pieces[pieceId].currentCellId;
    var occ := PlaceOccupancy(s, pieceId, cellId);
    var gridMap := GridMap(s.grid);
    var placed := AfterEviction(s.pieces, PlaceEvictee(s, pieceId, cellId))[pieceId := MovedPiece(s, pieceId, cellId)];
    assert placed.Keys == s.pieces.Keys;
    var around := if cellId in gridMap then Rescore(placed, NeighborsOf(cellId, gridMap), occ, gridMap) else placed;
    if cellId in gridMap && Truthy(prev) then Rescore(around, NeighborsOf(prev.value, gridMap), occ, gridMap)
    else around
  }

  /** `gameReducer(state, PLACE_PIECE(pieceId, cellId))`. An unknown piece
      changes nothing; otherwise the move counts, the game is being solved
      or won, and the piece set, grid, level and clock stay. */
  function Place(s: GameState, pieceId: string, cellId: string): (r: GameState)
    ensures pieceId !in s.pieces ==> r == s
    ensures pieceId in s.pieces ==> r.moveCount == s.moveCount + 1 && (r.phase == Solving || r.phase == Won)
    ensures r.pieces.Keys == s.pieces.Keys && r.grid == s.grid
    ensures r.level == s.level && r.imageIndex == s.imageIndex && r.elapsedSeconds == s.elapsedSeconds
  {
    if pieceId !in s.pieces then s
    else
      var pieces := PlacePieces(s, pieceId, cellId);
      var next := s.(phase := Solving, pieces := pieces, occupancyMap := PlaceOccupancy(s, pieceId, cellId),
                     moveCount := s.moveCount + 1, completionPct := Completion(pieces));
      if CheckWin(next.pieces) then next.(phase := Won) else next
  }

  // ---------------------------------------------------------------------
  // The other actions
  // ---------------------------------------------------------------------

  /** `gameReducer(state, START_GAME(grid, pieces, sideLength))`. */
  function StartGameState(s: GameState, grid: seq<Cell>, pieces: seq<Piece>, sideLength: real): (r: GameState)
    ensures r.phase == Scrambled && r.grid == grid && r.sideLength == sideLength
    ensures r.moveCount == 0 && r.elapsedSeconds == 0 && r.completionPct == 0.0
    ensures r.level == s.level && r.imageIndex == s.imageIndex
    ensures r.occupancyMap.Keys == set i | 0 <= i < |grid| :: grid[i].id
    ensures forall c :: c in r.occupancyMap ==> r.occupancyMap[c] == None
    ensures r.pieces.Keys == set i | 0 <= i < |pieces| :: pieces[i].id
    ensures forall k :: k in r.pieces ==> r.pieces[k].id == k && r.pieces[k] in pieces
  {
    var ids := set i | 0 <= i < |grid| :: grid[i].id;
    var occ := map c | c in ids :: None;
    var indexed := IndexBy(pieces, (p: Piece) => p.id);
    s.(phase := Scrambled, grid := grid, pieces := indexed, occupancyMap := occ,
       sideLength := sideLength, moveCount := 0, elapsedSeconds := 0, completionPct := 0.0)
  }

  /** `gameReducer(state, PICKUP_PIECE(pieceId))`. The neighbours' scores are
      not refreshed. */
  function Pickup(s: GameState, pieceId: string): (r: GameState)
    ensures pieceId !in s.pieces || !Truthy(s.pieces[pieceId].currentCellId) ==> r == s
    ensures r.pieces.Keys == s.pieces.Keys
    ensures r.phase == s.phase && r.moveCount == s.moveCount && r.grid == s.grid
  {
    if pieceId !in s.pieces || !Truthy(s.pieces[pieceId].currentCellId) then s
    else
      var piece := s.pieces[pieceId];
      var occ := s.occupancyMap[piece.currentCellId.value := None];
      var pieces := s.pieces[pieceId := ToTray(piece)];
      s.(pieces := pieces, occupancyMap := occ, completionPct := Completion(pieces))
  }

  /** `gameReducer(state, TICK)`: one second passes while a game is on. */
  function TickState(s: GameState): (r: GameState)
    ensures s.phase == Solving || s.phase == Scrambled ==> r == s.(elapsedSeconds := s.elapsedSeconds + 1)
    ensures s.phase != Solving && s.phase != Scrambled ==> r == s
  {
    if s.phase != Solving && s.phase != Scrambled then s
    else s.(elapsedSeconds := s.elapsedSeconds + 1)
  }

  /** Whether an action starts over: only these replace the pieces, the
      grid or the level. */
  predicate Restarts(a: Action) {
    a.StartGame? || a.SetLevel? || a.Reset?
  }

  /** `gameReducer(state, action)`. Only a restarting action changes the
      piece set, the grid or the level; the move count only ever stays,
      grows by one on a placement, or restarts at 0. */
  function Step(s: GameState, a: Action): (r: GameState)
    ensures !Restarts(a) ==>
              r.pieces.Keys == s.pieces.Keys && r.grid == s.grid && r.level == s.level && r.imageIndex == s.imageIndex
    ensures r.moveCount == s.moveCount || (a.PlacePiece? && r.moveCount == s.moveCount + 1) ||
            (Restarts(a) && r.moveCount == 0)
  {
    match a
    case SetLevel(level) => InitialState.(level := level, imageIndex := level - 1)
    case StartGame(grid, pieces, sideLength) => StartGameState(s, grid, pieces, sideLength)
    case PlacePiece(pieceId, cellId) => Place(s, pieceId, cellId)
    case PickupPiece(pieceId) => Pickup(s, pieceId)
    case Tick => TickState(s)
    case Win => s.(phase := Won)
    case Reset => InitialState.(level := s.level, imageIndex := s.imageIndex)
    case Scramble => s
  }

  /** The state reached from `s` by the actions `actions`, in order. */
  function Run(s: GameState, actions: seq<Action>): (r: GameState)
    ensures (forall i :: 0 <= i < |actions| ==> !Restarts(actions[i])) ==>
              r.pieces.Keys == s.pieces.Keys && r.grid == s.grid && r.level == s.level &&
              s.moveCount <= r.moveCount <= s.moveCount + |actions|
    decreases |actions|
  {
    if |actions| == 0 then s else Run(Step(s, actions[0]), actions[1..])
  }
}
