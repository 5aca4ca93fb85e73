/** Per-action properties of the reducer: what each action changes and
    what it leaves alone. */
module StoreProperties {
  import opened Wrappers
  import opened PuzzleTypes
  import opened WinCheck
  import opened GameStore
  import opened StoreInvariants

  // ---------------------------------------------------------------------
  // PLACE_PIECE
  // ---------------------------------------------------------------------

  /** Moving an unknown piece does nothing. */
  lemma PlaceUnknownPiece(s: GameState, p: string, c: string)
    requires p !in s.pieces
    ensures Step(s, PlacePiece(p, c)) == s
  {
  }

  /** The moved piece's record ends with the score `MovedPiece` gave it: a
      rescoring pass that reaches it recomputes the same value. */
  lemma MovedPieceKeepsScore(s: GameState, p: string, c: string)
    requires p in s.pieces
    ensures p in PlacePieces(s, p, c) && PlacePieces(s, p, c)[p] == MovedPiece(s, p, c)
  {
    var occ := PlaceOccupancy(s, p, c);
    var gridMap := GridMap(s.grid);
    var moved := MovedPiece(s, p, c);
    assert Refreshed(moved, occ, gridMap) == moved;
  }

  /** After `PLACE_PIECE(p, c)` for a known piece: `c` records `p`, `p` sits in
      `c`, is placed and carries the neighbour score of `c` in the new
      occupancy; the move count grows by one; the completion fraction is
      recomputed; the phase is `Won` exactly when every piece is home and
      `Solving` otherwise; grid, level, image, clock and side length are
      untouched. */
  lemma PlaceOutcome(s: GameState, p: string, c: string)
    requires p in s.pieces
    ensures var r := Step(s, PlacePiece(p, c));
      && c in r.occupancyMap && r.occupancyMap[c] == Some(p)
      && p in r.pieces && r.pieces[p].currentCellId == Some(c) && r.pieces[p].isPlaced
      && r.pieces[p].correctNeighborCount == NeighborScore(c, r.occupancyMap, GridMap(s.grid))
      && r.pieces[p].id == s.pieces[p].id && r.pieces[p].x == s.pieces[p].x && r.pieces[p].y == s.pieces[p].y
      && r.moveCount == s.moveCount + 1
      && r.completionPct == Completion(r.pieces)
      && (r.phase == Won <==> CheckWin(r.pieces))
      && (r.phase != Won ==> r.phase == Solving)
      && r.pieces.Keys == s.pieces.Keys
      && r.grid == s.grid && r.level == s.level && r.imageIndex == s.imageIndex
      && r.elapsedSeconds == s.elapsedSeconds && r.sideLength == s.sideLength
  {
    MovedPieceKeepsScore(s, p, c);
  }

  /** The cell the moved piece left is empty afterwards (unless it is the
      target cell). */
  lemma PlaceFreesPreviousCell(s: GameState, p: string, c: string)
    requires p in s.pieces && Truthy(s.pieces[p].currentCellId) && s.pieces[p].currentCellId.value != c
    ensures Lookup(Step(s, PlacePiece(p, c)).occupancyMap, s.pieces[p].currentCellId.value) == None
  {
  }

  /** Eviction, not swap: a different piece that held the target cell goes
      back to the tray and is not recorded in any cell; in particular it is
      not moved into the cell the moved piece left. */
  lemma PlaceEvicts(s: GameState, p: string, c: string, q: string)
    requires Consistent(s) && p in s.pieces && c != ""
    requires Lookup(s.occupancyMap, c) == Some(q) && q != p
    ensures var r := Step(s, PlacePiece(p, c));
      && q in r.pieces && r.pieces[q].currentCellId == None && !r.pieces[q].isPlaced
      && (forall x :: Lookup(r.occupancyMap, x) != Some(q))
      && (s.pieces[p].currentCellId.Some? ==> Lookup(r.occupancyMap, s.pieces[p].currentCellId.value) == None)
  {
    var r := Step(s, PlacePiece(p, c));
    EvicteeIsOccupant(s, p, c);
    PlaceKeepsConsistent(s, p, c);
    assert PlaceEvictee(s, p, c) == Some(q);
    PlacePiecesOnlyRescore(s, p, c);
    var placed := AfterEviction(s.pieces, Some(q))[p := MovedPiece(s, p, c)];
    assert placed[q] == ToTray(s.pieces[q]);
    assert r.pieces[q] == placed[q].(correctNeighborCount := r.pieces[q].correctNeighborCount);
    assert s.pieces[q].currentCellId == Some(c);
    if s.pieces[p].currentCellId.Some? {
      var prev := s.pieces[p].currentCellId.value;
      assert Lookup(s.occupancyMap, prev) == Some(p);
      assert prev != c;
    }
  }

  /** The records and occupancy a known piece's move produces. */
  lemma PlaceParts(s: GameState, p: string, c: string)
    requires p in s.pieces
    ensures Step(s, PlacePiece(p, c)).pieces == PlacePieces(s, p, c)
    ensures Step(s, PlacePiece(p, c)).occupancyMap == PlaceOccupancy(s, p, c)
  {
    assert Step(s, PlacePiece(p, c)) == Place(s, p, c);
  }

  /** Whether a move rescores the piece `k`: the target is a grid cell and
      `k` occupies (in the new occupancy) a neighbour of the target, or a
      neighbour of the cell the moved piece left. */
  predicate Rescored(s: GameState, p: string, c: string, k: string)
    requires p in s.pieces
  {
    var prev := s.pieces[p].currentCellId;
    var gridMap := GridMap(s.grid);
    var occ := PlaceOccupancy(s, p, c);
    && c in gridMap
    && (OccupiesOneOf(k, NeighborsOf(c, gridMap), occ) ||
        (Truthy(prev) && OccupiesOneOf(k, NeighborsOf(prev.value, gridMap), occ)))
  }

  /** A record other than the moved piece's and the evictee's ends either
      untouched or with its score refreshed for the new occupancy, the
      latter exactly when the move rescores it. */
  lemma PlaceOtherRecord(s: GameState, p: string, c: string, k: string)
    requires p in s.pieces && k in s.pieces && k != p && PlaceEvictee(s, p, c) != Some(k)
    ensures k in PlacePieces(s, p, c)
    ensures PlacePieces(s, p, c)[k] ==
            if Rescored(s, p, c, k) then Refreshed(s.pieces[k], PlaceOccupancy(s, p, c), GridMap(s.grid)) else s.pieces[k]
  {
    var prev := s.pieces[p].currentCellId;
    var gridMap := GridMap(s.grid);
    var occ := PlaceOccupancy(s, p, c);
    var placed := AfterEviction(s.pieces, PlaceEvictee(s, p, c))[p := MovedPiece(s, p, c)];
    assert placed[k] == s.pieces[k];
    if c in gridMap {
      var around := Rescore(placed, NeighborsOf(c, gridMap), occ, gridMap);
      var a := OccupiesOneOf(k, NeighborsOf(c, gridMap), occ);
      assert around[k] == if a then Refreshed(s.pieces[k], occ, gridMap) else s.pieces[k];
      if Truthy(prev) {
        var b := OccupiesOneOf(k, NeighborsOf(prev.value, gridMap), occ);
        var last := Rescore(around, NeighborsOf(prev.value, gridMap), occ, gridMap);
        assert last[k] == if b then Refreshed(around[k], occ, gridMap) else around[k];
      }
    }
  }

  /** Frame of a move, records: besides the moved piece and the evictee, a
      record changes at most in its score, and not at all unless the move
      rescores it. */
  lemma PlaceFrame(s: GameState, p: string, c: string, k: string)
    requires p in s.pieces && k in s.pieces && k != p && PlaceEvictee(s, p, c) != Some(k)
    ensures var r := Step(s, PlacePiece(p, c));
      && k in r.pieces
      && r.pieces[k] == s.pieces[k].(correctNeighborCount := r.pieces[k].correctNeighborCount)
      && (!Rescored(s, p, c, k) ==> r.pieces[k] == s.pieces[k])
      && (Rescored(s, p, c, k) ==> r.pieces[k] == Refreshed(s.pieces[k], r.occupancyMap, GridMap(s.grid)))
  {
    PlaceParts(s, p, c);
    PlaceOtherRecord(s, p, c, k);
  }

  /** Frame of a move, occupancy: entries other than the target cell and
      the moved piece's old cell are untouched. */
  lemma PlaceOccupancyFrame(s: GameState, p: string, c: string, x: string)
    requires p in s.pieces
    requires x != c && !(Truthy(s.pieces[p].currentCellId) && x == s.pieces[p].currentCellId.value)
    ensures var r := Step(s, PlacePiece(p, c));
      (x in r.occupancyMap <==> x in s.occupancyMap) &&
      (x in s.occupancyMap ==> r.occupancyMap[x] == s.occupancyMap[x])
  {
    PlaceParts(s, p, c);
  }

  /** One piece's home status after a move: the moved piece is home exactly
      when the target is its own cell, the target's prior occupant is not
      home, and every other piece keeps its status. */
  lemma PlaceHomeStatus(s: GameState, p: string, c: string, k: string)
    requires Consistent(s) && p in s.pieces && c != "" && k in s.pieces
    ensures var r := Step(s, PlacePiece(p, c));
      && k in r.pieces
      && (IsHome(r.pieces[k]) <==>
            if k == p then c == p
            else Lookup(s.occupancyMap, c) != Some(k) && IsHome(s.pieces[k]))
  {
    if k == p {
      PlaceOutcome(s, p, c);
    } else if Lookup(s.occupancyMap, c) == Some(k) {
      PlaceEvicts(s, p, c, k);
    } else {
      EvicteeIsOccupant(s, p, c);
      PlaceFrame(s, p, c, k);
    }
  }

  /** The home-set arithmetic of a move, on records alone: if `p` is home
      afterwards exactly when `c == p`, `q` is not home afterwards, and every
      other piece keeps its status, the home set changes as stated. */
  lemma HomeKeysAfterMove(before: map<string, Piece>, after: map<string, Piece>, p: string, c: string, q: Option<string>)
    requires after.Keys == before.Keys
    requires forall k :: k in before ==>
               (IsHome(after[k]) <==> if k == p then c == p else q != Some(k) && IsHome(before[k]))
    requires p in before
    ensures HomeKeys(after) ==
              HomeKeys(before) - {p} - (if q.Some? then {q.value} else {}) + (if c == p then {p} else {})
  {
  }

  /** The home pieces after a move: the moved piece and the target's prior
      occupant leave the home set, and the moved piece rejoins it exactly
      when the target is its own cell. */
  lemma PlaceHomeKeys(s: GameState, p: string, c: string)
    requires Consistent(s) && p in s.pieces && c != ""
    ensures var q := Lookup(s.occupancyMap, c);
      HomeKeys(Step(s, PlacePiece(p, c)).pieces) ==
        HomeKeys(s.pieces) - {p} - (if q.Some? then {q.value} else {}) + (if c == p then {p} else {})
  {
    var pieces := Step(s, PlacePiece(p, c)).pieces;
    var q := Lookup(s.occupancyMap, c);
    PlaceParts(s, p, c);
    forall k | k in s.pieces
      ensures IsHome(pieces[k]) <==> if k == p then c == p else q != Some(k) && IsHome(s.pieces[k])
    {
      PlaceHomeStatus(s, p, c, k);
    }
    HomeKeysAfterMove(s.pieces, pieces, p, c, q);
  }

  /** Placing a tray piece into its own empty cell adds one home piece;
      placing a tray piece into another piece's home cell, while that piece
      sits there, removes one. */
  lemma PlaceHomeCount(s: GameState, p: string, c: string)
    requires Consistent(s) && p in s.pieces && c != "" && s.pieces[p].currentCellId == None
    ensures c == p && Lookup(s.occupancyMap, c) == None ==>
              |HomeKeys(Step(s, PlacePiece(p, c)).pieces)| == |HomeKeys(s.pieces)| + 1
    ensures c != p && Lookup(s.occupancyMap, c) == Some(c) ==>
              |HomeKeys(Step(s, PlacePiece(p, c)).pieces)| == |HomeKeys(s.pieces)| - 1
  {
    var q := Lookup(s.occupancyMap, c);
    PlaceHomeKeys(s, p, c);
    assert p !in HomeKeys(s.pieces);
    if c != p && q == Some(c) {
      OccupancyIffCurrentCell(s, c, c);
    }
    HomeCountAfterMove(HomeKeys(s.pieces), HomeKeys(Step(s, PlacePiece(p, c)).pieces), p, c, q);
  }

  /** The size of the home set after a move, on sets alone. */
  lemma HomeCountAfterMove(h: set<string>, h': set<string>, p: string, c: string, q: Option<string>)
    requires p !in h
    requires h' == h - {p} - (if q.Some? then {q.value} else {}) + (if c == p then {p} else {})
    ensures c == p && q == None ==> |h'| == |h| + 1
    ensures c != p && q == Some(c) && c in h ==> |h'| == |h| - 1
  {
    if c != p && q == Some(c) && c in h {
      assert h - {p} - {c} == h - {c};
    }
  }

  /** When every piece but `p` is home, no other piece sits in `p`'s cell. */
  lemma OnlyOwnerCanHoldCell(s: GameState, p: string)
    requires Consistent(s) && p in s.pieces
    requires forall k :: k in s.pieces && k != p ==> IsHome(s.pieces[k])
    ensures Lookup(s.occupancyMap, p).Some? ==> Lookup(s.occupancyMap, p) == Some(p)
  {
    if Lookup(s.occupancyMap, p).Some? {
      var k := Lookup(s.occupancyMap, p).value;
      OccupancyIffCurrentCell(s, p, k);
    }
  }

  /** Placing the one piece that is not yet home into its own cell wins:
      the phase becomes `Won` and completion reaches 1. */
  lemma PlaceLastPieceWins(s: GameState, p: string)
    requires Consistent(s) && p in s.pieces
    requires forall k :: k in s.pieces && k != p ==> IsHome(s.pieces[k])
    ensures var r := Step(s, PlacePiece(p, p));
      r.phase == Won && r.completionPct == 1.0 && CheckWin(r.pieces)
  {
    var r := Step(s, PlacePiece(p, p));
    OnlyOwnerCanHoldCell(s, p);
    PlaceHomeKeys(s, p, p);
    PlaceOutcome(s, p, p);
    assert HomeKeys(r.pieces) == r.pieces.Keys;
    CompletionOneIffWin(r.pieces);
  }

  // ---------------------------------------------------------------------
  // PICKUP_PIECE
  // ---------------------------------------------------------------------

  /** Picking up an unknown piece, or one in the tray, does nothing. */
  lemma PickupIdle(s: GameState, p: string)
    requires p !in s.pieces || !Truthy(s.pieces[p].currentCellId)
    ensures Step(s, PickupPiece(p)) == s
  {
  }

  /** Picking up a placed piece empties its cell and sends it to the tray;
      the completion fraction is recomputed; phase, move count and every
      other record, including the neighbours' now stale scores, stay. */
  lemma PickupOutcome(s: GameState, p: string)
    requires p in s.pieces && Truthy(s.pieces[p].currentCellId)
    ensures var r := Step(s, PickupPiece(p));
      var c := s.pieces[p].currentCellId.value;
      && c in r.occupancyMap && r.occupancyMap[c] == None
      && (forall x :: x != c ==> (x in r.occupancyMap <==> x in s.occupancyMap) &&
                                  (x in s.occupancyMap ==> r.occupancyMap[x] == s.occupancyMap[x]))
      && p in r.pieces && r.pieces[p].currentCellId == None && !r.pieces[p].isPlaced
      && r.pieces[p].correctNeighborCount == s.pieces[p].correctNeighborCount
      && (forall k :: k in s.pieces && k != p ==> k in r.pieces && r.pieces[k] == s.pieces[k])
      && r.completionPct == Completion(r.pieces)
      && r.phase == s.phase && r.moveCount == s.moveCount && r.elapsedSeconds == s.elapsedSeconds
  {
  }

  /** Under the invariant, picking up a piece that is home lowers the number
      of home pieces by one. */
  lemma PickupHomePieceLowersCompletion(s: GameState, p: string)
    requires Consistent(s) && p in s.pieces && IsHome(s.pieces[p])
    ensures |HomeKeys(Step(s, PickupPiece(p)).pieces)| == |HomeKeys(s.pieces)| - 1
  {
    var r := Step(s, PickupPiece(p));
    assert Truthy(s.pieces[p].currentCellId);
    assert HomeKeys(r.pieces) == HomeKeys(s.pieces) - {p};
  }

  // ---------------------------------------------------------------------
  // TICK, WIN, SCRAMBLE, RESET, SET_LEVEL, START_GAME
  // ---------------------------------------------------------------------

  /** The clock runs only while a game is scrambled or being solved. */
  lemma TickCounts(s: GameState)
    ensures var r := Step(s, Tick);
      && (s.phase == Solving || s.phase == Scrambled ==>
            r.elapsedSeconds == s.elapsedSeconds + 1 && r.(elapsedSeconds := s.elapsedSeconds) == s)
      && (s.phase != Solving && s.phase != Scrambled ==> r == s)
  {
  }

  /** WIN sets the phase to `Won`, changes nothing else, and is idempotent. */
  lemma WinIdempotent(s: GameState)
    ensures Step(s, Win).phase == Won && Step(s, Win).(phase := s.phase) == s
    ensures Step(Step(s, Win), Win) == Step(s, Win)
  {
  }

  /** SCRAMBLE has no case of its own and falls through to the identity. */
  lemma ScrambleIsIdentity(s: GameState)
    ensures Step(s, Scramble) == s
  {
  }

  /** RESET returns the initial state, keeping level and image. */
  lemma ResetKeepsLevel(s: GameState)
    ensures var r := Step(s, Reset);
      r.level == s.level && r.imageIndex == s.imageIndex &&
      r.(level := InitialState.level, imageIndex := InitialState.imageIndex) == InitialState
  {
  }

  /** SET_LEVEL returns the initial state for that level, whatever came before. */
  lemma SetLevelForgets(s1: GameState, s2: GameState, level: int)
    ensures Step(s1, SetLevel(level)) == Step(s2, SetLevel(level))
    ensures Step(s1, SetLevel(level)).level == level && Step(s1, SetLevel(level)).imageIndex == level - 1
    ensures Step(s1, SetLevel(level)).phase == Idle && Step(s1, SetLevel(level)).pieces == map[]
  {
  }

  /** With distinct piece ids, START_GAME indexes every piece under its id. */
  lemma StartGameIndexesPieces(s: GameState, grid: seq<Cell>, pieces: seq<Piece>, sideLength: real, i: int)
    requires forall a, b :: 0 <= a < b < |pieces| ==> pieces[a].id != pieces[b].id
    requires 0 <= i < |pieces|
    ensures var r := Step(s, StartGame(grid, pieces, sideLength));
      pieces[i].id in r.pieces && r.pieces[pieces[i].id] == pieces[i]
  {
    IndexByFindsEach(pieces, (p: Piece) => p.id, i);
  }

  /** The last of several cells with the same id is the one the grid map
      keeps. */
  lemma GridMapKeepsLast(grid: seq<Cell>, i: int)
    requires 0 <= i < |grid|
    requires forall j :: i < j < |grid| ==> grid[j].id != grid[i].id
    ensures grid[i].id in GridMap(grid) && GridMap(grid)[grid[i].id] == grid[i]
  {
    IndexByKeepsLast(grid, (c: Cell) => c.id, i);
  }
}
