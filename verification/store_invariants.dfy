/** What the reducer keeps true: the occupancy map and the pieces' current
    cells describe the same placement, placed pieces are exactly those in a
    cell, and the completion fraction is the fraction of pieces at home. */
module StoreInvariants {
  import opened Wrappers
  import opened PuzzleTypes
  import opened WinCheck
  import opened GameStore

  // ---------------------------------------------------------------------
  // The consistency invariant
  // ---------------------------------------------------------------------

  /** Every piece is stored under its own (non-empty) id. */
  predicate KeyedById(pieces: map<string, Piece>) {
    forall k :: k in pieces ==> k != "" && pieces[k].id == k
  }

  /** A piece is placed exactly when it sits in a cell. */
  predicate PlacedIffInCell(pieces: map<string, Piece>) {
    forall k :: k in pieces ==> (pieces[k].isPlaced <==> pieces[k].currentCellId.Some?)
  }

  /** The cell a piece sits in (a non-empty id) records that piece. */
  predicate CellsRecordPieces(pieces: map<string, Piece>, occ: Occupancy) {
    forall k :: k in pieces && pieces[k].currentCellId.Some? ==>
      pieces[k].currentCellId.value != "" && Lookup(occ, pieces[k].currentCellId.value) == Some(k)
  }

  /** The piece a cell records is a known piece sitting in that cell. */
  predicate OccupantsRecordCells(pieces: map<string, Piece>, occ: Occupancy) {
    forall c :: c in occ && occ[c].Some? ==> occ[c].value in pieces && pieces[occ[c].value].currentCellId == Some(c)
  }

  predicate Agree(pieces: map<string, Piece>, occ: Occupancy) {
    && KeyedById(pieces)
    && PlacedIffInCell(pieces)
    && CellsRecordPieces(pieces, occ)
    && OccupantsRecordCells(pieces, occ)
  }

  predicate Consistent(s: GameState) {
    Agree(s.pieces, s.occupancyMap)
  }

  /** The actions the invariant is proved for: a move names a non-empty
      cell id (the empty string is falsy, so the reducer would write it
      into the map but never free it again), and a new game starts with
      unplaced pieces with non-empty ids. */
  predicate Admissible(a: Action) {
    match a
    case PlacePiece(_, cellId) => cellId != ""
    case StartGame(_, pieces, _) =>
      forall i :: 0 <= i < |pieces| ==>
        pieces[i].id != "" && pieces[i].currentCellId == None && !pieces[i].isPlaced
    case _ => true
  }

  /** The invariant, read as the two directions of one equivalence:
      cell `c` records piece `p` exactly when `p` sits in `c`. */
  lemma OccupancyIffCurrentCell(s: GameState, c: string, p: string)
    requires Consistent(s) && c != ""
    ensures (p in s.pieces && Lookup(s.occupancyMap, c) == Some(p)) <==>
            (p in s.pieces && s.pieces[p].currentCellId == Some(c))
  {
  }

  /** No piece is recorded in two cells. */
  lemma OccupancyInjective(s: GameState, c1: string, c2: string)
    requires Consistent(s)
    requires Lookup(s.occupancyMap, c1).Some? && Lookup(s.occupancyMap, c1) == Lookup(s.occupancyMap, c2)
    ensures c1 == c2
  {
    var p := Lookup(s.occupancyMap, c1).value;
    assert s.pieces[p].currentCellId == Some(c1);
  }

  // ---------------------------------------------------------------------
  // Score-only changes
  // ---------------------------------------------------------------------

  /** `b` is `a` with at most the neighbour scores changed. */
  predicate SameButScores(a: map<string, Piece>, b: map<string, Piece>) {
    a.Keys == b.Keys && forall k :: k in a ==> b[k] == a[k].(correctNeighborCount := b[k].correctNeighborCount)
  }

  /** Rescoring changes nothing but scores. */
  lemma RescoreOnlyScores(pieces: map<string, Piece>, ids: seq<string>, occ: Occupancy, gridMap: map<string, Cell>)
    ensures SameButScores(pieces, Rescore(pieces, ids, occ, gridMap))
  {
  }

  /** Scores play no part in the invariant. */
  lemma AgreeIgnoresScores(a: map<string, Piece>, b: map<string, Piece>, occ: Occupancy)
    requires SameButScores(a, b) && Agree(a, occ)
    ensures Agree(b, occ)
  {
    forall k | k in b ensures b[k].id == a[k].id && b[k].currentCellId == a[k].currentCellId && b[k].isPlaced == a[k].isPlaced {
      assert b[k] == a[k].(correctNeighborCount := b[k].correctNeighborCount);
    }
  }

  /** The records after a move are the placed records with new scores. */
  lemma PlacePiecesOnlyRescore(s: GameState, p: string, c: string)
    requires p in s.pieces
    ensures SameButScores(AfterEviction(s.pieces, PlaceEvictee(s, p, c))[p := MovedPiece(s, p, c)], PlacePieces(s, p, c))
  {
    var prev := s.pieces[p].currentCellId;
    var occ := PlaceOccupancy(s, p, c);
    var gridMap := GridMap(s.grid);
    var placed := AfterEviction(s.pieces, PlaceEvictee(s, p, c))[p := MovedPiece(s, p, c)];
    if c in gridMap {
      var around := Rescore(placed, NeighborsOf(c, gridMap), occ, gridMap);
      RescoreOnlyScores(placed, NeighborsOf(c, gridMap), occ, gridMap);
      if Truthy(prev) {
        RescoreOnlyScores(around, NeighborsOf(prev.value, gridMap), occ, gridMap);
      }
    }
  }

  // ---------------------------------------------------------------------
  // PLACE_PIECE keeps the invariant
  // ---------------------------------------------------------------------

  /** Under the invariant, a piece's current cell is truthy exactly when it
      has one. */
  lemma CurrentCellTruthy(s: GameState, p: string)
    requires Consistent(s) && p in s.pieces
    ensures Truthy(s.pieces[p].currentCellId) <==> s.pieces[p].currentCellId.Some?
  {
  }

  /** Under the invariant, the evictee is whoever held the target cell, if
      that is not the moved piece itself. */
  lemma EvicteeIsOccupant(s: GameState, p: string, c: string)
    requires Consistent(s) && p in s.pieces && c != ""
    ensures PlaceEvictee(s, p, c) == (if Lookup(s.occupancyMap, c).Some? && Lookup(s.occupancyMap, c) != Some(p)
                                      then Lookup(s.occupancyMap, c) else None)
  {
    var prev := s.pieces[p].currentCellId;
    CurrentCellTruthy(s, p);
    if prev.Some? && prev.value == c {
      assert Lookup(s.occupancyMap, c) == Some(p);
    }
  }

  /** The placed records and the new occupancy agree. */
  lemma PlacedAgree(s: GameState, p: string, c: string)
    requires Consistent(s) && p in s.pieces && c != ""
    ensures Agree(AfterEviction(s.pieces, PlaceEvictee(s, p, c))[p := MovedPiece(s, p, c)], PlaceOccupancy(s, p, c))
  {
    var prev := s.pieces[p].currentCellId;
    var q := PlaceEvictee(s, p, c);
    var placed := AfterEviction(s.pieces, q)[p := MovedPiece(s, p, c)];
    var occ := PlaceOccupancy(s, p, c);
    CurrentCellTruthy(s, p);
    EvicteeIsOccupant(s, p, c);
    assert occ == Vacate(s.occupancyMap, prev)[c := Some(p)];
    forall k | k in placed && placed[k].currentCellId.Some?
      ensures placed[k].currentCellId.value != "" && Lookup(occ, placed[k].currentCellId.value) == Some(k)
    {
      if k != p && q != Some(k) {
        var ck := s.pieces[k].currentCellId.value;
        assert placed[k] == s.pieces[k];
        assert Lookup(s.occupancyMap, ck) == Some(k);
        assert ck != c;
        assert prev.Some? ==> prev.value != ck;
      }
    }
    forall x | x in occ && occ[x].Some?
      ensures occ[x].value in placed && placed[occ[x].value].currentCellId == Some(x)
    {
      if x != c {
        var k := occ[x].value;
        assert x in s.occupancyMap && s.occupancyMap[x] == Some(k);
        assert s.pieces[k].currentCellId == Some(x);
        assert k != p;
        assert q != Some(k);
      }
    }
  }

  lemma PlaceKeepsConsistent(s: GameState, p: string, c: string)
    requires Consistent(s) && c != ""
    ensures Consistent(Place(s, p, c))
  {
    if p in s.pieces {
      PlacedAgree(s, p, c);
      PlacePiecesOnlyRescore(s, p, c);
      AgreeIgnoresScores(AfterEviction(s.pieces, PlaceEvictee(s, p, c))[p := MovedPiece(s, p, c)],
                         PlacePieces(s, p, c), PlaceOccupancy(s, p, c));
    }
  }

  // ---------------------------------------------------------------------
  // The other actions keep the invariant
  // ---------------------------------------------------------------------

  lemma PickupKeepsConsistent(s: GameState, p: string)
    requires Consistent(s)
    ensures Consistent(Pickup(s, p))
  {
    if p in s.pieces && Truthy(s.pieces[p].currentCellId) {
      var r := Pickup(s, p);
      var c := s.pieces[p].currentCellId.value;
      forall x | x in r.occupancyMap && r.occupancyMap[x].Some?
        ensures r.occupancyMap[x].value in r.pieces && r.pieces[r.occupancyMap[x].value].currentCellId == Some(x)
      {
        var k := r.occupancyMap[x].value;
        assert x != c && s.occupancyMap[x] == Some(k);
        assert k != p;
      }
    }
  }

  lemma StartGameKeepsConsistent(s: GameState, grid: seq<Cell>, pieces: seq<Piece>, sideLength: real)
    requires Admissible(StartGame(grid, pieces, sideLength))
    ensures Consistent(StartGameState(s, grid, pieces, sideLength))
  {
    var r := StartGameState(s, grid, pieces, sideLength);
    forall k | k in r.pieces ensures k != "" && r.pieces[k].currentCellId == None && !r.pieces[k].isPlaced {
      var i :| 0 <= i < |pieces| && pieces[i] == r.pieces[k];
    }
  }

  lemma InitialConsistent()
    ensures Consistent(InitialState)
  {
  }

  /** Every admissible action keeps the invariant. */
  lemma StepKeepsConsistent(s: GameState, a: Action)
    requires Consistent(s) && Admissible(a)
    ensures Consistent(Step(s, a))
  {
    match a
    case PlacePiece(p, c) => PlaceKeepsConsistent(s, p, c);
    case PickupPiece(p) => PickupKeepsConsistent(s, p);
    case StartGame(grid, pieces, sideLength) => StartGameKeepsConsistent(s, grid, pieces, sideLength);
    case _ =>
  }

  /** Any run of admissible actions from a consistent state ends consistent. */
  lemma {:induction false} RunKeepsConsistent(s: GameState, actions: seq<Action>)
    requires Consistent(s)
    requires forall i :: 0 <= i < |actions| ==> Admissible(actions[i])
    ensures Consistent(Run(s, actions))
    decreases |actions|
  {
    if |actions| > 0 {
      StepKeepsConsistent(s, actions[0]);
      assert forall i :: 0 <= i < |actions| - 1 ==> actions[1..][i] == actions[i + 1];
      RunKeepsConsistent(Step(s, actions[0]), actions[1..]);
    }
  }

  // ---------------------------------------------------------------------
  // Phases and completion
  // ---------------------------------------------------------------------

  /** The phases the reducer produces. */
  predicate ReducerPhase(ph: Phase) {
    ph == Idle || ph == Scrambled || ph == Solving || ph == Won
  }

  /** `completionPct` is the fraction of pieces at home. */
  predicate CompletionAccurate(s: GameState) {
    s.completionPct == Completion(s.pieces)
  }

  /** Starting a game with unplaced pieces leaves no piece at home. */
  lemma StartGameCompletion(s: GameState, grid: seq<Cell>, pieces: seq<Piece>, sideLength: real)
    requires Admissible(StartGame(grid, pieces, sideLength))
    ensures CompletionAccurate(StartGameState(s, grid, pieces, sideLength))
  {
    var r := StartGameState(s, grid, pieces, sideLength);
    forall k | k in r.pieces ensures !IsHome(r.pieces[k]) {
      var i :| 0 <= i < |pieces| && pieces[i] == r.pieces[k];
    }
    assert HomeKeys(r.pieces) == {};
  }

  /** Every step keeps the phase among the four the reducer produces, the
      completion fraction in [0, 1] and, for admissible actions, equal to the
      fraction of pieces at home. */
  lemma StepKeepsPhaseAndCompletion(s: GameState, a: Action)
    requires ReducerPhase(s.phase) && CompletionAccurate(s) && Admissible(a)
    ensures ReducerPhase(Step(s, a).phase)
    ensures CompletionAccurate(Step(s, a))
    ensures 0.0 <= Step(s, a).completionPct <= 1.0
  {
    match a
    case StartGame(grid, pieces, sideLength) => StartGameCompletion(s, grid, pieces, sideLength);
    case _ =>
  }

  /** Every state reached from the initial state by admissible actions is
      consistent, in one of the reducer's four phases, and has an accurate
      completion fraction in [0, 1]. */
  lemma {:induction false} ReachableStates(s: GameState, actions: seq<Action>)
    requires Consistent(s) && ReducerPhase(s.phase) && CompletionAccurate(s)
    requires forall i :: 0 <= i < |actions| ==> Admissible(actions[i])
    ensures Consistent(Run(s, actions)) && ReducerPhase(Run(s, actions).phase)
    ensures CompletionAccurate(Run(s, actions)) && 0.0 <= Run(s, actions).completionPct <= 1.0
    decreases |actions|
  {
    if |actions| > 0 {
      StepKeepsConsistent(s, actions[0]);
      StepKeepsPhaseAndCompletion(s, actions[0]);
      assert forall i :: 0 <= i < |actions| - 1 ==> actions[1..][i] == actions[i + 1];
      ReachableStates(Step(s, actions[0]), actions[1..]);
    } else {
      assert Run(s, actions) == s;
    }
  }

  lemma InitialReachable()
    ensures Consistent(InitialState) && ReducerPhase(InitialState.phase) && CompletionAccurate(InitialState)
  {
  }
}
