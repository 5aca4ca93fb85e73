/** How the three components meet when a game starts: the grid builder's
    cells and the scramble's pieces, handed to START_GAME. */
module GameSetup {
  import opened Wrappers
  import opened CellIds
  import opened PuzzleTypes
  import opened WinCheck
  import opened OctagonGrid
  import opened Scramble
  import opened GameStore
  import opened StoreInvariants

  /** In a built grid, the grid map finds every cell under its id. */
  lemma BuiltGridMapFindsCells(cells: seq<Cell>, g: Geometry, i: int)
    requires GridLayout(cells, g)
    requires 0 <= i < |cells|
    ensures cells[i].id in GridMap(cells) && GridMap(cells)[cells[i].id] == cells[i]
  {
    forall a, b | 0 <= a < b < |cells| ensures cells[a].id != cells[b].id {
      GridIdsDistinct(cells, g, a, b);
    }
    IndexByFindsEach(cells, (c: Cell) => c.id, i);
  }

  /** Cells of a built grid have non-empty ids. */
  lemma BuiltGridIdsNonEmpty(cells: seq<Cell>, g: Geometry)
    requires GridLayout(cells, g)
    ensures forall j :: 0 <= j < |cells| ==> cells[j].id != ""
  {
    forall j | 0 <= j < |cells| ensures cells[j].id != "" {
      GridCellFields(cells, g, j);
    }
  }

  /** Pieces carrying the cells' ids: every piece id is a cell id and every
      cell id a piece id. */
  lemma SameIds(cells: seq<Cell>, pieces: seq<Piece>, x: string)
    requires multiset(PieceIdList(pieces)) == multiset(CellIdList(cells))
    ensures (exists i :: 0 <= i < |pieces| && pieces[i].id == x) <==> (exists j :: 0 <= j < |cells| && cells[j].id == x)
  {
    var pids, cids := PieceIdList(pieces), CellIdList(cells);
    if exists i :: 0 <= i < |pieces| && pieces[i].id == x {
      var i :| 0 <= i < |pieces| && pieces[i].id == x;
      assert pids[i] == x && x in multiset(cids);
      var j :| 0 <= j < |cids| && cids[j] == x;
      assert cells[j].id == x;
    }
    if exists j :: 0 <= j < |cells| && cells[j].id == x {
      var j :| 0 <= j < |cells| && cells[j].id == x;
      assert cids[j] == x && x in multiset(pids);
      var i :| 0 <= i < |pids| && pids[i] == x;
      assert pieces[i].id == x;
    }
  }

  /** Unplaced pieces with the ids of cells with non-empty ids make an
      admissible START_GAME, whose pieces are keyed by exactly the cell ids. */
  lemma StartWithCellIds(s: GameState, cells: seq<Cell>, pieces: seq<Piece>, sideLength: real)
    requires forall j :: 0 <= j < |cells| ==> cells[j].id != ""
    requires multiset(PieceIdList(pieces)) == multiset(CellIdList(cells))
    requires forall i :: 0 <= i < |pieces| ==> pieces[i].currentCellId == None && !pieces[i].isPlaced
    ensures Admissible(StartGame(cells, pieces, sideLength))
    ensures var r := Step(s, StartGame(cells, pieces, sideLength));
      r.pieces.Keys == r.occupancyMap.Keys
  {
    forall i | 0 <= i < |pieces| ensures pieces[i].id != "" {
      SameIds(cells, pieces, pieces[i].id);
    }
    var r := Step(s, StartGame(cells, pieces, sideLength));
    forall x ensures x in r.pieces <==> x in r.occupancyMap {
      SameIds(cells, pieces, x);
    }
  }

  /** Pieces that carry exactly the built grid's ids, all unplaced, make an
      admissible START_GAME. The game it starts is consistent, its pieces
      are keyed by exactly the grid's cell ids (each piece's id is the id of
      its home cell), nothing is home yet, and so a non-empty game is not
      won. */
  lemma ScrambledStart(s: GameState, cells: seq<Cell>, g: Geometry, pieces: seq<Piece>, sideLength: real)
    requires GridLayout(cells, g)
    requires multiset(PieceIdList(pieces)) == multiset(CellIdList(cells))
    requires forall i :: 0 <= i < |pieces| ==> pieces[i].currentCellId == None && !pieces[i].isPlaced
    ensures Admissible(StartGame(cells, pieces, sideLength))
    ensures var r := Step(s, StartGame(cells, pieces, sideLength));
      && Consistent(r)
      && r.pieces.Keys == r.occupancyMap.Keys
      && r.completionPct == Completion(r.pieces) == 0.0
      && (|cells| > 0 ==> !CheckWin(r.pieces))
  {
    BuiltGridIdsNonEmpty(cells, g);
    StartWithCellIds(s, cells, pieces, sideLength);
    StartGameKeepsConsistent(s, cells, pieces, sideLength);
    StartGameCompletion(s, cells, pieces, sideLength);
    var r := Step(s, StartGame(cells, pieces, sideLength));
    if |cells| > 0 {
      SameIds(cells, pieces, cells[0].id);
      assert cells[0].id in r.pieces;
    }
  }
}
