/** Win detection, completion fraction and the per-piece neighbour score. */
module WinCheck {
  import opened Wrappers
  import opened PuzzleTypes

  /** A piece is home when it is placed in the cell whose id is its own. */
  predicate IsHome(p: Piece) {
    p.isPlaced && p.currentCellId == Some(p.id)
  }

  /** `checkWin`: every piece of the record is home (vacuously true when
      there are none). */
  predicate CheckWin(pieces: map<string, Piece>): (won: bool)
    ensures won <==> HomeKeys(pieces) == pieces.Keys
  {
    forall k :: k in pieces ==> IsHome(pieces[k])
  }

  /** The keys of the pieces that are home. */
  function HomeKeys(pieces: map<string, Piece>): (h: set<string>)
    ensures h <= pieces.Keys
    ensures forall k :: k in h <==> k in pieces && IsHome(pieces[k])
  {
    set k | k in pieces && IsHome(pieces[k])
  }

  /** `computeCompletion`: the fraction of pieces that are home, 0 for none. */
  function Completion(pieces: map<string, Piece>): (r: real)
    ensures |pieces| == 0 ==> r == 0.0
    ensures 0.0 <= r <= 1.0
    ensures r * (|pieces| as real) == |HomeKeys(pieces)| as real
    ensures r == 1.0 <==> |pieces| > 0 && CheckWin(pieces)
    ensures r == 0.0 <==> HomeKeys(pieces) == {}
  {
    var total := |pieces|;
    if total == 0 then 0.0
    else
      var home := HomeKeys(pieces);
      CompletionOneIffWin(pieces);
      assert pieces.Keys == home + (pieces.Keys - home);
      var r := (|home| as real) / (total as real);
      assert r * (total as real) == |home| as real;
      r
  }

  /** All pieces are home exactly when the home set is the whole key set. */
  lemma CompletionOneIffWin(pieces: map<string, Piece>)
    ensures |HomeKeys(pieces)| == |pieces| <==> CheckWin(pieces)
  {
    var home := HomeKeys(pieces);
    if |home| == |pieces| {
      assert pieces.Keys == home + (pieces.Keys - home);
      assert pieces.Keys - home == {};
    }
    if CheckWin(pieces) {
      assert pieces.Keys == home;
    }
  }

  /** The number of positions `i` where `occ[ids[i]] == ids[i]`: neighbour
      cells that hold their own piece. */
  function CountHome(ids: seq<string>, occ: Occupancy): (r: nat)
    ensures r <= |ids|
  {
    if |ids| == 0 then 0
    else CountHome(ids[..|ids| - 1], occ) + (if Lookup(occ, ids[|ids| - 1]) == Some(ids[|ids| - 1]) then 1 else 0)
  }

  /** `computePieceNeighborScore(cellId, occupancyMap, gridMap)`. */
  function NeighborScore(cellId: string, occ: Occupancy, gridMap: map<string, Cell>): (r: nat)
    ensures cellId !in gridMap ==> r == 0
    ensures r <= 8
    ensures cellId in gridMap ==> r <= |NeighborIds(gridMap[cellId].neighbors)|
  {
    if cellId !in gridMap then 0
    else CountHome(NeighborIds(gridMap[cellId].neighbors), occ)
  }

  /** With distinct ids the count is the size of the set of home ids. */
  lemma {:induction false} CountHomeIsSetSize(ids: seq<string>, occ: Occupancy)
    requires forall i, j :: 0 <= i < j < |ids| ==> ids[i] != ids[j]
    ensures CountHome(ids, occ) == |set id | id in ids && Lookup(occ, id) == Some(id)|
  {
    if |ids| > 0 {
      var init, last := ids[..|ids| - 1], ids[|ids| - 1];
      assert forall k :: 0 <= k < |init| ==> init[k] == ids[k];
      CountHomeIsSetSize(init, occ);
      var a := set id | id in init && Lookup(occ, id) == Some(id);
      var b := set id | id in ids && Lookup(occ, id) == Some(id);
      assert forall x :: x in ids <==> x in init || x == last by {
        assert ids == init + [last];
      }
      assert last !in init;
      if Lookup(occ, last) == Some(last) {
        assert b == a + {last};
      } else {
        assert b == a;
      }
    }
  }

  /** The count only looks at the listed cells: changing any other entry of
      the occupancy leaves it alone. */
  lemma {:induction false} CountHomeFrame(ids: seq<string>, occ: Occupancy, x: string, v: Option<string>)
    requires x !in ids
    ensures CountHome(ids, occ[x := v]) == CountHome(ids, occ)
  {
    if |ids| > 0 {
      CountHomeFrame(ids[..|ids| - 1], occ, x, v);
    }
  }

  /** A cell's score does not depend on who occupies that cell itself,
      provided the cell is not listed among its own neighbours. */
  lemma ScoreIgnoresOwnOccupant(cellId: string, occ: Occupancy, gridMap: map<string, Cell>, v: Option<string>)
    requires cellId in gridMap ==> cellId !in NeighborIds(gridMap[cellId].neighbors)
    ensures NeighborScore(cellId, occ[cellId := v], gridMap) == NeighborScore(cellId, occ, gridMap)
  {
    if cellId in gridMap {
      CountHomeFrame(NeighborIds(gridMap[cellId].neighbors), occ, cellId, v);
    }
  }
}
