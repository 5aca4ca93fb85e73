/** The scramble: one unplaced piece per grid cell, shuffled by Fisher–Yates
    and laid out on a jittered grid in the tray.

    `Math.random` is an oracle `random: nat -> real` with every value in
    `[0, 1)`; `random(k)` is the `k`-th call of a run. The shuffle makes
    `n - 1` calls, then the tray layout makes two calls per piece (x first,
    then y) when the scatter is positive. */
module Scramble {
  import opened Wrappers
  import opened PuzzleTypes
  import opened Lattices

  /** Gap between neighbouring tray slots, in pixels. */
  const Padding: real := 8.0

  /** Every value the oracle returns lies in `[0, 1)`, as `Math.random` does. */
  ghost predicate ValidOracle(random: nat -> real) {
    forall k: nat :: 0.0 <= random(k) < 1.0
  }

  // ---------------------------------------------------------------------
  // Pieces in their home order
  // ---------------------------------------------------------------------

  /** The piece whose home is `c`, lying unplaced in the tray at `(0, 0)`. */
  function FreshPiece(c: Cell): Piece {
    Piece(id := c.id, currentCellId := None, x := 0.0, y := 0.0, isPlaced := false, correctNeighborCount := 0)
  }

  /** One unplaced piece per cell, in the order of the cells: the piece at
      position `i` belongs in cell `i` and lies in the tray with score 0. */
  function FreshPieces(cells: seq<Cell>): (ps: seq<Piece>)
    ensures |ps| == |cells|
    ensures forall i :: 0 <= i < |cells| ==>
              ps[i].id == cells[i].id && ps[i].currentCellId == None &&
              !ps[i].isPlaced && ps[i].correctNeighborCount == 0
  {
    seq(|cells|, i requires 0 <= i < |cells| => FreshPiece(cells[i]))
  }

  /** The ids of a list of cells. */
  function CellIdList(cells: seq<Cell>): (ids: seq<string>)
    ensures |ids| == |cells|
  {
    seq(|cells|, i requires 0 <= i < |cells| => cells[i].id)
  }

  /** The ids of a list of pieces. */
  function PieceIdList(ps: seq<Piece>): (ids: seq<string>)
    ensures |ids| == |ps|
  {
    seq(|ps|, i requires 0 <= i < |ps| => ps[i].id)
  }

  // ---------------------------------------------------------------------
  // Fisher–Yates
  // ---------------------------------------------------------------------

  /** `Math.floor(r * (i + 1))`: the partner index drawn for position `i`
      (the product written as `i + 1` repeated additions of `r`). */
  function PickIndex(r: real, i: nat): (j: nat)
    requires 0.0 <= r < 1.0
    ensures j <= i
  {
    FractionSumBelow(r, i + 1);
    Lattice(0.0, i + 1, r).Floor
  }

  /** The drawn index is the floor of `r · (i + 1)`. */
  lemma PickIndexIsFloor(r: real, i: nat)
    requires 0.0 <= r < 1.0
    ensures PickIndex(r, i) as real <= r * ((i + 1) as real) < (PickIndex(r, i) + 1) as real
  {
    LatticeIsProduct(0.0, i + 1, r);
  }

  /** Exchange the elements at positions `i` and `j`. */
  function Swap<T>(a: seq<T>, i: nat, j: nat): (b: seq<T>)
    requires i < |a| && j < |a|
    ensures |b| == |a|
  {
    a[i := a[j]][j := a[i]]
  }

  /** A swap moves two elements and leaves every other position alone, so
      it keeps the multiset of elements. */
  lemma SwapPermutes<T>(a: seq<T>, i: nat, j: nat)
    requires i < |a| && j < |a|
    ensures Swap(a, i, j)[i] == a[j] && Swap(a, i, j)[j] == a[i]
    ensures forall k :: 0 <= k < |a| && k != i && k != j ==> Swap(a, i, j)[k] == a[k]
    ensures multiset(Swap(a, i, j)) == multiset(a)
  {
  }

  /** The shuffle from position `i` downwards, drawing `random(k)`,
      `random(k + 1)`, ... : the reference definition of the loop. */
  function ShuffleFrom<T>(a: seq<T>, i: nat, random: nat -> real, k: nat): (r: seq<T>)
    requires i < |a| && ValidOracle(random)
    ensures |r| == |a|
    decreases i
  {
    if i == 0 then a
    else ShuffleFrom(Swap(a, i, PickIndex(random(k), i)), i - 1, random, k + 1)
  }

  /** The whole shuffle of `a` starting at draw `k`. */
  function Shuffle<T>(a: seq<T>, random: nat -> real, k: nat): (r: seq<T>)
    requires ValidOracle(random)
    ensures |r| == |a|
  {
    if |a| == 0 then a else ShuffleFrom(a, |a| - 1, random, k)
  }

  /** One step of the shuffle: swap position `i` with its draw, go on below. */
  lemma ShuffleFromStep<T>(a: seq<T>, i: nat, random: nat -> real, k: nat)
    requires 0 < i < |a| && ValidOracle(random)
    ensures ShuffleFrom(a, i, random, k) == ShuffleFrom(Swap(a, i, PickIndex(random(k), i)), i - 1, random, k + 1)
  {
  }

  /** Shuffling from position `i` only reorders: the multiset is kept. */
  lemma {:induction false} ShuffleFromPermutes<T>(a: seq<T>, i: nat, random: nat -> real, k: nat)
    requires i < |a| && ValidOracle(random)
    ensures multiset(ShuffleFrom(a, i, random, k)) == multiset(a)
    decreases i
  {
    if i > 0 {
      var j := PickIndex(random(k), i);
      ShuffleFromStep(a, i, random, k);
      SwapPermutes(a, i, j);
      ShuffleFromPermutes(Swap(a, i, j), i - 1, random, k + 1);
    } else {
      assert ShuffleFrom(a, i, random, k) == a;
    }
  }

  /** The shuffle is a permutation of its input. */
  lemma ShufflePermutes<T>(a: seq<T>, random: nat -> real, k: nat)
    requires ValidOracle(random)
    ensures multiset(Shuffle(a, random, k)) == multiset(a)
  {
    if |a| > 0 {
      ShuffleFromPermutes(a, |a| - 1, random, k);
    }
  }

  /** Number of oracle calls the shuffle of `n` elements makes. */
  function ShuffleDraws(n: nat): nat {
    if n == 0 then 0 else n - 1
  }

  /** `fisherYates`: copies `arr` and shuffles the copy in place, from the last
      position down to position 1, swapping each with a drawn partner at or
      below it. Returns the shuffled sequence and the next unused draw. */
  method FisherYates<T>(arr: seq<T>, random: nat -> real, next: nat) returns (a: seq<T>, used: nat)
    requires ValidOracle(random)
    ensures |a| == |arr| && multiset(a) == multiset(arr)
    ensures a == Shuffle(arr, random, next)
    ensures used == next + ShuffleDraws(|arr|)
  {
    ShufflePermutes(arr, random, next);
    if |arr| == 0 {
      return arr, next;
    }
    a := arr;
    used := next;
    var i: nat := |arr| - 1;
    while i > 0
      invariant i < |a| == |arr|
      invariant used == next + (|arr| - 1 - i)
      invariant ShuffleFrom(a, i, random, used) == Shuffle(arr, random, next)
    {
      var j := PickIndex(random(used), i);
      ShuffleFromStep(a, i, random, used);
      a := Swap(a, i, j);
      used := used + 1;
      i := i - 1;
    }
    assert ShuffleFrom(a, 0, random, used) == a;
  }

  /** Swapping two pieces swaps their ids. */
  lemma SwapIds(a: seq<Piece>, i: nat, j: nat)
    requires i < |a| && j < |a|
    ensures PieceIdList(Swap(a, i, j)) == Swap(PieceIdList(a), i, j)
  {
    var l, r := PieceIdList(Swap(a, i, j)), Swap(PieceIdList(a), i, j);
    assert |l| == |r|;
    forall m | 0 <= m < |l| ensures l[m] == r[m] {
    }
  }

  /** A swap keeps the multiset of piece ids. */
  lemma SwapKeepsIds(a: seq<Piece>, i: nat, j: nat)
    requires i < |a| && j < |a|
    ensures multiset(PieceIdList(Swap(a, i, j))) == multiset(PieceIdList(a))
  {
    SwapIds(a, i, j);
    SwapPermutes(PieceIdList(a), i, j);
  }

  /** Shuffling from position `i` keeps the multiset of piece ids. */
  lemma {:induction false} ShuffleFromKeepsIds(a: seq<Piece>, i: nat, random: nat -> real, k: nat)
    requires i < |a| && ValidOracle(random)
    ensures multiset(PieceIdList(ShuffleFrom(a, i, random, k))) == multiset(PieceIdList(a))
    decreases i
  {
    if i > 0 {
      var j := PickIndex(random(k), i);
      var b := Swap(a, i, j);
      ShuffleFromStep(a, i, random, k);
      ShuffleFromKeepsIds(b, i - 1, random, k + 1);
      SwapKeepsIds(a, i, j);
    } else {
      assert ShuffleFrom(a, i, random, k) == a;
    }
  }

  /** The shuffled pieces carry exactly the ids they carried before. */
  lemma ShuffleKeepsIds(a: seq<Piece>, random: nat -> real, k: nat)
    requires ValidOracle(random)
    ensures multiset(PieceIdList(Shuffle(a, random, k))) == multiset(PieceIdList(a))
  {
    if |a| > 0 {
      ShuffleFromKeepsIds(a, |a| - 1, random, k);
    }
  }

  /** Every element of the shuffle comes from the input and vice versa;
      the order changes, the contents do not. */
  lemma ShuffleSameElements<T>(a: seq<T>, random: nat -> real, k: nat, x: T)
    requires ValidOracle(random)
    ensures x in Shuffle(a, random, k) <==> x in a
  {
    var r := Shuffle(a, random, k);
    ShufflePermutes(a, random, k);
    assert x in r <==> x in multiset(r);
    assert x in a <==> x in multiset(a);
  }

  // ---------------------------------------------------------------------
  // Tray layout
  // ---------------------------------------------------------------------

  /** `randBetween(lo, hi)` for the draw `r`. */
  function RandBetween(r: real, lo: real, hi: real): (v: real)
    requires 0.0 <= r < 1.0 && lo <= hi
    ensures lo <= v <= hi
    ensures lo < hi ==> v < hi
  {
    var span := hi - lo;
    ScaleBelow(r, span);
    r * span + lo
  }

  /** A fraction of a non-negative length is between zero and that length. */
  lemma ScaleBelow(r: real, x: real)
    requires 0.0 <= r < 1.0 && x >= 0.0
    ensures 0.0 <= r * x <= x && (x > 0.0 ==> r * x < x)
  {
  }

  /** Number of slots per tray row: as many `pieceSize + 8` slots as fit in
      the tray width, but at least one. */
  function TrayColumns(trayWidth: real, pieceSize: real): (cols: nat)
    requires pieceSize >= 0.0
    ensures cols >= 1
    ensures cols > 1 ==> (cols as real) * (pieceSize + Padding) <= trayWidth
    ensures trayWidth >= 2.0 * (pieceSize + Padding) ==> cols > 1
  {
    var slot := pieceSize + Padding;
    var fit := (trayWidth / slot).Floor;
    QuotientAtLeastTwo(trayWidth, slot);
    if fit < 1 then 1 else fit
  }

  /** A width of at least two slots holds at least two slots. */
  lemma QuotientAtLeastTwo(x: real, y: real)
    requires y > 0.0
    ensures x >= 2.0 * y ==> x / y >= 2.0
  {
    if x >= 2.0 * y {
      assert x / y * y == x;
    }
  }

  /** Slot position of tray index `i` before jitter and clamping. */
  function BaseX(i: nat, cols: nat, pieceSize: real): real
    requires cols >= 1
  {
    ((i % cols) as real) * (pieceSize + Padding)
  }

  function BaseY(i: nat, cols: nat, pieceSize: real): real
    requires cols >= 1
  {
    ((i / cols) as real) * (pieceSize + Padding)
  }

  /** The unclamped horizontal position of tray index `i`: its slot, moved by
      up to 30% of the scatter when the scatter is positive, using draw
      `k + 2i`. */
  function JitteredX(i: nat, cols: nat, pieceSize: real, scatter: real, random: nat -> real, k: nat): (x: real)
    requires cols >= 1 && ValidOracle(random)
    ensures scatter > 0.0 ==> BaseX(i, cols, pieceSize) - 0.3 * scatter <= x <= BaseX(i, cols, pieceSize) + 0.3 * scatter
    ensures scatter <= 0.0 ==> x == BaseX(i, cols, pieceSize)
  {
    if scatter > 0.0 then BaseX(i, cols, pieceSize) + RandBetween(random(k + 2 * i), -scatter * 0.3, scatter * 0.3)
    else BaseX(i, cols, pieceSize)
  }

  /** The unclamped vertical position: up to 10% of the scatter, using draw
      `k + 2i + 1`. */
  function JitteredY(i: nat, cols: nat, pieceSize: real, scatter: real, random: nat -> real, k: nat): (y: real)
    requires cols >= 1 && ValidOracle(random)
    ensures scatter > 0.0 ==> BaseY(i, cols, pieceSize) - 0.1 * scatter <= y <= BaseY(i, cols, pieceSize) + 0.1 * scatter
    ensures scatter <= 0.0 ==> y == BaseY(i, cols, pieceSize)
  {
    if scatter > 0.0 then BaseY(i, cols, pieceSize) + RandBetween(random(k + 2 * i + 1), -scatter * 0.1, scatter * 0.1)
    else BaseY(i, cols, pieceSize)
  }

  /** `Math.max(0, Math.min(x, trayWidth - pieceSize))`. */
  function ClampX(x: real, trayWidth: real, pieceSize: real): (c: real)
    ensures 0.0 <= c
    ensures c <= trayWidth - pieceSize || c == 0.0
    ensures 0.0 <= x <= trayWidth - pieceSize ==> c == x
  {
    var m := if x < trayWidth - pieceSize then x else trayWidth - pieceSize;
    if m < 0.0 then 0.0 else m
  }

  /** `Math.max(0, Math.min(y, trayHeight * 1.5))`. */
  function ClampY(y: real, trayHeight: real): (c: real)
    ensures 0.0 <= c
    ensures trayHeight >= 0.0 ==> c <= trayHeight * 1.5
    ensures 0.0 <= y <= trayHeight * 1.5 ==> c == y
  {
    var m := if y < trayHeight * 1.5 then y else trayHeight * 1.5;
    if m < 0.0 then 0.0 else m
  }

  /** The tray parameters of one scramble. */
  datatype Tray = Tray(width: real, height: real, pieceSize: real, scatter: real)

  /** Piece `p` moved to its tray position as index `i`; nothing else of it
      changes. */
  function Place(p: Piece, i: nat, cols: nat, t: Tray, random: nat -> real, k: nat): (q: Piece)
    requires cols >= 1 && ValidOracle(random)
    ensures q.id == p.id && q.currentCellId == p.currentCellId
    ensures q.isPlaced == p.isPlaced && q.correctNeighborCount == p.correctNeighborCount
    ensures 0.0 <= q.x && (q.x <= t.width - t.pieceSize || q.x == 0.0)
    ensures 0.0 <= q.y && (t.height >= 0.0 ==> q.y <= t.height * 1.5)
  {
    p.(x := ClampX(JitteredX(i, cols, t.pieceSize, t.scatter, random, k), t.width, t.pieceSize),
       y := ClampY(JitteredY(i, cols, t.pieceSize, t.scatter, random, k), t.height))
  }

  /** Every piece moved to the tray slot of its position in the list: each
      keeps its id, cell, placement flag and score, and ends inside the
      clamped tray bounds. */
  function LayOut(ps: seq<Piece>, t: Tray, random: nat -> real, k: nat): (r: seq<Piece>)
    requires t.pieceSize >= 0.0 && ValidOracle(random)
    ensures |r| == |ps|
    ensures forall i :: 0 <= i < |ps| ==>
              r[i].id == ps[i].id && r[i].currentCellId == ps[i].currentCellId &&
              r[i].isPlaced == ps[i].isPlaced && r[i].correctNeighborCount == ps[i].correctNeighborCount
    ensures forall i :: 0 <= i < |ps| ==>
              0.0 <= r[i].x && (r[i].x <= t.width - t.pieceSize || r[i].x == 0.0) &&
              0.0 <= r[i].y && (t.height >= 0.0 ==> r[i].y <= t.height * 1.5)
    ensures forall i :: 0 <= i < |ps| ==> r[i] == Place(ps[i], i, TrayColumns(t.width, t.pieceSize), t, random, k)
  {
    var cols := TrayColumns(t.width, t.pieceSize);
    seq(|ps|, i requires 0 <= i < |ps| => Place(ps[i], i, cols, t, random, k))
  }

  /** `createAndScramblePieces`: one unplaced piece per cell, in shuffled order,
      each at its (clamped, jittered) tray slot. */
  method CreateAndScramblePieces(cells: seq<Cell>, t: Tray, random: nat -> real) returns (pieces: seq<Piece>)
    requires t.pieceSize >= 0.0 && ValidOracle(random)
    ensures |pieces| == |cells|
    ensures multiset(PieceIdList(pieces)) == multiset(CellIdList(cells))
    ensures forall i :: 0 <= i < |pieces| ==>
              pieces[i].currentCellId == None && !pieces[i].isPlaced && pieces[i].correctNeighborCount == 0
    ensures forall i :: 0 <= i < |pieces| ==>
              0.0 <= pieces[i].x && (pieces[i].x <= t.width - t.pieceSize || pieces[i].x == 0.0) &&
              0.0 <= pieces[i].y && (t.height >= 0.0 ==> pieces[i].y <= t.height * 1.5)
    ensures pieces == LayOut(Shuffle(FreshPieces(cells), random, 0), t, random, ShuffleDraws(|cells|))
  {
    var home := FreshPieces(cells);
    var shuffled, used := FisherYates(home, random, 0);
    pieces := LayOut(shuffled, t, random, used);
    FreshPiecesIds(cells);
    ShuffleKeepsIds(home, random, 0);
    LayOutKeepsIds(shuffled, t, random, used);
    ShuffledFreshAreUnplaced(cells, random);
  }

  /** The fresh pieces carry the cells' ids, in order. */
  lemma FreshPiecesIds(cells: seq<Cell>)
    ensures PieceIdList(FreshPieces(cells)) == CellIdList(cells)
  {
  }

  /** Laying out moves pieces without changing their ids or their order. */
  lemma LayOutKeepsIds(ps: seq<Piece>, t: Tray, random: nat -> real, k: nat)
    requires t.pieceSize >= 0.0 && ValidOracle(random)
    ensures PieceIdList(LayOut(ps, t, random, k)) == PieceIdList(ps)
  {
  }

  /** Shuffling fresh pieces leaves every one of them unplaced, in the
      tray, with score 0. */
  lemma ShuffledFreshAreUnplaced(cells: seq<Cell>, random: nat -> real)
    requires ValidOracle(random)
    ensures forall i :: 0 <= i < |cells| ==>
              var p := Shuffle(FreshPieces(cells), random, 0)[i];
              p.currentCellId == None && !p.isPlaced && p.correctNeighborCount == 0
  {
    var home := FreshPieces(cells);
    var shuffled := Shuffle(home, random, 0);
    forall i | 0 <= i < |cells|
      ensures shuffled[i].currentCellId == None && !shuffled[i].isPlaced && shuffled[i].correctNeighborCount == 0
    {
      ShuffleSameElements(home, random, 0, shuffled[i]);
    }
  }
}
