/** The 4.8.8 octagon tessellation: row-major grid construction, the
    eight-direction neighbour rule, neighbour status and point location.

    With side length `s` and corner cut `d` (in the program `d = s·√2/2`,
    an irrational number, so here it is a parameter), one octagon fills a
    `W × W` box with `W = s + 2d`, and neighbouring octagons are `s + d`
    apart on both axes. */
module OctagonGrid {
  import opened Wrappers
  import opened CellIds
  import opened PuzzleTypes
  import opened WinCheck
  import opened Lattices

  // ---------------------------------------------------------------------
  // Neighbour rule
  // ---------------------------------------------------------------------

  /** Column offset of the neighbour in direction `dir`. */
  function Dx(dir: Direction): int {
    match dir
    case E | NE | SE => 1
    case W | NW | SW => -1
    case N | S => 0
  }

  /** Row offset of the neighbour in direction `dir` (rows grow southwards). */
  function Dy(dir: Direction): int {
    match dir
    case S | SE | SW => 1
    case N | NE | NW => -1
    case E | W => 0
  }

  function Opposite(dir: Direction): (o: Direction)
    ensures Dx(o) == -Dx(dir) && Dy(o) == -Dy(dir)
  {
    match dir
    case N => S
    case S => N
    case E => W
    case W => E
    case NE => SW
    case NW => SE
    case SE => NW
    case SW => NE
  }

  /** Distinct directions have distinct offsets, none of them zero. */
  lemma OffsetsDistinct(d1: Direction, d2: Direction)
    ensures Dx(d1) != 0 || Dy(d1) != 0
    ensures d1 != d2 ==> Dx(d1) != Dx(d2) || Dy(d1) != Dy(d2)
  {
  }

  predicate InGrid(col: int, row: int, cols: nat, rows: nat) {
    0 <= col < cols && 0 <= row < rows
  }

  /** The test `buildNeighborMap` applies before it records direction `dir`. */
  predicate Present(col: nat, row: nat, cols: nat, rows: nat, dir: Direction) {
    match dir
    case N => row > 0
    case S => row < rows - 1
    case E => col < cols - 1
    case W => col > 0
    case NE => col < cols - 1 && row > 0
    case NW => col > 0 && row > 0
    case SE => col < cols - 1 && row < rows - 1
    case SW => col > 0 && row < rows - 1
  }

  /** For a cell inside the grid the test admits exactly the in-bounds
      neighbour coordinates. */
  lemma PresentIffInGrid(col: nat, row: nat, cols: nat, rows: nat, dir: Direction)
    requires InGrid(col, row, cols, rows)
    ensures Present(col, row, cols, rows, dir) <==> InGrid(col + Dx(dir), row + Dy(dir), cols, rows)
  {
  }

  /** The id recorded for direction `dir`. */
  function Target(col: nat, row: nat, cols: nat, rows: nat, dir: Direction): string
    requires Present(col, row, cols, rows, dir)
  {
    CellIdOf(col + Dx(dir), row + Dy(dir))
  }

  /** The record after the tests for the directions `dirs`, in order. */
  function AddNeighbors(col: nat, row: nat, cols: nat, rows: nat, dirs: seq<Direction>): (nm: NeighborMap)
    ensures forall dir :: dir in nm <==> dir in dirs && Present(col, row, cols, rows, dir)
    ensures forall dir :: dir in nm ==> Present(col, row, cols, rows, dir) && nm[dir] == Target(col, row, cols, rows, dir)
  {
    if |dirs| == 0 then map[]
    else
      var m := AddNeighbors(col, row, cols, rows, dirs[..|dirs| - 1]);
      var dir := dirs[|dirs| - 1];
      assert forall x :: x in dirs <==> x in dirs[..|dirs| - 1] || x == dir;
      if Present(col, row, cols, rows, dir) then m[dir := Target(col, row, cols, rows, dir)] else m
  }

  /** `buildNeighborMap`: the neighbours of `(col, row)`, tested in the
      order N, S, E, W, NE, NW, SE, SW. */
  function BuildNeighborMap(col: nat, row: nat, cols: nat, rows: nat): (nm: NeighborMap)
    ensures forall dir :: dir in nm <==> Present(col, row, cols, rows, dir)
    ensures forall dir :: dir in nm ==> Present(col, row, cols, rows, dir) && nm[dir] == Target(col, row, cols, rows, dir)
  {
    var nm := AddNeighbors(col, row, cols, rows, Directions);
    assert forall dir :: Directions[DirectionIndex(dir)] == dir;
    nm
  }

  /** For a cell inside the grid, the record holds exactly the directions
      whose neighbour coordinates are inside the grid, each naming the id of
      those coordinates. */
  lemma NeighborMapInGrid(col: nat, row: nat, cols: nat, rows: nat, dir: Direction)
    requires InGrid(col, row, cols, rows)
    ensures dir in BuildNeighborMap(col, row, cols, rows) <==> InGrid(col + Dx(dir), row + Dy(dir), cols, rows)
    ensures dir in BuildNeighborMap(col, row, cols, rows) ==>
              BuildNeighborMap(col, row, cols, rows)[dir] == CellIdOf(col + Dx(dir), row + Dy(dir))
  {
    PresentIffInGrid(col, row, cols, rows, dir);
  }

  /** The coordinates a recorded direction points at. */
  lemma NeighborAt(col: nat, row: nat, cols: nat, rows: nat, dir: Direction) returns (c: nat, r: nat)
    requires dir in BuildNeighborMap(col, row, cols, rows)
    ensures c == col + Dx(dir) && r == row + Dy(dir)
    ensures BuildNeighborMap(col, row, cols, rows)[dir] == CellIdOf(c, r)
  {
    c, r := col + Dx(dir), row + Dy(dir);
  }

  /** Two directions of a neighbour record name different cells, and
      neither names the cell itself. */
  lemma NeighborsDiffer(col: nat, row: nat, cols: nat, rows: nat, d1: Direction, d2: Direction)
    requires d1 in BuildNeighborMap(col, row, cols, rows)
    ensures BuildNeighborMap(col, row, cols, rows)[d1] != CellIdOf(col, row)
    ensures d2 in BuildNeighborMap(col, row, cols, rows) && d1 != d2 ==>
              BuildNeighborMap(col, row, cols, rows)[d1] != BuildNeighborMap(col, row, cols, rows)[d2]
  {
    OffsetsDistinct(d1, d2);
    var c1, r1 := NeighborAt(col, row, cols, rows, d1);
    CellIdInjective(c1, r1, col, row);
    if d2 in BuildNeighborMap(col, row, cols, rows) {
      var c2, r2 := NeighborAt(col, row, cols, rows, d2);
      CellIdInjective(c1, r1, c2, r2);
    }
  }

  /** No cell is its own neighbour, and distinct directions name distinct
      cells. */
  lemma NeighborMapInjective(col: nat, row: nat, cols: nat, rows: nat)
    ensures Injective(BuildNeighborMap(col, row, cols, rows))
    ensures CellIdOf(col, row) !in NeighborIds(BuildNeighborMap(col, row, cols, rows))
  {
    var nm := BuildNeighborMap(col, row, cols, rows);
    forall d1, d2 | d1 in nm && d2 in nm && d1 != d2
      ensures nm[d1] != nm[d2]
    {
      NeighborsDiffer(col, row, cols, rows, d1, d2);
    }
    forall dir | dir in nm
      ensures nm[dir] != CellIdOf(col, row)
    {
      NeighborsDiffer(col, row, cols, rows, dir, dir);
    }
  }

  /** The cell a direction names sits at that direction's offset. */
  lemma NamedNeighborOffset(c1: nat, r1: nat, c2: nat, r2: nat, cols: nat, rows: nat, dir: Direction)
    requires dir in BuildNeighborMap(c1, r1, cols, rows) && BuildNeighborMap(c1, r1, cols, rows)[dir] == CellIdOf(c2, r2)
    ensures c2 == c1 + Dx(dir) && r2 == r1 + Dy(dir)
  {
    var n1, m1 := NeighborAt(c1, r1, cols, rows, dir);
    CellIdInjective(n1, m1, c2, r2);
  }

  lemma NeighborSymmetricOneWay(c1: nat, r1: nat, c2: nat, r2: nat, cols: nat, rows: nat, dir: Direction)
    requires InGrid(c1, r1, cols, rows) && InGrid(c2, r2, cols, rows)
    requires dir in BuildNeighborMap(c1, r1, cols, rows) && BuildNeighborMap(c1, r1, cols, rows)[dir] == CellIdOf(c2, r2)
    ensures Opposite(dir) in BuildNeighborMap(c2, r2, cols, rows)
    ensures BuildNeighborMap(c2, r2, cols, rows)[Opposite(dir)] == CellIdOf(c1, r1)
  {
    var o := Opposite(dir);
    NamedNeighborOffset(c1, r1, c2, r2, cols, rows, dir);
    assert c2 + Dx(o) == c1 && r2 + Dy(o) == r1;
    NeighborMapInGrid(c2, r2, cols, rows, o);
  }

  /** Adjacency is symmetric: B is A's neighbour in direction `dir` exactly
      when A is B's neighbour in the opposite direction. */
  lemma NeighborSymmetric(c1: nat, r1: nat, c2: nat, r2: nat, cols: nat, rows: nat, dir: Direction)
    requires InGrid(c1, r1, cols, rows) && InGrid(c2, r2, cols, rows)
    ensures (dir in BuildNeighborMap(c1, r1, cols, rows) && BuildNeighborMap(c1, r1, cols, rows)[dir] == CellIdOf(c2, r2))
        <==> (Opposite(dir) in BuildNeighborMap(c2, r2, cols, rows) &&
              BuildNeighborMap(c2, r2, cols, rows)[Opposite(dir)] == CellIdOf(c1, r1))
  {
    var o := Opposite(dir);
    if dir in BuildNeighborMap(c1, r1, cols, rows) && BuildNeighborMap(c1, r1, cols, rows)[dir] == CellIdOf(c2, r2) {
      NeighborSymmetricOneWay(c1, r1, c2, r2, cols, rows, dir);
    }
    if o in BuildNeighborMap(c2, r2, cols, rows) && BuildNeighborMap(c2, r2, cols, rows)[o] == CellIdOf(c1, r1) {
      NeighborSymmetricOneWay(c2, r2, c1, r1, cols, rows, o);
      assert Opposite(o) == dir;
    }
  }

  /** The ids of a 2 × 2 grid, spelled out. */
  lemma TwoByTwoIds()
    ensures CellIdOf(0, 0) == "oct_0_0" && CellIdOf(1, 0) == "oct_1_0"
    ensures CellIdOf(0, 1) == "oct_0_1" && CellIdOf(1, 1) == "oct_1_1"
  {
    assert NatToDecimal(0) == "0";
    assert NatToDecimal(1) == "1";
  }

  lemma CornerOfTwoByTwoKeys()
    ensures BuildNeighborMap(0, 0, 2, 2).Keys == {E, S, SE}
  {
    var nm := BuildNeighborMap(0, 0, 2, 2);
    forall dir ensures dir in nm <==> dir in {E, S, SE} {
      assert dir in nm <==> Present(0, 0, 2, 2, dir);
    }
  }

  /** The corner cell of a 2 × 2 grid has exactly its E, S and SE
      neighbours: `oct_1_0`, `oct_0_1` and `oct_1_1`. */
  lemma CornerOfTwoByTwo()
    ensures BuildNeighborMap(0, 0, 2, 2).Keys == {E, S, SE}
    ensures BuildNeighborMap(0, 0, 2, 2)[E] == "oct_1_0"
    ensures BuildNeighborMap(0, 0, 2, 2)[S] == "oct_0_1"
    ensures BuildNeighborMap(0, 0, 2, 2)[SE] == "oct_1_1"
  {
    CornerOfTwoByTwoKeys();
    TwoByTwoIds();
    var nm := BuildNeighborMap(0, 0, 2, 2);
    assert nm[E] == CellIdOf(1, 0) && nm[S] == CellIdOf(0, 1) && nm[SE] == CellIdOf(1, 1);
  }

  // ---------------------------------------------------------------------
  // Grid construction
  // ---------------------------------------------------------------------

  /** The parameters that fix every cell of a grid: its shape, the side
      length `s`, the corner cut `d` and the centring offsets. */
  datatype Geometry = Geometry(cols: nat, rows: nat, s: real, d: real, offsetX: real, offsetY: real)
  {
    /** `W = s + 2d`, the side of one octagon's bounding box. */
    function Width(): real { s + 2.0 * d }

    /** `s + d`, the distance between neighbouring origins. */
    function Step(): real { s + d }
  }

  /** The offset that centres `count` octagons inside a board of length
      `board`, never negative. */
  function CenteringOffset(board: real, count: nat, s: real, d: real): (off: real)
    ensures off >= 0.0
    ensures off >= (board - ((count as real) * (s + d) + d)) / 2.0
    ensures off == 0.0 || off == (board - ((count as real) * (s + d) + d)) / 2.0
  {
    var total := (count as real) * (s + d) + d;
    if (board - total) / 2.0 > 0.0 then (board - total) / 2.0 else 0.0
  }

  /** The geometry `buildGrid` derives from its arguments. */
  function GridGeometry(cols: nat, rows: nat, s: real, d: real, boardW: real, boardH: real): Geometry {
    Geometry(cols, rows, s, d, CenteringOffset(boardW, cols, s, d), CenteringOffset(boardH, rows, s, d))
  }

  /** The cell at column `col` and row `row`. Its origin is
      `offset + index·(s + d)` on each axis, written as repeated steps
      (`GridCellOrigin` states the product form). */
  function MakeCell(g: Geometry, col: nat, row: nat): Cell {
    var originX := Lattice(g.offsetX, col, g.Step());
    var originY := Lattice(g.offsetY, row, g.Step());
    Cell(
      id := CellIdOf(col, row),
      col := col,
      row := row,
      originX := originX,
      originY := originY,
      centerX := originX + g.Width() / 2.0,
      centerY := originY + g.Width() / 2.0,
      bgOffsetX := originX,
      bgOffsetY := originY,
      neighbors := BuildNeighborMap(col, row, g.cols, g.rows))
  }

  /** The cell at index `i`. Stating the layout through `Slot` rather than
      plain indexing keeps its quantifier from firing on every `cells[i]`. */
  function Slot(cells: seq<Cell>, i: nat): Cell
    requires i < |cells|
  {
    cells[i]
  }

  /** The first `|cells|` cells of the grid of `g`, in row-major order:
      index `i` holds the cell at column `i % cols`, row `i / cols`. */
  ghost predicate RowMajorPrefix(cells: seq<Cell>, g: Geometry) {
    g.cols > 0 ==> forall i: nat :: i < |cells| ==> Slot(cells, i) == MakeCell(g, i % g.cols, i / g.cols)
  }

  /** `cells` lists the whole grid of `g` in row-major order. */
  ghost predicate GridLayout(cells: seq<Cell>, g: Geometry) {
    |cells| == g.cols * g.rows && RowMajorPrefix(cells, g)
  }

  lemma MulAtLeast(a: int, b: int)
    requires a >= 1 && b > 0
    ensures a * b >= b
    decreases a
  {
    if a > 1 {
      MulAtLeast(a - 1, b);
      assert a * b == (a - 1) * b + b;
    }
  }

  /** Euclidean division is determined by quotient and remainder. */
  lemma DivModUnique(n: int, d: int, q: int, r: int)
    requires d > 0 && n == q * d + r && 0 <= r < d
    ensures n / d == q && n % d == r
  {
    var q', r' := n / d, n % d;
    assert n == q' * d + r' && 0 <= r' < d;
    assert (q - q') * d == r' - r;
    if q > q' {
      MulAtLeast(q - q', d);
    } else if q < q' {
      MulAtLeast(q' - q, d);
    }
  }

  lemma IndexDivMod(col: nat, row: nat, cols: nat)
    requires col < cols
    ensures (row * cols + col) / cols == row
    ensures (row * cols + col) % cols == col
  {
    DivModUnique(row * cols + col, cols, row, col);
  }

  /** A row-major prefix extends by the cell that belongs at the next index. */
  lemma AppendNext(cells: seq<Cell>, g: Geometry, c: Cell)
    requires RowMajorPrefix(cells, g)
    requires g.cols > 0 ==> c == MakeCell(g, |cells| % g.cols, |cells| / g.cols)
    ensures RowMajorPrefix(cells + [c], g)
  {
    var cells' := cells + [c];
    assert forall i: nat :: i < |cells| ==> Slot(cells', i) == Slot(cells, i);
    assert Slot(cells', |cells|) == c;
  }

  /** Appending the cell at `(col, row)` at index `row·cols + col` extends a
      row-major prefix. */
  lemma AppendCell(cells: seq<Cell>, g: Geometry, col: nat, row: nat)
    requires col < g.cols && |cells| == row * g.cols + col
    requires RowMajorPrefix(cells, g)
    ensures RowMajorPrefix(cells + [MakeCell(g, col, row)], g)
  {
    IndexDivMod(col, row, g.cols);
    AppendNext(cells, g, MakeCell(g, col, row));
  }

  lemma NextRow(row: nat, cols: nat)
    ensures row * cols + cols == (row + 1) * cols
  {
  }

  /** `buildGrid`: the `cols × rows` cells, rows outermost. */
  method BuildGrid(cols: nat, rows: nat, s: real, d: real, boardW: real, boardH: real) returns (cells: seq<Cell>)
    ensures GridLayout(cells, GridGeometry(cols, rows, s, d, boardW, boardH))
  {
    var g := GridGeometry(cols, rows, s, d, boardW, boardH);
    cells := [];
    var row := 0;
    while row < rows
      invariant 0 <= row <= rows
      invariant |cells| == row * cols
      invariant RowMajorPrefix(cells, g)
    {
      var col := 0;
      while col < cols
        invariant 0 <= col <= cols
        invariant |cells| == row * cols + col
        invariant RowMajorPrefix(cells, g)
      {
        AppendCell(cells, g, col, row);
        cells := cells + [MakeCell(g, col, row)];
        col := col + 1;
      }
      NextRow(row, cols);
      row := row + 1;
    }
  }

  /** A row-major index of a `cols × rows` grid names an in-bounds cell. */
  lemma IndexInGrid(i: int, cols: nat, rows: nat)
    requires cols > 0 && 0 <= i < cols * rows
    ensures InGrid(i % cols, i / cols, cols, rows)
  {
    var q, r := i / cols, i % cols;
    assert i == q * cols + r;
    if q >= rows {
      assert false;
    }
  }

  /** The coordinates of an in-bounds cell give an index of the grid. */
  lemma CoordinatesInRange(col: nat, row: nat, cols: nat, rows: nat)
    requires InGrid(col, row, cols, rows)
    ensures row * cols + col < cols * rows
  {
    NextRow(row, cols);
    MulGrows(row + 1, rows, cols);
    assert rows * cols == cols * rows;
  }

  /** Multiplying by a natural number keeps the order. */
  lemma {:induction false} MulGrows(a: nat, b: nat, c: nat)
    requires a <= b
    ensures a * c <= b * c
    decreases b - a
  {
    if a < b {
      MulGrows(a, b - 1, c);
      assert b * c == (b - 1) * c + c;
    }
  }

  /** Row-major order: the cell at index `row·cols + col` has that column,
      that row and the id `cellId(col, row)`. */
  lemma GridCellAt(cells: seq<Cell>, g: Geometry, col: nat, row: nat)
    requires GridLayout(cells, g)
    requires InGrid(col, row, g.cols, g.rows)
    ensures row * g.cols + col < |cells|
    ensures cells[row * g.cols + col].col == col && cells[row * g.cols + col].row == row
    ensures cells[row * g.cols + col].id == CellIdOf(col, row)
  {
    CoordinatesInRange(col, row, g.cols, g.rows);
    IndexDivMod(col, row, g.cols);
    assert Slot(cells, row * g.cols + col) == MakeCell(g, col, row);
  }

  /** Every cell of a built grid lies inside the grid and carries the id of
      its coordinates and its in-bounds neighbours. */
  lemma GridCellFields(cells: seq<Cell>, g: Geometry, i: int)
    requires GridLayout(cells, g)
    requires 0 <= i < |cells|
    ensures InGrid(cells[i].col, cells[i].row, g.cols, g.rows)
    ensures cells[i].id == CellIdOf(cells[i].col, cells[i].row)
    ensures cells[i].neighbors == BuildNeighborMap(cells[i].col, cells[i].row, g.cols, g.rows)
  {
    IndexInGrid(i, g.cols, g.rows);
    assert Slot(cells, i) == MakeCell(g, i % g.cols, i / g.cols);
  }

  /** Cell `c` sits on the lattice of origins of `g`, with its centre
      `W/2` further on and its image offset at its origin. */
  predicate OnLattice(c: Cell, g: Geometry) {
    && c.originX == Lattice(g.offsetX, c.col, g.Step())
    && c.originY == Lattice(g.offsetY, c.row, g.Step())
    && c.centerX == c.originX + g.Width() / 2.0
    && c.centerY == c.originY + g.Width() / 2.0
    && c.bgOffsetX == c.originX && c.bgOffsetY == c.originY
  }

  /** Every cell of a built grid sits on the lattice of `g`. */
  lemma GridCellGeometry(cells: seq<Cell>, g: Geometry, i: int)
    requires GridLayout(cells, g)
    requires 0 <= i < |cells|
    ensures OnLattice(cells[i], g)
  {
    assert Slot(cells, i) == MakeCell(g, i % g.cols, i / g.cols);
  }

  /** A cell on the lattice of `g` has its origin at
      `offset + index·(s + d)` on both axes. */
  lemma LatticeOrigin(c: Cell, g: Geometry)
    requires OnLattice(c, g)
    ensures c.originX == g.offsetX + (c.col as real) * (g.s + g.d)
    ensures c.originY == g.offsetY + (c.row as real) * (g.s + g.d)
  {
    LatticeIsProduct(g.offsetX, c.col, g.Step());
    LatticeIsProduct(g.offsetY, c.row, g.Step());
  }

  /** The centring offsets `buildGrid` derives are never negative. */
  lemma GridOffsetsNonNegative(cols: nat, rows: nat, s: real, d: real, boardW: real, boardH: real)
    ensures GridGeometry(cols, rows, s, d, boardW, boardH).offsetX >= 0.0
    ensures GridGeometry(cols, rows, s, d, boardW, boardH).offsetY >= 0.0
  {
  }

  /** A number is fixed by its quotient and remainder. */
  lemma SameQuotientAndRemainder(i: int, j: int, n: int)
    requires n > 0 && i / n == j / n && i % n == j % n
    ensures i == j
  {
    assert i == (i / n) * n + i % n;
    assert j == (j / n) * n + j % n;
  }

  /** The cell at index `i` of a built grid has column `i % cols` and row
      `i / cols`. */
  lemma GridCellCoordinates(cells: seq<Cell>, g: Geometry, i: int)
    requires GridLayout(cells, g)
    requires 0 <= i < |cells|
    ensures g.cols > 0 && cells[i].col == i % g.cols && cells[i].row == i / g.cols
  {
    assert Slot(cells, i) == MakeCell(g, i % g.cols, i / g.cols);
  }

  /** Different positions of a built grid hold different coordinates, hence
      (`cellId` being injective) different ids. */
  lemma GridIdsDistinct(cells: seq<Cell>, g: Geometry, i: int, j: int)
    requires GridLayout(cells, g)
    requires 0 <= i < |cells| && 0 <= j < |cells| && i != j
    ensures cells[i].col != cells[j].col || cells[i].row != cells[j].row
    ensures cells[i].id != cells[j].id
  {
    GridCellCoordinates(cells, g, i);
    GridCellCoordinates(cells, g, j);
    if cells[i].col == cells[j].col && cells[i].row == cells[j].row {
      SameQuotientAndRemainder(i, j, g.cols);
    }
    GridCellFields(cells, g, i);
    GridCellFields(cells, g, j);
    CellIdInjective(cells[i].col, cells[i].row, cells[j].col, cells[j].row);
  }

  /** Adjacency within a built grid is symmetric. */
  lemma GridAdjacencySymmetric(cells: seq<Cell>, g: Geometry, i: int, j: int, dir: Direction)
    requires GridLayout(cells, g)
    requires 0 <= i < |cells| && 0 <= j < |cells|
    ensures (dir in cells[i].neighbors && cells[i].neighbors[dir] == cells[j].id) <==>
            (Opposite(dir) in cells[j].neighbors && cells[j].neighbors[Opposite(dir)] == cells[i].id)
  {
    GridCellFields(cells, g, i);
    GridCellFields(cells, g, j);
    NeighborSymmetric(cells[i].col, cells[i].row, cells[j].col, cells[j].row, g.cols, g.rows, dir);
  }

  /** The position of the cell at `(col, row)` in a built grid. */
  lemma GridIndexOf(cells: seq<Cell>, g: Geometry, col: nat, row: nat) returns (j: nat)
    requires GridLayout(cells, g)
    requires InGrid(col, row, g.cols, g.rows)
    ensures j < |cells| && cells[j].col == col && cells[j].row == row && cells[j].id == CellIdOf(col, row)
  {
    GridCellAt(cells, g, col, row);
    j := row * g.cols + col;
  }

  /** A cell inside the grid whose record is the built one: every recorded
      direction points inside the grid, at the id of those coordinates. */
  lemma CellNeighborCoordinates(c: Cell, cols: nat, rows: nat, dir: Direction)
    requires InGrid(c.col, c.row, cols, rows) && c.neighbors == BuildNeighborMap(c.col, c.row, cols, rows)
    requires dir in c.neighbors
    ensures InGrid(c.col + Dx(dir), c.row + Dy(dir), cols, rows)
    ensures c.neighbors[dir] == CellIdOf(c.col + Dx(dir), c.row + Dy(dir))
  {
    NeighborMapInGrid(c.col, c.row, cols, rows, dir);
  }

  lemma GridNeighborCoordinates(cells: seq<Cell>, g: Geometry, i: int, dir: Direction)
    requires GridLayout(cells, g)
    requires 0 <= i < |cells| && dir in cells[i].neighbors
    ensures InGrid(cells[i].col + Dx(dir), cells[i].row + Dy(dir), g.cols, g.rows)
    ensures cells[i].neighbors[dir] == CellIdOf(cells[i].col + Dx(dir), cells[i].row + Dy(dir))
  {
    GridCellFields(cells, g, i);
    CellNeighborCoordinates(cells[i], g.cols, g.rows, dir);
  }

  /** Every neighbour id listed by a cell of a built grid is the id of a
      cell of that grid, in the direction's offset. */
  lemma GridNeighborsInGrid(cells: seq<Cell>, g: Geometry, i: int, dir: Direction)
    requires GridLayout(cells, g)
    requires 0 <= i < |cells| && dir in cells[i].neighbors
    ensures exists j :: 0 <= j < |cells| && cells[j].id == cells[i].neighbors[dir] &&
              cells[j].col == cells[i].col + Dx(dir) && cells[j].row == cells[i].row + Dy(dir)
  {
    var j := NeighborIndex(cells, g, i, dir);
    NeighborWitness(cells, i, j, dir);
  }

  /** The index of the cell a built cell names in direction `dir`. */
  lemma NeighborIndex(cells: seq<Cell>, g: Geometry, i: int, dir: Direction) returns (j: nat)
    requires GridLayout(cells, g)
    requires 0 <= i < |cells| && dir in cells[i].neighbors
    ensures j < |cells| && cells[j].id == cells[i].neighbors[dir]
    ensures cells[j].col == cells[i].col + Dx(dir) && cells[j].row == cells[i].row + Dy(dir)
  {
    GridNeighborCoordinates(cells, g, i, dir);
    j := GridIndexOf(cells, g, cells[i].col + Dx(dir), cells[i].row + Dy(dir));
  }

  /** A cell at the direction's offset carrying the named id witnesses it. */
  lemma NeighborWitness(cells: seq<Cell>, i: int, j: int, dir: Direction)
    requires 0 <= i < |cells| && 0 <= j < |cells| && dir in cells[i].neighbors
    requires cells[j].id == cells[i].neighbors[dir]
    requires cells[j].col == cells[i].col + Dx(dir) && cells[j].row == cells[i].row + Dy(dir)
    ensures exists j :: 0 <= j < |cells| && cells[j].id == cells[i].neighbors[dir] &&
              cells[j].col == cells[i].col + Dx(dir) && cells[j].row == cells[i].row + Dy(dir)
  {
  }

  // ---------------------------------------------------------------------
  // Neighbour status
  // ---------------------------------------------------------------------

  /** The status record for the ids `ids`, written in order. */
  function StatusOf(ids: seq<string>, occ: Occupancy): (r: map<string, bool>)
    ensures forall id :: id in r <==> id in ids
    ensures forall id :: id in r ==> (r[id] <==> Lookup(occ, id) == Some(id))
  {
    if |ids| == 0 then map[]
    else
      var last := ids[|ids| - 1];
      assert forall id :: id in ids <==> id in ids[..|ids| - 1] || id == last;
      StatusOf(ids[..|ids| - 1], occ)[last := Lookup(occ, last) == Some(last)]
  }

  /** `computeNeighborStatus`: for each neighbour id of `cell`, whether that
      neighbour cell holds its own piece. A missing occupancy entry counts
      as empty. */
  function ComputeNeighborStatus(cell: Cell, occ: Occupancy): (r: map<string, bool>)
    ensures forall id :: id in r <==> id != "" && exists dir :: dir in cell.neighbors && cell.neighbors[dir] == id
    ensures forall id :: id in r ==> (r[id] <==> id in occ && occ[id] == Some(id))
  {
    StatusOf(NeighborIds(cell.neighbors), occ)
  }

  /** The neighbour score of a cell is the number of `true` entries of its
      neighbour status, when its neighbour ids are distinct (as they are in
      a built grid). */
  lemma ScoreCountsTrueStatus(cell: Cell, occ: Occupancy, gridMap: map<string, Cell>)
    requires cell.id in gridMap && gridMap[cell.id] == cell
    requires Injective(cell.neighbors)
    ensures NeighborScore(cell.id, occ, gridMap) ==
            |set id | id in ComputeNeighborStatus(cell, occ) && ComputeNeighborStatus(cell, occ)[id]|
  {
    var ids := NeighborIds(cell.neighbors);
    var status := ComputeNeighborStatus(cell, occ);
    CountHomeIsSetSize(ids, occ);
    assert (set id | id in status && status[id]) == (set id | id in ids && Lookup(occ, id) == Some(id));
  }

  // ---------------------------------------------------------------------
  // Point location
  // ---------------------------------------------------------------------

  /** `isPointInOctagon`: whether the local point `(lx, ly)` lies in the
      `w × w` box with its four corners cut off by diagonals at distance `d`
      (all edges included). */
  predicate IsPointInOctagon(lx: real, ly: real, d: real, w: real): (inside: bool)
    ensures inside <==> && 0.0 <= lx <= w && 0.0 <= ly <= w
                        && lx + ly >= d && (w - lx) + ly >= d
                        && lx + (w - ly) >= d && (w - lx) + (w - ly) >= d
  {
    if lx < 0.0 || lx > w || ly < 0.0 || ly > w then false
    else if lx + ly < d then false
    else if (w - lx) + ly < d then false
    else if lx + (w - ly) < d then false
    else if (w - lx) + (w - ly) < d then false
    else true
  }

  /** The eight corners of the octagon in local coordinates, clockwise from
      the left end of the top edge: the outline `buildClipPath` draws. */
  function OctagonVertices(s: real, d: real): seq<(real, real)> {
    var w := s + 2.0 * d;
    [(d, 0.0), (d + s, 0.0), (w, d), (w, d + s), (d + s, w), (d, w), (0.0, d + s), (0.0, d)]
  }

  /** The hit test accepts every corner of the drawn outline and the centre
      of the box, and rejects the four cut-off corners of the box. */
  lemma OctagonOutlineAgrees(s: real, d: real)
    requires s > 0.0 && d > 0.0
    ensures forall k :: 0 <= k < 8 ==>
              IsPointInOctagon(OctagonVertices(s, d)[k].0, OctagonVertices(s, d)[k].1, d, s + 2.0 * d)
    ensures IsPointInOctagon((s + 2.0 * d) / 2.0, (s + 2.0 * d) / 2.0, d, s + 2.0 * d)
    ensures !IsPointInOctagon(0.0, 0.0, d, s + 2.0 * d) && !IsPointInOctagon(s + 2.0 * d, 0.0, d, s + 2.0 * d)
    ensures !IsPointInOctagon(0.0, s + 2.0 * d, d, s + 2.0 * d)
    ensures !IsPointInOctagon(s + 2.0 * d, s + 2.0 * d, d, s + 2.0 * d)
  {
  }

  /** The octagon is convex: the midpoint of two accepted points is accepted. */
  lemma OctagonConvex(x1: real, y1: real, x2: real, y2: real, d: real, w: real)
    requires IsPointInOctagon(x1, y1, d, w) && IsPointInOctagon(x2, y2, d, w)
    ensures IsPointInOctagon((x1 + x2) / 2.0, (y1 + y2) / 2.0, d, w)
  {
  }

  /** The bounding-box test `findCellAtPoint` applies first. */
  predicate InBoundingBox(px: real, py: real, c: Cell, w: real) {
    !(px < c.originX || px > c.originX + w || py < c.originY || py > c.originY + w)
  }

  /** Whether the board point `(px, py)` falls in cell `c`. */
  predicate Hits(px: real, py: real, c: Cell, s: real, d: real) {
    && InBoundingBox(px, py, c, s + 2.0 * d)
    && IsPointInOctagon(px - c.originX, py - c.originY, d, s + 2.0 * d)
  }

  /** `findCellAtPoint`: the first cell, in list order, that the point falls
      in; `None` when there is none. */
  function FindCellAtPoint(px: real, py: real, cells: seq<Cell>, s: real, d: real): (r: Option<Cell>)
    ensures r.None? <==> forall i :: 0 <= i < |cells| ==> !Hits(px, py, cells[i], s, d)
    ensures r.Some? ==> exists i :: 0 <= i < |cells| && cells[i] == r.value && Hits(px, py, cells[i], s, d) &&
                                    forall j :: 0 <= j < i ==> !Hits(px, py, cells[j], s, d)
    decreases |cells|
  {
    if |cells| == 0 then None
    else if Hits(px, py, cells[0], s, d) then Some(cells[0])
    else
      var r := FindCellAtPoint(px, py, cells[1..], s, d);
      assert forall i :: 1 <= i < |cells| ==> cells[1..][i - 1] == cells[i];
      assert r.Some? ==> exists i :: 1 <= i < |cells| && cells[i] == r.value && Hits(px, py, cells[i], s, d) &&
                                     forall j :: 0 <= j < i ==> !Hits(px, py, cells[j], s, d) by {
        if r.Some? {
          var i :| 0 <= i < |cells[1..]| && cells[1..][i] == r.value && Hits(px, py, cells[1..][i], s, d) &&
                   forall j :: 0 <= j < i ==> !Hits(px, py, cells[1..][j], s, d);
          assert cells[i + 1] == r.value;
        }
      }
      r
  }

  /** On one axis, the centre of the octagon at lattice index `a` lies
      outside the `[origin, origin + w]` span of the octagon at index `b`
      whenever `a != b`, provided half a box is shorter than a step. */
  lemma AxisMiss(off: real, a: nat, b: nat, step: real, w: real)
    requires 0.0 <= w < 2.0 * step && a != b
    ensures Lattice(off, a, step) + w / 2.0 < Lattice(off, b, step) ||
            Lattice(off, a, step) + w / 2.0 > Lattice(off, b, step) + w
  {
    if a > b {
      LatticeGap(off, a, b, step);
    } else {
      LatticeGap(off, b, a, step);
    }
  }

  /** Two octagons on the lattice of `g` at different coordinates: the
      centre of the first is outside the bounding box of the second. */
  lemma CentreMissesCell(ck: Cell, cj: Cell, g: Geometry)
    requires g.s > 0.0 && g.d >= 0.0
    requires ck.col != cj.col || ck.row != cj.row
    requires OnLattice(ck, g) && OnLattice(cj, g)
    ensures !InBoundingBox(ck.centerX, ck.centerY, cj, g.Width())
  {
    if ck.col != cj.col {
      AxisMiss(g.offsetX, ck.col, cj.col, g.Step(), g.Width());
    } else {
      AxisMiss(g.offsetY, ck.row, cj.row, g.Step(), g.Width());
    }
  }

  /** The centre of cell `k` of a built grid lies outside the bounding box of
      every other cell. */
  lemma CentreMissesOtherCell(cells: seq<Cell>, g: Geometry, k: int, j: int)
    requires GridLayout(cells, g) && g.s > 0.0 && g.d >= 0.0
    requires 0 <= k < |cells| && 0 <= j < |cells| && j != k
    ensures !Hits(cells[k].centerX, cells[k].centerY, cells[j], g.s, g.d)
  {
    GridCellGeometry(cells, g, k);
    GridCellGeometry(cells, g, j);
    GridIdsDistinct(cells, g, k, j);
    CentreMissesCell(cells[k], cells[j], g);
  }

  /** Hit-testing the centre of any cell of a built grid finds that cell. */
  lemma FindCellAtCentre(cells: seq<Cell>, g: Geometry, k: int)
    requires GridLayout(cells, g) && g.s > 0.0 && g.d >= 0.0
    requires 0 <= k < |cells|
    ensures FindCellAtPoint(cells[k].centerX, cells[k].centerY, cells, g.s, g.d) == Some(cells[k])
  {
    var px, py := cells[k].centerX, cells[k].centerY;
    GridCellGeometry(cells, g, k);
    assert Hits(px, py, cells[k], g.s, g.d);
    forall j | 0 <= j < |cells| && j != k
      ensures !Hits(px, py, cells[j], g.s, g.d)
    {
      CentreMissesOtherCell(cells, g, k, j);
    }
  }
}
