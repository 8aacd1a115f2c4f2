/**
 * The fixed 17 x 17 city grid: which cells are road, the car footprint used
 * for collisions, and the acceptance tests of the two random position
 * samplers (game.cpp:39-83).
 *
 * A cell (i, j) covers the pixels [40 i, 40 i + 40) x [40 j, 40 j + 40).
 */
module Grid {
  import opened Wrappers

  const CellSize := 40
  const GridCells := 17      // cell indices run over 0 .. 16
  const CarWidth := 20
  const CarHeight := 40
  const MaxX := 660          // largest x a car may stand on
  const MaxY := 640          // largest y a car may stand on
  const Reach := 40          // the Chebyshev radius of pick-up, drop-off and refuelling

  datatype Position = Position(x: int, y: int)

  /** A pair of draws rand() % 17, naming a cell. */
  datatype Cell = Cell(i: int, j: int)

  function Abs(n: int): nat { if n < 0 then -n else n }

  /** C's integer division, which truncates toward zero (Dafny's `/` is Euclidean). */
  function CDiv(a: int, b: int): int
    requires b > 0
  {
    if a >= 0 then a / b else -((-a) / b)
  }

  predicate InGrid(i: int, j: int) { 0 <= i < GridCells && 0 <= j < GridCells }

  /** isRoadCell: a lane runs along every fourth row and column. */
  predicate IsRoadCell(i: int, j: int): (road: bool)
    ensures InGrid(i, j) ==> (road <==> i % 4 == 0 || j % 4 == 0)
  {
    i == 0 || i == 4 || i == 8 || i == 12 || i == 16 ||
    j == 0 || j == 4 || j == 8 || j == 12 || j == 16
  }

  /** The top-left pixel of a cell. */
  function CellPosition(c: Cell): Position { Position(c.i * CellSize, c.j * CellSize) }

  /** collides: the 20 x 40 boxes anchored at the two top-left corners overlap. */
  predicate Collides(a: Position, b: Position): (hit: bool)
    ensures hit <==> Abs(a.x - b.x) < CarWidth && Abs(a.y - b.y) < CarHeight
  {
    a.x < b.x + CarWidth && a.x + CarWidth > b.x &&
    a.y < b.y + CarHeight && a.y + CarHeight > b.y
  }

  lemma CollidesSymmetric(a: Position, b: Position)
    ensures Collides(a, b) == Collides(b, a)
  {}

  /** The proximity test of pick-up, drop-off and refuelling: |dx| <= 40 and |dy| <= 40. */
  predicate Near(a: Position, b: Position) {
    Abs(a.x - b.x) <= Reach && Abs(a.y - b.y) <= Reach
  }

  /** The acceptance test of one draw of getRandomRoadPosition. */
  predicate RoadDrawAccepted(c: Cell) { InGrid(c.i, c.j) && IsRoadCell(c.i, c.j) }

  /**
   * The cell test of getRandomAdjacentBuildingPosition: a building cell with a
   * road cell among its in-grid 4-neighbours. The building cells it rejects are
   * exactly the block centres, whose indices are both 2 modulo 4.
   */
  predicate IsAdjacentBuildingCell(i: int, j: int): (ok: bool)
    requires InGrid(i, j)
    ensures ok <==> i % 4 != 0 && j % 4 != 0 && !(i % 4 == 2 && j % 4 == 2)
  {
    !IsRoadCell(i, j) &&
    ((i > 0 && IsRoadCell(i - 1, j)) ||
     (i < 16 && IsRoadCell(i + 1, j)) ||
     (j > 0 && IsRoadCell(i, j - 1)) ||
     (j < 16 && IsRoadCell(i, j + 1)))
  }

  /** A draw that getRandomAdjacentBuildingPosition accepts when nothing is occupied. */
  predicate BuildingDrawAccepted(c: Cell) { InGrid(c.i, c.j) && IsAdjacentBuildingCell(c.i, c.j) }

  /**
   * One round of the rejection loop of getRandomAdjacentBuildingPosition for
   * the draws (i, j): Some(position) when the round returns, None when the loop
   * draws again. The scan over the occupied list stops at the first match.
   */
  method TryBuildingDraw(occupied: seq<Position>, c: Cell) returns (r: Option<Position>)
    requires InGrid(c.i, c.j)
    ensures r.Some? <==> IsAdjacentBuildingCell(c.i, c.j) && CellPosition(c) !in occupied
    ensures r.Some? ==> r.value == CellPosition(c)
  {
    if !IsRoadCell(c.i, c.j) {
      var adjacent := (c.i > 0 && IsRoadCell(c.i - 1, c.j)) ||
                      (c.i < 16 && IsRoadCell(c.i + 1, c.j)) ||
                      (c.j > 0 && IsRoadCell(c.i, c.j - 1)) ||
                      (c.j < 16 && IsRoadCell(c.i, c.j + 1));
      if adjacent {
        var x, y := c.i * CellSize, c.j * CellSize;
        var available := true;
        var k := 0;
        while k < |occupied|
          invariant 0 <= k <= |occupied|
          invariant available <==> Position(x, y) !in occupied[..k]
        {
          if occupied[k].x == x && occupied[k].y == y {
            available := false;
            break;
          }
          k := k + 1;
        }
        assert available ==> occupied[..k] == occupied;
        if available {
          return Some(Position(x, y));
        }
      }
    }
    return None;
  }

  /**
   * What every position the sampler returns satisfies: it is the corner of an
   * in-grid building cell, one of its in-grid 4-neighbours is road, and it is
   * none of the occupied positions.
   */
  lemma AcceptedBuildingPosition(occupied: seq<Position>, c: Cell)
    requires InGrid(c.i, c.j) && IsAdjacentBuildingCell(c.i, c.j) && CellPosition(c) !in occupied
    ensures CellPosition(c) == Position(40 * c.i, 40 * c.j)
    ensures 0 <= c.i <= 16 && 0 <= c.j <= 16 && !IsRoadCell(c.i, c.j)
    ensures exists n :: n in Neighbours(c) && InGrid(n.i, n.j) && IsRoadCell(n.i, n.j)
    ensures forall k :: 0 <= k < |occupied| ==> occupied[k] != CellPosition(c)
  {
    var ns := Neighbours(c);
    if c.i % 4 == 1 {
      assert ns[0] in ns && InGrid(ns[0].i, ns[0].j) && IsRoadCell(ns[0].i, ns[0].j);
    } else if c.i % 4 == 3 {
      assert ns[1] in ns && InGrid(ns[1].i, ns[1].j) && IsRoadCell(ns[1].i, ns[1].j);
    } else if c.j % 4 == 1 {
      assert ns[2] in ns && InGrid(ns[2].i, ns[2].j) && IsRoadCell(ns[2].i, ns[2].j);
    } else {
      assert ns[3] in ns && InGrid(ns[3].i, ns[3].j) && IsRoadCell(ns[3].i, ns[3].j);
    }
  }

  /** The four cells sharing an edge with c. */
  function Neighbours(c: Cell): seq<Cell> {
    [Cell(c.i - 1, c.j), Cell(c.i + 1, c.j), Cell(c.i, c.j - 1), Cell(c.i, c.j + 1)]
  }

  /**
   * Block centres are the only building cells the sampler can never return:
   * all four of their neighbours are buildings too.
   */
  lemma BlockCentresHaveNoRoadNeighbour(c: Cell)
    requires InGrid(c.i, c.j) && c.i % 4 == 2 && c.j % 4 == 2
    ensures forall n :: n in Neighbours(c) ==> !IsRoadCell(n.i, n.j)
  {}
}
