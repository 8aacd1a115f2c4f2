/**
 * OtherCar, the computer-driven traffic (game.cpp:345-414). A car drives
 * 2 px per tick along its heading, only onto in-grid road cells; on entering
 * an intersection cell it takes a fresh heading.
 *
 * Headings: 0 is +y, 1 is -y, 2 is -x, 3 is +x. The draws rand() % 4 that the
 * source makes are parameters: `turn` for the heading picked after a blocked
 * step, `junctionTurn` for the accepted draw of the do-while loop at an
 * intersection, which rejects only OppositeAsWritten(direction). Reverse is
 * the U-turn that loop evidently means to rule out but does not.
 */
module Npc {
  import opened Grid

  const MoveSpeed := 2

  datatype Car = Car(x: int, y: int, direction: int)

  function CarPos(c: Car): Position { Position(c.x, c.y) }

  predicate IsHeading(d: int) { 0 <= d < 4 }

  /** The unit displacement of a heading; an out-of-range heading does not move the car. */
  function Delta(d: int): Position {
    if d == 0 then Position(0, 1)
    else if d == 1 then Position(0, -1)
    else if d == 2 then Position(-1, 0)
    else if d == 3 then Position(1, 0)
    else Position(0, 0)
  }

  /**
   * The heading the junction loop of move rejects, as written: (direction + 2) % 4.
   * With this encoding of headings that is a perpendicular heading, not the reverse.
   */
  function OppositeAsWritten(d: int): int { (d + 2) % 4 }

  /** The reverse heading (0 and 1 swap, 2 and 3 swap): the U-turn the junction loop means to rule out. */
  function Reverse(d: int): int { if d % 2 == 0 then d + 1 else d - 1 }

  /** Reverse is exactly the heading whose displacement undoes d's. */
  lemma ReverseIsBackwards(d: int, e: int)
    requires IsHeading(d) && IsHeading(e)
    ensures IsHeading(Reverse(d)) && Reverse(Reverse(d)) == d
    ensures Delta(e) == Position(-Delta(d).x, -Delta(d).y) <==> e == Reverse(d)
  {}

  /**
   * The as-written test never rules out the U-turn: its rejected heading is
   * always perpendicular, so the reverse heading passes it. A car driving +y
   * into the intersection cell (0, 4) with the junction draw 1 turns back.
   */
  lemma AsWrittenJunctionAllowsUTurn(d: int)
    requires IsHeading(d)
    ensures Delta(OppositeAsWritten(d)).x * Delta(d).x + Delta(OppositeAsWritten(d)).y * Delta(d).y == 0
    ensures Reverse(d) != OppositeAsWritten(d)
    ensures var c := Car(0, 158, 0);
      var r := Step(c, 0, 1);
      1 != OppositeAsWritten(c.direction) && r == Car(0, 160, 1) &&
      Delta(r.direction) == Position(-Delta(c.direction).x, -Delta(c.direction).y)
  {}

  /** Where the switch on the heading would take the car. */
  function Ahead(c: Car): Position {
    if c.direction == 0 then Position(c.x, c.y + MoveSpeed)
    else if c.direction == 1 then Position(c.x, c.y - MoveSpeed)
    else if c.direction == 2 then Position(c.x - MoveSpeed, c.y)
    else if c.direction == 3 then Position(c.x + MoveSpeed, c.y)
    else Position(c.x, c.y)
  }

  /** A position a car may stand on after an accepted step. */
  predicate OnRoad(p: Position) {
    0 <= p.x <= MaxX && 0 <= p.y <= MaxY && IsRoadCell(p.x / CellSize, p.y / CellSize)
  }

  /** The effect of one call of OtherCar::move. */
  function Step(c: Car, turn: int, junctionTurn: int): Car {
    var p := Ahead(c);
    if 0 <= p.x <= MaxX && 0 <= p.y <= MaxY then
      var ni, nj := p.x / CellSize, p.y / CellSize;
      if InGrid(ni, nj) && IsRoadCell(ni, nj) then
        if (ni != CDiv(c.x, CellSize) || nj != CDiv(c.y, CellSize)) && ni % 4 == 0 && nj % 4 == 0
        then Car(p.x, p.y, junctionTurn)
        else Car(p.x, p.y, c.direction)
      else c.(direction := turn)
    else c.(direction := turn)
  }

  /** A step either keeps the car in place or moves it exactly 2 px along one axis. */
  lemma StepIsOneStride(c: Car, turn: int, junctionTurn: int)
    ensures var r := Step(c, turn, junctionTurn);
      || CarPos(r) == CarPos(c)
      || (r.x == c.x && Abs(r.y - c.y) == MoveSpeed)
      || (r.y == c.y && Abs(r.x - c.x) == MoveSpeed)
  {}

  /** A step that moves the car lands inside the field on a road cell. */
  lemma StepLandsOnRoad(c: Car, turn: int, junctionTurn: int)
    ensures var r := Step(c, turn, junctionTurn);
      CarPos(r) != CarPos(c) ==> OnRoad(CarPos(r)) && InGrid(r.x / CellSize, r.y / CellSize)
  {}

  /** A car on the road stays on the road. */
  lemma StepKeepsOnRoad(c: Car, turn: int, junctionTurn: int)
    requires OnRoad(CarPos(c))
    ensures OnRoad(CarPos(Step(c, turn, junctionTurn)))
  {}

  /** With in-range draws the heading stays in 0 .. 3, and a blocked car does not move. */
  lemma StepKeepsHeading(c: Car, turn: int, junctionTurn: int)
    requires IsHeading(c.direction) && IsHeading(turn) && IsHeading(junctionTurn)
    ensures IsHeading(Step(c, turn, junctionTurn).direction)
    ensures Ahead(c) != CarPos(c)
  {}

  /**
   * As written: on entering a new intersection cell the heading is the
   * junction draw, so never the heading the loop rejects.
   */
  lemma StepAvoidsOppositeAtJunction(c: Car, turn: int, junctionTurn: int)
    requires IsHeading(c.direction) && junctionTurn != OppositeAsWritten(c.direction)
    ensures var r := Step(c, turn, junctionTurn);
      var ni, nj := r.x / CellSize, r.y / CellSize;
      CarPos(r) != CarPos(c) && (ni != CDiv(c.x, CellSize) || nj != CDiv(c.y, CellSize)) &&
      ni % 4 == 0 && nj % 4 == 0
      ==> r.direction == junctionTurn && r.direction != OppositeAsWritten(c.direction)
  {}

  /**
   * On entering a new intersection cell the heading is the junction draw,
   * which (with the corrected rejection test) never sends the car straight back.
   */
  lemma StepNeverReversesAtJunction(c: Car, turn: int, junctionTurn: int)
    requires IsHeading(c.direction) && IsHeading(junctionTurn) && junctionTurn != Reverse(c.direction)
    ensures var r := Step(c, turn, junctionTurn);
      var ni, nj := r.x / CellSize, r.y / CellSize;
      CarPos(r) != CarPos(c) && (ni != CDiv(c.x, CellSize) || nj != CDiv(c.y, CellSize)) &&
      ni % 4 == 0 && nj % 4 == 0
      ==> r.direction == junctionTurn && Delta(r.direction) != Position(-Delta(c.direction).x, -Delta(c.direction).y)
  {
    ReverseIsBackwards(c.direction, junctionTurn);
  }

  /** The acceptance test of one draw in resetPosition's loop, given where everyone else stands. */
  predicate ResetAccepted(draw: Cell, player: Position, others: seq<Position>) {
    RoadDrawAccepted(draw) && CellPosition(draw) != player &&
    forall k :: 0 <= k < |others| ==> CellPosition(draw) != others[k]
  }

  /**
   * The acceptance test compares top-left corners only, so a relocated car
   * may still overlap the player: a player at (10, 640), one arrow press from
   * the start, accepts the road cell (0, 16) whose corner is (0, 640).
   */
  lemma ResetMayStillOverlap()
    ensures ResetAccepted(Cell(0, 16), Position(10, 640), [])
    ensures Collides(Position(10, 640), CellPosition(Cell(0, 16)))
  {}

  class OtherCar {
    var x: int
    var y: int
    var direction: int

    ghost predicate Valid()
      reads this
    {
      IsHeading(direction)
    }

    function State(): Car
      reads this
    {
      Car(x, y, direction)
    }

    /** The constructor takes the draw rand() % 4 for the first heading. */
    constructor (startX: int, startY: int, heading: int)
      requires IsHeading(heading)
      ensures Valid() && State() == Car(startX, startY, heading)
    {
      x, y, direction := startX, startY, heading;
    }

    /** move: one tick of driving. */
    method Move(turn: int, junctionTurn: int)
      requires Valid() && IsHeading(turn) && IsHeading(junctionTurn)
      requires junctionTurn != OppositeAsWritten(direction)
      modifies this
      ensures Valid()
      ensures State() == Step(old(State()), turn, junctionTurn)
    {
      var currentI := CDiv(x, CellSize);
      var currentJ := CDiv(y, CellSize);
      var newX, newY := x, y;
      if direction == 0 {
        newY := newY + MoveSpeed;
      } else if direction == 1 {
        newY := newY - MoveSpeed;
      } else if direction == 2 {
        newX := newX - MoveSpeed;
      } else if direction == 3 {
        newX := newX + MoveSpeed;
      }
      if newX >= 0 && newX <= MaxX && newY >= 0 && newY <= MaxY {
        var newI := newX / CellSize;
        var newJ := newY / CellSize;
        if newI >= 0 && newI < GridCells && newJ >= 0 && newJ < GridCells && IsRoadCell(newI, newJ) {
          x := newX;
          y := newY;
          if newI != currentI || newJ != currentJ {
            if newI % 4 == 0 && newJ % 4 == 0 {
              direction := junctionTurn;
            }
          }
        } else {
          direction := turn;
        }
      } else {
        direction := turn;
      }
    }

    /**
     * resetPosition: move to the accepted draw of its rejection loop, a road
     * cell whose corner is neither the player's nor any other car's, with a
     * fresh heading.
     */
    method ResetPosition(draw: Cell, heading: int, player: Position, others: seq<OtherCar>)
      requires IsHeading(heading) && RoadDrawAccepted(draw) && CellPosition(draw) != player
      requires forall k :: 0 <= k < |others| && others[k] != this ==>
        CellPosition(draw) != Position(others[k].x, others[k].y)
      modifies this
      ensures Valid()
      ensures State() == Car(CellPosition(draw).x, CellPosition(draw).y, heading)
      ensures OnRoad(Position(x, y)) && Position(x, y) != player
    {
      var pos := CellPosition(draw);
      x := pos.x;
      y := pos.y;
      direction := heading;
    }
  }
}
