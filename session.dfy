/**
 * The game session: the globals of game.cpp (player, the four other cars, the
 * high-score table, gameOver, isWin, startTime, playerName) and the non-drawing
 * logic of the three callbacks that change them: NonPrintableKeys (arrow
 * keys), PrintableKeys (Escape, Space, Enter) and Timer (one 100 ms tick).
 *
 * Random draws and the clock are parameters. A rejection loop is represented
 * by the draw it accepts; the requires clauses state its acceptance test.
 */
module Session {
  import opened Wrappers
  import opened Grid
  import opened Registry
  import opened Player
  import opened Npc
  import opened Leaderboard

  const NpcCount := 4
  const KeyStep := 10             // pixels per arrow-key press
  const CollisionPenalty := 5
  const OffRoadPenalty := 4
  const GameLengthMs := 180000    // 3 * 60 * 1000
  const WinScore := 100
  const EscapeKey := 27
  const EnterKey := 13
  const SpaceKey := 32

  datatype SpecialKey = LeftKey | RightKey | UpKey | DownKey | OtherKey

  /** Where an arrow key asks the player to go; up is +y on this canvas. */
  function KeyTarget(key: SpecialKey, p: Position): Position {
    match key
    case LeftKey => Position(p.x - KeyStep, p.y)
    case RightKey => Position(p.x + KeyStep, p.y)
    case UpKey => Position(p.x, p.y + KeyStep)
    case DownKey => Position(p.x, p.y - KeyStep)
    case OtherKey => p
  }

  predicate InField(p: Position) { 0 <= p.x <= MaxX && 0 <= p.y <= MaxY }

  /** A target the player may drive onto: inside the field, in the grid, on a road cell. */
  predicate Drivable(p: Position) {
    InField(p) && InGrid(p.x / CellSize, p.y / CellSize) && IsRoadCell(p.x / CellSize, p.y / CellSize)
  }

  /** The end-of-game test of Timer: time is up, the tank is empty, the score is negative or has reached 100. */
  predicate EndOfGame(elapsedMs: int, fuel: int, score: int) {
    elapsedMs >= GameLengthMs || fuel <= 0 || score < 0 || score >= WinScore
  }

  /** Whether a finished game's score goes to the high-score table. */
  predicate Eligible(score: int, tableSize: int) { score > 0 || tableSize == 0 }

  /** The four cars after moveCar. */
  function Driven(cars: seq<Car>, turns: seq<int>, junctionTurns: seq<int>): seq<Car>
    requires |turns| == |cars| && |junctionTurns| == |cars|
  {
    seq(|cars|, k requires 0 <= k < |cars| => Step(cars[k], turns[k], junctionTurns[k]))
  }

  /** One car after the collision check against a player at p. */
  function Resolve(p: Position, c: Car, draw: Cell, heading: int): Car {
    if Collides(p, CarPos(c)) then Car(CellPosition(draw).x, CellPosition(draw).y, heading) else c
  }

  function ResolveAll(p: Position, cars: seq<Car>, draws: seq<Cell>, headings: seq<int>): seq<Car>
    requires |draws| == |cars| && |headings| == |cars|
  {
    seq(|cars|, k requires 0 <= k < |cars| => Resolve(p, cars[k], draws[k], headings[k]))
  }

  /** How many of the cars overlap a player at p. */
  function Collisions(p: Position, cars: seq<Car>): (n: nat)
    ensures n <= |cars|
    ensures n == 0 <==> forall k :: 0 <= k < |cars| ==> !Collides(p, CarPos(cars[k]))
  {
    if cars == [] then 0
    else Collisions(p, cars[..|cars| - 1]) + (if Collides(p, CarPos(cars[|cars| - 1])) then 1 else 0)
  }

  /** Counting one more car adds one exactly when that car overlaps the player. */
  lemma CollisionsStep(p: Position, cars: seq<Car>, k: int)
    requires 0 <= k < |cars|
    ensures Collisions(p, cars[..k + 1]) == Collisions(p, cars[..k]) + (if Collides(p, CarPos(cars[k])) then 1 else 0)
  {
    assert cars[..k + 1][..k] == cars[..k];
  }

  /** Where every car stands when car k is checked: the cars before it are already resolved. */
  function StandingAt(p: Position, cars: seq<Car>, draws: seq<Cell>, headings: seq<int>, k: int): seq<Position>
    requires |draws| == |cars| && |headings| == |cars|
  {
    seq(|cars|, m requires 0 <= m < |cars| =>
      if m < k then CarPos(Resolve(p, cars[m], draws[m], headings[m])) else CarPos(cars[m]))
  }

  /**
   * The draws that the resetPosition loops of one collision check accept, in
   * order: each colliding car gets a road cell whose corner is neither the
   * player's nor where any other car stands at that moment.
   */
  predicate DrawsAccepted(p: Position, cars: seq<Car>, draws: seq<Cell>, headings: seq<int>) {
    && |draws| == |cars| && |headings| == |cars|
    && (forall k :: 0 <= k < |cars| ==> IsHeading(headings[k]))
    && forall k :: 0 <= k < |cars| && Collides(p, CarPos(cars[k])) ==>
         && RoadDrawAccepted(draws[k]) && CellPosition(draws[k]) != p
         && forall m :: 0 <= m < |cars| && m != k ==> CellPosition(draws[k]) != StandingAt(p, cars, draws, headings, k)[m]
  }

  /** The indices of the cars that overlap a player at p. */
  function OverlappingCars(p: Position, cars: seq<Car>): set<int> {
    set k | 0 <= k < |cars| && Collides(p, CarPos(cars[k]))
  }

  /** The collision count is the number of distinct overlapping cars. */
  lemma {:induction false} CollisionsCountsOverlappingCars(p: Position, cars: seq<Car>)
    ensures Collisions(p, cars) == |OverlappingCars(p, cars)|
  {
    if cars != [] {
      var n := |cars| - 1;
      var front := cars[..n];
      CollisionsCountsOverlappingCars(p, front);
      assert OverlappingCars(p, front) == set k | 0 <= k < n && Collides(p, CarPos(cars[k])) by {
        forall k | 0 <= k < n ensures front[k] == cars[k] {}
      }
      if Collides(p, CarPos(cars[n])) {
        assert OverlappingCars(p, cars) == OverlappingCars(p, front) + {n};
      } else {
        assert OverlappingCars(p, cars) == OverlappingCars(p, front);
      }
    }
  }

  /** Every relocated car ends up on a road cell away from the player's corner. */
  lemma ResolvedCarsStandApart(p: Position, cars: seq<Car>, draws: seq<Cell>, headings: seq<int>)
    requires DrawsAccepted(p, cars, draws, headings)
    ensures var r := ResolveAll(p, cars, draws, headings);
      forall k :: 0 <= k < |cars| && Collides(p, CarPos(cars[k])) ==>
        OnRoad(CarPos(r[k])) && CarPos(r[k]) != p && IsHeading(r[k].direction) &&
        forall m :: 0 <= m < |cars| && m != k ==> CarPos(r[k]) != CarPos(r[m])
  {
    var r := ResolveAll(p, cars, draws, headings);
    forall k, m | 0 <= k < |cars| && Collides(p, CarPos(cars[k])) && 0 <= m < |cars| && m != k
      ensures CarPos(r[k]) != CarPos(r[m])
    {
      if m < k {
        assert StandingAt(p, cars, draws, headings, k)[m] == CarPos(r[m]);
      } else {
        assert StandingAt(p, cars, draws, headings, k)[m] == CarPos(cars[m]);
        if Collides(p, CarPos(cars[m])) {
          assert StandingAt(p, cars, draws, headings, m)[k] == CarPos(r[k]);
        }
      }
    }
  }

  /** The states of a sequence of cars. */
  function CarsOf(npcs: seq<OtherCar>): seq<Car>
    reads npcs
  {
    seq(|npcs|, k requires 0 <= k < |npcs| reads npcs => npcs[k].State())
  }

  /** The stations within reach of a player at p. */
  predicate NearStation(stations: seq<Option<FuelStation>>, p: Position) {
    exists k :: 0 <= k < |stations| && stations[k].Some? && Near(p, stations[k].value.pos)
  }

  class Game {
    const player: PlayerCar
    const npcs: seq<OtherCar>      // otherCar, otherCar2, otherCar3, otherCar4
    const board: Board
    const startTime: int
    const playerName: string
    var gameOver: bool
    var isWin: bool

    ghost predicate Valid()
      reads this, player, player.gameState, npcs, board
    {
      && player.Valid() && player.Solvent() && board.Valid()
      && |npcs| == NpcCount
      && (forall i, j :: 0 <= i < j < |npcs| ==> npcs[i] != npcs[j])
      && (forall k :: 0 <= k < |npcs| ==> npcs[k].Valid())
      && (isWin ==> gameOver)
    }

    function Cars(): seq<Car>
      reads npcs
    {
      CarsOf(npcs)
    }

    /** The state main hands to the event loop. */
    constructor (player: PlayerCar, npcs: seq<OtherCar>, board: Board, startTime: int, playerName: string)
      requires player.Valid() && player.Solvent() && board.Valid()
      requires |npcs| == NpcCount && forall i, j :: 0 <= i < j < |npcs| ==> npcs[i] != npcs[j]
      requires forall k :: 0 <= k < |npcs| ==> npcs[k].Valid()
      ensures Valid() && !gameOver && !isWin
      ensures this.player == player && this.npcs == npcs && this.board == board
      ensures this.startTime == startTime && this.playerName == playerName
    {
      this.player := player;
      this.npcs := npcs;
      this.board := board;
      this.startTime := startTime;
      this.playerName := playerName;
      gameOver, isWin := false, false;
    }

    /**
     * The collision block shared by NonPrintableKeys and Timer: every car that
     * overlaps the player, in order, is relocated and costs five points.
     * Returns whether the collision sound plays.
     */
    method ResolveCollisions(draws: seq<Cell>, headings: seq<int>) returns (hasCollision: bool)
      requires Valid()
      requires DrawsAccepted(player.Pos(), Cars(), draws, headings)
      modifies player`score, npcs
      ensures Valid()
      ensures Cars() == ResolveAll(player.Pos(), old(Cars()), draws, headings)
      ensures player.score == old(player.score) - CollisionPenalty * Collisions(player.Pos(), old(Cars()))
      ensures old(player.score) - CollisionPenalty * NpcCount <= player.score <= old(player.score)
      ensures hasCollision <==> Collisions(player.Pos(), old(Cars())) > 0
    {
      ghost var cars := Cars();
      ghost var p := player.Pos();
      hasCollision := false;
      var k := 0;
      while k < NpcCount
        invariant 0 <= k <= NpcCount && player.Pos() == p
        invariant forall m :: 0 <= m < k ==> npcs[m].State() == Resolve(p, cars[m], draws[m], headings[m])
        invariant forall m :: k <= m < NpcCount ==> npcs[m].State() == cars[m]
        invariant Valid()
        invariant player.score == old(player.score) - CollisionPenalty * Collisions(p, cars[..k])
        invariant hasCollision <==> Collisions(p, cars[..k]) > 0
      {
        CollisionsStep(p, cars, k);
        var hit := ResolveOne(k, p, cars, draws, headings);
        hasCollision := hasCollision || hit;
        k := k + 1;
      }
      assert cars[..k] == cars;
      assert Cars() == ResolveAll(p, cars, draws, headings) by {
        forall m | 0 <= m < NpcCount ensures Cars()[m] == ResolveAll(p, cars, draws, headings)[m] {}
      }
    }

    /**
     * One `if (collides(*player, otherCarK))` block: car k is checked while the
     * cars before it have already been resolved.
     */
    method ResolveOne(k: int, ghost p: Position, ghost cars: seq<Car>, draws: seq<Cell>, headings: seq<int>)
      returns (hit: bool)
      requires Valid() && 0 <= k < NpcCount && player.Pos() == p && |cars| == NpcCount
      requires DrawsAccepted(p, cars, draws, headings)
      requires forall m :: 0 <= m < k ==> npcs[m].State() == Resolve(p, cars[m], draws[m], headings[m])
      requires forall m :: k <= m < NpcCount ==> npcs[m].State() == cars[m]
      modifies player`score, npcs[k]
      ensures Valid() && player.Pos() == p
      ensures hit <==> Collides(p, CarPos(cars[k]))
      ensures npcs[k].State() == Resolve(p, cars[k], draws[k], headings[k])
      ensures forall m :: 0 <= m < NpcCount && m != k ==> npcs[m].State() == old(npcs[m].State())
      ensures player.score == old(player.score) - (if hit then CollisionPenalty else 0)
    {
      hit := Collides(player.Pos(), Position(npcs[k].x, npcs[k].y));
      if hit {
        forall m | 0 <= m < NpcCount && m != k
          ensures CellPosition(draws[k]) != Position(npcs[m].x, npcs[m].y)
        {
          assert StandingAt(p, cars, draws, headings, k)[m] == CarPos(npcs[m].State());
        }
        npcs[k].ResetPosition(draws[k], headings[k], player.Pos(), npcs);
        player.AddScore(-CollisionPenalty);
      }
    }

    /**
     * The part of NonPrintableKeys after the fuel charge: onto a drivable cell
     * the car moves and collisions are resolved; onto a building inside the
     * field it stays and loses four points; a target outside the field is ignored.
     */
    method DriveTo(newX: int, newY: int, draws: seq<Cell>, headings: seq<int>)
      requires Valid()
      requires Drivable(Position(newX, newY)) ==> DrawsAccepted(Position(newX, newY), Cars(), draws, headings)
      modifies player`x, player`y, player`score, npcs
      ensures Valid()
      ensures var target := Position(newX, newY);
        && (Drivable(target) ==>
              && player.Pos() == target
              && Cars() == ResolveAll(target, old(Cars()), draws, headings)
              && player.score == old(player.score) - CollisionPenalty * Collisions(target, old(Cars())))
        && (InField(target) && !Drivable(target) ==>
              player.Pos() == old(player.Pos()) && Cars() == old(Cars()) &&
              player.score == old(player.score) - OffRoadPenalty)
        && (!InField(target) ==>
              player.Pos() == old(player.Pos()) && Cars() == old(Cars()) && player.score == old(player.score))
    {
      if newX >= 0 && newX <= MaxX && newY >= 0 && newY <= MaxY {
        var cellI := newX / CellSize;
        var cellJ := newY / CellSize;
        // The source tests the grid bounds and the road separately; both
        // failures play the collision sound and cost four points.
        if cellI >= 0 && cellI < GridCells && cellJ >= 0 && cellJ < GridCells && IsRoadCell(cellI, cellJ) {
          player.x := newX;
          player.y := newY;
          var hasCollision := ResolveCollisions(draws, headings);
        } else {
          player.AddScore(-OffRoadPenalty);
        }
      }
    }

    /**
     * NonPrintableKeys: an arrow key burns 0.25 fuel whether or not the car
     * moves, then the car drives towards the target as DriveTo describes.
     */
    method PressSpecialKey(key: SpecialKey, draws: seq<Cell>, headings: seq<int>)
      requires Valid()
      requires Drivable(KeyTarget(key, player.Pos())) ==>
        DrawsAccepted(KeyTarget(key, player.Pos()), Cars(), draws, headings)
      modifies player`x, player`y, player`fuel, player`score, npcs
      ensures Valid()
      ensures old(gameOver) ==>
        player.Pos() == old(player.Pos()) && player.fuel == old(player.fuel) &&
        player.score == old(player.score) && Cars() == old(Cars())
      ensures !old(gameOver) ==>
        var target := KeyTarget(key, old(player.Pos()));
        && player.fuel == (if key == OtherKey then old(player.fuel) else ClampAtZero(old(player.fuel) - MoveFuelCost))
        && (Drivable(target) ==>
              && player.Pos() == target
              && Cars() == ResolveAll(target, old(Cars()), draws, headings)
              && player.score == old(player.score) - CollisionPenalty * Collisions(target, old(Cars())))
        && (InField(target) && !Drivable(target) ==>
              player.Pos() == old(player.Pos()) && Cars() == old(Cars()) &&
              player.score == old(player.score) - OffRoadPenalty)
        && (!InField(target) ==>
              player.Pos() == old(player.Pos()) && Cars() == old(Cars()) && player.score == old(player.score))
    {
      if gameOver {
        return;
      }
      var newX, newY := player.x, player.y;
      match key {
        case LeftKey => newX := newX - KeyStep;
        case RightKey => newX := newX + KeyStep;
        case UpKey => newY := newY + KeyStep;
        case DownKey => newY := newY - KeyStep;
        case OtherKey =>
      }
      assert Position(newX, newY) == KeyTarget(key, player.Pos());
      if key != OtherKey {
        player.SetFuel(player.fuel - MoveFuelCost);
      }
      DriveTo(newX, newY, draws, headings);
    }

    /**
     * The Space branch of PrintableKeys: at the first station in reach, try to
     * refuel (and stop looking even when the money is short).
     */
    method PressSpace() returns (refuelled: bool)
      requires Valid()
      modifies player`fuel, player`money
      ensures Valid()
      ensures refuelled <==>
        NearStation(player.gameState.fuelStations[..], player.Pos()) && old(player.money) >= RefuelPrice
      ensures refuelled ==>
        player.fuel == old(player.fuel) + RefuelGain && player.money == old(player.money) - RefuelPrice
      ensures !refuelled ==> player.fuel == old(player.fuel) && player.money == old(player.money)
    {
      refuelled := false;
      var i := 0;
      while i < StationSlots
        invariant 0 <= i <= StationSlots
        invariant forall k :: 0 <= k < i ==>
          !(player.gameState.fuelStations[k].Some? && Near(player.Pos(), player.gameState.fuelStations[k].value.pos))
        invariant player.fuel == old(player.fuel) && player.money == old(player.money)
      {
        var fs := player.gameState.GetFuelStation(i);
        if fs.Some? && Abs(player.x - fs.value.pos.x) <= Reach && Abs(player.y - fs.value.pos.y) <= Reach {
          assert player.gameState.fuelStations[..][i] == fs;
          refuelled := player.Refuel();
          return;
        }
        i := i + 1;
      }
      assert !NearStation(player.gameState.fuelStations[..], player.Pos()) by {
        forall k | 0 <= k < StationSlots
          ensures !(player.gameState.fuelStations[..][k].Some? &&
                    Near(player.Pos(), player.gameState.fuelStations[..][k].value.pos))
        {
          assert player.gameState.fuelStations[..][k] == player.gameState.fuelStations[k];
        }
      }
    }

    /**
     * The Enter branch of PrintableKeys: with nothing aboard the car tries to
     * pick up, otherwise to drop off; `draw` is the building cell chosen for
     * whichever of the two samples a position. Returns whether a delivery
     * happened (the delivery sound).
     */
    method PressEnter(draw: Cell) returns (delivered: bool)
      requires Valid() && BuildingDrawAccepted(draw)
      modifies player`carrying, player`destination, player`fuel, player`money, player`score,
        player.gameState.pickupItems
      ensures Valid()
      ensures old(player.carrying) ==> player.DroppedOff(draw, delivered)
      ensures !old(player.carrying) ==> !delivered && player.PickedUp(draw)
    {
      if !player.carrying {
        player.PickUp(draw);
        delivered := false;
      } else {
        delivered := player.DropOff(draw);
      }
    }

    /**
     * PrintableKeys: once the game is over any key exits with status 0, and
     * Escape exits with status 1; otherwise None, after the Space or Enter
     * action.
     */
    method PressPrintableKey(key: int, draw: Cell) returns (exitStatus: Option<int>)
      requires Valid() && BuildingDrawAccepted(draw)
      modifies player`carrying, player`destination, player`fuel, player`money, player`score,
        player.gameState.pickupItems
      ensures Valid()
      ensures exitStatus == (if old(gameOver) then Some(0) else if key == EscapeKey then Some(1) else None)
      ensures exitStatus.Some? || (key != SpaceKey && key != EnterKey) ==>
        && player.fuel == old(player.fuel) && player.money == old(player.money)
        && player.score == old(player.score) && player.carrying == old(player.carrying)
        && player.destination == old(player.destination)
        && player.gameState.pickupItems[..] == old(player.gameState.pickupItems[..])
      ensures exitStatus.None? && key == SpaceKey ==>
        && var refuelled := NearStation(player.gameState.fuelStations[..], player.Pos()) && old(player.money) >= RefuelPrice;
        && player.fuel == (if refuelled then old(player.fuel) + RefuelGain else old(player.fuel))
        && player.money == (if refuelled then old(player.money) - RefuelPrice else old(player.money))
        && player.carrying == old(player.carrying) && player.destination == old(player.destination)
        && player.score == old(player.score)
        && player.gameState.pickupItems[..] == old(player.gameState.pickupItems[..])
      ensures exitStatus.None? && key == EnterKey && old(player.carrying) ==> player.DroppedOff(draw, player.score > old(player.score))
      ensures exitStatus.None? && key == EnterKey && !old(player.carrying) ==> player.PickedUp(draw)
    {
      if gameOver {
        return Some(0);
      }
      if key == EscapeKey {
        return Some(1);
      }
      if key == SpaceKey {
        var refuelled := PressSpace();
      }
      if key == EnterKey {
        var delivered := PressEnter(draw);
      }
      return None;
    }

    /** moveCar: each of the four cars drives one step. */
    method MoveCars(turns: seq<int>, junctionTurns: seq<int>)
      requires Valid()
      requires |turns| == NpcCount && |junctionTurns| == NpcCount
      requires forall k :: 0 <= k < NpcCount ==>
        IsHeading(turns[k]) && IsHeading(junctionTurns[k]) && junctionTurns[k] != OppositeAsWritten(npcs[k].direction)
      modifies npcs
      ensures Valid()
      ensures Cars() == Driven(old(Cars()), turns, junctionTurns)
    {
      ghost var cars := Cars();
      var k := 0;
      while k < NpcCount
        invariant 0 <= k <= NpcCount
        invariant forall m :: 0 <= m < k ==> npcs[m].State() == Step(cars[m], turns[m], junctionTurns[m])
        invariant forall m :: k <= m < NpcCount ==> npcs[m].State() == cars[m]
        invariant forall m :: 0 <= m < NpcCount ==> npcs[m].Valid()
      {
        npcs[k].Move(turns[k], junctionTurns[k]);
        k := k + 1;
      }
    }

    /**
     * The end-of-game part of Timer, with `currentTime` the clock reading in
     * milliseconds: on any end condition the game is over, won at 100 points,
     * and the score enters the table when it is positive or the table is empty.
     */
    method CheckEnd(currentTime: int)
      requires Valid() && !gameOver
      modifies this`gameOver, this`isWin, board`count, board.entries
      ensures Valid()
      ensures gameOver == EndOfGame(currentTime - startTime, player.fuel, player.score)
      ensures isWin == (old(isWin) || (gameOver && player.score >= WinScore))
      ensures gameOver && Eligible(player.score, old(board.count)) ==>
        var r := InsertOrReplace(old(board.Entries()), HighScore(StoredName(playerName), player.score));
        |board.Entries()| == |r| && multiset(board.Entries()) == multiset(r) && SortedByScore(board.Entries())
      ensures !(gameOver && Eligible(player.score, old(board.count))) ==> board.Entries() == old(board.Entries())
    {
      var elapsed := currentTime - startTime;
      if elapsed >= GameLengthMs || player.fuel <= 0 || player.score < 0 || player.score >= WinScore {
        gameOver := true;
        if player.score >= WinScore {
          isWin := true;
        }
        if player.score > 0 || board.count == 0 {
          board.Record(playerName, player.score);
        }
      }
    }

    /** The first half of a Timer tick: moveCar, then the collision block. */
    method MoveAndCollide(turns: seq<int>, junctionTurns: seq<int>, draws: seq<Cell>, headings: seq<int>)
      requires Valid()
      requires |turns| == NpcCount && |junctionTurns| == NpcCount
      requires forall k :: 0 <= k < NpcCount ==>
        IsHeading(turns[k]) && IsHeading(junctionTurns[k]) && junctionTurns[k] != OppositeAsWritten(npcs[k].direction)
      requires DrawsAccepted(player.Pos(), Driven(Cars(), turns, junctionTurns), draws, headings)
      modifies player`score, npcs
      ensures Valid()
      ensures var driven := Driven(old(Cars()), turns, junctionTurns);
        && Cars() == ResolveAll(player.Pos(), driven, draws, headings)
        && player.score == old(player.score) - CollisionPenalty * Collisions(player.Pos(), driven)
    {
      MoveCars(turns, junctionTurns);
      var hasCollision := ResolveCollisions(draws, headings);
    }

    /**
     * Timer: unless the game is over, drive the cars, resolve collisions and
     * test for the end; a finished game with a positive score, or with an
     * empty table, enters the high-score table, which is then re-sorted.
     * `currentTime` is the clock reading in milliseconds.
     */
    method Tick(currentTime: int, turns: seq<int>, junctionTurns: seq<int>, draws: seq<Cell>, headings: seq<int>)
      requires Valid()
      requires |turns| == NpcCount && |junctionTurns| == NpcCount
      requires forall k :: 0 <= k < NpcCount ==>
        IsHeading(turns[k]) && IsHeading(junctionTurns[k]) && junctionTurns[k] != OppositeAsWritten(npcs[k].direction)
      requires DrawsAccepted(player.Pos(), Driven(Cars(), turns, junctionTurns), draws, headings)
      modifies this`gameOver, this`isWin, player`score, npcs, board`count, board.entries
      ensures Valid()
      ensures old(gameOver) ==>
        gameOver && isWin == old(isWin) && player.score == old(player.score) && Cars() == old(Cars()) &&
        board.Entries() == old(board.Entries())
      ensures !old(gameOver) ==>
        var driven := Driven(old(Cars()), turns, junctionTurns);
        && Cars() == ResolveAll(player.Pos(), driven, draws, headings)
        && player.score == old(player.score) - CollisionPenalty * Collisions(player.Pos(), driven)
        && gameOver == EndOfGame(currentTime - startTime, player.fuel, player.score)
        && isWin == (old(isWin) || (gameOver && player.score >= WinScore))
        && (gameOver && Eligible(player.score, old(board.count)) ==>
              var r := InsertOrReplace(old(board.Entries()), HighScore(StoredName(playerName), player.score));
              |board.Entries()| == |r| && multiset(board.Entries()) == multiset(r) &&
              SortedByScore(board.Entries()))
        && (!(gameOver && Eligible(player.score, old(board.count))) ==> board.Entries() == old(board.Entries()))
    {
      if gameOver {
        return;
      }
      MoveAndCollide(turns, junctionTurns, draws, headings);
      assert board.Entries() == old(board.Entries()) && board.count == old(board.count);
      assert player.fuel == old(player.fuel) && !gameOver && isWin == old(isWin);
      ghost var cars, score := Cars(), player.score;
      CheckEnd(currentTime);
      assert Cars() == cars && player.score == score;
    }
  }
}
