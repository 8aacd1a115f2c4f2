/**
 * PlayerCar with its Taxi and DeliveryCar variants (game.cpp:196-343).
 *
 * Fuel and money are floats in the source whose every change is a multiple of
 * 0.25; here they are integers counted in quarters (4 stands for 1.0).
 * Taxi and DeliveryCar run the same code over a flag named hasPassenger or
 * hasPackage; one class with a `role` and a `carrying` flag models both.
 */
module Player {
  import opened Wrappers
  import opened Grid
  import opened Registry

  const MoveFuelCost := 1     // 0.25 fuel per arrow-key press
  const TripFuelCost := 4     // 1.0 fuel per pick-up and per drop-off
  const RefuelGain := 8       // +2 fuel
  const RefuelPrice := 4      // -1 money
  const DeliveryPay := 80     // +20 money
  const DeliveryPoints := 20  // +20 score

  datatype Role = Taxi | Delivery

  /** The Destination object a player car owns: a position and an active flag. */
  datatype Destination = Destination(pos: Position, active: bool)

  /** The clamp of setFuel, setMoney and addMoney: nothing below zero is kept. */
  function ClampAtZero(v: int): (r: int)
    ensures r >= 0 && r >= v
    ensures v >= 0 ==> r == v
    ensures v < 0 ==> r == 0
  {
    if v > 0 then v else 0
  }

  /** The slot a pick-up takes, if any: the lowest qualifying one among the slots in play. */
  function PickUpSlot(fuel: int, carrying: bool, slots: seq<Option<PickupItem>>, at: Position): Option<nat> {
    if fuel > 0 && !carrying then FirstIndex(slots, PickableFrom(at)) else None
  }

  /** The slots after picking up from slot i: that item, and only it, is deactivated. */
  function Deactivated(slots: seq<Option<PickupItem>>, i: nat): seq<Option<PickupItem>>
    requires i < |slots| && slots[i].Some?
  {
    slots[i := Some(slots[i].value.(active := false))]
  }

  /**
   * The slots after a delivery: the lowest picked-up slot among the first
   * `count` is moved to `pos` and made active again; nothing else changes.
   */
  function Respawned(slots: seq<Option<PickupItem>>, count: nat, pos: Position): (r: seq<Option<PickupItem>>)
    requires count <= |slots|
    ensures |r| == |slots|
  {
    match FirstIndex(slots[..count], Respawnable)
    case None => slots
    case Some(i) => slots[i := Some(slots[i].value.(pos := pos, active := true))]
  }

  /** The drop-off test: fuel left, cargo aboard, destination active and within reach. */
  predicate CanDropOff(fuel: int, carrying: bool, dest: Destination, at: Position) {
    fuel > 0 && carrying && dest.active && Near(at, dest.pos)
  }

  /**
   * A delivery touches at most one slot: the lowest picked-up slot in play,
   * which comes back active at `pos`. When such a slot exists the number of
   * active items grows by exactly one.
   */
  lemma RespawnTouchesLowestInactive(slots: seq<Option<PickupItem>>, count: nat, pos: Position)
    requires count <= |slots|
    ensures var r := Respawned(slots, count, pos);
      forall k :: 0 <= k < |slots| && r[k] != slots[k] ==>
        && k < count && Meets(slots[k], Respawnable)
        && r[k] == Some(slots[k].value.(pos := pos, active := true))
        && forall m :: 0 <= m < k ==> !Meets(slots[m], Respawnable)
    ensures (exists k :: 0 <= k < count && Meets(slots[k], Respawnable)) ==>
      ActiveItems(Respawned(slots, count, pos)) == ActiveItems(slots) + 1
  {
    var f := FirstIndex(slots[..count], Respawnable);
    var r := Respawned(slots, count, pos);
    if f.Some? {
      var i := f.value;
      var v := Some(slots[i].value.(pos := pos, active := true));
      assert slots[..count][i] == slots[i];
      assert r == slots[i := v];
      forall m | 0 <= m < i ensures !Meets(slots[m], Respawnable) {
        assert slots[..count][m] == slots[m];
      }
      ActiveItemsUpdate(slots, i, v);
    } else {
      assert r == slots;
      forall k | 0 <= k < count ensures !Meets(slots[k], Respawnable) {
        assert slots[..count][k] == slots[k];
      }
    }
  }

  /**
   * The pool of active items survives a round trip: picking up from slot i
   * and then delivering restores the number of active items.
   */
  lemma PickUpThenDeliverKeepsPool(slots: seq<Option<PickupItem>>, count: nat, i: nat, pos: Position)
    requires count <= |slots| && i < count
    requires slots[i].Some? && slots[i].value.active
    ensures ActiveItems(Respawned(Deactivated(slots, i), count, pos)) == ActiveItems(slots)
  {
    var d := Deactivated(slots, i);
    ActiveItemsUpdate(slots, i, Some(slots[i].value.(active := false)));
    assert Meets(d[i], Respawnable);
    RespawnTouchesLowestInactive(d, count, pos);
  }

  class PlayerCar {
    var x: int
    var y: int
    var fuel: int
    var money: int
    var score: int
    const role: Role
    var carrying: bool            // hasPassenger for a Taxi, hasPackage for a DeliveryCar
    var destination: Destination
    const gameState: GameState

    /** The car's cargo and its destination are switched on and off together. */
    ghost predicate Valid()
      reads this, gameState
    {
      gameState.Valid() && (carrying <==> destination.active)
    }

    /**
     * Money is never negative, and fuel never reaches -1.0: only a pick-up or a
     * drop-off takes fuel without the clamp, and only from a positive tank.
     */
    predicate Solvent()
      reads this
    {
      money >= 0 && fuel > -TripFuelCost
    }

    function Pos(): Position
      reads this
    {
      Position(x, y)
    }

    constructor (role: Role, startX: int, startY: int, startFuel: int, startMoney: int, gs: GameState)
      requires gs.Valid()
      ensures Valid()
      ensures this.role == role && gameState == gs
      ensures x == startX && y == startY && fuel == startFuel && money == startMoney && score == 0
      ensures !carrying && destination == Destination(Position(0, 0), false)
    {
      this.role := role;
      x, y := startX, startY;
      fuel, money, score := startFuel, startMoney, 0;
      carrying := false;
      destination := Destination(Position(0, 0), false);
      gameState := gs;
    }

    method SetFuel(newFuel: int)
      modifies this`fuel
      ensures fuel == ClampAtZero(newFuel)
    {
      fuel := if newFuel > 0 then newFuel else 0;
    }

    method SetMoney(newMoney: int)
      modifies this`money
      ensures money == ClampAtZero(newMoney)
    {
      money := if newMoney > 0 then newMoney else 0;
    }

    method AddMoney(amount: int)
      modifies this`money
      ensures money == ClampAtZero(old(money) + amount)
    {
      money := money + amount;
      if money < 0 {
        money := 0;
      }
    }

    /** addScore: no clamp, the score may go negative. */
    method AddScore(points: int)
      modifies this`score
      ensures score == old(score) + points
    {
      score := score + points;
    }

    /** refuel: 1.0 money buys 2.0 fuel; without 1.0 money nothing happens. */
    method Refuel() returns (ok: bool)
      modifies this`fuel, this`money
      ensures ok <==> old(money) >= RefuelPrice
      ensures ok ==> fuel == ClampAtZero(old(fuel) + RefuelGain) && money == old(money) - RefuelPrice
      ensures ok && old(fuel) > -TripFuelCost ==> fuel == old(fuel) + RefuelGain
      ensures !ok ==> fuel == old(fuel) && money == old(money)
      ensures old(Solvent()) ==> Solvent()
    {
      if money >= RefuelPrice {
        SetFuel(fuel + RefuelGain);
        AddMoney(-RefuelPrice);
        ok := true;
      } else {
        ok := false;
      }
    }

    /**
     * The whole effect of pickUp, from the state before to the state after:
     * the position, money, score and number of slots in play never change;
     * when a slot is picked, it alone is deactivated and the trip starts.
     */
    twostate predicate PickedUp(draw: Cell)
      requires old(Valid())
      reads this, gameState, gameState.pickupItems
    {
      var slot := PickUpSlot(old(fuel), old(carrying), old(gameState.Scanned()), Pos());
      && x == old(x) && y == old(y) && money == old(money) && score == old(score)
      && gameState.activePickupItems == old(gameState.activePickupItems)
      && (slot.None? ==>
            && fuel == old(fuel) && carrying == old(carrying) && destination == old(destination)
            && gameState.pickupItems[..] == old(gameState.pickupItems[..]))
      && (slot.Some? ==>
            && slot.value < gameState.activePickupItems
            && fuel == old(fuel) - TripFuelCost && carrying
            && destination == Destination(CellPosition(draw), true)
            && gameState.pickupItems[..] == Deactivated(old(gameState.pickupItems[..]), slot.value))
    }

    /**
     * The whole effect of dropOff: `delivered` is exactly CanDropOff, and a
     * delivery pays, scores, burns one trip of fuel and respawns one slot.
     */
    twostate predicate DroppedOff(draw: Cell, delivered: bool)
      requires old(Valid())
      reads this, gameState, gameState.pickupItems
    {
      && x == old(x) && y == old(y)
      && gameState.activePickupItems == old(gameState.activePickupItems)
      && (delivered <==> CanDropOff(old(fuel), old(carrying), old(destination), Pos()))
      && (!delivered ==>
            && fuel == old(fuel) && money == old(money) && score == old(score)
            && carrying == old(carrying) && destination == old(destination)
            && gameState.pickupItems[..] == old(gameState.pickupItems[..]))
      && (delivered ==>
            && !carrying && destination == old(destination).(active := false)
            && score == old(score) + DeliveryPoints
            && money == ClampAtZero(old(money) + DeliveryPay)
            && fuel == old(fuel) - TripFuelCost
            && gameState.pickupItems[..] ==
               Respawned(old(gameState.pickupItems[..]), gameState.activePickupItems, CellPosition(draw)))
    }

    /**
     * pickUp: with fuel left and nothing aboard, take the lowest-index active
     * item in reach among the slots in play, send the car to the building
     * cell `draw` (the accepted draw of getRandomAdjacentBuildingPosition) and
     * burn 1.0 fuel directly, bypassing setFuel's clamp.
     */
    method PickUp(draw: Cell)
      requires Valid() && BuildingDrawAccepted(draw)
      modifies this`carrying, this`destination, this`fuel, gameState.pickupItems
      ensures Valid()
      ensures PickedUp(draw)
      ensures old(Solvent()) ==> Solvent()
    {
      if fuel > 0 && !carrying {
        ghost var slots := gameState.Scanned();
        var i := 0;
        while i < gameState.GetActivePickupItems()
          invariant 0 <= i <= gameState.activePickupItems
          invariant forall k :: 0 <= k < i ==> !Meets(slots[k], PickableFrom(Pos()))
          invariant gameState.pickupItems[..] == old(gameState.pickupItems[..])
          invariant !carrying && fuel == old(fuel) && destination == old(destination)
        {
          var p := gameState.GetPickupItem(i);
          if p.Some? && p.value.active && Abs(x - p.value.pos.x) <= Reach && Abs(y - p.value.pos.y) <= Reach {
            FirstIndexIs(slots, PickableFrom(Pos()), i);
            gameState.SetPickupItem(i, Some(p.value.(active := false)));
            carrying := true;
            destination := Destination(CellPosition(draw), true);
            fuel := fuel - TripFuelCost;
            return;
          }
          i := i + 1;
        }
      }
    }

    /**
     * dropOff: succeeds when fuel is left, cargo is aboard, the destination is
     * active and in reach; then +20 score, +20 money, 1.0 fuel burnt directly,
     * and the lowest picked-up slot in play reappears at the building cell `draw`.
     */
    method DropOff(draw: Cell) returns (delivered: bool)
      requires Valid() && BuildingDrawAccepted(draw)
      modifies this`carrying, this`destination, this`fuel, this`money, this`score, gameState.pickupItems
      ensures Valid()
      ensures DroppedOff(draw, delivered)
      ensures old(Solvent()) ==> Solvent()
    {
      if fuel > 0 && carrying && destination.active &&
         Abs(x - destination.pos.x) <= Reach && Abs(y - destination.pos.y) <= Reach
      {
        carrying := false;
        destination := destination.(active := false);
        AddScore(DeliveryPoints);
        AddMoney(DeliveryPay);
        fuel := fuel - TripFuelCost;
        ghost var all := gameState.pickupItems[..];
        ghost var slots := gameState.Scanned();
        assert slots == all[..gameState.activePickupItems];
        var i := 0;
        while i < gameState.GetActivePickupItems()
          invariant 0 <= i <= gameState.activePickupItems
          invariant forall k :: 0 <= k < i ==> !Meets(slots[k], Respawnable)
          invariant gameState.pickupItems[..] == all
        {
          var p := gameState.GetPickupItem(i);
          if p.Some? && !p.value.active {
            FirstIndexIs(slots, Respawnable, i);
            gameState.SetPickupItem(i, Some(p.value.(pos := CellPosition(draw), active := true)));
            return true;
          }
          i := i + 1;
        }
        return true;
      }
      return false;
    }
  }
}
