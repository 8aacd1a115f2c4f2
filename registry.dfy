/**
 * GameState (game.cpp:174-194): four pick-up slots, three fuel-station slots
 * and the number of pick-up slots in play. The source's owning pointers become
 * option-typed slots in fixed arrays; every accessor checks the index.
 */
module Registry {
  import opened Wrappers
  import opened Grid

  const PickupSlots := 4
  const StationSlots := 3

  /** Passenger and Box share every piece of state and behaviour but their drawing. */
  datatype ItemKind = Passenger | Box

  datatype PickupItem = PickupItem(kind: ItemKind, pos: Position, active: bool)

  datatype FuelStation = FuelStation(pos: Position)

  /** The two slot scans of pickUp and dropOff, written once. */
  datatype Criterion =
    | PickableFrom(at: Position)   // an active item within reach of `at`
    | Respawnable                  // an item that has been picked up

  predicate Meets(slot: Option<PickupItem>, c: Criterion) {
    match c
    case PickableFrom(at) => slot.Some? && slot.value.active && Near(at, slot.value.pos)
    case Respawnable => slot.Some? && !slot.value.active
  }

  /** The lowest index whose slot meets the criterion, if any. */
  function FirstIndex(slots: seq<Option<PickupItem>>, c: Criterion): (r: Option<nat>)
    ensures r.Some? ==> r.value < |slots| && Meets(slots[r.value], c)
    ensures r.Some? ==> forall k :: 0 <= k < r.value ==> !Meets(slots[k], c)
    ensures r.None? <==> forall k :: 0 <= k < |slots| ==> !Meets(slots[k], c)
  {
    if slots == [] then None
    else if Meets(slots[0], c) then Some(0)
    else
      match FirstIndex(slots[1..], c)
      case None => None
      case Some(k) => Some(k + 1)
  }

  /** The scan result is determined: a meeting index with no earlier one is the first. */
  lemma FirstIndexIs(slots: seq<Option<PickupItem>>, c: Criterion, i: nat)
    requires i < |slots| && Meets(slots[i], c)
    requires forall k :: 0 <= k < i ==> !Meets(slots[k], c)
    ensures FirstIndex(slots, c) == Some(i)
  {}

  /** The number of active items among the slots. */
  function ActiveItems(slots: seq<Option<PickupItem>>): nat {
    if slots == [] then 0
    else (if slots[0].Some? && slots[0].value.active then 1 else 0) + ActiveItems(slots[1..])
  }

  function ActiveBit(slot: Option<PickupItem>): nat {
    if slot.Some? && slot.value.active then 1 else 0
  }

  /** Replacing one slot changes the active count by the difference of the two slots. */
  lemma {:induction false} ActiveItemsUpdate(slots: seq<Option<PickupItem>>, i: nat, v: Option<PickupItem>)
    requires i < |slots|
    ensures ActiveItems(slots[i := v]) + ActiveBit(slots[i]) == ActiveItems(slots) + ActiveBit(v)
  {
    if i > 0 {
      assert slots[i := v][1..] == slots[1..][i - 1 := v];
      ActiveItemsUpdate(slots[1..], i - 1, v);
    } else {
      assert slots[i := v][1..] == slots[1..];
    }
  }

  class GameState {
    const pickupItems: array<Option<PickupItem>>
    var activePickupItems: int
    const fuelStations: array<Option<FuelStation>>

    ghost predicate Valid()
      reads this
    {
      pickupItems.Length == PickupSlots && fuelStations.Length == StationSlots &&
      0 <= activePickupItems <= PickupSlots
    }

    /** The slots that pickUp, dropOff and the display loop look at. */
    function Scanned(): seq<Option<PickupItem>>
      requires Valid()
      reads this, pickupItems
    {
      pickupItems[..activePickupItems]
    }

    constructor ()
      ensures Valid() && fresh(pickupItems) && fresh(fuelStations)
      ensures pickupItems[..] == [None, None, None, None]
      ensures fuelStations[..] == [None, None, None]
      ensures activePickupItems == 0
    {
      pickupItems := new Option<PickupItem>[PickupSlots](_ => None);
      fuelStations := new Option<FuelStation>[StationSlots](_ => None);
      activePickupItems := 0;
    }

    /** setPickupItem: an index outside 0 .. 3 is ignored. */
    method SetPickupItem(index: int, item: Option<PickupItem>)
      requires Valid()
      modifies pickupItems
      ensures Valid()
      ensures 0 <= index < PickupSlots ==> pickupItems[..] == old(pickupItems[..])[index := item]
      ensures !(0 <= index < PickupSlots) ==> pickupItems[..] == old(pickupItems[..])
    {
      if index >= 0 && index < PickupSlots {
        pickupItems[index] := item;
      }
    }

    /** getPickupItem: the slot, or nothing for an index outside 0 .. 3. */
    function GetPickupItem(index: int): (r: Option<PickupItem>)
      requires Valid()
      reads this, pickupItems
      ensures 0 <= index < PickupSlots ==> r == pickupItems[index]
      ensures !(0 <= index < PickupSlots) ==> r.None?
    {
      if index >= 0 && index < PickupSlots then pickupItems[index] else None
    }

    /** setActivePickupItems: a count outside 0 .. 4 is ignored, not clamped. */
    method SetActivePickupItems(count: int)
      requires Valid()
      modifies this`activePickupItems
      ensures Valid()
      ensures activePickupItems == if 0 <= count <= PickupSlots then count else old(activePickupItems)
    {
      if count >= 0 && count <= PickupSlots {
        activePickupItems := count;
      }
    }

    function GetActivePickupItems(): (n: int)
      requires Valid()
      reads this
      ensures 0 <= n <= PickupSlots
    {
      activePickupItems
    }

    /** setFuelStation: an index outside 0 .. 2 is ignored. */
    method SetFuelStation(index: int, station: Option<FuelStation>)
      requires Valid()
      modifies fuelStations
      ensures Valid()
      ensures 0 <= index < StationSlots ==> fuelStations[..] == old(fuelStations[..])[index := station]
      ensures !(0 <= index < StationSlots) ==> fuelStations[..] == old(fuelStations[..])
    {
      if index >= 0 && index < StationSlots {
        fuelStations[index] := station;
      }
    }

    /** getFuelStation: the slot, or nothing for an index outside 0 .. 2. */
    function GetFuelStation(index: int): (r: Option<FuelStation>)
      requires Valid()
      reads this, fuelStations
      ensures 0 <= index < StationSlots ==> r == fuelStations[index]
      ensures !(0 <= index < StationSlots) ==> r.None?
    {
      if index >= 0 && index < StationSlots then fuelStations[index] else None
    }
  }
}
