/** The truck state machine of truck.py: mileage, clock and location advanced by driving. */
module Trucks {
  import opened Wrappers
  import Address

  /** The three fields a truck changes as it drives; the clock is in hours since midnight. */
  datatype TruckView = TruckView(mileage: real, clock: real, location: string)

  /** Driving `distance` at `speed` to `destination`: mileage, clock and location after the leg. */
  function Drive(v: TruckView, distance: real, speed: real, destination: string): (r: TruckView)
    requires speed != 0.0
    ensures r.mileage == v.mileage + distance
    ensures r.clock == v.clock + distance / speed
    ensures r.location == destination
  {
    TruckView(v.mileage + distance, v.clock + distance / speed, destination)
  }

  /** With a non-negative distance and a positive speed, neither mileage nor clock goes back. */
  lemma DriveNeverGoesBack(v: TruckView, distance: real, speed: real, destination: string)
    requires distance >= 0.0 && speed > 0.0
    ensures Drive(v, distance, speed, destination).mileage >= v.mileage
    ensures Drive(v, distance, speed, destination).clock >= v.clock
  {
  }

  /**
   * The clock minus the hours spent driving so far. It stays fixed while a truck only
   * drives, so for a truck that started with zero mileage it is its departure time.
   */
  function Epoch(v: TruckView, speed: real): real
    requires speed != 0.0
  {
    v.clock - v.mileage / speed
  }

  /** Every leg advances the clock by exactly the hours its miles take, so the epoch stays. */
  lemma DriveKeepsEpoch(v: TruckView, distance: real, speed: real, destination: string)
    requires speed != 0.0
    ensures Epoch(Drive(v, distance, speed, destination), speed) == Epoch(v, speed)
  {
    assert (v.mileage + distance) / speed == v.mileage / speed + distance / speed;
  }

  /** Two views with the same epoch: the clock gained, at the truck's speed, is the mileage gained. */
  lemma EpochLockStep(a: TruckView, b: TruckView, speed: real)
    requires speed != 0.0 && Epoch(a, speed) == Epoch(b, speed)
    ensures (b.clock - a.clock) * speed == b.mileage - a.mileage
  {
    assert b.clock - a.clock == b.mileage / speed - a.mileage / speed;
    assert (b.mileage / speed - a.mileage / speed) * speed == b.mileage - a.mileage;
  }

  /** A leg of 5 miles at 10 miles per hour takes exactly half an hour. */
  lemma HalfHourLeg(v: TruckView, destination: string)
    ensures Drive(v, 5.0, 10.0, destination).clock == v.clock + 0.5
  {
  }

  class Truck {
    const id: int
    const capacity: int
    /** Miles per hour. */
    const speed: real
    /** The ids assigned to the truck; fixed once the truck is built. */
    const packages: seq<string>
    /** The hour the truck leaves the hub. */
    const departTime: real
    var mileage: real
    var clock: real
    var location: string

    function View(): TruckView
      reads this
    {
      TruckView(mileage, clock, location)
    }

    /** `Truck.__init__`: the clock starts at the departure time. */
    constructor (id: int, capacity: int, speed: real, mileage: real, location: string,
                 packages: seq<string>, departTime: real)
      ensures this.id == id && this.capacity == capacity && this.speed == speed
      ensures this.packages == packages && this.departTime == departTime
      ensures View() == TruckView(mileage, departTime, location)
    {
      this.id := id;
      this.capacity := capacity;
      this.speed := speed;
      this.packages := packages;
      this.departTime := departTime;
      this.mileage := mileage;
      this.clock := departTime;
      this.location := location;
    }

    /** `deliver`: drives to the destination and returns the new clock, or does nothing for a package not on the truck. */
    method Deliver(packageId: string, distance: real, destination: string) returns (r: Option<real>)
      requires packageId in packages ==> speed != 0.0
      modifies this
      ensures packageId in packages ==> View() == Drive(old(View()), distance, speed, destination) && r == Some(clock)
      ensures packageId !in packages ==> View() == old(View()) && r == None
    {
      if packageId in packages {
        mileage := mileage + distance;
        clock := clock + distance / speed;
        location := destination;
        return Some(clock);
      }
      return None;
    }

    /** `return_to_hub`: drives back to the hub and returns the new clock. */
    method ReturnToHub(distance: real) returns (r: real)
      requires speed != 0.0
      modifies this
      ensures View() == Drive(old(View()), distance, speed, Address.Hub) && r == clock
    {
      mileage := mileage + distance;
      clock := clock + distance / speed;
      location := Address.Hub;
      return clock;
    }
  }
}
