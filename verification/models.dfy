/**
 The records the dispatch server stores and serves, with the defaults their
 pydantic declarations give to omitted fields.
 */
module Models {
  import opened Optional
  import opened Dicts

  /** An identifier `driver_`, `rider_` or `ride_` followed by eight hex
      digits, represented by the number the digits spell. The prefix is fixed
      by the kind of record, so two ids of one kind are equal exactly when
      their numbers are. Such an id is never the empty string. */
  type Id = int

  /** The eight hex digits of a generated id: below 16^8. */
  const IdSpace: nat := 0x1_0000_0000

  type DriverId = Id
  type RiderId = Id
  type RideId = Id

  /** A driver is available, on a trip, or offline; there is no other status. */
  datatype DriverStatus = Available | OnTrip | Offline

  /** The life cycle of a ride request. A cancelled ride is recorded as `Failed`. */
  datatype RideStatus = Waiting | Assigned | Rejected | Completed | Failed

  /** A grid cell. Nothing in the type bounds it to the 100 x 100 grid. */
  datatype Location = Location(x: int, y: int)

  /** `assignedRides` feeds the fairness term of driver selection; it only ever
      grows by one or shrinks by one while positive, so it is a `nat`. */
  datatype Driver = Driver(
    id: DriverId,
    location: Location,
    status: DriverStatus,
    assignedRides: nat,
    rejectedRides: seq<RideId>)

  datatype Rider = Rider(id: RiderId, location: Location)

  datatype RideRequest = RideRequest(
    id: RideId,
    riderId: RiderId,
    pickup: Location,
    dropoff: Location,
    status: RideStatus,
    assignedDriver: Option<DriverId>,
    rejectedBy: seq<DriverId>)

  /** The statuses the server treats as a rider's live request. */
  predicate IsActive(st: RideStatus) {
    st == Waiting || st == Assigned
  }

  /** A driver as `create_driver` builds it: the given status, the default ride count and no rejections. */
  function NewDriver(id: DriverId, at: Location): (d: Driver)
    ensures d.id == id && d.location == at
    ensures d.status == Available && d.assignedRides == 0 && d.rejectedRides == []
  {
    Driver(id, at, Available, 0, [])
  }

  /** A ride request as `request_ride` builds it: no driver yet and no rejections. */
  function NewRideRequest(id: RideId, rider: RiderId, pickup: Location, dropoff: Location): (r: RideRequest)
    ensures r.id == id && r.riderId == rider && r.pickup == pickup && r.dropoff == dropoff
    ensures r.status == Waiting && IsActive(r.status)
    ensures r.assignedDriver.None? && r.rejectedBy == []
  {
    RideRequest(id, rider, pickup, dropoff, Waiting, None, [])
  }

  /** `if x not in xs: xs.append(x)`: the list gains `x` at the end unless it already holds it. */
  function AppendNew<T(==,!new)>(xs: seq<T>, x: T): (r: seq<T>)
    ensures x in r
    ensures x in xs ==> r == xs
    ensures forall y :: y in r <==> y in xs || y == x
    ensures |xs| <= |r| <= |xs| + 1 && r[..|xs|] == xs
    ensures Distinct(xs) ==> Distinct(r)
  {
    if x in xs then xs
    else
      DistinctAppend(xs, x);
      xs + [x]
  }
}
