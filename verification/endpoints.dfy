/**
 The HTTP endpoints that change the dispatch state, as guarded transitions.
 Every `HTTPException` becomes an `Err` that leaves the state as it was; a
 success carries the response value and the new state. Fresh uuid-based ids
 are parameters.
 */
module Endpoints {
  import opened Optional
  import opened Dicts
  import opened Models
  import opened Dispatch

  /** Why a request was refused; the payload is the `detail` of the error body. */
  datatype Reason =
    | DriverNotFound
    | RiderNotFound
    | RideNotFound
    | DriverOnTrip                 // deleting, or changing the status of, a driver on a trip
    | RiderHasActiveRide           // deleting a rider, or requesting a second ride
    | RideNotWaiting(current: RideStatus)
    | DriverNotAvailable(driverStatus: DriverStatus)
    | CannotCancel(current: RideStatus)

  datatype HttpError = HttpError(code: nat, reason: Reason)

  datatype Response<T> = Ok(value: T, state: State) | Err(error: HttpError)

  /** What `reject_ride` reports after trying to reassign the ride. */
  datatype RejectReply = NoDriversLeft | Reassigning

  /** A freshly generated id: eight random hex digits that no stored record uses yet. */
  ghost predicate FreshId<V>(d: Dict<Id, V>, id: Id) {
    0 <= id < IdSpace && id !in d.vals
  }

  /** Some ride of the rider is waiting or assigned. */
  ghost predicate HasActiveRide(s: State, rider: RiderId) {
    exists k :: k in s.rides.vals && s.rides.vals[k].riderId == rider && IsActive(s.rides.vals[k].status)
  }

  // ---------------------------------------------------------------------------
  // Drivers
  // ---------------------------------------------------------------------------

  function CreateDriver(s: State, id: DriverId, at: Location): (r: Response<Driver>)
    requires FreshId(s.drivers, id)
    ensures r.Ok?
    ensures r.value.id == id && r.value.location == at && r.value.status == Available
    ensures r.value.assignedRides == 0 && r.value.rejectedRides == []
    ensures r.state.drivers.vals == s.drivers.vals[id := r.value]
    ensures r.state.drivers.keys == s.drivers.keys + [id]
    ensures r.state.riders == s.riders && r.state.rides == s.rides && r.state.trips == s.trips
  {
    var d := NewDriver(id, at);
    Ok(d, s.(drivers := Put(s.drivers, id, d)))
  }

  function DeleteDriver(s: State, id: DriverId): (r: Response<()>)
    ensures id !in s.drivers.vals ==> r == Err(HttpError(404, DriverNotFound))
    ensures id in s.drivers.vals && s.drivers.vals[id].status == OnTrip ==> r == Err(HttpError(400, DriverOnTrip))
    ensures r.Ok? <==> id in s.drivers.vals && s.drivers.vals[id].status != OnTrip
    ensures r.Ok? ==> r.state.drivers.vals == s.drivers.vals - {id}
    ensures r.Ok? ==> r.state.drivers.keys == Without(s.drivers.keys, id)
    ensures r.Ok? ==> r.state.riders == s.riders && r.state.rides == s.rides && r.state.trips == s.trips
  {
    if id !in s.drivers.vals then Err(HttpError(404, DriverNotFound))
    else if s.drivers.vals[id].status == OnTrip then Err(HttpError(400, DriverOnTrip))
    else Ok((), s.(drivers := Remove(s.drivers, id)))
  }

  function UpdateDriverStatus(s: State, id: DriverId, status: DriverStatus): (r: Response<()>)
    ensures id !in s.drivers.vals ==> r == Err(HttpError(404, DriverNotFound))
    ensures r.Ok? <==>
              id in s.drivers.vals && (s.drivers.vals[id].status == OnTrip ==> status == OnTrip)
    ensures r.Err? && id in s.drivers.vals ==> r.error == HttpError(400, DriverOnTrip)
    ensures r.Ok? ==> r.state.drivers.vals == s.drivers.vals[id := s.drivers.vals[id].(status := status)]
    ensures r.Ok? ==> r.state.drivers.keys == s.drivers.keys
    ensures r.Ok? ==> r.state.riders == s.riders && r.state.rides == s.rides && r.state.trips == s.trips
  {
    if id !in s.drivers.vals then Err(HttpError(404, DriverNotFound))
    else
      var d := s.drivers.vals[id];
      if d.status == OnTrip && status != OnTrip then Err(HttpError(400, DriverOnTrip))
      else Ok((), s.(drivers := Put(s.drivers, id, d.(status := status))))
  }

  // ---------------------------------------------------------------------------
  // Riders
  // ---------------------------------------------------------------------------

  function CreateRider(s: State, id: RiderId, at: Location): (r: Response<Rider>)
    requires FreshId(s.riders, id)
    ensures r.Ok? && r.value == Rider(id, at)
    ensures r.state.riders.vals == s.riders.vals[id := r.value]
    ensures r.state.riders.keys == s.riders.keys + [id]
    ensures r.state.drivers == s.drivers && r.state.rides == s.rides && r.state.trips == s.trips
  {
    var rider := Rider(id, at);
    Ok(rider, s.(riders := Put(s.riders, id, rider)))
  }

  function DeleteRider(s: State, id: RiderId): (r: Response<()>)
    ensures id !in s.riders.vals ==> r == Err(HttpError(404, RiderNotFound))
    ensures id in s.riders.vals && HasActiveRide(s, id) ==> r == Err(HttpError(400, RiderHasActiveRide))
    ensures r.Ok? <==> id in s.riders.vals && !HasActiveRide(s, id)
    ensures r.Ok? ==> r.state.riders.vals == s.riders.vals - {id}
    ensures r.Ok? ==> r.state.riders.keys == Without(s.riders.keys, id)
    ensures r.Ok? ==> r.state.drivers == s.drivers && r.state.rides == s.rides && r.state.trips == s.trips
  {
    if id !in s.riders.vals then Err(HttpError(404, RiderNotFound))
    else if exists k :: k in s.rides.vals && s.rides.vals[k].riderId == id && IsActive(s.rides.vals[k].status) then
      Err(HttpError(400, RiderHasActiveRide))
    else Ok((), s.(riders := Remove(s.riders, id)))
  }

  // ---------------------------------------------------------------------------
  // Rides
  // ---------------------------------------------------------------------------

  /** `request_ride`: store a waiting ride and try to assign it at once. The
      returned ride is the stored one after that attempt. Pickup and dropoff
      are not checked at all. */
  function RequestRide(s: State, rider: RiderId, pickup: Location, dropoff: Location, rid: RideId): (r: Response<RideRequest>)
    requires FreshId(s.rides, rid)
    ensures rider !in s.riders.vals ==> r == Err(HttpError(404, RiderNotFound))
    ensures rider in s.riders.vals && HasActiveRide(s, rider) ==> r == Err(HttpError(400, RiderHasActiveRide))
    ensures r.Ok? <==> rider in s.riders.vals && !HasActiveRide(s, rider)
    ensures r.Ok? ==>
              && rid in r.state.rides.vals && r.value == r.state.rides.vals[rid]
              && r.value.id == rid && r.value.riderId == rider
              && r.value.pickup == pickup && r.value.dropoff == dropoff
              && r.value.rejectedBy == []
              && r.state.rides.vals.Keys == s.rides.vals.Keys + {rid}
              && (forall k :: k in s.rides.vals ==> r.state.rides.vals[k] == s.rides.vals[k])
    ensures r.Ok? ==>
              r.state == AssignRide(s.(rides := Put(s.rides, rid, NewRideRequest(rid, rider, pickup, dropoff))), rid).1
  {
    if rider !in s.riders.vals then Err(HttpError(404, RiderNotFound))
    else if exists k :: k in s.rides.vals && s.rides.vals[k].riderId == rider && IsActive(s.rides.vals[k].status) then
      Err(HttpError(400, RiderHasActiveRide))
    else
      var s1 := s.(rides := Put(s.rides, rid, NewRideRequest(rid, rider, pickup, dropoff)));
      var s2 := AssignRide(s1, rid).1;
      Ok(s2.rides.vals[rid], s2)
  }

  /** A new request is dispatched at once exactly when some driver is eligible
      for it; otherwise it is left waiting (it has no rejections yet, so it
      cannot fail). */
  lemma RequestRideDispatchesIfPossible(s: State, rider: RiderId, pickup: Location, dropoff: Location, rid: RideId)
    requires FreshId(s.rides, rid)
    ensures var r := RequestRide(s, rider, pickup, dropoff, rid);
            r.Ok? ==>
              && (r.value.status == Assigned <==> exists k :: k in s.drivers.vals && Eligible(s.drivers.vals[k], r.value))
              && (r.value.status == Waiting || r.value.status == Assigned)
  {
    var r := RequestRide(s, rider, pickup, dropoff, rid);
    if r.Ok? {
      var ride := NewRideRequest(rid, rider, pickup, dropoff);
      var s1 := s.(rides := Put(s.rides, rid, ride));
      var (outcome, s2) := AssignRide(s1, rid);
      assert s1.drivers == s.drivers;
      assert forall k :: k in s.drivers.vals ==> (Eligible(s.drivers.vals[k], ride) <==> Eligible(s.drivers.vals[k], s2.rides.vals[rid]));
    }
  }

  /** `accept_ride`: a waiting ride and an available driver become a trip to the pickup. */
  function AcceptRide(s: State, rid: RideId, driver: DriverId): (r: Response<()>)
    ensures rid !in s.rides.vals ==> r == Err(HttpError(404, RideNotFound))
    ensures rid in s.rides.vals && driver !in s.drivers.vals ==> r == Err(HttpError(404, DriverNotFound))
    ensures rid in s.rides.vals && driver in s.drivers.vals && s.rides.vals[rid].status != Waiting ==>
              r == Err(HttpError(400, RideNotWaiting(s.rides.vals[rid].status)))
    ensures rid in s.rides.vals && driver in s.drivers.vals && s.rides.vals[rid].status == Waiting
            && s.drivers.vals[driver].status != Available ==>
              r == Err(HttpError(400, DriverNotAvailable(s.drivers.vals[driver].status)))
    ensures r.Ok? <==>
              && rid in s.rides.vals && driver in s.drivers.vals
              && s.rides.vals[rid].status == Waiting && s.drivers.vals[driver].status == Available
    ensures r.Ok? ==>
              var d := s.drivers.vals[driver];
              && r.state.rides.vals == s.rides.vals[rid := s.rides.vals[rid].(status := Assigned, assignedDriver := Some(driver))]
              && r.state.drivers.vals == s.drivers.vals[driver := d.(status := OnTrip, assignedRides := d.assignedRides + 1)]
              && r.state.trips.vals == s.trips.vals[rid := Trip(driver, ToPickup)]
              && r.state.riders == s.riders
              && r.state.drivers.keys == s.drivers.keys && r.state.rides.keys == s.rides.keys
              && r.state.trips.keys == (if rid in s.trips.vals then s.trips.keys else s.trips.keys + [rid])
  {
    if rid !in s.rides.vals then Err(HttpError(404, RideNotFound))
    else if driver !in s.drivers.vals then Err(HttpError(404, DriverNotFound))
    else
      var ride := s.rides.vals[rid];
      var d := s.drivers.vals[driver];
      if ride.status != Waiting then Err(HttpError(400, RideNotWaiting(ride.status)))
      else if d.status != Available then Err(HttpError(400, DriverNotAvailable(d.status)))
      else
        Ok((), s.(rides := Put(s.rides, rid, ride.(status := Assigned, assignedDriver := Some(driver))),
                  drivers := Put(s.drivers, driver, d.(status := OnTrip, assignedRides := d.assignedRides + 1)),
                  trips := Put(s.trips, rid, Trip(driver, ToPickup))))
  }

  /** The state `reject_ride` passes to `assign_ride`: the rejection is
      recorded on both sides, each list without duplicates. */
  function RecordRejection(s: State, rid: RideId, driver: DriverId): (r: State)
    requires rid in s.rides.vals && driver in s.drivers.vals
    ensures r.riders == s.riders && r.trips == s.trips
    ensures r.rides.keys == s.rides.keys && r.drivers.keys == s.drivers.keys
    ensures var ride := s.rides.vals[rid];
            && r.rides.vals == s.rides.vals[rid := ride.(rejectedBy := AppendNew(ride.rejectedBy, driver))]
    ensures var d := s.drivers.vals[driver];
            && r.drivers.vals == s.drivers.vals[driver := d.(rejectedRides := AppendNew(d.rejectedRides, rid))]
  {
    var ride := s.rides.vals[rid];
    var d := s.drivers.vals[driver];
    s.(rides := Put(s.rides, rid, ride.(rejectedBy := AppendNew(ride.rejectedBy, driver))),
       drivers := Put(s.drivers, driver, d.(rejectedRides := AppendNew(d.rejectedRides, rid))))
  }

  /** `reject_ride`: record the rejection, then look for another driver. */
  function RejectRide(s: State, rid: RideId, driver: DriverId): (r: Response<RejectReply>)
    ensures rid !in s.rides.vals ==> r == Err(HttpError(404, RideNotFound))
    ensures rid in s.rides.vals && driver !in s.drivers.vals ==> r == Err(HttpError(404, DriverNotFound))
    ensures rid in s.rides.vals && driver in s.drivers.vals && s.rides.vals[rid].status != Waiting ==>
              r == Err(HttpError(400, RideNotWaiting(s.rides.vals[rid].status)))
    ensures r.Ok? <==> rid in s.rides.vals && driver in s.drivers.vals && s.rides.vals[rid].status == Waiting
    ensures r.Ok? ==> r == Ok(if AssignRide(RecordRejection(s, rid, driver), rid).1.rides.vals[rid].status == Failed
                              then NoDriversLeft else Reassigning,
                              AssignRide(RecordRejection(s, rid, driver), rid).1)
  {
    if rid !in s.rides.vals then Err(HttpError(404, RideNotFound))
    else if driver !in s.drivers.vals then Err(HttpError(404, DriverNotFound))
    else if s.rides.vals[rid].status != Waiting then Err(HttpError(400, RideNotWaiting(s.rides.vals[rid].status)))
    else
      var s1 := RecordRejection(s, rid, driver);
      var (outcome, s2) := AssignRide(s1, rid);
      if !outcome.Dispatched? && s2.rides.vals[rid].status == Failed then Ok(NoDriversLeft, s2)
      else Ok(Reassigning, s2)
  }

  /** After a rejection the ride names the rejecting driver, is never handed
      back to that driver, and is failed (reported as "no drivers left")
      exactly when it had run out of rejections and no other driver was free. */
  lemma RejectRideOutcome(s: State, rid: RideId, driver: DriverId)
    requires RejectRide(s, rid, driver).Ok?
    ensures var r := RejectRide(s, rid, driver);
            rid in r.state.rides.vals &&
            var ride := r.state.rides.vals[rid];
            && driver in ride.rejectedBy
            && (ride.status == Assigned ==> ride.assignedDriver != Some(driver))
            && ride.status in {Waiting, Assigned, Failed}
            && (r.value == NoDriversLeft <==> ride.status == Failed)
            && (ride.status == Failed ==> |ride.rejectedBy| >= MaxRejectionAttempts)
  {
    var s1 := RecordRejection(s, rid, driver);
    var ride1 := s1.rides.vals[rid];
    assert driver in ride1.rejectedBy && ride1.status == Waiting;
    var (outcome, s2) := AssignRide(s1, rid);
    if outcome.Dispatched? {
      var k := FindBestDriver(s1.drivers, ride1).value;
      assert Eligible(s1.drivers.vals[k], ride1);
    }
  }

  /** `cancel_ride`: a waiting or assigned ride ends failed; an assigned
      ride's driver is released and its trip dropped. */
  function CancelRide(s: State, rid: RideId): (r: Response<()>)
    ensures rid !in s.rides.vals ==> r == Err(HttpError(404, RideNotFound))
    ensures rid in s.rides.vals && !IsActive(s.rides.vals[rid].status) ==>
              r == Err(HttpError(400, CannotCancel(s.rides.vals[rid].status)))
    ensures r.Ok? <==> rid in s.rides.vals && IsActive(s.rides.vals[rid].status)
    ensures r.Ok? ==>
              && r.state.rides.vals == s.rides.vals[rid := s.rides.vals[rid].(status := Failed, assignedDriver := None)]
              && r.state.rides.keys == s.rides.keys && r.state.riders == s.riders
              && r.state.drivers.vals.Keys == s.drivers.vals.Keys
              && r.state.drivers.keys == s.drivers.keys
    ensures r.Ok? && s.rides.vals[rid].status == Waiting ==>
              r.state.drivers == s.drivers && r.state.trips == s.trips
    ensures r.Ok? && s.rides.vals[rid].status == Assigned ==>
              match s.rides.vals[rid].assignedDriver
              case Some(d) =>
                && r.state.trips.vals == s.trips.vals - {rid}
                && r.state.trips.keys == Without(s.trips.keys, rid)
                && (forall k :: k in s.drivers.vals && k != d ==> r.state.drivers.vals[k] == s.drivers.vals[k])
                && (d in s.drivers.vals ==>
                      var before := s.drivers.vals[d];
                      r.state.drivers.vals[d] ==
                        before.(status := Available,
                                assignedRides := if before.assignedRides > 0 then before.assignedRides - 1 else 0))
              case None => r.state.drivers == s.drivers && r.state.trips == s.trips
  {
    if rid !in s.rides.vals then Err(HttpError(404, RideNotFound))
    else
      var ride := s.rides.vals[rid];
      if !IsActive(ride.status) then Err(HttpError(400, CannotCancel(ride.status)))
      else
        var released :=
          if ride.status == Assigned && ride.assignedDriver.Some? then
            ReleaseDriver(s, ride.assignedDriver.value, rid)
          else s;
        Ok((), released.(rides := Put(s.rides, rid, ride.(status := Failed, assignedDriver := None))))
  }

  /** The driver side of a cancellation: the driver (if still known) is
      available again with one ride fewer, never below zero, and the trip is gone. */
  function ReleaseDriver(s: State, d: DriverId, rid: RideId): (r: State)
    ensures r.riders == s.riders && r.rides == s.rides
    ensures r.trips.vals == s.trips.vals - {rid}
    ensures r.drivers.vals.Keys == s.drivers.vals.Keys && r.drivers.keys == s.drivers.keys
    ensures r.trips.keys == Without(s.trips.keys, rid)
    ensures forall k :: k in s.drivers.vals && k != d ==> r.drivers.vals[k] == s.drivers.vals[k]
    ensures d in s.drivers.vals ==>
              r.drivers.vals[d].status == Available
              && r.drivers.vals[d].assignedRides == (if s.drivers.vals[d].assignedRides > 0 then s.drivers.vals[d].assignedRides - 1 else 0)
              && r.drivers.vals[d] == s.drivers.vals[d].(status := r.drivers.vals[d].status, assignedRides := r.drivers.vals[d].assignedRides)
  {
    var drivers :=
      if d in s.drivers.vals then
        var before := s.drivers.vals[d];
        Put(s.drivers, d, before.(status := Available,
                                  assignedRides := if before.assignedRides > 0 then before.assignedRides - 1 else 0))
      else s.drivers;
    AllStored(s.trips);
    assert rid !in s.trips.vals ==> rid !in s.trips.keys;
    s.(drivers := drivers, trips := Remove(s.trips, rid))
  }

  /** `advance_simulation`: one tick; the response lists its events. */
  function AdvanceSimulation(s: State): (r: Response<seq<Event>>)
    ensures r.Ok? && r == Ok(Tick(s).0, Tick(s).1)
  {
    var (events, s1) := Tick(s);
    Ok(events, s1)
  }
}
