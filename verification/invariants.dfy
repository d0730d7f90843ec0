/**
 Cross-operation invariants of the dispatch state, and the proof that every
 endpoint and the tick preserve them:
 - every active trip points to an assigned ride that names the trip's driver,
   and that driver exists and is on a trip;
 - no driver serves two trips, and every assigned ride has its trip;
 - a rider has at most one waiting or assigned ride, and such a rider exists.
 */
module Invariants {
  import opened Optional
  import opened Dicts
  import opened Models
  import opened Dispatch
  import opened Endpoints

  /** Every record is stored under its own id. */
  ghost predicate IdsMatch(s: State) {
    && (forall k :: k in s.drivers.vals ==> s.drivers.vals[k].id == k)
    && (forall k :: k in s.riders.vals ==> s.riders.vals[k].id == k)
    && (forall k :: k in s.rides.vals ==> s.rides.vals[k].id == k)
  }

  /** The trip of ride `rid` refers to an assigned ride naming its driver, who is on a trip. */
  ghost predicate TripConsistent(s: State, rid: RideId)
    requires rid in s.trips.vals
  {
    var t := s.trips.vals[rid];
    && rid in s.rides.vals
    && s.rides.vals[rid].status == Assigned
    && s.rides.vals[rid].assignedDriver == Some(t.driver)
    && t.driver in s.drivers.vals
    && s.drivers.vals[t.driver].status == OnTrip
  }

  ghost predicate TripsConsistent(s: State) {
    forall rid :: rid in s.trips.vals ==> TripConsistent(s, rid)
  }

  /** No driver serves two trips. */
  ghost predicate TripsExclusive(s: State) {
    forall r1, r2 :: r1 in s.trips.vals && r2 in s.trips.vals && r1 != r2 ==>
      s.trips.vals[r1].driver != s.trips.vals[r2].driver
  }

  ghost predicate AssignedRidesHaveTrips(s: State) {
    forall rid :: rid in s.rides.vals && s.rides.vals[rid].status == Assigned ==> rid in s.trips.vals
  }

  ghost predicate OneActiveRidePerRider(s: State) {
    forall r1, r2 ::
      && r1 in s.rides.vals && r2 in s.rides.vals && r1 != r2
      && IsActive(s.rides.vals[r1].status) && IsActive(s.rides.vals[r2].status)
      ==> s.rides.vals[r1].riderId != s.rides.vals[r2].riderId
  }

  ghost predicate ActiveRidersKnown(s: State) {
    forall rid :: rid in s.rides.vals && IsActive(s.rides.vals[rid].status) ==> s.rides.vals[rid].riderId in s.riders.vals
  }

  ghost predicate Inv(s: State) {
    && IdsMatch(s)
    && TripsConsistent(s)
    && TripsExclusive(s)
    && AssignedRidesHaveTrips(s)
    && OneActiveRidePerRider(s)
    && ActiveRidersKnown(s)
  }

  /** A trip exists only for an assigned ride. */
  lemma TripOnlyIfAssigned(s: State, rid: RideId)
    requires TripsConsistent(s)
    ensures rid in s.trips.vals ==> rid in s.rides.vals && s.rides.vals[rid].status == Assigned
  {
    if rid in s.trips.vals {
      assert TripConsistent(s, rid);
    }
  }

  lemma InitSatisfiesInv()
    ensures Inv(Init())
  {
  }

  // ---------------------------------------------------------------------------
  // A shared argument for the rider invariants
  // ---------------------------------------------------------------------------

  /** No ride became active, no ride changed rider, no ride appeared, no rider disappeared. */
  ghost predicate NoNewActivity(s: State, s': State) {
    && s.riders.vals.Keys <= s'.riders.vals.Keys
    && (forall rid :: rid in s'.rides.vals ==> rid in s.rides.vals)
    && (forall rid :: rid in s'.rides.vals ==>
          && s'.rides.vals[rid].riderId == s.rides.vals[rid].riderId
          && (IsActive(s'.rides.vals[rid].status) ==> IsActive(s.rides.vals[rid].status)))
  }

  lemma RiderInvariantsKept(s: State, s': State)
    requires OneActiveRidePerRider(s) && ActiveRidersKnown(s)
    requires NoNewActivity(s, s')
    ensures OneActiveRidePerRider(s') && ActiveRidersKnown(s')
  {
  }

  /** The common case: one ride record changes, keeping its rider and not becoming active. */
  lemma RideChangeKeepsRiderInvariants(s: State, s': State, rid: RideId, x: RideRequest)
    requires OneActiveRidePerRider(s) && ActiveRidersKnown(s)
    requires rid in s.rides.vals && s'.riders == s.riders && s'.rides.vals == s.rides.vals[rid := x]
    requires x.riderId == s.rides.vals[rid].riderId
    requires IsActive(x.status) ==> IsActive(s.rides.vals[rid].status)
    ensures OneActiveRidePerRider(s') && ActiveRidersKnown(s')
  {
    RiderInvariantsKept(s, s');
  }

  // ---------------------------------------------------------------------------
  // Drivers and riders
  // ---------------------------------------------------------------------------

  lemma CreateDriverKeepsInv(s: State, id: DriverId, at: Location)
    requires Inv(s) && FreshId(s.drivers, id)
    ensures Inv(CreateDriver(s, id, at).state)
  {
  }

  lemma DeleteDriverKeepsInv(s: State, id: DriverId)
    requires Inv(s) && DeleteDriver(s, id).Ok?
    ensures Inv(DeleteDriver(s, id).state)
  {
    var s' := DeleteDriver(s, id).state;
    forall rid | rid in s'.trips.vals ensures TripConsistent(s', rid) {
      assert TripConsistent(s, rid);
    }
  }

  lemma UpdateDriverStatusKeepsInv(s: State, id: DriverId, status: DriverStatus)
    requires Inv(s) && UpdateDriverStatus(s, id, status).Ok?
    ensures Inv(UpdateDriverStatus(s, id, status).state)
  {
    var s' := UpdateDriverStatus(s, id, status).state;
    forall rid | rid in s'.trips.vals ensures TripConsistent(s', rid) {
      assert TripConsistent(s, rid);
    }
  }

  lemma CreateRiderKeepsInv(s: State, id: RiderId, at: Location)
    requires Inv(s) && FreshId(s.riders, id)
    ensures Inv(CreateRider(s, id, at).state)
  {
    RiderInvariantsKept(s, CreateRider(s, id, at).state);
  }

  lemma DeleteRiderKeepsInv(s: State, id: RiderId)
    requires Inv(s) && DeleteRider(s, id).Ok?
    ensures Inv(DeleteRider(s, id).state)
  {
    var s' := DeleteRider(s, id).state;
    assert !HasActiveRide(s, id);
    forall rid | rid in s'.rides.vals && IsActive(s'.rides.vals[rid].status)
      ensures s'.rides.vals[rid].riderId in s'.riders.vals
    {
      assert s.rides.vals[rid].riderId in s.riders.vals;
    }
  }

  // ---------------------------------------------------------------------------
  // The three shapes of change a request makes
  // ---------------------------------------------------------------------------

  /** The drivers are the same people with the same statuses (other fields may change). */
  ghost predicate SameDriverRoles(s: State, s': State) {
    && s'.drivers.vals.Keys == s.drivers.vals.Keys
    && forall k :: k in s.drivers.vals ==>
         s'.drivers.vals[k].id == s.drivers.vals[k].id && s'.drivers.vals[k].status == s.drivers.vals[k].status
  }

  /** One ride record changes without gaining a driver: it keeps its id and
      rider, does not become active, and an assigned ride stays as it is
      assigned. Recording a rejection, giving up and cancelling a waiting ride
      all have this shape. */
  lemma RideUpdateKeepsInv(s: State, s': State, rid: RideId, x: RideRequest)
    requires Inv(s) && rid in s.rides.vals
    requires SameDriverRoles(s, s') && s'.trips == s.trips && s'.riders == s.riders
    requires s'.rides.vals == s.rides.vals[rid := x]
    requires x.id == rid && x.riderId == s.rides.vals[rid].riderId
    requires IsActive(x.status) ==> IsActive(s.rides.vals[rid].status)
    requires s.rides.vals[rid].status == Assigned || x.status == Assigned ==>
               x.status == s.rides.vals[rid].status && x.assignedDriver == s.rides.vals[rid].assignedDriver
    ensures Inv(s')
  {
    assert TripsConsistent(s') by {
      forall j | j in s'.trips.vals ensures TripConsistent(s', j) {
        assert TripConsistent(s, j);
      }
    }
    RideChangeKeepsRiderInvariants(s, s', rid, x);
  }

  /** A waiting ride gets available driver `k` and a trip towards its pickup:
      the shape of `assign_ride`'s success and of `accept_ride`. */
  lemma DispatchKeepsInv(s: State, s': State, rid: RideId, k: DriverId, x: RideRequest, y: Driver)
    requires Inv(s) && rid in s.rides.vals && s.rides.vals[rid].status == Waiting
    requires k in s.drivers.vals && s.drivers.vals[k].status == Available
    requires s'.riders == s.riders
    requires s'.rides.vals == s.rides.vals[rid := x]
    requires x.id == rid && x.riderId == s.rides.vals[rid].riderId && x.status == Assigned && x.assignedDriver == Some(k)
    requires s'.drivers.vals == s.drivers.vals[k := y] && y.id == k && y.status == OnTrip
    requires s'.trips.vals == s.trips.vals[rid := Trip(k, ToPickup)]
    ensures Inv(s')
  {
    TripOnlyIfAssigned(s, rid);
    assert IdsMatch(s');
    assert TripsConsistent(s') by {
      forall j | j in s'.trips.vals ensures TripConsistent(s', j) {
        if j != rid {
          assert TripConsistent(s, j);
        }
      }
    }
    assert TripsExclusive(s') by {
      forall j | j in s.trips.vals ensures s.trips.vals[j].driver != k {
        assert TripConsistent(s, j);
      }
    }
    assert AssignedRidesHaveTrips(s');
    RideChangeKeepsRiderInvariants(s, s', rid, x);
  }

  /** An assigned ride is cancelled: its trip goes, its driver is released
      and every other driver is untouched. */
  lemma ReleaseKeepsInv(s: State, s': State, rid: RideId, d: DriverId, x: RideRequest)
    requires Inv(s) && rid in s.trips.vals && s.trips.vals[rid].driver == d
    requires s'.riders == s.riders
    requires s'.rides.vals == s.rides.vals[rid := x]
    requires x.id == rid && x.riderId == s.rides.vals[rid].riderId && !IsActive(x.status)
    requires s'.trips.vals == s.trips.vals - {rid}
    requires forall k :: k in s'.drivers.vals ==> k in s.drivers.vals
    requires forall k :: k in s.drivers.vals && k != d ==> k in s'.drivers.vals && s'.drivers.vals[k] == s.drivers.vals[k]
    requires d in s'.drivers.vals ==> s'.drivers.vals[d].id == d
    ensures Inv(s')
  {
    assert TripConsistent(s, rid);
    OtherTripsStayConsistent(s, s', rid, []);
    RideChangeKeepsRiderInvariants(s, s', rid, x);
  }

  /** When only trip `rid`'s ride and driver change, every other trip that
      was consistent still is: no other trip shares that driver. */
  lemma OtherTripsStayConsistent(s: State, s': State, rid: RideId, done: seq<RideId>)
    requires rid in s.trips.vals && TripsExclusive(s)
    requires forall j :: j in s.trips.vals && j !in done ==> TripConsistent(s, j)
    requires forall j :: j in s'.trips.vals && j != rid ==>
               j in s.trips.vals && s'.trips.vals[j].driver == s.trips.vals[j].driver
    requires var d := s.trips.vals[rid].driver;
             forall k :: k in s.drivers.vals && k != d ==> k in s'.drivers.vals && s'.drivers.vals[k] == s.drivers.vals[k]
    requires forall j :: j in s.rides.vals && j != rid ==> j in s'.rides.vals && s'.rides.vals[j] == s.rides.vals[j]
    ensures forall j :: j in s'.trips.vals && j != rid && j !in done ==> TripConsistent(s', j)
  {
    forall j | j in s'.trips.vals && j != rid && j !in done ensures TripConsistent(s', j) {
      assert TripConsistent(s, j);
      assert s.trips.vals[j].driver != s.trips.vals[rid].driver;
    }
  }

  // ---------------------------------------------------------------------------
  // Assignment and the ride endpoints
  // ---------------------------------------------------------------------------

  /** Assigning a waiting ride keeps every invariant; `assign_ride` is only ever
      called on a ride that `request_ride` or `reject_ride` has just seen waiting. */
  lemma AssignRideKeepsInv(s: State, rid: RideId)
    requires Inv(s)
    requires rid in s.rides.vals ==> s.rides.vals[rid].status == Waiting
    ensures Inv(AssignRide(s, rid).1)
  {
    var (outcome, s') := AssignRide(s, rid);
    if rid in s.rides.vals {
      var ride := s.rides.vals[rid];
      if outcome.Dispatched? {
        var k := FindBestDriver(s.drivers, ride).value;
        AssignToKeepsInv(s, rid, k);
      } else if outcome.GaveUp? {
        RideUpdateKeepsInv(s, s', rid, ride.(status := Failed));
      }
    }
  }

  lemma AssignToKeepsInv(s: State, rid: RideId, k: DriverId)
    requires Inv(s) && rid in s.rides.vals && s.rides.vals[rid].status == Waiting
    requires k in s.drivers.vals && s.drivers.vals[k].status == Available
    ensures Inv(AssignTo(s, rid, k).1)
  {
    var d := s.drivers.vals[k];
    var ride := s.rides.vals[rid];
    DispatchKeepsInv(s, AssignTo(s, rid, k).1, rid, k, ride.(status := Assigned, assignedDriver := Some(k)),
                     d.(status := OnTrip, assignedRides := d.assignedRides + 1));
  }

  lemma RequestRideKeepsInv(s: State, rider: RiderId, pickup: Location, dropoff: Location, rid: RideId)
    requires Inv(s) && FreshId(s.rides, rid)
    ensures RequestRide(s, rider, pickup, dropoff, rid).Ok? ==> Inv(RequestRide(s, rider, pickup, dropoff, rid).state)
  {
    if RequestRide(s, rider, pickup, dropoff, rid).Ok? {
      var s1 := s.(rides := Put(s.rides, rid, NewRideRequest(rid, rider, pickup, dropoff)));
      TripOnlyIfAssigned(s, rid);
      forall j | j in s1.trips.vals ensures TripConsistent(s1, j) {
        assert TripConsistent(s, j);
      }
      assert !HasActiveRide(s, rider);
      assert Inv(s1);
      AssignRideKeepsInv(s1, rid);
    }
  }

  lemma AcceptRideKeepsInv(s: State, rid: RideId, driver: DriverId)
    requires Inv(s) && AcceptRide(s, rid, driver).Ok?
    ensures Inv(AcceptRide(s, rid, driver).state)
  {
    var ride := s.rides.vals[rid];
    var d := s.drivers.vals[driver];
    DispatchKeepsInv(s, AcceptRide(s, rid, driver).state, rid, driver,
                     ride.(status := Assigned, assignedDriver := Some(driver)),
                     d.(status := OnTrip, assignedRides := d.assignedRides + 1));
  }

  lemma RecordRejectionKeepsInv(s: State, rid: RideId, driver: DriverId)
    requires Inv(s) && rid in s.rides.vals && driver in s.drivers.vals
    ensures Inv(RecordRejection(s, rid, driver))
  {
    var ride := s.rides.vals[rid];
    RideUpdateKeepsInv(s, RecordRejection(s, rid, driver), rid, ride.(rejectedBy := AppendNew(ride.rejectedBy, driver)));
  }

  lemma RejectRideKeepsInv(s: State, rid: RideId, driver: DriverId)
    requires Inv(s) && RejectRide(s, rid, driver).Ok?
    ensures Inv(RejectRide(s, rid, driver).state)
  {
    var s1 := RecordRejection(s, rid, driver);
    RecordRejectionKeepsInv(s, rid, driver);
    AssignRideKeepsInv(s1, rid);
  }

  lemma CancelRideKeepsInv(s: State, rid: RideId)
    requires Inv(s) && CancelRide(s, rid).Ok?
    ensures Inv(CancelRide(s, rid).state)
  {
    var s' := CancelRide(s, rid).state;
    var ride := s.rides.vals[rid];
    var x := ride.(status := Failed, assignedDriver := None);
    if ride.status == Waiting {
      RideUpdateKeepsInv(s, s', rid, x);
    } else {
      assert rid in s.trips.vals;
      assert TripConsistent(s, rid);
      var d := s.trips.vals[rid].driver;
      ReleaseKeepsInv(s, s', rid, d, x);
    }
  }

  // ---------------------------------------------------------------------------
  // The tick
  // ---------------------------------------------------------------------------

  /** The invariant in the middle of the tick loop: the trips listed in `done`
      have completed (their removal is still pending), every other trip is consistent. */
  ghost predicate TickInv(s: State, done: seq<RideId>) {
    && IdsMatch(s)
    && TripsExclusive(s)
    && (forall rid :: rid in s.trips.vals && rid !in done ==> TripConsistent(s, rid))
    && (forall rid :: rid in done ==> rid in s.trips.vals && rid in s.rides.vals && s.rides.vals[rid].status == Completed)
    && AssignedRidesHaveTrips(s)
    && OneActiveRidePerRider(s)
    && ActiveRidersKnown(s)
  }

  /** A trip advances without completing: its driver moves (and keeps its
      status), the trip may turn towards the dropoff, no ride changes. */
  lemma TripMoveKeepsTickInv(s: State, s': State, rid: RideId, done: seq<RideId>, y: Driver)
    requires TickInv(s, done) && rid in s.trips.vals && rid !in done
    requires s'.riders == s.riders && s'.rides == s.rides
    requires var t := s.trips.vals[rid];
             s'.drivers.vals == s.drivers.vals[t.driver := y] && y.id == t.driver
             && y.status == s.drivers.vals[t.driver].status
    requires s'.trips.vals.Keys == s.trips.vals.Keys
    requires forall j :: j in s.trips.vals ==> s'.trips.vals[j].driver == s.trips.vals[j].driver
    ensures TickInv(s', done)
  {
    assert TripConsistent(s, rid);
    OtherTripsStayConsistent(s, s', rid, done);
    assert TripConsistent(s', rid);
    RiderInvariantsKept(s, s');
  }

  /** A trip reaches its dropoff: the driver moves and is available again,
      the ride is completed, and the trip waits in `done` for removal. */
  lemma TripCompleteKeepsTickInv(s: State, s': State, rid: RideId, done: seq<RideId>, y: Driver)
    requires TickInv(s, done) && rid in s.trips.vals && rid !in done
    requires s'.riders == s.riders && s'.trips == s.trips
    requires var t := s.trips.vals[rid];
             s'.drivers.vals == s.drivers.vals[t.driver := y] && y.id == t.driver && y.status == Available
    requires rid in s.rides.vals && s'.rides.vals == s.rides.vals[rid := s.rides.vals[rid].(status := Completed)]
    ensures TickInv(s', done + [rid])
  {
    assert TripConsistent(s, rid);
    OtherTripsStayConsistent(s, s', rid, done);
    assert forall j :: j in done + [rid] ==> j in s'.trips.vals && j in s'.rides.vals && s'.rides.vals[j].status == Completed by {
      forall j | j in done + [rid] ensures j in s'.trips.vals && j in s'.rides.vals && s'.rides.vals[j].status == Completed {
        if j != rid {
          assert j in done;
        }
      }
    }
    RideChangeKeepsRiderInvariants(s, s', rid, s.rides.vals[rid].(status := Completed));
  }

  lemma TickTripKeepsTickInv(s: State, rid: RideId, done: seq<RideId>)
    requires TickInv(s, done) && rid in s.trips.vals && rid !in done
    ensures var r := TickTrip(s, rid);
            TickInv(r.1, if r.2 then done + [rid] else done)
  {
    var (_, s', completed) := TickTrip(s, rid);
    TickTripEffect(s, rid);
    assert TripConsistent(s, rid);
    var t := s.trips.vals[rid];
    if completed {
      TripCompleteKeepsTickInv(s, s', rid, done, s'.drivers.vals[t.driver]);
    } else {
      TripMoveKeepsTickInv(s, s', rid, done, s'.drivers.vals[t.driver]);
    }
  }

  /** The loop's first trip is processed before the rest; the completed
      trips are collected in loop order. */
  lemma TickLoopStep(s: State, todo: seq<RideId>)
    requires todo != [] && forall i :: 0 <= i < |todo| ==> todo[i] in s.trips.vals
    ensures var (_, s1, completed) := TickTrip(s, todo[0]);
            && (forall i :: 0 <= i < |todo[1..]| ==> todo[1..][i] in s1.trips.vals)
            && TickLoop(s, todo).1 == TickLoop(s1, todo[1..]).1
            && TickLoop(s, todo).2 == (if completed then [todo[0]] else []) + TickLoop(s1, todo[1..]).2
  {
  }

  /** What the rest of the loop may still visit: distinct trips, none of them done. */
  lemma TailStillPending(todo: seq<RideId>, done: seq<RideId>, done1: seq<RideId>)
    requires todo != [] && Distinct(todo)
    requires forall i :: 0 <= i < |todo| ==> todo[i] !in done
    requires forall j :: j in done1 ==> j in done || j == todo[0]
    ensures Distinct(todo[1..])
    ensures forall i :: 0 <= i < |todo[1..]| ==> todo[1..][i] !in done1
  {
    DistinctTail(todo);
    forall i | 0 <= i < |todo[1..]| ensures todo[1..][i] !in done1 {
      assert todo[1..][i] == todo[i + 1];
    }
  }

  /** Regrouping a concatenation; proved apart so that the loop proof below
      does not pay for sequence extensionality in its large context. */
  lemma ConcatIsAssociative<T>(a: seq<T>, b: seq<T>, c: seq<T>)
    ensures a + (b + c) == (a + b) + c
  {
  }

  lemma {:induction false} TickLoopKeepsTickInv(s: State, todo: seq<RideId>, done: seq<RideId>)
    requires TickInv(s, done) && Distinct(todo)
    requires forall i :: 0 <= i < |todo| ==> todo[i] in s.trips.vals && todo[i] !in done
    ensures var r := TickLoop(s, todo);
            TickInv(r.1, done + r.2)
    decreases |todo|
  {
    if todo != [] {
      var (_, s1, completed) := TickTrip(s, todo[0]);
      var first := if completed then [todo[0]] else [];
      TickTripKeepsTickInv(s, todo[0], done);
      TickInvOfEqualArguments(s1, if completed then done + [todo[0]] else done, s1, done + first);
      TickLoopStep(s, todo);
      TailStillPending(todo, done, done + first);
      TickLoopKeepsTickInv(s1, todo[1..], done + first);
      var (_, s2, removed) := TickLoop(s1, todo[1..]);
      ConcatIsAssociative(done, first, removed);
      TickInvOfEqualArguments(s2, (done + first) + removed, TickLoop(s, todo).1, done + TickLoop(s, todo).2);
    }
  }

  /** Moves `TickInv` from one spelling of a state and a done list onto an
      equal one, so the loop proof can restate it over `TickLoop`'s own result. */
  lemma TickInvOfEqualArguments(s: State, done: seq<RideId>, s': State, done': seq<RideId>)
    requires TickInv(s, done) && s' == s && done' == done
    ensures TickInv(s', done')
  {
  }

  /** Dropping the completed trips restores the full invariant. */
  lemma CleanupKeepsInv(s: State, removed: seq<RideId>)
    requires TickInv(s, removed)
    ensures Inv(s.(trips := RemoveAll(s.trips, removed)))
  {
    var s' := s.(trips := RemoveAll(s.trips, removed));
    forall j | j in s'.trips.vals ensures TripConsistent(s', j) {
      assert TripConsistent(s, j);
    }
  }

  lemma InvIsTickInv(s: State)
    requires Inv(s)
    ensures TickInv(s, [])
  {
  }

  lemma TickKeepsInv(s: State)
    requires Inv(s)
    ensures Inv(Tick(s).1)
  {
    InvIsTickInv(s);
    AllStored(s.trips);
    TickLoopKeepsTickInv(s, s.trips.keys, []);
    var r := TickLoop(s, s.trips.keys);
    assert [] + r.2 == r.2;
    CleanupKeepsInv(r.1, r.2);
  }

  /** A tick drops a trip only once its ride has been completed. */
  lemma TickRemovesOnlyCompletedTrips(s: State, rid: RideId)
    requires Inv(s) && rid in s.trips.vals
    ensures rid !in Tick(s).1.trips.vals ==>
              rid in Tick(s).1.rides.vals && Tick(s).1.rides.vals[rid].status == Completed
  {
    InvIsTickInv(s);
    AllStored(s.trips);
    TickLoopKeepsTickInv(s, s.trips.keys, []);
    TickLoopFrame(s, s.trips.keys);
    var r := TickLoop(s, s.trips.keys);
    assert [] + r.2 == r.2;
  }

  // ---------------------------------------------------------------------------
  // Any sequence of requests
  // ---------------------------------------------------------------------------

  /** One state-changing request to the server, with the uuid it would draw where it creates a record. */
  datatype Command =
    | CreateDriverCmd(driverId: DriverId, at: Location)
    | DeleteDriverCmd(driverId: DriverId)
    | UpdateDriverStatusCmd(driverId: DriverId, status: DriverStatus)
    | CreateRiderCmd(riderId: RiderId, at: Location)
    | DeleteRiderCmd(riderId: RiderId)
    | RequestRideCmd(riderId: RiderId, pickup: Location, dropoff: Location, rideId: RideId)
    | AcceptRideCmd(rideId: RideId, driverId: DriverId)
    | RejectRideCmd(rideId: RideId, driverId: DriverId)
    | CancelRideCmd(rideId: RideId)
    | TickCmd

  ghost predicate FreshFor(s: State, c: Command) {
    match c
    case CreateDriverCmd(id, _) => FreshId(s.drivers, id)
    case CreateRiderCmd(id, _) => FreshId(s.riders, id)
    case RequestRideCmd(_, _, _, id) => FreshId(s.rides, id)
    case _ => true
  }

  function StateAfter<T>(s: State, r: Response<T>): State {
    if r.Ok? then r.state else s
  }

  /** The server state after handling `c`; a refused request changes nothing. */
  function Apply(s: State, c: Command): State
    requires FreshFor(s, c)
  {
    match c
    case CreateDriverCmd(id, at) => StateAfter(s, CreateDriver(s, id, at))
    case DeleteDriverCmd(id) => StateAfter(s, DeleteDriver(s, id))
    case UpdateDriverStatusCmd(id, st) => StateAfter(s, UpdateDriverStatus(s, id, st))
    case CreateRiderCmd(id, at) => StateAfter(s, CreateRider(s, id, at))
    case DeleteRiderCmd(id) => StateAfter(s, DeleteRider(s, id))
    case RequestRideCmd(rider, p, d, id) => StateAfter(s, RequestRide(s, rider, p, d, id))
    case AcceptRideCmd(rid, d) => StateAfter(s, AcceptRide(s, rid, d))
    case RejectRideCmd(rid, d) => StateAfter(s, RejectRide(s, rid, d))
    case CancelRideCmd(rid) => StateAfter(s, CancelRide(s, rid))
    case TickCmd => Tick(s).1
  }

  lemma ApplyKeepsInv(s: State, c: Command)
    requires Inv(s) && FreshFor(s, c)
    ensures Inv(Apply(s, c))
  {
    match c
    case CreateDriverCmd(id, at) => CreateDriverKeepsInv(s, id, at);
    case DeleteDriverCmd(id) => if DeleteDriver(s, id).Ok? { DeleteDriverKeepsInv(s, id); }
    case UpdateDriverStatusCmd(id, st) => if UpdateDriverStatus(s, id, st).Ok? { UpdateDriverStatusKeepsInv(s, id, st); }
    case CreateRiderCmd(id, at) => CreateRiderKeepsInv(s, id, at);
    case DeleteRiderCmd(id) => if DeleteRider(s, id).Ok? { DeleteRiderKeepsInv(s, id); }
    case RequestRideCmd(rider, p, d, id) => RequestRideKeepsInv(s, rider, p, d, id);
    case AcceptRideCmd(rid, d) => if AcceptRide(s, rid, d).Ok? { AcceptRideKeepsInv(s, rid, d); }
    case RejectRideCmd(rid, d) => if RejectRide(s, rid, d).Ok? { RejectRideKeepsInv(s, rid, d); }
    case CancelRideCmd(rid) => if CancelRide(s, rid).Ok? { CancelRideKeepsInv(s, rid); }
    case TickCmd => TickKeepsInv(s);
  }

  /** The requests can be replayed in order, each uuid fresh when it is drawn. */
  ghost predicate Replayable(s: State, cs: seq<Command>)
    decreases |cs|
  {
    cs == [] || (FreshFor(s, cs[0]) && Replayable(Apply(s, cs[0]), cs[1..]))
  }

  ghost function Replay(s: State, cs: seq<Command>): State
    requires Replayable(s, cs)
    decreases |cs|
  {
    if cs == [] then s else Replay(Apply(s, cs[0]), cs[1..])
  }

  /** Every state the server can reach from its empty start satisfies the invariants. */
  lemma {:induction false} ReplayKeepsInv(s: State, cs: seq<Command>)
    requires Inv(s) && Replayable(s, cs)
    ensures Inv(Replay(s, cs))
    decreases |cs|
  {
    if cs != [] {
      ApplyKeepsInv(s, cs[0]);
      ReplayKeepsInv(Apply(s, cs[0]), cs[1..]);
    }
  }

  lemma ReachableStatesSatisfyInv(cs: seq<Command>)
    requires Replayable(Init(), cs)
    ensures Inv(Replay(Init(), cs))
  {
    InitSatisfiesInv();
    ReplayKeepsInv(Init(), cs);
  }
}
