/**
 How the client's buttons and checks line up with the server's guards: a
 button is offered exactly when the server would grant the request it sends,
 and the checks the ride form makes are not repeated by the server.
 */
module ClientServer {
  import opened Optional
  import opened Dicts
  import opened Models
  import opened Dispatch
  import opened Endpoints
  import opened Client

  /** The cancel button appears exactly for the rides `cancel_ride` accepts. */
  lemma CancelButtonAgrees(s: State, rid: RideId)
    requires rid in s.rides.vals
    ensures CanCancel(s.rides.vals[rid].status) <==> CancelRide(s, rid).Ok?
  {
  }

  /** The driver's remove button appears exactly when `delete_driver` accepts. */
  lemma RemoveDriverButtonAgrees(s: State, id: DriverId)
    requires id in s.drivers.vals
    ensures CanRemoveDriver(s.drivers.vals[id].status) <==> DeleteDriver(s, id).Ok?
  {
  }

  /** Given the server's ride list in dict order, the rider's remove button
      appears exactly when `delete_rider` accepts. */
  lemma RemoveRiderButtonAgrees(s: State, id: RiderId)
    requires id in s.riders.vals
    ensures CanRemoveRider(Values(s.rides), id) <==> DeleteRider(s, id).Ok?
  {
    var rides := Values(s.rides);
    AllListed(s.rides);
    if HasActiveRide(s, id) {
      var k :| k in s.rides.vals && s.rides.vals[k].riderId == id && IsActive(s.rides.vals[k].status);
      var i :| 0 <= i < |s.rides.keys| && s.rides.keys[i] == k;
      assert rides[i] == s.rides.vals[k];
    } else {
      forall i | 0 <= i < |rides| ensures rides[i].riderId != id || !IsActive(rides[i].status) {
        var k := s.rides.keys[i];
        assert k in s.rides.vals && rides[i] == s.rides.vals[k];
      }
    }
  }

  /** The server takes a ride whose pickup is its dropoff, on or off the grid;
      only the form stops it. */
  lemma ServerSkipsFormChecks(s: State, rider: RiderId, at: Location, rid: RideId)
    requires FreshId(s.rides, rid) && rider in s.riders.vals && !HasActiveRide(s, rider)
    ensures var r := RequestRide(s, rider, at, at, rid);
            r.Ok? && r.value.pickup == at && r.value.dropoff == at
    ensures RequestRideForm(Some(rider), Some(at.x), Some(at.y), Some(at.x), Some(at.y)).Blocked?
  {
  }
}
