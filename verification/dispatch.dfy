/**
 The dispatch service: the server's in-memory state of four dicts, Manhattan
 movement on the integer grid, driver selection by ETA and fairness, ride
 assignment, and the simulation tick that moves every driver on a trip.
 */
module Dispatch {
  import opened Optional
  import opened Dicts
  import opened Models

  const EtaWeight: real := 0.7
  const FairnessWeight: real := 0.3
  const MaxRejectionAttempts: nat := 3
  /** The pickup distance beyond which a simulated driver declines a ride. */
  const MaxPickupDistance: nat := 20

  /** The server writes only "to_pickup" and "to_dropoff" into a trip. */
  datatype TripStep = ToPickup | ToDropoff

  datatype Trip = Trip(driver: DriverId, step: TripStep)

  /** Drivers, riders and ride requests by id, and active trips by ride id. */
  datatype State = State(
    drivers: Dict<DriverId, Driver>,
    riders: Dict<RiderId, Rider>,
    rides: Dict<RideId, RideRequest>,
    trips: Dict<RideId, Trip>)

  function Init(): State {
    State(Empty(), Empty(), Empty(), Empty())
  }

  // ---------------------------------------------------------------------------
  // Distance and movement
  // ---------------------------------------------------------------------------

  function Abs(n: int): nat {
    if n < 0 then -n else n
  }

  /** Manhattan distance; also the ETA, one cell per tick. */
  function Distance(a: Location, b: Location): (d: nat)
    ensures d == 0 <==> a == b
  {
    Abs(a.x - b.x) + Abs(a.y - b.y)
  }

  lemma DistanceIsMetric(a: Location, b: Location, c: Location)
    ensures Distance(a, b) == Distance(b, a)
    ensures Distance(a, c) <= Distance(a, b) + Distance(b, c)
  {
  }

  /** One tick of movement: a unit step along x while x differs, otherwise
      along y; the flag reports whether the target is now reached. */
  function MoveTowards(loc: Location, target: Location): (r: (Location, bool))
    ensures r.1 <==> r.0 == target
    ensures loc == target ==> r.0 == loc
    ensures loc != target ==> Distance(r.0, target) == Distance(loc, target) - 1
    ensures loc != target ==> Distance(loc, r.0) == 1
    ensures loc.x != target.x ==> r.0.y == loc.y
    ensures loc.x == target.x ==> r.0.x == loc.x
  {
    var dx := target.x - loc.x;
    var dy := target.y - loc.y;
    var next :=
      if dx != 0 then loc.(x := loc.x + (if dx > 0 then 1 else -1))
      else if dy != 0 then loc.(y := loc.y + (if dy > 0 then 1 else -1))
      else loc;
    (next, next.x == target.x && next.y == target.y)
  }

  /** The location after `n` consecutive moves towards `target`. */
  function MoveSteps(loc: Location, target: Location, n: nat): Location
    decreases n
  {
    if n == 0 then loc else MoveSteps(MoveTowards(loc, target).0, target, n - 1)
  }

  lemma {:induction false} MoveStepsDistance(loc: Location, target: Location, n: nat)
    ensures Distance(MoveSteps(loc, target, n), target) ==
              if n >= Distance(loc, target) then 0 else Distance(loc, target) - n
    decreases n
  {
    if n > 0 {
      MoveStepsDistance(MoveTowards(loc, target).0, target, n - 1);
    }
  }

  /** Starting `d` cells away, the target is reached by exactly the `d`-th move
      and never earlier; a driver already there stays there. */
  lemma ReachedExactlyAfterDistanceMoves(loc: Location, target: Location, n: nat)
    ensures MoveSteps(loc, target, n) == target <==> n >= Distance(loc, target)
  {
    MoveStepsDistance(loc, target, n);
  }

  // ---------------------------------------------------------------------------
  // Driver selection
  // ---------------------------------------------------------------------------

  /** A driver the ride may be offered to. */
  predicate Eligible(d: Driver, ride: RideRequest) {
    d.status == Available && d.id !in ride.rejectedBy
  }

  /** The keys in `ks` whose driver is eligible, in the order of `ks`. */
  function EligibleAmong(ks: seq<DriverId>, vals: map<DriverId, Driver>, ride: RideRequest): (c: seq<DriverId>)
    requires forall i :: 0 <= i < |ks| ==> ks[i] in vals
    ensures forall i :: 0 <= i < |c| ==> c[i] in vals && Eligible(vals[c[i]], ride)
    ensures forall i :: 0 <= i < |ks| && Eligible(vals[ks[i]], ride) ==> ks[i] in c
    ensures forall k :: k in c ==> k in ks
    ensures Distinct(ks) ==> Distinct(c)
  {
    if ks == [] then []
    else
      var rest := EligibleAmong(ks[1..], vals, ride);
      assert forall i :: 1 <= i < |ks| ==> ks[i] == ks[1..][i - 1];
      DistinctTail(ks);
      DistinctCons(ks[0], rest);
      if Eligible(vals[ks[0]], ride) then [ks[0]] + rest else rest
  }

  /** Positions `i` and `j` of `c` hold elements found at increasing positions of `ks`. */
  ghost predicate InOrderOf(c: seq<DriverId>, ks: seq<DriverId>, i: int, j: int)
    requires 0 <= i < j < |c|
  {
    exists p, q :: 0 <= p < q < |ks| && ks[p] == c[i] && ks[q] == c[j]
  }

  /** Filtering keeps the order: any two kept keys occur in `ks` in the same order. */
  lemma {:induction false} EligibleAmongKeepsOrder(ks: seq<DriverId>, vals: map<DriverId, Driver>, ride: RideRequest)
    requires forall i :: 0 <= i < |ks| ==> ks[i] in vals
    ensures forall i, j :: 0 <= i < j < |EligibleAmong(ks, vals, ride)| ==>
              InOrderOf(EligibleAmong(ks, vals, ride), ks, i, j)
  {
    if ks != [] {
      var c := EligibleAmong(ks, vals, ride);
      var tail := ks[1..];
      var rest := EligibleAmong(tail, vals, ride);
      EligibleAmongKeepsOrder(tail, vals, ride);
      forall i, j | 0 <= i < j < |c|
        ensures InOrderOf(c, ks, i, j)
      {
        if Eligible(vals[ks[0]], ride) {
          assert c == [ks[0]] + rest;
          if i == 0 {
            assert c[j] == rest[j - 1] && rest[j - 1] in tail;
            var q' :| 0 <= q' < |tail| && tail[q'] == rest[j - 1];
            assert ks[0] == c[i] && ks[q' + 1] == c[j];
          } else {
            assert c[i] == rest[i - 1] && c[j] == rest[j - 1];
            assert InOrderOf(rest, tail, i - 1, j - 1);
            var p', q' :| 0 <= p' < q' < |tail| && tail[p'] == rest[i - 1] && tail[q'] == rest[j - 1];
            assert ks[p' + 1] == c[i] && ks[q' + 1] == c[j];
          }
        } else {
          assert c == rest;
          assert InOrderOf(rest, tail, i, j);
          var p', q' :| 0 <= p' < q' < |tail| && tail[p'] == rest[i] && tail[q'] == rest[j];
          assert ks[p' + 1] == c[i] && ks[q' + 1] == c[j];
        }
      }
    }
  }

  /** The drivers `find_best_driver` considers, in dict order. */
  function Candidates(drivers: Dict<DriverId, Driver>, ride: RideRequest): (c: seq<DriverId>)
    ensures forall k :: k in c <==> k in drivers.vals && Eligible(drivers.vals[k], ride)
    ensures forall i :: 0 <= i < |c| ==> c[i] in drivers.vals
    ensures Distinct(c)
  {
    AllListed(drivers);
    AllStored(drivers);
    EligibleAmong(drivers.keys, drivers.vals, ride)
  }

  /** `max(1, max(xs))`, the floored normaliser of the score. */
  function MaxAtLeastOne(xs: seq<nat>): (m: nat)
    ensures m >= 1
    ensures forall i :: 0 <= i < |xs| ==> xs[i] <= m
    ensures m == 1 || exists i :: 0 <= i < |xs| && xs[i] == m
  {
    if xs == [] then 1
    else
      var rest := MaxAtLeastOne(xs[1..]);
      assert forall i :: 1 <= i < |xs| ==> xs[i] == xs[1..][i - 1];
      if xs[0] > rest then xs[0] else rest
  }

  /** The distances of the candidates `c` to the pickup, position by position. */
  function Etas(drivers: Dict<DriverId, Driver>, ride: RideRequest, c: seq<DriverId>): (r: seq<nat>)
    requires forall i :: 0 <= i < |c| ==> c[i] in drivers.vals
    ensures |r| == |c|
    ensures forall i :: 0 <= i < |c| ==> r[i] == Distance(drivers.vals[c[i]].location, ride.pickup)
  {
    seq(|c|, i requires 0 <= i < |c| => Distance(drivers.vals[c[i]].location, ride.pickup))
  }

  /** The ride counts of the candidates `c`, position by position. */
  function RideCounts(drivers: Dict<DriverId, Driver>, c: seq<DriverId>): (r: seq<nat>)
    requires forall i :: 0 <= i < |c| ==> c[i] in drivers.vals
    ensures |r| == |c|
    ensures forall i :: 0 <= i < |c| ==> r[i] == drivers.vals[c[i]].assignedRides
  {
    seq(|c|, i requires 0 <= i < |c| => drivers.vals[c[i]].assignedRides)
  }

  /** `max_eta`: the largest distance of an eligible driver to the pickup, and at least 1. */
  function MaxEta(drivers: Dict<DriverId, Driver>, ride: RideRequest): (m: nat)
    ensures m >= 1
    ensures forall k :: k in drivers.vals && Eligible(drivers.vals[k], ride) ==>
              Distance(drivers.vals[k].location, ride.pickup) <= m
    ensures || m == 1
            || (exists k :: k in drivers.vals && Eligible(drivers.vals[k], ride) &&
                  Distance(drivers.vals[k].location, ride.pickup) == m)
  {
    var c := Candidates(drivers, ride);
    var xs := Etas(drivers, ride, c);
    var m := MaxAtLeastOne(xs);
    assert forall k :: k in drivers.vals && Eligible(drivers.vals[k], ride) ==>
             Distance(drivers.vals[k].location, ride.pickup) <= m by {
      forall k | k in drivers.vals && Eligible(drivers.vals[k], ride)
        ensures Distance(drivers.vals[k].location, ride.pickup) <= m
      {
        var i :| 0 <= i < |c| && c[i] == k;
        assert xs[i] <= m;
      }
    }
    assert m != 1 ==> exists k :: k in drivers.vals && Eligible(drivers.vals[k], ride) && Distance(drivers.vals[k].location, ride.pickup) == m by {
      if m != 1 {
        var i :| 0 <= i < |xs| && xs[i] == m;
        var k := c[i];
        assert k in c;
        assert k in drivers.vals && Eligible(drivers.vals[k], ride) && Distance(drivers.vals[k].location, ride.pickup) == m;
      }
    }
    m
  }

  /** `max_rides`: the largest ride count of an eligible driver, and at least 1. */
  function MaxRides(drivers: Dict<DriverId, Driver>, ride: RideRequest): (m: nat)
    ensures m >= 1
    ensures forall k :: k in drivers.vals && Eligible(drivers.vals[k], ride) ==> drivers.vals[k].assignedRides <= m
    ensures || m == 1
            || (exists k :: k in drivers.vals && Eligible(drivers.vals[k], ride) &&
                  drivers.vals[k].assignedRides == m)
  {
    var c := Candidates(drivers, ride);
    var xs := RideCounts(drivers, c);
    var m := MaxAtLeastOne(xs);
    assert forall k :: k in drivers.vals && Eligible(drivers.vals[k], ride) ==> drivers.vals[k].assignedRides <= m by {
      forall k | k in drivers.vals && Eligible(drivers.vals[k], ride)
        ensures drivers.vals[k].assignedRides <= m
      {
        var i :| 0 <= i < |c| && c[i] == k;
        assert xs[i] <= m;
      }
    }
    assert m != 1 ==> exists k :: k in drivers.vals && Eligible(drivers.vals[k], ride) && drivers.vals[k].assignedRides == m by {
      if m != 1 {
        var i :| 0 <= i < |xs| && xs[i] == m;
        var k := c[i];
        assert k in c;
        assert k in drivers.vals && Eligible(drivers.vals[k], ride) && drivers.vals[k].assignedRides == m;
      }
    }
    m
  }

  /** The weighted score, lower is better, in exact arithmetic. With both
      terms normalised by maxima that bound them, it lies between 0 and the
      sum of the weights. */
  function Score(d: Driver, pickup: Location, maxEta: nat, maxRides: nat): (r: real)
    requires maxEta >= 1 && maxRides >= 1
    ensures Distance(d.location, pickup) <= maxEta && d.assignedRides <= maxRides ==>
              0.0 <= r <= EtaWeight + FairnessWeight
  {
    var eta := Distance(d.location, pickup) as real / maxEta as real;
    var rides := d.assignedRides as real / maxRides as real;
    UnitFraction(Distance(d.location, pickup) as real, maxEta as real);
    UnitFraction(d.assignedRides as real, maxRides as real);
    EtaWeight * eta + FairnessWeight * (1.0 - rides)
  }

  /** Dividing by a positive number keeps the order. */
  lemma DivKeepsOrder(x: real, y: real, m: real)
    requires m > 0.0
    ensures x / m < y / m <==> x < y
  {
    assert x / m * m == x && y / m * m == y;
    if x < y {
      assert (y / m - x / m) * m == y - x;
    } else {
      assert (x / m - y / m) * m == x - y;
    }
  }

  /** A share of a positive whole lies between 0 and 1. */
  lemma UnitFraction(x: real, m: real)
    requires m > 0.0
    ensures 0.0 <= x <= m ==> 0.0 <= x / m <= 1.0
  {
    DivKeepsOrder(m, x, m);
    DivKeepsOrder(x, 0.0, m);
    assert m / m == 1.0 && 0.0 / m == 0.0;
  }

  /** At equal distance the driver with MORE assigned rides scores lower and
      is preferred, and at equal ride counts the nearer driver is preferred. */
  lemma ScoreOrder(a: Driver, b: Driver, pickup: Location, maxEta: nat, maxRides: nat)
    requires maxEta >= 1 && maxRides >= 1
    ensures Distance(a.location, pickup) == Distance(b.location, pickup) ==>
              (Score(a, pickup, maxEta, maxRides) < Score(b, pickup, maxEta, maxRides) <==> a.assignedRides > b.assignedRides)
    ensures a.assignedRides == b.assignedRides ==>
              (Score(a, pickup, maxEta, maxRides) < Score(b, pickup, maxEta, maxRides) <==>
                 Distance(a.location, pickup) < Distance(b.location, pickup))
  {
    DivKeepsOrder(a.assignedRides as real, b.assignedRides as real, maxRides as real);
    DivKeepsOrder(b.assignedRides as real, a.assignedRides as real, maxRides as real);
    DivKeepsOrder(Distance(a.location, pickup) as real, Distance(b.location, pickup) as real, maxEta as real);
  }

  /** The score `find_best_driver` gives driver `k` for this ride; an
      eligible driver's score lies between 0 and the sum of the weights. */
  function DriverScore(drivers: Dict<DriverId, Driver>, ride: RideRequest, k: DriverId): (r: real)
    requires k in drivers.vals
    ensures Eligible(drivers.vals[k], ride) ==> 0.0 <= r <= EtaWeight + FairnessWeight
  {
    Score(drivers.vals[k], ride.pickup, MaxEta(drivers, ride), MaxRides(drivers, ride))
  }

  /** The element a stable sort by score puts first: a minimum, and the earliest one. */
  function FirstMinimum(scores: seq<real>): (i: nat)
    requires |scores| > 0
    ensures i < |scores|
    ensures forall j :: 0 <= j < |scores| ==> scores[i] <= scores[j]
    ensures forall j :: 0 <= j < i ==> scores[i] < scores[j]
  {
    if |scores| == 1 then 0
    else
      var j := FirstMinimum(scores[1..]) + 1;
      assert forall m :: 1 <= m < |scores| ==> scores[m] == scores[1..][m - 1];
      if scores[0] <= scores[j] then 0 else j
  }

  function FindBestDriver(drivers: Dict<DriverId, Driver>, ride: RideRequest): (r: Option<DriverId>)
    ensures r.None? <==> forall k :: k in drivers.vals ==> !Eligible(drivers.vals[k], ride)
    ensures r.Some? ==> r.value in drivers.vals && Eligible(drivers.vals[r.value], ride)
    ensures r.Some? ==> forall k :: k in drivers.vals && Eligible(drivers.vals[k], ride) ==>
              DriverScore(drivers, ride, r.value) <= DriverScore(drivers, ride, k)
    ensures r.Some? ==>
              var c := Candidates(drivers, ride);
              forall i, j :: 0 <= i < j < |c| && c[j] == r.value ==>
                DriverScore(drivers, ride, c[i]) > DriverScore(drivers, ride, r.value)
    ensures r.Some? ==>
              forall i, j :: 0 <= i < j < |drivers.keys| && drivers.keys[j] == r.value
                             && drivers.keys[i] in drivers.vals && Eligible(drivers.vals[drivers.keys[i]], ride) ==>
                DriverScore(drivers, ride, drivers.keys[i]) > DriverScore(drivers, ride, r.value)
  {
    var c := Candidates(drivers, ride);
    if c == [] then None
    else
      var best := FirstMinimum(Scores(drivers, ride, c));
      FirstMinimumIsBest(drivers, ride, best);
      EarlierKeysScoreHigher(drivers, ride, best);
      Some(c[best])
  }

  /** The tie-break in dict order: every eligible driver listed before the
      chosen one scores strictly more. */
  lemma EarlierKeysScoreHigher(drivers: Dict<DriverId, Driver>, ride: RideRequest, best: nat)
    requires Candidates(drivers, ride) != []
    requires best == FirstMinimum(Scores(drivers, ride, Candidates(drivers, ride)))
    ensures var w := Candidates(drivers, ride)[best];
            forall i, j :: 0 <= i < j < |drivers.keys| && drivers.keys[j] == w
                           && drivers.keys[i] in drivers.vals && Eligible(drivers.vals[drivers.keys[i]], ride) ==>
              DriverScore(drivers, ride, drivers.keys[i]) > DriverScore(drivers, ride, w)
  {
    var c := Candidates(drivers, ride);
    var ks := drivers.keys;
    var w := c[best];
    FirstMinimumIsBest(drivers, ride, best);
    AllStored(drivers);
    EligibleAmongKeepsOrder(ks, drivers.vals, ride);
    assert c == EligibleAmong(ks, drivers.vals, ride);
    forall i, j | 0 <= i < j < |ks| && ks[j] == w && ks[i] in drivers.vals && Eligible(drivers.vals[ks[i]], ride)
      ensures DriverScore(drivers, ride, ks[i]) > DriverScore(drivers, ride, w)
    {
      DistinctAt(ks, i, j);
      assert ks[i] in c;
      var p :| 0 <= p < |c| && c[p] == ks[i];
      if best < p {
        assert InOrderOf(c, ks, best, p);
        var p', q' :| 0 <= p' < q' < |ks| && ks[p'] == c[best] && ks[q'] == c[p];
        if p' < j { DistinctAt(ks, p', j); } else if j < p' { DistinctAt(ks, j, p'); }
        if q' < i { DistinctAt(ks, q', i); } else if i < q' { DistinctAt(ks, i, q'); }
        assert false;
      }
      assert p < best;
    }
  }

  /** The candidate a stable sort puts first scores no worse than any
      eligible driver, and strictly better than every candidate before it. */
  lemma FirstMinimumIsBest(drivers: Dict<DriverId, Driver>, ride: RideRequest, best: nat)
    requires Candidates(drivers, ride) != []
    requires best == FirstMinimum(Scores(drivers, ride, Candidates(drivers, ride)))
    ensures var c := Candidates(drivers, ride);
            && (forall k :: k in drivers.vals && Eligible(drivers.vals[k], ride) ==>
                  DriverScore(drivers, ride, c[best]) <= DriverScore(drivers, ride, k))
            && (forall i, j :: 0 <= i < j < |c| && c[j] == c[best] ==>
                  DriverScore(drivers, ride, c[i]) > DriverScore(drivers, ride, c[best]))
  {
    var c := Candidates(drivers, ride);
    var scores := Scores(drivers, ride, c);
    forall k | k in drivers.vals && Eligible(drivers.vals[k], ride)
      ensures DriverScore(drivers, ride, c[best]) <= DriverScore(drivers, ride, k)
    {
      var i :| 0 <= i < |c| && c[i] == k;
      assert scores[best] <= scores[i];
    }
    forall i, j | 0 <= i < j < |c| && c[j] == c[best]
      ensures DriverScore(drivers, ride, c[i]) > DriverScore(drivers, ride, c[best])
    {
      if j < best {
        DistinctAt(c, j, best);
      } else if best < j {
        DistinctAt(c, best, j);
      }
      assert scores[best] < scores[i];
    }
  }

  /** The scores of the candidates `c`, position by position. */
  function Scores(drivers: Dict<DriverId, Driver>, ride: RideRequest, c: seq<DriverId>): (r: seq<real>)
    requires forall i :: 0 <= i < |c| ==> c[i] in drivers.vals
    ensures |r| == |c|
    ensures forall i :: 0 <= i < |c| ==> r[i] == DriverScore(drivers, ride, c[i])
  {
    seq(|c|, i requires 0 <= i < |c| => DriverScore(drivers, ride, c[i]))
  }

  // ---------------------------------------------------------------------------
  // Assignment
  // ---------------------------------------------------------------------------

  /** The outcome `assign_ride` reports; only `Dispatched` is a success. */
  datatype AssignOutcome =
    | Dispatched(driver: DriverId)
    | UnknownRide
    | AlreadyHandled(status: RideStatus)
    | GaveUp        // no driver and too many rejections: the ride is now failed
    | NoDriverYet   // no driver at the moment: the ride stays as it was

  function AssignRide(s: State, rid: RideId): (r: (AssignOutcome, State))
    ensures rid !in s.rides.vals ==> r == (UnknownRide, s)
    ensures rid in s.rides.vals && s.rides.vals[rid].status in {Assigned, Completed} ==>
              r == (AlreadyHandled(s.rides.vals[rid].status), s)
    ensures r.0.Dispatched? <==>
              && rid in s.rides.vals
              && s.rides.vals[rid].status !in {Assigned, Completed}
              && exists k :: k in s.drivers.vals && Eligible(s.drivers.vals[k], s.rides.vals[rid])
    ensures r.0.UnknownRide? ==> rid !in s.rides.vals
    ensures r.0.AlreadyHandled? ==> rid in s.rides.vals && s.rides.vals[rid].status in {Assigned, Completed}
    ensures r.0.NoDriverYet? ==> r.1 == s
    ensures (r.0.NoDriverYet? || r.0.GaveUp?) ==>
              rid in s.rides.vals && (r.0.GaveUp? <==> |s.rides.vals[rid].rejectedBy| >= MaxRejectionAttempts)
    ensures r.0.GaveUp? ==>
              && r.1.rides.vals == s.rides.vals[rid := s.rides.vals[rid].(status := Failed)]
              && r.1.rides.keys == s.rides.keys
              && r.1.drivers == s.drivers && r.1.riders == s.riders && r.1.trips == s.trips
    ensures r.0.Dispatched? ==>
              rid in s.rides.vals && r == AssignTo(s, rid, FindBestDriver(s.drivers, s.rides.vals[rid]).value)
  {
    if rid !in s.rides.vals then (UnknownRide, s)
    else
      var ride := s.rides.vals[rid];
      if ride.status in {Assigned, Completed} then (AlreadyHandled(ride.status), s)
      else
        match FindBestDriver(s.drivers, ride)
        case None =>
          if |ride.rejectedBy| >= MaxRejectionAttempts then
            (GaveUp, s.(rides := Put(s.rides, rid, ride.(status := Failed))))
          else (NoDriverYet, s)
        case Some(k) => AssignTo(s, rid, k)
  }

  /** The successful branch of `assign_ride` once driver `k` is chosen. */
  function AssignTo(s: State, rid: RideId, k: DriverId): (r: (AssignOutcome, State))
    requires rid in s.rides.vals && k in s.drivers.vals
    ensures var d := s.drivers.vals[k];
            && r.0 == Dispatched(d.id)
            && r.1.rides.vals == s.rides.vals[rid := s.rides.vals[rid].(status := Assigned, assignedDriver := Some(d.id))]
            && r.1.drivers.vals == s.drivers.vals[k := d.(status := OnTrip, assignedRides := d.assignedRides + 1)]
            && r.1.trips.vals == s.trips.vals[rid := Trip(d.id, ToPickup)]
            && r.1.riders == s.riders
    ensures r.1.drivers.keys == s.drivers.keys && r.1.rides.keys == s.rides.keys
    ensures rid in s.trips.vals ==> r.1.trips.keys == s.trips.keys
    ensures rid !in s.trips.vals ==> r.1.trips.keys == s.trips.keys + [rid]
  {
    var d := s.drivers.vals[k];
    var ride := s.rides.vals[rid];
    (Dispatched(d.id),
     s.(rides := Put(s.rides, rid, ride.(status := Assigned, assignedDriver := Some(d.id))),
        drivers := Put(s.drivers, k, d.(status := OnTrip, assignedRides := d.assignedRides + 1)),
        trips := Put(s.trips, rid, Trip(d.id, ToPickup))))
  }

  /** The unused acceptance policy: a driver declines a ride whose pickup is
      more than 20 cells away, and remembers the declined ride once. */
  function SimulateDriverDecision(s: State, driverId: DriverId, rid: RideId): (r: (bool, State))
    ensures r.0 <==>
              driverId in s.drivers.vals && rid in s.rides.vals
              && Distance(s.drivers.vals[driverId].location, s.rides.vals[rid].pickup) <= MaxPickupDistance
    ensures r.1.riders == s.riders && r.1.rides == s.rides && r.1.trips == s.trips
    ensures r.1.drivers.vals.Keys == s.drivers.vals.Keys && r.1.drivers.keys == s.drivers.keys
    ensures forall k :: k in s.drivers.vals && k != driverId ==> r.1.drivers.vals[k] == s.drivers.vals[k]
    ensures driverId in s.drivers.vals ==>
              var d := s.drivers.vals[driverId];
              var d' := r.1.drivers.vals[driverId];
              && d' == d.(rejectedRides := d'.rejectedRides)
              && (forall x :: x in d'.rejectedRides <==> x in d.rejectedRides || (x == rid && !r.0 && rid in s.rides.vals))
              && (Distinct(d.rejectedRides) ==> Distinct(d'.rejectedRides))
              && d'.rejectedRides == (if !r.0 && rid in s.rides.vals then AppendNew(d.rejectedRides, rid) else d.rejectedRides)
  {
    if driverId !in s.drivers.vals || rid !in s.rides.vals then (false, s)
    else
      var d := s.drivers.vals[driverId];
      if Distance(d.location, s.rides.vals[rid].pickup) > MaxPickupDistance then
        (false, s.(drivers := Put(s.drivers, driverId, d.(rejectedRides := AppendNew(d.rejectedRides, rid)))))
      else (true, s)
  }

  // ---------------------------------------------------------------------------
  // The simulation tick
  // ---------------------------------------------------------------------------

  datatype Event =
    | PickupEvent(ride: RideId, driver: DriverId, at: Location)
    | DropoffEvent(ride: RideId, driver: DriverId, at: Location)

  /** Where the trip's driver is heading. */
  function Target(ride: RideRequest, step: TripStep): Location {
    if step == ToPickup then ride.pickup else ride.dropoff
  }

  /** One iteration of the tick loop, for the trip of ride `rid`. The third
      component says whether the trip is to be removed after the loop. */
  function TickTrip(s: State, rid: RideId): (r: (seq<Event>, State, bool))
    requires rid in s.trips.vals
    ensures r.1.riders == s.riders
    ensures r.1.trips.vals.Keys == s.trips.vals.Keys && r.1.drivers.vals.Keys == s.drivers.vals.Keys
    ensures r.1.rides.vals.Keys == s.rides.vals.Keys
    ensures r.1.trips.keys == s.trips.keys && r.1.drivers.keys == s.drivers.keys && r.1.rides.keys == s.rides.keys
  {
    var t := s.trips.vals[rid];
    if t.driver !in s.drivers.vals || rid !in s.rides.vals then ([], s, false)
    else
      var d := s.drivers.vals[t.driver];
      var ride := s.rides.vals[rid];
      var (loc, arrived) := MoveTowards(d.location, Target(ride, t.step));
      var moved := s.(drivers := Put(s.drivers, t.driver, d.(location := loc)));
      if !arrived then ([], moved, false)
      else
        match t.step
        case ToPickup =>
          ([PickupEvent(rid, t.driver, loc)],
           moved.(trips := Put(s.trips, rid, Trip(t.driver, ToDropoff))),
           false)
        case ToDropoff =>
          ([DropoffEvent(rid, t.driver, loc)],
           s.(rides := Put(s.rides, rid, ride.(status := Completed)),
              drivers := Put(s.drivers, t.driver, d.(location := loc, status := Available))),
           true)
  }

  /** What one iteration does: a trip whose driver or ride is gone is skipped;
      otherwise the driver takes one step towards the pickup or the dropoff,
      arrival at the pickup turns the trip, and arrival at the dropoff completes
      the ride and releases the driver. */
  lemma TickTripEffect(s: State, rid: RideId)
    requires rid in s.trips.vals
    ensures var r := TickTrip(s, rid);
            var t := s.trips.vals[rid];
            t.driver !in s.drivers.vals || rid !in s.rides.vals ==> r == ([], s, false)
    ensures var r := TickTrip(s, rid);
            var t := s.trips.vals[rid];
            t.driver in s.drivers.vals && rid in s.rides.vals ==>
              var d := s.drivers.vals[t.driver];
              var ride := s.rides.vals[rid];
              var step := MoveTowards(d.location, Target(ride, t.step));
              var arrived := step.1;
              // the driver takes one step; it is released exactly on arrival at the dropoff
              && r.1.drivers.vals == s.drivers.vals[t.driver := d.(location := step.0, status := if r.2 then Available else d.status)]
              && (r.2 <==> t.step == ToDropoff && arrived)
              // arrival at the dropoff completes the ride; nothing else about rides changes
              && r.1.rides.vals == (if r.2 then s.rides.vals[rid := ride.(status := Completed)] else s.rides.vals)
              // arrival at the pickup turns the trip towards the dropoff
              && r.1.trips.vals == (if t.step == ToPickup && arrived then s.trips.vals[rid := Trip(t.driver, ToDropoff)] else s.trips.vals)
              && r.0 == (if !arrived then []
                         else if t.step == ToPickup then [PickupEvent(rid, t.driver, step.0)]
                         else [DropoffEvent(rid, t.driver, step.0)])
  {
  }

  /** The tick loop over the remaining trip keys `todo`: the events in order,
      the state after the loop, and the trips to remove afterwards. */
  function TickLoop(s: State, todo: seq<RideId>): (r: (seq<Event>, State, seq<RideId>))
    requires forall i :: 0 <= i < |todo| ==> todo[i] in s.trips.vals
    ensures forall k :: k in r.2 ==> k in todo
    decreases |todo|
  {
    if todo == [] then ([], s, [])
    else
      var (e, s1, done) := TickTrip(s, todo[0]);
      assert forall i :: 1 <= i < |todo| ==> todo[i] == todo[1..][i - 1];
      var (es, s2, removed) := TickLoop(s1, todo[1..]);
      (e + es, s2, (if done then [todo[0]] else []) + removed)
  }

  /** The loop creates and deletes nothing: riders are untouched and every
      table keeps its set of keys; only the completed trips are reported. */
  lemma {:induction false} TickLoopFrame(s: State, todo: seq<RideId>)
    requires forall i :: 0 <= i < |todo| ==> todo[i] in s.trips.vals
    ensures var r := TickLoop(s, todo);
            && r.1.riders == s.riders
            && r.1.trips.vals.Keys == s.trips.vals.Keys && r.1.drivers.vals.Keys == s.drivers.vals.Keys
            && r.1.rides.vals.Keys == s.rides.vals.Keys
            && r.1.trips.keys == s.trips.keys && r.1.drivers.keys == s.drivers.keys
            && r.1.rides.keys == s.rides.keys
    decreases |todo|
  {
    if todo != [] {
      var s1 := TickTrip(s, todo[0]).1;
      assert forall i :: 0 <= i < |todo[1..]| ==> todo[1..][i] in s1.trips.vals by {
        forall i | 0 <= i < |todo[1..]| ensures todo[1..][i] in s1.trips.vals {
          assert todo[1..][i] == todo[i + 1];
        }
      }
      TickLoopFrame(s1, todo[1..]);
    }
  }

  /** `tick`: process every active trip in dict order, then drop the completed ones. */
  function Tick(s: State): (r: (seq<Event>, State))
    ensures r.1.riders == s.riders
    ensures r.1.drivers.vals.Keys == s.drivers.vals.Keys && r.1.rides.vals.Keys == s.rides.vals.Keys
    ensures r.1.trips.vals.Keys <= s.trips.vals.Keys
    ensures r.1.drivers.keys == s.drivers.keys && r.1.rides.keys == s.rides.keys
    ensures exists gone :: r.1.trips.keys == Minus(s.trips.keys, gone)
  {
    AllStored(s.trips);
    TickLoopFrame(s, s.trips.keys);
    var (events, s1, removed) := TickLoop(s, s.trips.keys);
    var r := (events, s1.(trips := RemoveAll(s1.trips, removed)));
    assert r.1.trips.keys == Minus(s.trips.keys, removed);
    r
  }
}
