/**
 The browser client's pure helpers: the mapping between grid cells and pixels,
 the placement-mode click handler, the markers drawn on the grid (including
 the L-shaped path between a ride's pickup and dropoff), the local checks the
 forms make before sending anything, and the rule for offering a cancel button.

 The client receives the server's records as JSON; here they are the records
 of `Models`, with status strings read as the corresponding enum values.
 */
module Client {
  import opened Optional
  import opened Models
  import opened Dispatch

  // ---------------------------------------------------------------------------
  // Grid and pixels
  // ---------------------------------------------------------------------------

  const GridSize: int := 100
  /** Pixels per grid cell. */
  const GridScale: int := 6

  /** A coordinate the forms and the click handler accept. */
  predicate InGrid(v: int) {
    0 <= v < GridSize
  }

  /** The pixel offset of a cell's edge: markers are placed at `x * GRID_SCALE`. */
  function ToPixel(c: int): int {
    c * GridScale
  }

  /** `Math.floor(p / GRID_SCALE)`: the cell whose band of pixels holds offset `p`.
      Offsets from the browser may be fractional. */
  function ToCell(p: real): (c: int)
    ensures ToPixel(c) as real <= p < ToPixel(c + 1) as real
  {
    var q := p / GridScale as real;
    assert p == q * 6.0;
    q.Floor
  }

  /** The bands of pixels tile the line: `p` lies in cell `c`'s band exactly when `ToCell(p) == c`. */
  lemma CellBand(p: real, c: int)
    ensures ToCell(p) == c <==> ToPixel(c) as real <= p < ToPixel(c + 1) as real
  {
    var c' := ToCell(p);
    if ToPixel(c) as real <= p < ToPixel(c + 1) as real {
      assert ToPixel(c') as real < ToPixel(c + 1) as real && ToPixel(c) as real < ToPixel(c' + 1) as real;
    }
  }

  /** Any pixel inside a cell's marker maps back to that cell. */
  lemma PixelRoundTrip(c: int, r: real)
    requires 0.0 <= r < GridScale as real
    ensures ToCell(ToPixel(c) as real + r) == c
  {
    CellBand(ToPixel(c) as real + r, c);
  }

  /** A pixel offset lies over the grid exactly when its cell is a grid cell. */
  lemma OnGridIffInGrid(p: real)
    ensures InGrid(ToCell(p)) <==> 0.0 <= p < ToPixel(GridSize) as real
  {
    var c := ToCell(p);
    if 0.0 <= p < ToPixel(GridSize) as real {
      assert ToPixel(-1) as real < ToPixel(c + 1) as real;
      assert ToPixel(c) as real < ToPixel(GridSize) as real;
    }
  }

  // ---------------------------------------------------------------------------
  // Placement mode
  // ---------------------------------------------------------------------------

  /** `gridMode`: 'none', 'driver' or 'rider'. */
  datatype Mode = ViewOnly | DriverPlacement | RiderPlacement

  /** The request a click on the grid sends. */
  datatype Placement = AddDriverAt(x: int, y: int) | AddRiderAt(x: int, y: int)

  /** `handleGridClick`, given the click's offset from the grid's top-left corner:
      nothing in view mode or off the grid, otherwise one placement at the clicked cell. */
  function HandleGridClick(mode: Mode, dx: real, dy: real): (r: Option<Placement>)
    ensures r.Some? <==> mode != ViewOnly && 0.0 <= dx < ToPixel(GridSize) as real && 0.0 <= dy < ToPixel(GridSize) as real
    ensures r.Some? ==>
              && InGrid(r.value.x) && InGrid(r.value.y)
              && ToPixel(r.value.x) as real <= dx < ToPixel(r.value.x + 1) as real
              && ToPixel(r.value.y) as real <= dy < ToPixel(r.value.y + 1) as real
              && (r.value.AddDriverAt? <==> mode == DriverPlacement)
  {
    OnGridIffInGrid(dx);
    OnGridIffInGrid(dy);
    if mode == ViewOnly then None
    else
      var x := ToCell(dx);
      var y := ToCell(dy);
      if x < 0 || x >= GridSize || y < 0 || y >= GridSize then None
      else if mode == DriverPlacement then Some(AddDriverAt(x, y))
      else Some(AddRiderAt(x, y))
  }

  /** Clicking anywhere on a grid cell's marker in a placement mode places exactly at that cell. */
  lemma ClickPlacesAtCell(mode: Mode, x: int, y: int, rx: real, ry: real)
    requires mode != ViewOnly && InGrid(x) && InGrid(y)
    requires 0.0 <= rx < GridScale as real && 0.0 <= ry < GridScale as real
    ensures HandleGridClick(mode, ToPixel(x) as real + rx, ToPixel(y) as real + ry) ==
              Some(if mode == DriverPlacement then AddDriverAt(x, y) else AddRiderAt(x, y))
  {
    PixelRoundTrip(x, rx);
    PixelRoundTrip(y, ry);
  }

  // ---------------------------------------------------------------------------
  // The L-shaped path
  // ---------------------------------------------------------------------------

  /** `v` lies between `a` and `b`, in either order. */
  predicate Between(v: int, a: int, b: int) {
    (a <= v <= b) || (b <= v <= a)
  }

  /** The `i`-th coordinate from `a` stepping towards the sign of `d`
      (`a + i` when `d > 0`, otherwise `a - i`). */
  function StepFrom(a: int, d: int, i: int): int {
    a + (if d > 0 then i else -i)
  }

  /** `drawPath`'s first loop: the cells of row `start.y` from `start.x` to `end.x`. */
  function HorizontalRun(start: Location, end: Location): (r: seq<Location>)
    ensures |r| == Abs(end.x - start.x) + 1
    ensures r[0] == start && r[|r| - 1] == Location(end.x, start.y)
    ensures forall i :: 0 <= i < |r| ==> r[i].y == start.y && Between(r[i].x, start.x, end.x)
  {
    var d := end.x - start.x;
    seq(Abs(d) + 1, i => Location(StepFrom(start.x, d, i), start.y))
  }

  /** `drawPath`'s second loop: the cells of column `end.x` from `end.y` back to `start.y`. */
  function VerticalRun(start: Location, end: Location): (r: seq<Location>)
    ensures |r| == Abs(end.y - start.y) + 1
    ensures r[0] == end && r[|r| - 1] == Location(end.x, start.y)
    ensures forall i :: 0 <= i < |r| ==> r[i].x == end.x && Between(r[i].y, start.y, end.y)
  {
    var d := end.y - start.y;
    seq(Abs(d) + 1, i => Location(end.x, end.y - (if d > 0 then i else -i)))
  }

  /** Each run is a chain of neighbouring cells: consecutive markers are one cell apart. */
  lemma RunsAreConnected(start: Location, end: Location, i: int)
    ensures 0 <= i < |HorizontalRun(start, end)| - 1 ==>
              Distance(HorizontalRun(start, end)[i], HorizontalRun(start, end)[i + 1]) == 1
    ensures 0 <= i < |VerticalRun(start, end)| - 1 ==>
              Distance(VerticalRun(start, end)[i], VerticalRun(start, end)[i + 1]) == 1
  {
  }

  /** The cells `drawPath` puts a path marker on, in drawing order. */
  function PathCells(start: Location, end: Location): seq<Location> {
    HorizontalRun(start, end) + VerticalRun(start, end)
  }

  /** A cell on the L: along the pickup's row up to the dropoff's column, then along that column. */
  predicate OnL(c: Location, start: Location, end: Location) {
    || (c.y == start.y && Between(c.x, start.x, end.x))
    || (c.x == end.x && Between(c.y, start.y, end.y))
  }

  /** The path has |dx| + |dy| + 2 markers, all inside the pickup/dropoff
      bounding box. It starts at the pickup; the horizontal run ends on the
      corner (dropoff column, pickup row); the vertical run starts at the
      dropoff and ends on the corner again. With no vertical distance the
      vertical run is the dropoff alone. */
  lemma PathShape(start: Location, end: Location)
    ensures var p := PathCells(start, end);
            var n := Abs(end.x - start.x);
            && |p| == n + Abs(end.y - start.y) + 2
            && p[0] == start && p[n] == Location(end.x, start.y)
            && p[n + 1] == end && p[|p| - 1] == Location(end.x, start.y)
            && (forall i :: 0 <= i < |p| ==> Between(p[i].x, start.x, end.x) && Between(p[i].y, start.y, end.y))
    ensures end.y == start.y ==> VerticalRun(start, end) == [end]
  {
    var h, v := HorizontalRun(start, end), VerticalRun(start, end);
    var p := h + v;
    assert p[|h| - 1] == h[|h| - 1] && p[|h|] == v[0] && p[|p| - 1] == v[|v| - 1];
    forall i | 0 <= i < |p| ensures Between(p[i].x, start.x, end.x) && Between(p[i].y, start.y, end.y) {
      if i < |h| {
        assert p[i] == h[i];
      } else {
        assert p[i] == v[i - |h|];
      }
    }
  }

  /** A cell that ends a sequence and occurs nowhere before occurs exactly once. */
  lemma OnlyAtEnd(s: seq<Location>, c: Location)
    requires |s| > 0 && s[|s| - 1] == c
    requires forall i :: 0 <= i < |s| - 1 ==> s[i] != c
    ensures multiset(s)[c] == 1
  {
    var init := s[..|s| - 1];
    assert s == init + [c];
    assert c !in init;
  }

  /** The corner is drawn exactly twice: once ending the horizontal run, once ending the vertical run. */
  lemma PathVisitsCornerTwice(start: Location, end: Location)
    ensures multiset(PathCells(start, end))[Location(end.x, start.y)] == 2
  {
    var h, v := HorizontalRun(start, end), VerticalRun(start, end);
    var corner := Location(end.x, start.y);
    assert forall i :: 0 <= i < |h| - 1 ==> h[i].x != end.x;
    assert forall i :: 0 <= i < |v| - 1 ==> v[i].y != start.y;
    OnlyAtEnd(h, corner);
    OnlyAtEnd(v, corner);
    assert multiset(h + v) == multiset(h) + multiset(v);
  }

  /** The path's cells are exactly the cells of the L. */
  lemma PathIsL(start: Location, end: Location, c: Location)
    ensures c in PathCells(start, end) <==> OnL(c, start, end)
  {
    var h, v := HorizontalRun(start, end), VerticalRun(start, end);
    if c in h + v {
      var i :| 0 <= i < |h + v| && (h + v)[i] == c;
      if i < |h| {
        assert h[i] == c;
      } else {
        assert v[i - |h|] == c;
      }
    }
    if c.y == start.y && Between(c.x, start.x, end.x) {
      var i := Abs(c.x - start.x);
      assert h[i] == c;
      assert (h + v)[i] == c;
    } else if c.x == end.x && Between(c.y, start.y, end.y) {
      var i := Abs(end.y - c.y);
      assert v[i] == c;
      assert (h + v)[|h| + i] == c;
    }
  }

  /** With no vertical distance the vertical run is the dropoff alone, so the
      dropoff is drawn twice. */
  lemma FlatPathExample()
    ensures PathCells(Location(2, 3), Location(5, 3)) ==
              [Location(2, 3), Location(3, 3), Location(4, 3), Location(5, 3), Location(5, 3)]
  {
    var h := HorizontalRun(Location(2, 3), Location(5, 3));
    assert h[1] == Location(3, 3) && h[2] == Location(4, 3);
    assert h == [Location(2, 3), Location(3, 3), Location(4, 3), Location(5, 3)];
  }

  /** The vertical run starts at the dropoff and ends on the corner, which the
      horizontal run has already drawn. */
  lemma CornerPathExample()
    ensures PathCells(Location(0, 0), Location(2, 2)) ==
              [Location(0, 0), Location(1, 0), Location(2, 0), Location(2, 2), Location(2, 1), Location(2, 0)]
  {
    var h := HorizontalRun(Location(0, 0), Location(2, 2));
    var v := VerticalRun(Location(0, 0), Location(2, 2));
    assert |h| == 3 && h[0] == Location(0, 0) && h[1] == Location(1, 0) && h[2] == Location(2, 0);
    assert |v| == 3 && v[0] == Location(2, 2) && v[1] == Location(2, 1) && v[2] == Location(2, 0);
    var p := PathCells(Location(0, 0), Location(2, 2));
    assert p == h + v;
    assert |p| == 6 && p[3] == v[0] && p[4] == v[1] && p[5] == v[2];
  }

  // ---------------------------------------------------------------------------
  // Markers on the grid
  // ---------------------------------------------------------------------------

  /** What a marker stands for; a driver's marker is styled by its status. */
  datatype MarkerKind =
    | DriverMark(driver: DriverId, status: DriverStatus)
    | RiderMark(rider: RiderId)
    | PickupMark(pickupOf: RideId)
    | DropoffMark(dropoffOf: RideId)
    | PathMark

  /** A marker at pixel offset (`left`, `top`) of the grid. */
  datatype Marker = Marker(kind: MarkerKind, left: int, top: int)

  function Place(kind: MarkerKind, at: Location): Marker {
    Marker(kind, ToPixel(at.x), ToPixel(at.y))
  }

  function DriverMarkers(ds: seq<Driver>): (r: seq<Marker>)
    ensures |r| == |ds|
    ensures forall i :: 0 <= i < |ds| ==> r[i] == Place(DriverMark(ds[i].id, ds[i].status), ds[i].location)
  {
    seq(|ds|, i requires 0 <= i < |ds| => Place(DriverMark(ds[i].id, ds[i].status), ds[i].location))
  }

  function RiderMarkers(rs: seq<Rider>): (r: seq<Marker>)
    ensures |r| == |rs|
    ensures forall i :: 0 <= i < |rs| ==> r[i] == Place(RiderMark(rs[i].id), rs[i].location)
  {
    seq(|rs|, i requires 0 <= i < |rs| => Place(RiderMark(rs[i].id), rs[i].location))
  }

  function PathMarkers(cells: seq<Location>): (r: seq<Marker>)
    ensures |r| == |cells|
    ensures forall i :: 0 <= i < |cells| ==> r[i] == Place(PathMark, cells[i])
  {
    seq(|cells|, i requires 0 <= i < |cells| => Place(PathMark, cells[i]))
  }

  /** The markers of one ride: pickup, dropoff and path, drawn only while the ride is waiting or assigned. */
  function MarkersOfRide(ride: RideRequest): seq<Marker> {
    if IsActive(ride.status) then
      [Place(PickupMark(ride.id), ride.pickup), Place(DropoffMark(ride.id), ride.dropoff)]
        + PathMarkers(PathCells(ride.pickup, ride.dropoff))
    else []
  }

  function RideMarkers(rides: seq<RideRequest>): seq<Marker>
    decreases |rides|
  {
    if rides == [] then [] else MarkersOfRide(rides[0]) + RideMarkers(rides[1..])
  }

  /** `updateGridVisualization`: drivers, then riders, then the rides' markers. */
  function Render(ds: seq<Driver>, rs: seq<Rider>, rides: seq<RideRequest>): seq<Marker> {
    DriverMarkers(ds) + RiderMarkers(rs) + RideMarkers(rides)
  }

  /** The rides the grid shows: those waiting or assigned, in list order. */
  function VisibleRides(rides: seq<RideRequest>): (r: seq<RideRequest>)
    ensures |r| <= |rides|
    ensures forall x :: x in r <==> x in rides && IsActive(x.status)
    decreases |rides|
  {
    if rides == [] then []
    else if IsActive(rides[0].status) then [rides[0]] + VisibleRides(rides[1..])
    else VisibleRides(rides[1..])
  }

  /** Ride markers depend only on the visible rides: a ride in any other status draws nothing. */
  lemma {:induction false} RideMarkersOfVisibleOnly(rides: seq<RideRequest>)
    ensures RideMarkers(rides) == RideMarkers(VisibleRides(rides))
    decreases |rides|
  {
    if rides != [] {
      RideMarkersOfVisibleOnly(rides[1..]);
      var rest := VisibleRides(rides[1..]);
      if IsActive(rides[0].status) {
        assert ([rides[0]] + rest)[1..] == rest;
      }
    }
  }

  /** Every marker the rides produce belongs to a waiting or assigned ride:
      its pickup, its dropoff, or a cell of its path. */
  lemma {:induction false} RideMarkersBelongToActiveRides(rides: seq<RideRequest>, m: Marker)
    requires m in RideMarkers(rides)
    ensures exists ride :: ride in rides && IsActive(ride.status) && m in MarkersOfRide(ride)
    decreases |rides|
  {
    if m in MarkersOfRide(rides[0]) {
      assert rides[0] in rides;
    } else {
      RideMarkersBelongToActiveRides(rides[1..], m);
      var ride :| ride in rides[1..] && IsActive(ride.status) && m in MarkersOfRide(ride);
      assert ride in rides;
    }
  }

  /** Every waiting or assigned ride gets its pickup and dropoff markers and a marker on each cell of its path. */
  lemma {:induction false} ActiveRidesAreDrawn(rides: seq<RideRequest>, ride: RideRequest)
    requires ride in rides && IsActive(ride.status)
    ensures Place(PickupMark(ride.id), ride.pickup) in RideMarkers(rides)
    ensures Place(DropoffMark(ride.id), ride.dropoff) in RideMarkers(rides)
    ensures forall c :: c in PathCells(ride.pickup, ride.dropoff) ==> Place(PathMark, c) in RideMarkers(rides)
    decreases |rides|
  {
    var here := MarkersOfRide(rides[0]);
    if rides[0] == ride {
      forall c | c in PathCells(ride.pickup, ride.dropoff) ensures Place(PathMark, c) in RideMarkers(rides) {
        var cells := PathCells(ride.pickup, ride.dropoff);
        var i :| 0 <= i < |cells| && cells[i] == c;
        assert here[2 + i] == Place(PathMark, c);
      }
    } else {
      ActiveRidesAreDrawn(rides[1..], ride);
    }
  }

  /** The grid holds one marker per driver and one per rider, at their pixels and
      before everything else; all later markers belong to rides. */
  lemma RenderLayout(ds: seq<Driver>, rs: seq<Rider>, rides: seq<RideRequest>)
    ensures var ms := Render(ds, rs, rides);
            && |ms| == |ds| + |rs| + |RideMarkers(rides)|
            && (forall i :: 0 <= i < |ds| ==> ms[i] == Place(DriverMark(ds[i].id, ds[i].status), ds[i].location))
            && (forall i :: 0 <= i < |rs| ==> ms[|ds| + i] == Place(RiderMark(rs[i].id), rs[i].location))
            && ms[|ds| + |rs|..] == RideMarkers(rides)
  {
    var front := DriverMarkers(ds) + RiderMarkers(rs);
    assert Render(ds, rs, rides) == front + RideMarkers(rides);
    forall i | 0 <= i < |rs| ensures front[|ds| + i] == Place(RiderMark(rs[i].id), rs[i].location) {
    }
  }

  /** A ride draws only pickup, dropoff and path markers. */
  lemma MarkersOfRideKinds(ride: RideRequest, m: Marker)
    requires m in MarkersOfRide(ride)
    ensures m.kind.PickupMark? || m.kind.DropoffMark? || m.kind == PathMark
  {
    var ms := MarkersOfRide(ride);
    var i :| 0 <= i < |ms| && ms[i] == m;
    if i >= 2 {
      var cells := PathCells(ride.pickup, ride.dropoff);
      assert ms[i] == PathMarkers(cells)[i - 2];
    }
  }

  /** Ride markers never stand for a driver or a rider. */
  lemma RideMarkersAreRideKinds(rides: seq<RideRequest>, m: Marker)
    requires m in RideMarkers(rides)
    ensures m.kind.PickupMark? || m.kind.DropoffMark? || m.kind == PathMark
  {
    RideMarkersBelongToActiveRides(rides, m);
    var ride :| ride in rides && IsActive(ride.status) && m in MarkersOfRide(ride);
    MarkersOfRideKinds(ride, m);
  }

  // ---------------------------------------------------------------------------
  // Form validation
  // ---------------------------------------------------------------------------

  /** The `alert` a form shows instead of sending a request. */
  datatype Alert =
    | InvalidCoordinates
    | NoRiderSelected
    | PickupNotSet
    | InvalidDropoff
    | SamePickupAndDropoff

  datatype Outcome<T> = Blocked(alert: Alert) | Sent(request: T)

  /** The shared check of `addDriver` and `addRider`. A field is `parseInt` of its
      text: `None` stands for `NaN`. */
  function CoordinateForm(x: Option<int>, y: Option<int>): (r: Outcome<Location>)
    ensures r.Sent? <==> x.Some? && y.Some? && InGrid(x.value) && InGrid(y.value)
    ensures r.Sent? ==> r.request == Location(x.value, y.value)
    ensures r.Blocked? ==> r.alert == InvalidCoordinates
  {
    if x.None? || y.None? || x.value < 0 || x.value >= GridSize || y.value < 0 || y.value >= GridSize then
      Blocked(InvalidCoordinates)
    else
      Sent(Location(x.value, y.value))
  }

  /** `addDriver`: the form's coordinates, checked, become an add-driver request. */
  function AddDriverForm(x: Option<int>, y: Option<int>): Outcome<Placement> {
    match CoordinateForm(x, y)
    case Blocked(a) => Blocked(a)
    case Sent(at) => Sent(AddDriverAt(at.x, at.y))
  }

  /** `addRider`: the same check, for an add-rider request. */
  function AddRiderForm(x: Option<int>, y: Option<int>): Outcome<Placement> {
    match CoordinateForm(x, y)
    case Blocked(a) => Blocked(a)
    case Sent(at) => Sent(AddRiderAt(at.x, at.y))
  }

  /** The forms and the grid accept the same cells: a form submits exactly the
      placement that a click on that cell's marker would send, and rejects
      exactly the cells a click cannot reach. */
  lemma FormsAgreeWithClicks(x: int, y: int, rx: real, ry: real)
    requires 0.0 <= rx < GridScale as real && 0.0 <= ry < GridScale as real
    ensures var dx, dy := ToPixel(x) as real + rx, ToPixel(y) as real + ry;
            && (AddDriverForm(Some(x), Some(y)).Sent? <==> HandleGridClick(DriverPlacement, dx, dy).Some?)
            && (AddDriverForm(Some(x), Some(y)).Sent? ==>
                  HandleGridClick(DriverPlacement, dx, dy).value == AddDriverForm(Some(x), Some(y)).request)
            && (AddRiderForm(Some(x), Some(y)).Sent? <==> HandleGridClick(RiderPlacement, dx, dy).Some?)
            && (AddRiderForm(Some(x), Some(y)).Sent? ==>
                  HandleGridClick(RiderPlacement, dx, dy).value == AddRiderForm(Some(x), Some(y)).request)
  {
    PixelRoundTrip(x, rx);
    PixelRoundTrip(y, ry);
    OnGridIffInGrid(ToPixel(x) as real + rx);
    OnGridIffInGrid(ToPixel(y) as real + ry);
  }

  /** Non-numeric input is rejected before any request. */
  lemma MissingCoordinateRejected(x: Option<int>, y: Option<int>)
    requires x.None? || y.None?
    ensures AddDriverForm(x, y) == Blocked(InvalidCoordinates)
    ensures AddRiderForm(x, y) == Blocked(InvalidCoordinates)
  {
  }

  /** What `requestRide` posts. */
  datatype RideOrder = RideOrder(rider: RiderId, pickup: Location, dropoff: Location)

  /** `requestRide`'s checks, in the order it makes them. `rider` is the
      selection (`None` for the placeholder option). */
  function RequestRideForm(rider: Option<RiderId>, px: Option<int>, py: Option<int>, dx: Option<int>, dy: Option<int>): (r: Outcome<RideOrder>)
    ensures r.Sent? <==>
              && rider.Some? && px.Some? && py.Some? && dx.Some? && dy.Some?
              && InGrid(dx.value) && InGrid(dy.value)
              && Location(px.value, py.value) != Location(dx.value, dy.value)
    ensures r.Sent? ==>
              r.request == RideOrder(rider.value, Location(px.value, py.value), Location(dx.value, dy.value))
  {
    if rider.None? then Blocked(NoRiderSelected)
    else if px.None? || py.None? then Blocked(PickupNotSet)
    else if dx.None? || dy.None? || dx.value < 0 || dx.value >= GridSize || dy.value < 0 || dy.value >= GridSize then
      Blocked(InvalidDropoff)
    else if px.value == dx.value && py.value == dy.value then Blocked(SamePickupAndDropoff)
    else Sent(RideOrder(rider.value, Location(px.value, py.value), Location(dx.value, dy.value)))
  }

  /** Each alert is raised by its own check only once every earlier check has passed. */
  lemma RequestRideAlertOrder(rider: Option<RiderId>, px: Option<int>, py: Option<int>, dx: Option<int>, dy: Option<int>)
    ensures var r := RequestRideForm(rider, px, py, dx, dy);
            && (r == Blocked(NoRiderSelected) <==> rider.None?)
            && (r == Blocked(PickupNotSet) <==> rider.Some? && (px.None? || py.None?))
            && (r == Blocked(InvalidDropoff) <==>
                  rider.Some? && px.Some? && py.Some? &&
                  (dx.None? || dy.None? || !InGrid(dx.value) || !InGrid(dy.value)))
            && (r == Blocked(SamePickupAndDropoff) <==>
                  rider.Some? && px.Some? && py.Some? && dx.Some? && dy.Some? &&
                  InGrid(dx.value) && InGrid(dy.value) && px.value == dx.value && py.value == dy.value)
  {
  }

  /** The pickup is taken as given: a pickup off the grid still goes out. */
  lemma PickupNotRangeChecked(rider: RiderId, px: int, py: int, d: Location)
    requires InGrid(d.x) && InGrid(d.y) && !(InGrid(px) && InGrid(py))
    ensures RequestRideForm(Some(rider), Some(px), Some(py), Some(d.x), Some(d.y))
              == Sent(RideOrder(rider, Location(px, py), d))
  {
  }

  // ---------------------------------------------------------------------------
  // Action buttons in the tables
  // ---------------------------------------------------------------------------

  /** The drivers table offers "Remove" for a driver that is not on a trip. */
  function CanRemoveDriver(st: DriverStatus): (r: bool)
    ensures r <==> st in {Available, Offline}
  {
    st != OnTrip
  }

  /** The riders table offers "Remove" for a rider with no waiting or assigned ride in the list. */
  function CanRemoveRider(rides: seq<RideRequest>, rider: RiderId): (r: bool)
    ensures r <==> forall i :: 0 <= i < |rides| ==> rides[i].riderId != rider || !IsActive(rides[i].status)
  {
    !exists ride :: ride in rides && ride.riderId == rider && IsActive(ride.status)
  }

  /** `canCancel`: a cancel button is shown for a waiting or assigned ride. */
  function CanCancel(st: RideStatus): (r: bool)
    ensures r <==> st in {Waiting, Assigned}
  {
    st == Waiting || st == Assigned
  }
}
