# Ride dispatch on a grid: a Dafny model

This project models the logic of a small ride-dispatch simulator. Drivers and
riders stand on a 100 x 100 integer grid. Riders request rides. The server
picks a driver by a weighted ETA and fairness score. A simulation tick then
moves every driver on a trip one Manhattan step: along x first, then along y.
A browser client draws the grid and sends commands.

Two parts are modelled:

- **The server.** The state is four insertion-ordered dicts: drivers, riders,
  ride requests, and active trips keyed by ride id. Every HTTP endpoint that
  changes the state is a pure transition returning a response and the new
  state. An `HTTPException` becomes an `Err` that leaves the state alone.
  - `dicts.dfy` models a Python dict. Iteration order matters twice: it breaks
    ties between equally scored drivers, and it fixes the order in which a
    tick visits trips.
  - `models.dfy` holds the records.
  - `dispatch.dfy` holds distance, movement, driver selection, assignment and
    the tick.
  - `endpoints.dfy` holds the endpoints.
  - `invariants.dfy` proves that every endpoint and the tick preserve the
    cross-record invariants. It also proves that every state reachable from
    the empty start satisfies them.
- **The client's pure helpers** (`client.dfy`):
  - grid-to-pixel mapping;
  - the placement-mode click handler;
  - the markers drawn for drivers, riders and visible rides, including the
    L-shaped path from pickup to dropoff;
  - the checks the forms make before anything is sent;
  - the rules for offering remove and cancel buttons.

  `agreement.dfy` relates these buttons and checks to the server's guards.

The invariants proved for every reachable server state:

- every record is stored under its own id;
- every active trip belongs to an assigned ride that names the trip's driver,
  and that driver exists and is on a trip;
- no driver serves two trips;
- every assigned ride has a trip;
- a rider has at most one waiting or assigned ride, and such a rider exists.

Ids are `driver_`, `rider_` or `ride_` followed by eight hex digits. A model
id is the number those digits spell. A create endpoint receives the new id as
a parameter and requires it to be unused.

## Behaviour worth knowing

- Ride statuses are waiting, assigned, rejected, completed and failed. There
  is no in-progress or cancelled status. A cancelled ride is recorded as
  failed (app/api/endpoints.py:252-254).
- The drawn path is not just the set of cells between pickup and dropoff. The
  horizontal run ends on the corner, and the vertical run starts at the
  dropoff and ends on that corner again, so the corner is drawn twice. When
  pickup and dropoff share a row, the "vertical" run is the dropoff cell
  drawn a second time. The set of cells is exactly the L (`Client.PathIsL`).
- Only the client checks grid bounds and pickup ≠ dropoff. The server checks
  neither. The ride form does not range-check the pickup.
- `cancelRide` asks for a `confirm()` dialog before sending
  (frontend/app.js:835). That is UI and is not modelled.
- The fairness term is `0.3 * (1 - rides / max_rides)`
  (app/services/dispatch.py:62-65). At equal distance, the driver with more
  assigned rides therefore scores lower and is chosen. The comment beside the
  term says fewer rides should score better. `Dispatch.ScoreOrder` states the
  behaviour as written.

## Model

| member | source | states |
|---|---|---|
| Models.AppendNew | app/api/endpoints.py:210-215 | an element already present leaves the list unchanged; otherwise the list gains it at the end; a repeat-free list stays repeat-free |
| Models.NewDriver | app/models/models.py:25-30 | a new driver has the given id and location, is available, and has the defaults: no assigned rides and no rejections |
| Models.NewRideRequest | app/models/models.py:38-45 | a new ride is waiting, which makes it a live ride; it has the given rider, pickup and dropoff, no driver and no rejections |
| Dispatch.Distance | app/services/dispatch.py:19-21 | Manhattan distance is zero exactly when the two locations are equal |
| Dispatch.DistanceIsMetric | app/services/dispatch.py:19-21 | the distance is symmetric and obeys the triangle inequality |
| Dispatch.MoveTowards | app/services/dispatch.py:201-219 | a move goes one cell closer unless already there; it changes x while x differs, otherwise y; it reports arrival exactly when the new location is the target |
| Dispatch.MoveStepsDistance | app/services/dispatch.py:201-219 | after n moves the distance left is d - n, or 0 once n ≥ d |
| Dispatch.ReachedExactlyAfterDistanceMoves | app/services/dispatch.py:218-219 | starting d cells away, the target is reached after n moves exactly when n ≥ d |
| Dispatch.EligibleAmong | app/services/dispatch.py:35-38 | keeps exactly the available drivers that have not rejected the ride, without repeats |
| Dispatch.EligibleAmongKeepsOrder | app/services/dispatch.py:35-38 | the filter keeps dict order: any two kept keys occur in the input at increasing positions |
| Dispatch.Candidates | app/services/dispatch.py:35-38 | the candidates are exactly the stored drivers that are available and not in `rejected_by`, each once |
| Dispatch.MaxAtLeastOne | app/services/dispatch.py:47-53 | the normaliser is at least 1, bounds every value, and is either 1 or one of the values |
| Dispatch.MaxEta | app/services/dispatch.py:47-52 | `max_eta` is at least 1, bounds every eligible driver's distance to the pickup, and is either 1 or one of those distances |
| Dispatch.MaxRides | app/services/dispatch.py:48-53 | `max_rides` is at least 1, bounds every eligible driver's ride count, and is either 1 or one of those counts |
| Dispatch.Score | app/services/dispatch.py:55-65 | in exact real arithmetic, with both terms normalised by maxima that bound them, the score lies between 0 and 0.7 + 0.3 |
| Dispatch.ScoreOrder | app/services/dispatch.py:55-65 | at equal distance, a driver scores lower exactly when it has more assigned rides; at equal ride counts, it scores lower exactly when it is nearer |
| Dispatch.DriverScore | app/services/dispatch.py:50-65 | the score `find_best_driver` gives an eligible driver for the ride lies between 0 and 0.7 + 0.3 |
| Dispatch.FirstMinimum | app/services/dispatch.py:69-73 | the chosen position has the least score, and every earlier position scores strictly more (a stable sort's first element) |
| Dispatch.FindBestDriver | app/services/dispatch.py:28-73 | no driver exactly when none is eligible; otherwise an eligible driver whose score is minimal, and every eligible driver listed before it in the drivers dict scores strictly more |
| Dispatch.EarlierKeysScoreHigher | app/services/dispatch.py:69-73 | the stable sort's first element beats, strictly, every eligible driver that comes earlier in the drivers dict |
| Dispatch.FirstMinimumIsBest | app/services/dispatch.py:55-73 | the first minimum of the candidates' scores is no worse than any eligible driver, and every earlier candidate is strictly worse |
| Dispatch.AssignRide | app/services/dispatch.py:75-115 | an unknown ride is reported unknown and an assigned or completed ride already handled, and exactly then, with nothing changed; a ride is dispatched exactly when some driver is eligible; with no driver it fails exactly when it has at least 3 rejections, with only that ride changed and the key order kept, else nothing changes |
| Dispatch.AssignTo | app/services/dispatch.py:100-111 | the ride becomes assigned to the driver, the driver goes on a trip with one more ride, and a trip towards the pickup is recorded; driver and ride order is kept, and a new trip goes last |
| Dispatch.SimulateDriverDecision | app/services/dispatch.py:117-146 | a known driver accepts a known ride exactly when the pickup is at most 20 cells away; on a decline the ride is appended to the driver's rejected list unless already there; the drivers keep their dict order and nothing else changes |
| Dispatch.TickTrip | app/services/dispatch.py:158-193 | one iteration leaves the riders alone and keeps the keys of every table in their dict order |
| Dispatch.TickTripEffect | app/services/dispatch.py:158-193 | a trip whose driver or ride is gone is skipped; otherwise the driver moves one step, and arrival at the pickup turns the trip and emits a pickup event; arrival at the dropoff completes the ride, frees the driver (ride count unchanged) and emits a dropoff event |
| Dispatch.TickLoop | app/services/dispatch.py:156-193 | only visited trips are scheduled for removal |
| Dispatch.TickLoopFrame | app/services/dispatch.py:158-193 | the loop creates and deletes no driver, rider, ride or trip, and keeps every table's key order |
| Dispatch.Tick | app/services/dispatch.py:148-199 | keeps the riders and the drivers and rides in their dict order; can only remove trips, and the trips that stay keep their order |
| Endpoints.CreateDriver | app/api/endpoints.py:27-37 | adds one available driver with no rides and no rejections at the given location, under the fresh id, appended last in dict order; nothing else changes |
| Dicts.Put | app/api/endpoints.py:36 | `d[k] = v` stores the value; an existing key keeps its place in the order and a new key goes last (the same assignment appears at app/api/endpoints.py:91, 144 and 190 and app/services/dispatch.py:109 and 175) |
| Dicts.RemoveAll | app/services/dispatch.py:196-197 | the clean-up loop leaves exactly the keys not listed, with their values, in their original order |
| Dicts.Values | app/api/endpoints.py:43 | `list(d.values())` lists one value per key, in key order (also app/api/endpoints.py:98 and 155) |
| Dicts.Remove | app/api/endpoints.py:64 | `del` removes the key and its value, and the remaining keys keep their order: the result is the key list with that one position cut out |
| Dicts.WithoutAt | app/api/endpoints.py:120 | cutting a key out of a repeat-free key list removes exactly its one position and keeps the rest in order |
| Endpoints.DeleteDriver | app/api/endpoints.py:54-65 | 404 for an unknown driver, 400 for a driver on a trip, otherwise removes only that driver, the others keeping their dict order |
| Endpoints.UpdateDriverStatus | app/api/endpoints.py:68-79 | 404 for an unknown driver; a driver on a trip cannot be moved to another status (400); otherwise only that driver's status changes |
| Endpoints.CreateRider | app/api/endpoints.py:83-92 | adds one rider at the given location under the fresh id, appended last in dict order; nothing else changes |
| Endpoints.DeleteRider | app/api/endpoints.py:109-121 | 404 for an unknown rider, 400 while the rider has a waiting or assigned ride, otherwise removes only that rider, the others keeping their dict order |
| Endpoints.RequestRide | app/api/endpoints.py:125-149 | 404 for an unknown rider, 400 if the rider already has a live ride; otherwise the new ride is stored for that rider with the given pickup and dropoff and no other ride changes, and the resulting state is exactly the one `assign_ride` leaves after a waiting ride with no rejections is stored |
| Endpoints.RequestRideDispatchesIfPossible | app/api/endpoints.py:144-149 | the new ride comes back assigned exactly when some driver is eligible, and waiting otherwise |
| Endpoints.AcceptRide | app/api/endpoints.py:166-192 | 404 for an unknown ride, then for an unknown driver; then 400 with the ride's status for a ride not waiting, then 400 with the driver's status for a driver not available; succeeds exactly for a known waiting ride and a known available driver; then the ride is assigned to the driver, the driver is on a trip with one more ride, and a trip towards the pickup is recorded, appended last in the trip order unless the ride already had one; the drivers and rides keep their order |
| Endpoints.RecordRejection | app/api/endpoints.py:209-215 | the driver joins the ride's rejections and the ride joins the driver's rejections, each without duplicates |
| Endpoints.RejectRide | app/api/endpoints.py:195-223 | 404 for an unknown ride or driver, 400 for a ride not waiting; otherwise the ride is reassigned from the state with the rejection recorded |
| Endpoints.RejectRideOutcome | app/api/endpoints.py:209-223 | after a rejection the ride lists the driver, is never handed back to it, is waiting, assigned or failed, is reported as failed exactly when it failed, and fails only with at least 3 rejections |
| Endpoints.CancelRide | app/api/endpoints.py:226-256 | 404 for an unknown ride, 400 unless waiting or assigned; otherwise the ride ends failed with no driver and the drivers keep their dict order; for an assigned ride with a driver the trip is cut out of the trip order and the driver is available with one ride fewer, never below zero; a waiting ride, or an assigned ride with no driver, leaves drivers and trips as they were |
| Endpoints.ReleaseDriver | app/api/endpoints.py:238-250 | the driver, if still stored, is available with one ride fewer (not below zero); the trip is cut out of the trip order; no other driver changes and the drivers keep their order |
| Endpoints.AdvanceSimulation | app/api/endpoints.py:260-264 | a tick never fails and answers with its events |
| Invariants.TripOnlyIfAssigned | app/services/dispatch.py:100-111 | under the trip invariant, a trip exists only for an assigned ride |
| Invariants.InitSatisfiesInv | app/services/dispatch.py:7-12 | the empty start state satisfies all invariants |
| Invariants.CreateDriverKeepsInv | app/api/endpoints.py:27-37 | creating a driver keeps all invariants |
| Invariants.DeleteDriverKeepsInv | app/api/endpoints.py:54-65 | deleting a driver keeps all invariants, thanks to the on-trip guard |
| Invariants.UpdateDriverStatusKeepsInv | app/api/endpoints.py:68-79 | a status update keeps all invariants, thanks to the on-trip guard |
| Invariants.CreateRiderKeepsInv | app/api/endpoints.py:83-92 | creating a rider keeps all invariants |
| Invariants.DeleteRiderKeepsInv | app/api/endpoints.py:109-121 | deleting a rider keeps all invariants, thanks to the live-ride guard |
| Invariants.AssignRideKeepsInv | app/services/dispatch.py:75-115 | assigning a waiting ride keeps all invariants |
| Invariants.RequestRideKeepsInv | app/api/endpoints.py:125-149 | requesting a ride keeps all invariants, including at most one live ride per rider |
| Invariants.AcceptRideKeepsInv | app/api/endpoints.py:166-192 | accepting a ride keeps all invariants |
| Invariants.RejectRideKeepsInv | app/api/endpoints.py:195-223 | rejecting a ride keeps all invariants |
| Invariants.CancelRideKeepsInv | app/api/endpoints.py:226-256 | cancelling a ride keeps all invariants |
| Invariants.TickLoopKeepsTickInv | app/services/dispatch.py:158-193 | through the loop, unfinished trips stay consistent and every trip scheduled for removal has a completed ride |
| Invariants.TickKeepsInv | app/services/dispatch.py:148-199 | a whole tick keeps all invariants |
| Invariants.TickRemovesOnlyCompletedTrips | app/services/dispatch.py:188-197 | a tick drops a trip only after completing its ride |
| Invariants.ApplyKeepsInv | app/api/endpoints.py:27-264 | every state-changing request, granted or refused, keeps all invariants |
| Invariants.ReplayKeepsInv | app/api/endpoints.py:27-264 | any sequence of requests with fresh ids keeps all invariants |
| Invariants.ReachableStatesSatisfyInv | app/api/endpoints.py:27-264 | every state reached from the empty start satisfies all invariants |
| Client.ToCell | frontend/app.js:309-310 | the cell of a pixel offset is the one whose six-pixel band holds it |
| Client.CellBand | frontend/app.js:309-310 | an offset maps to cell c exactly when it lies in c's band |
| Client.PixelRoundTrip | frontend/app.js:309-310 | any pixel inside a cell's marker maps back to that cell |
| Client.OnGridIffInGrid | frontend/app.js:309-313 | an offset's cell is on the grid exactly when the offset lies within the 600 grid pixels |
| Client.HandleGridClick | frontend/app.js:305-320 | view mode and clicks off the grid do nothing (no clamping); otherwise exactly one placement at the clicked cell, a driver in driver mode and a rider in rider mode |
| Client.ClickPlacesAtCell | frontend/app.js:305-320 | in a placement mode, a click anywhere on a grid cell places exactly at that cell |
| Client.HorizontalRun | frontend/app.js:441-452 | \|dx\|+1 cells on the pickup's row, from the pickup to the corner in the dropoff's column |
| Client.VerticalRun | frontend/app.js:454-462 | \|dy\|+1 cells on the dropoff's column, from the dropoff back to the corner on the pickup's row |
| Client.RunsAreConnected | frontend/app.js:441-462 | consecutive cells of each run are one cell apart |
| Client.PathShape | frontend/app.js:439-463 | \|dx\|+\|dy\|+2 cells inside the bounding box; starts at the pickup, the corner ends the first run, the dropoff starts the second and the corner ends it; with dy = 0 the second run is the dropoff alone |
| Client.PathVisitsCornerTwice | frontend/app.js:439-463 | the corner cell is drawn exactly twice, once at the end of each run |
| Client.PathIsL | frontend/app.js:439-463 | a cell is on the path exactly when it lies on the L (the pickup's row up to the dropoff's column, then that column) |
| Client.FlatPathExample | frontend/app.js:439-463 | from (2,3) to (5,3) the path is the row (2,3)…(5,3) followed by (5,3) again |
| Client.CornerPathExample | frontend/app.js:439-463 | from (0,0) to (2,2) the path is (0,0),(1,0),(2,0),(2,2),(2,1),(2,0) |
| Client.DriverMarkers | frontend/app.js:393-400 | one marker per driver, in list order, at the driver's pixel and styled by its status |
| Client.RiderMarkers | frontend/app.js:403-410 | one marker per rider, in list order, at the rider's pixel |
| Client.PathMarkers | frontend/app.js:441-462 | one path marker per path cell, at that cell's pixel |
| Client.VisibleRides | frontend/app.js:413-415 | the shown rides are exactly the waiting and assigned ones |
| Client.RideMarkersOfVisibleOnly | frontend/app.js:413-435 | the ride markers are the same as those of the visible rides alone |
| Client.RideMarkersBelongToActiveRides | frontend/app.js:413-435 | every ride marker belongs to a waiting or assigned ride |
| Client.ActiveRidesAreDrawn | frontend/app.js:413-435 | every waiting or assigned ride gets its pickup and dropoff markers and a marker on every cell of its path |
| Client.RenderLayout | frontend/app.js:388-436 | the grid shows the drivers' markers, then the riders', then the rides' markers and nothing else |
| Client.MarkersOfRideKinds | frontend/app.js:415-434 | a ride draws only pickup, dropoff and path markers |
| Client.RideMarkersAreRideKinds | frontend/app.js:413-435 | no ride marker stands for a driver or a rider |
| Client.CoordinateForm | frontend/app.js:689-699 | the form sends exactly when both fields are numbers in [0, 100), and sends those numbers; otherwise it shows the coordinates alert |
| Client.FormsAgreeWithClicks | frontend/app.js:689-754 | `addDriver` (lines 689-699) and `addRider` (lines 744-754): the driver and rider forms accept a cell exactly when a click on it does, and send the same placement |
| Client.MissingCoordinateRejected | frontend/app.js:689-754 | in `addDriver` (lines 689-699) and `addRider` (lines 744-754), a non-numeric field is refused before any request, in both forms |
| Client.RequestRideForm | frontend/app.js:777-804 | sends exactly when a rider is selected, all four fields are numbers, the dropoff is on the grid and differs from the pickup; it sends those values |
| Client.RequestRideAlertOrder | frontend/app.js:784-804 | the alerts come in the code's order: no rider, then missing pickup, then a bad dropoff, then pickup equal to dropoff |
| Client.PickupNotRangeChecked | frontend/app.js:789-792 | a pickup off the grid is still sent |
| Client.CanRemoveDriver | frontend/app.js:498-501 | the remove button appears exactly for available and offline drivers |
| Client.CanRemoveRider | frontend/app.js:538-549 | the remove button appears exactly when no listed ride of the rider is waiting or assigned |
| Client.CanCancel | frontend/app.js:590-595 | the cancel button appears exactly for waiting and assigned rides |
| ClientServer.CancelButtonAgrees | frontend/app.js:590-595 | the cancel button is shown exactly for the rides the server lets you cancel |
| ClientServer.RemoveDriverButtonAgrees | frontend/app.js:498-501 | the driver's remove button is shown exactly when the server would delete the driver |
| ClientServer.RemoveRiderButtonAgrees | frontend/app.js:538-549 | given the server's rides in dict order, the rider's remove button is shown exactly when the server would delete the rider |
| ClientServer.ServerSkipsFormChecks | app/api/endpoints.py:125-149 | the server accepts a ride whose pickup is its dropoff, while the form refuses it |

## Left out

- Dispatch.FindBestDriver: the score uses exact real arithmetic. The floating-point rounding of `0.7 * eta / max_eta + 0.3 * (1 - rides / max_rides)` is not modelled, so near-ties under IEEE-754 may break differently.
- Dispatch.Score: it is exact real arithmetic, not IEEE-754 doubles, for the reason given for `Dispatch.FindBestDriver`.
- Dispatch.AssignRide: the rejection branch after `accepted = True` (app/services/dispatch.py:112-115) can never run and is not modelled.
- Dispatch.Tick: its own contract says only that riders and the key sets of drivers and rides are kept and that trips can only be removed. What happens to each trip is stated by `Dispatch.TickTripEffect`, `Invariants.TickKeepsInv` and `Invariants.TickRemovesOnlyCompletedTrips`.
- Dispatch.TickLoop: it states only which trips it may schedule for removal. The frame is in `Dispatch.TickLoopFrame`, and the effect of each step is in `Dispatch.TickTripEffect`.
- Endpoints.AdvanceSimulation: it states only that a tick never fails. The tick's effects are stated elsewhere.
- Id generation with `uuid4` is not modelled. The new id is a parameter that must be unused among its kind. The code does not check for collisions; with a collision it would overwrite a record, and the model excludes that case.
- Ids are numbers standing for eight hex digits. Requests naming ids of another shape behave like unknown ids, which they are.
- Invariants.ReplayKeepsInv: requests are replayed one after another. Concurrent requests in the web server are not modelled.
- The GET endpoints, `get_system_state`, `get_grid_info` and app/main.py only read state or wire the app together, so they are not modelled.
- `calculate_eta` is `calculate_distance` and is folded into it.
- `parseInt` is not modelled. A form field is the number it parses to, or `None` for `NaN`.
- Client pixel offsets are real numbers. Sub-pixel rounding of browser coordinates is not modelled.
- DOM construction, styling, HTML tables, the loading overlay, notifications and their timers, and the cancel confirmation dialog are presentation only.
- `refreshState` and every `fetch` are not modelled. Client and server are related by lemmas instead. The order in which overlapping refreshes complete is concurrency and is left out.
- `animateEntityMovement` and `advanceSimulation`'s animation are not modelled. They use floating-point easing and read `driver.x`/`driver.y`, which the server's records do not have.
- `onRiderSelectionChange` and `updateRiderSelect` only fill form fields. They are not modelled; the ride form takes its fields as parameters.
