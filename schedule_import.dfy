/**
 * `GtfsScheduleImporter.importGtfsScheduleData`: the routes in scope, then
 * the stops, then the trip instances of the date window, then their stop
 * times, each step using the maps the previous ones produced.
 */
module ScheduleImport {
  import opened Common
  import opened Utils
  import opened Entities
  import opened Calendar
  import opened AgencyTimezones
  import opened StopTimeRows
  import opened StopTimeDiff
  import opened RouteImport
  import opened StopImport
  import opened TripImport
  import opened StopTimeImport

  /** What the store holds for the source before the import. */
  datatype StoredData = StoredData(routes: seq<Route>, stops: seq<Stop>, tripsInWindow: seq<Trip>)

  /** Every write the import makes, in the order each step makes them. */
  datatype ScheduleWrites = ScheduleWrites(
    newRoutes: seq<Route>,
    savedRoutes: seq<string>,
    newStops: seq<Stop>,
    savedStops: seq<string>,
    parentCalls: map<string, ParentCall>,
    newTrips: seq<Trip>,
    savedTrips: seq<Trip>,
    stopTimeCreates: seq<RepoCall<StopTime>>,
    stopTimeRemoves: seq<RepoCall<StopTime>>)

  /** The route step's final state. */
  function RoutesAfter(sourceId: string, data: GtfsData, scope: set<string>, stored: StoredData): RouteState {
    RouteRows(sourceId, scope, RouteState(StoredRouteMap(stored.routes, scope), [], []), FileRows(data, "routes.txt"))
  }

  /** The stop step's final state. */
  function StopsAfter(sourceId: string, data: GtfsData, stored: StoredData): StopState {
    StopRows(sourceId, StopState(StoredStopMap(stored.stops), [], [], map[]), FileRows(data, "stops.txt"))
  }

  /** The inputs of the trip step: the route map of the route step and the resolved services. */
  function TripContextOf(sourceId: string, data: GtfsData, scope: set<string>, stored: StoredData, onOrAfter: int, onOrBefore: int): TripContext {
    TripContext(sourceId, RoutesAfter(sourceId, data, scope, stored).routes,
                ServiceDays(FileRows(data, "calendar.txt"), FileRows(data, "calendar_dates.txt")), onOrAfter, onOrBefore)
  }

  /** The trip step's final state. */
  function TripsAfter(sourceId: string, data: GtfsData, scope: set<string>, stored: StoredData, onOrAfter: int, onOrBefore: int): TripState {
    ServiceDaysInRange(FileRows(data, "calendar.txt"), FileRows(data, "calendar_dates.txt"));
    TripRows(TripContextOf(sourceId, data, scope, stored, onOrAfter, onOrBefore),
             TripState(StoredTripMap(stored.tripsInWindow), [], []), FileRows(data, "trips.txt"))
  }

  /** The inputs of the stop-time step: the stop_times.txt rows by trip, the stop map, the timezones. */
  function StopTimeContextOf(sourceId: string, data: GtfsData, stored: StoredData, unix: ScheduledUnix): StopTimeContext {
    var agencies := FileRows(data, "agency.txt");
    StopTimeContext(sourceId, Grouping(FileRows(data, "stop_times.txt")).0, StopsAfter(sourceId, data, stored).stops,
                    AgencyRows(map[], |agencies|, agencies), unix)
  }

  /**
   * `importGtfsScheduleData`: the instances by trip id after the import
   * (the map the caller's log counts), and every write made.
   */
  method ImportGtfsScheduleData(sourceId: string, data: GtfsData, routeIds: seq<string>, onOrAfter: int, onOrBefore: int,
                                stored: StoredData, unix: ScheduledUnix)
    returns (trips: map<string, seq<Trip>>, writes: ScheduleWrites)
    ensures var scope := set r | r in routeIds;
      var ctx := TripContextOf(sourceId, data, scope, stored, onOrAfter, onOrBefore);
      && ServicesInRange(ctx.services)
      && var tripState := TripsAfter(sourceId, data, scope, stored, onOrAfter, onOrBefore);
      && var stopTimes := TripKeys(StopTimeContextOf(sourceId, data, stored, unix), StopTimeState(tripState.trips, [], []),
                                   Grouping(FileRows(data, "stop_times.txt")).1);
      && trips == stopTimes.trips
      && writes.savedRoutes == RoutesAfter(sourceId, data, scope, stored).saved
      && writes.savedStops == StopsAfter(sourceId, data, stored).saved
      && RefsValid(tripState)
      && writes.newTrips == Resolve(tripState, tripState.created)
      && writes.savedTrips == Resolve(tripState, tripState.saved)
      && writes.stopTimeCreates == (if |stopTimes.inserts| == 0 then [] else SerialPlan(stopTimes.inserts, false))
      && writes.stopTimeRemoves == (if |stopTimes.removes| == 0 then [] else SerialPlan(stopTimes.removes, true))
  {
    var scope := set r | r in routeIds;
    var routes, newRoutes, savedRoutes := GetOrGenerateRoutes(sourceId, FileRows(data, "routes.txt"), scope, stored.routes);
    var stops, newStops, savedStops, parentCalls := GetOrGenerateStops(sourceId, FileRows(data, "stops.txt"), stored.stops);
    var tripMap, newTrips, savedTrips := GetOrGenerateTrips(sourceId, FileRows(data, "trips.txt"), FileRows(data, "calendar.txt"),
                                                            FileRows(data, "calendar_dates.txt"), routes, onOrAfter, onOrBefore,
                                                            stored.tripsInWindow);
    var createCalls, removeCalls;
    trips, createCalls, removeCalls := GetOrGenerateStopTimes(sourceId, FileRows(data, "stop_times.txt"), FileRows(data, "agency.txt"),
                                                              tripMap, stops, unix);
    writes := ScheduleWrites(newRoutes, savedRoutes, newStops, savedStops, parentCalls, newTrips, savedTrips, createCalls, removeCalls);
  }

  /** The stop-time step changes nothing but stop times, so each instance keeps its trip id's list position and date. */
  lemma StopTimeStepKeepsDates(ctx: StopTimeContext, tripsById: map<string, seq<Trip>>, keys: seq<string>, t: string)
    requires forall i, j :: 0 <= i < j < |keys| ==> keys[i] != keys[j]
    requires t in tripsById
    ensures var r := TripKeys(ctx, StopTimeState(tripsById, [], []), keys).trips;
      && r.Keys == tripsById.Keys
      && |r[t]| == |tripsById[t]|
      && forall k :: 0 <= k < |r[t]| ==> r[t][k].tripDate == tripsById[t][k].tripDate
  {
    TripKeysEffect(ctx, StopTimeState(tripsById, [], []), keys, t);
    var trips := tripsById[t];
    if t in keys && |trips| > 0 && TimezoneOf(ctx.tzs, trips).Some? {
      TripListDiffShape(ctx, ScheduleOf(ctx, t), TimezoneOf(ctx.tzs, trips).value, trips);
    }
  }

  /**
   * After the whole import there is at most one instance per trip id and
   * date, provided the stored instances of the window had that property
   * (the store's key is the source, the trip id and the date).
   */
  lemma OneInstancePerTripDate(sourceId: string, data: GtfsData, scope: set<string>, stored: StoredData, onOrAfter: int, onOrBefore: int,
                               unix: ScheduledUnix)
    requires OneInstancePerDate(StoredTripMap(stored.tripsInWindow))
    ensures var ctx := TripContextOf(sourceId, data, scope, stored, onOrAfter, onOrBefore);
      && ServicesInRange(ctx.services)
      && OneInstancePerDate(TripKeys(StopTimeContextOf(sourceId, data, stored, unix),
                                     StopTimeState(TripsAfter(sourceId, data, scope, stored, onOrAfter, onOrBefore).trips, [], []),
                                     Grouping(FileRows(data, "stop_times.txt")).1).trips)
  {
    var ctx := TripContextOf(sourceId, data, scope, stored, onOrAfter, onOrBefore);
    ServiceDaysInRange(FileRows(data, "calendar.txt"), FileRows(data, "calendar_dates.txt"));
    var tripState := TripsAfter(sourceId, data, scope, stored, onOrAfter, onOrBefore);
    TripRowsKeepDistinct(ctx, TripState(StoredTripMap(stored.tripsInWindow), [], []), FileRows(data, "trips.txt"));
    var stopTimeRows := FileRows(data, "stop_times.txt");
    GroupingContents(stopTimeRows);
    var keys := Grouping(stopTimeRows).1;
    var stCtx := StopTimeContextOf(sourceId, data, stored, unix);
    var r: map<string, seq<Trip>> := TripKeys(stCtx, StopTimeState(tripState.trips, [], []), keys).trips;
    TripKeysEffect(stCtx, StopTimeState(tripState.trips, [], []), keys, "");
    forall t, i, j | t in r && 0 <= i < j < |r[t]|
      ensures r[t][i].tripDate != r[t][j].tripDate
    {
      StopTimeStepKeepsDates(stCtx, tripState.trips, keys, t);
    }
  }
}
