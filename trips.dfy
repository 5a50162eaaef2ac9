/**
 * `getOrGenerateTrips`: one trip instance per GTFS trip id and service date
 * inside the inclusive window [onOrAfter, onOrBefore], found among the
 * stored instances of the window or created.
 */
module TripImport {
  import opened Common
  import opened Dates
  import opened Utils
  import opened Calendar
  import opened Entities

  /** `Trip.newTrip`: a trip instance on the route with no live data and no stop times yet. */
  function NewTrip(sourceId: string, tripId: string, tripDate: string, route: Route): Trip {
    Trip(sourceId, tripId, tripDate, false, None, Some(route), Some([]))
  }

  /**
   * `updateRouteIfNecessary` (the trip entity's own method): the instance
   * refers to the route and is otherwise unchanged; it is saved exactly when
   * that changed it.
   */
  function UpdateTripRoute(trip: Trip, route: Route): (r: (Trip, bool))
    ensures r.0.route == Some(route)
    ensures r.0.sourceId == trip.sourceId && r.0.gtfsTripId == trip.gtfsTripId && r.0.tripDate == trip.tripDate
    ensures r.0.gotLiveData == trip.gotLiveData && r.0.vehicleId == trip.vehicleId && r.0.stopTimes == trip.stopTimes
    ensures r.1 <==> r.0 != trip
  {
    (trip.(route := Some(route)), trip.route != Some(route))
  }

  /** Applying the same route twice saves nothing the second time. */
  lemma UpdateTripRouteIdempotent(trip: Trip, route: Route)
    ensures UpdateTripRoute(UpdateTripRoute(trip, route).0, route) == (UpdateTripRoute(trip, route).0, false)
  {
  }

  /** The position of the first instance on `date`, if any (`find`). */
  function FindTrip(trips: seq<Trip>, date: string): (r: Option<nat>)
    ensures r.Some? ==> r.value < |trips| && trips[r.value].tripDate == date
    ensures r.Some? ==> forall j :: 0 <= j < r.value ==> trips[j].tripDate != date
    ensures r.None? ==> forall j :: 0 <= j < |trips| ==> trips[j].tripDate != date
    decreases |trips|
  {
    if |trips| == 0 then None
    else if trips[0].tripDate == date then Some(0)
    else
      var r := FindTrip(trips[1..], date);
      if r.None? then None else Some(r.value + 1)
  }

  /** The dates a list of instances covers. */
  function DatesOf(trips: seq<Trip>): set<string> {
    set j | 0 <= j < |trips| :: trips[j].tripDate
  }

  /** A reference to an instance: its trip id and its position in that id's list. */
  datatype TripRef = TripRef(tripId: string, index: nat)

  /** The state of the trip loop: instances by trip id, created and saved instances in order. */
  datatype TripState = TripState(trips: map<string, seq<Trip>>, created: seq<TripRef>, saved: seq<TripRef>)

  ghost predicate RefsValid(st: TripState) {
    && (forall k :: 0 <= k < |st.created| ==> st.created[k].tripId in st.trips && st.created[k].index < |st.trips[st.created[k].tripId]|)
    && (forall k :: 0 <= k < |st.saved| ==> st.saved[k].tripId in st.trips && st.saved[k].index < |st.trips[st.saved[k].tripId]|)
  }

  /** The instances of trip id t, none when the id is unknown. */
  function TripsOf(st: TripState, t: string): seq<Trip> {
    if t in st.trips then st.trips[t] else []
  }

  lemma TripDaysStep(sourceId: string, st: TripState, tripId: string, route: Route, days: seq<int>, j: nat)
    requires forall k :: 0 <= k < |days| ==> InCalendarRange(days[k])
    requires j < |days|
    ensures TripDays(sourceId, st, tripId, route, days[..j + 1])
            == ApplyTripDay(sourceId, TripDays(sourceId, st, tripId, route, days[..j]), tripId, route, FormatYMD(days[j]))
  {
    assert days[..j + 1][..j] == days[..j];
  }

  /** One service date of a trip row: find the instance on that date and point it at the route, or create it. */
  function ApplyTripDay(sourceId: string, st: TripState, tripId: string, route: Route, date: string): TripState {
    var list := TripsOf(st, tripId);
    var found := FindTrip(list, date);
    if found.None? then
      TripState(st.trips[tripId := list + [NewTrip(sourceId, tripId, date, route)]],
                st.created + [TripRef(tripId, |list|)], st.saved)
    else
      var u := UpdateTripRoute(list[found.value], route);
      TripState(st.trips[tripId := list[found.value := u.0]], st.created,
                if u.1 then st.saved + [TripRef(tripId, found.value)] else st.saved)
  }

  /** The service days of a row in turn, each as its `YYYY-MM-DD` text. */
  function TripDays(sourceId: string, st: TripState, tripId: string, route: Route, days: seq<int>): TripState
    requires forall k :: 0 <= k < |days| ==> InCalendarRange(days[k])
    decreases |days|
  {
    if |days| == 0 then st
    else ApplyTripDay(sourceId, TripDays(sourceId, st, tripId, route, days[..|days| - 1]), tripId, route, FormatYMD(days[|days| - 1]))
  }

  /** A service day lies in the window when its UTC midnight is within [onOrAfter, onOrBefore]. */
  predicate InWindow(day: int, onOrAfter: int, onOrBefore: int) {
    onOrAfter <= day * MsPerDay <= onOrBefore
  }

  /** The service days inside the window, in order (`filter`). */
  function WindowDays(days: seq<int>, onOrAfter: int, onOrBefore: int): (r: seq<int>)
    ensures forall k :: 0 <= k < |r| ==> r[k] in days && InWindow(r[k], onOrAfter, onOrBefore)
    ensures forall d :: d in days && InWindow(d, onOrAfter, onOrBefore) ==> d in r
    decreases |days|
  {
    if |days| == 0 then []
    else
      var init := WindowDays(days[..|days| - 1], onOrAfter, onOrBefore);
      var last := days[|days| - 1];
      assert forall d :: d in days ==> d in days[..|days| - 1] || d == last;
      init + (if InWindow(last, onOrAfter, onOrBefore) then [last] else [])
  }

  /** The inputs every trip row is processed against. */
  datatype TripContext = TripContext(
    sourceId: string,
    routes: map<string, Route>,
    services: map<string, seq<int>>,
    onOrAfter: int,
    onOrBefore: int)

  /**
   * One trips.txt row: skipped when route_id, service_id or trip_id is
   * unset, when the route is not in the route map (out of scope), or when
   * the service id is unknown; otherwise each service day in the window.
   */
  function ApplyTripRow(ctx: TripContext, st: TripState, row: Row): TripState
    requires ServicesInRange(ctx.services)
  {
    var routeId := Field(row, "route_id");
    var serviceId := Field(row, "service_id");
    var tripId := Field(row, "trip_id");
    if routeId.None? || serviceId.None? || tripId.None? then st
    else if routeId.value !in ctx.routes || serviceId.value !in ctx.services then st
    else
      var days := WindowDays(ctx.services[serviceId.value], ctx.onOrAfter, ctx.onOrBefore);
      TripDays(ctx.sourceId, st, tripId.value, ctx.routes[routeId.value], days)
  }

  function TripRows(ctx: TripContext, st: TripState, rows: seq<Row>): TripState
    requires ServicesInRange(ctx.services)
    decreases |rows|
  {
    if |rows| == 0 then st
    else ApplyTripRow(ctx, TripRows(ctx, st, rows[..|rows| - 1]), rows[|rows| - 1])
  }

  /** The stored instances of the window grouped by trip id, in the order the store returned them. */
  function StoredTripMap(stored: seq<Trip>): map<string, seq<Trip>>
    decreases |stored|
  {
    if |stored| == 0 then map[]
    else
      var prev := StoredTripMap(stored[..|stored| - 1]);
      var trip := stored[|stored| - 1];
      prev[trip.gtfsTripId := (if trip.gtfsTripId in prev then prev[trip.gtfsTripId] else []) + [trip]]
  }

  function Resolve(st: TripState, refs: seq<TripRef>): seq<Trip>
    requires forall k :: 0 <= k < |refs| ==> refs[k].tripId in st.trips && refs[k].index < |st.trips[refs[k].tripId]|
  {
    seq(|refs|, k requires 0 <= k < |refs| => st.trips[refs[k].tripId][refs[k].index])
  }

  // ---------------------------------------------------------------------
  // The importer's loop

  lemma ApplyTripDayRefs(sourceId: string, st: TripState, tripId: string, route: Route, date: string)
    requires RefsValid(st)
    ensures RefsValid(ApplyTripDay(sourceId, st, tripId, route, date))
  {
  }

  /** The service days of a known service inside the window are calendar days inside the window. */
  lemma WindowDaysInRange(services: map<string, seq<int>>, id: string, onOrAfter: int, onOrBefore: int)
    requires ServicesInRange(services) && id in services
    ensures var days := WindowDays(services[id], onOrAfter, onOrBefore);
      forall k :: 0 <= k < |days| ==> InCalendarRange(days[k]) && InWindow(days[k], onOrAfter, onOrBefore)
  {
    var days := WindowDays(services[id], onOrAfter, onOrBefore);
    forall k | 0 <= k < |days|
      ensures InCalendarRange(days[k])
    {
      var j :| 0 <= j < |services[id]| && services[id][j] == days[k];
    }
  }

  /** One service date of a trip row: find the instance on that date and point it at the route, or create it. */
  method ProcessTripDay(sourceId: string, st: TripState, tripId: string, route: Route, tripDate: string) returns (st': TripState)
    requires RefsValid(st)
    ensures st' == ApplyTripDay(sourceId, st, tripId, route, tripDate) && RefsValid(st')
  {
    ApplyTripDayRefs(sourceId, st, tripId, route, tripDate);
    var list := TripsOf(st, tripId);
    var found := FindTrip(list, tripDate);
    if found.None? {
      st' := TripState(st.trips[tripId := list + [NewTrip(sourceId, tripId, tripDate, route)]],
                       st.created + [TripRef(tripId, |list|)], st.saved);
    } else {
      var u := UpdateTripRoute(list[found.value], route);
      st' := TripState(st.trips[tripId := list[found.value := u.0]], st.created,
                       if u.1 then st.saved + [TripRef(tripId, found.value)] else st.saved);
    }
  }

  /** One trip row, walking its service days in the window one at a time. */
  method ProcessTripRow(ctx: TripContext, st: TripState, row: Row) returns (st': TripState)
    requires ServicesInRange(ctx.services) && RefsValid(st)
    ensures st' == ApplyTripRow(ctx, st, row) && RefsValid(st')
  {
    st' := st;
    var routeId := Field(row, "route_id");
    var serviceId := Field(row, "service_id");
    var tripId := Field(row, "trip_id");
    if routeId.None? || serviceId.None? || tripId.None? {
      return;
    }
    if routeId.value !in ctx.routes {
      return;
    }
    var route := ctx.routes[routeId.value];
    if serviceId.value !in ctx.services {
      return;
    }
    var days := WindowDays(ctx.services[serviceId.value], ctx.onOrAfter, ctx.onOrBefore);
    WindowDaysInRange(ctx.services, serviceId.value, ctx.onOrAfter, ctx.onOrBefore);
    for j := 0 to |days|
      invariant st' == TripDays(ctx.sourceId, st, tripId.value, route, days[..j]) && RefsValid(st')
    {
      TripDaysStep(ctx.sourceId, st, tripId.value, route, days, j);
      MidnightYMD(days[j]);
      var tripDate := UtcDateToYMDFormat(days[j] * MsPerDay);
      st' := ProcessTripDay(ctx.sourceId, st', tripId.value, route, tripDate);
    }
    assert days[..|days|] == days;
  }

  /**
   * `getOrGenerateTrips`: the instances by trip id, the created instances
   * passed to `bulkCreateTrips` (as they stand after the loop), and the
   * instances whose route update saved.
   */
  method GetOrGenerateTrips(sourceId: string, rows: seq<Row>, calendar: seq<Row>, calendarDates: seq<Row>,
                            routes: map<string, Route>, onOrAfter: int, onOrBefore: int, stored: seq<Trip>)
    returns (tripMap: map<string, seq<Trip>>, newTrips: seq<Trip>, saved: seq<Trip>)
    ensures var ctx := TripContext(sourceId, routes, ServiceDays(calendar, calendarDates), onOrAfter, onOrBefore);
      && ServicesInRange(ctx.services)
      && var st := TripRows(ctx, TripState(StoredTripMap(stored), [], []), rows);
      && RefsValid(st)
      && tripMap == st.trips && newTrips == Resolve(st, st.created) && saved == Resolve(st, st.saved)
  {
    var services := GetServiceIdsPerDay(calendar, calendarDates);
    ServiceDaysInRange(calendar, calendarDates);
    var ctx := TripContext(sourceId, routes, services, onOrAfter, onOrBefore);
    var grouped: map<string, seq<Trip>> := map[];
    for i := 0 to |stored|
      invariant grouped == StoredTripMap(stored[..i])
    {
      assert stored[..i + 1][..i] == stored[..i];
      var existing := if stored[i].gtfsTripId in grouped then grouped[stored[i].gtfsTripId] else [];
      grouped := grouped[stored[i].gtfsTripId := existing + [stored[i]]];
    }
    assert stored[..|stored|] == stored;
    var st := TripState(grouped, [], []);
    for i := 0 to |rows|
      invariant st == TripRows(ctx, TripState(grouped, [], []), rows[..i]) && RefsValid(st)
    {
      assert rows[..i + 1][..i] == rows[..i];
      st := ProcessTripRow(ctx, st, rows[i]);
    }
    assert rows[..|rows|] == rows;
    tripMap := st.trips;
    newTrips := Resolve(st, st.created);
    saved := Resolve(st, st.saved);
  }

  // ---------------------------------------------------------------------
  // Properties

  /** No two instances of one trip id share a date. */
  ghost predicate OneInstancePerDate(trips: map<string, seq<Trip>>) {
    forall t, i, j :: t in trips && 0 <= i < j < |trips[t]| ==> trips[t][i].tripDate != trips[t][j].tripDate
  }

  lemma ApplyTripDayKeepsDistinct(sourceId: string, st: TripState, tripId: string, route: Route, date: string)
    requires OneInstancePerDate(st.trips)
    ensures OneInstancePerDate(ApplyTripDay(sourceId, st, tripId, route, date).trips)
  {
  }

  lemma {:induction false} TripDaysKeepsDistinct(sourceId: string, st: TripState, tripId: string, route: Route, days: seq<int>)
    requires forall k :: 0 <= k < |days| ==> InCalendarRange(days[k])
    requires OneInstancePerDate(st.trips)
    ensures OneInstancePerDate(TripDays(sourceId, st, tripId, route, days).trips)
    decreases |days|
  {
    if |days| > 0 {
      TripDaysKeepsDistinct(sourceId, st, tripId, route, days[..|days| - 1]);
      ApplyTripDayKeepsDistinct(sourceId, TripDays(sourceId, st, tripId, route, days[..|days| - 1]), tripId, route, FormatYMD(days[|days| - 1]));
    }
  }

  /**
   * At most one instance per (trip id, date): when the stored instances
   * have distinct dates per trip id, so do the instances after every row,
   * even when a trip row or a service day repeats.
   */
  lemma {:induction false} TripRowsKeepDistinct(ctx: TripContext, st: TripState, rows: seq<Row>)
    requires ServicesInRange(ctx.services)
    requires OneInstancePerDate(st.trips)
    ensures OneInstancePerDate(TripRows(ctx, st, rows).trips)
    decreases |rows|
  {
    if |rows| > 0 {
      var prev := TripRows(ctx, st, rows[..|rows| - 1]);
      TripRowsKeepDistinct(ctx, st, rows[..|rows| - 1]);
      var row := rows[|rows| - 1];
      var routeId := Field(row, "route_id");
      var serviceId := Field(row, "service_id");
      var tripId := Field(row, "trip_id");
      if routeId.Some? && serviceId.Some? && tripId.Some? && routeId.value in ctx.routes && serviceId.value in ctx.services {
        var days := WindowDays(ctx.services[serviceId.value], ctx.onOrAfter, ctx.onOrBefore);
        TripDaysKeepsDistinct(ctx.sourceId, prev, tripId.value, ctx.routes[routeId.value], days);
      }
    }
  }

  /** A date that an instance of t covers stays covered; no trip id is dropped. */
  ghost predicate Covers(before: TripState, after: TripState) {
    forall t :: t in before.trips ==> t in after.trips && DatesOf(before.trips[t]) <= DatesOf(after.trips[t])
  }

  lemma ApplyTripDayCovers(sourceId: string, st: TripState, tripId: string, route: Route, date: string)
    ensures var after := ApplyTripDay(sourceId, st, tripId, route, date);
      Covers(st, after) && tripId in after.trips && date in DatesOf(after.trips[tripId])
  {
    var after := ApplyTripDay(sourceId, st, tripId, route, date);
    var list := TripsOf(st, tripId);
    var found := FindTrip(list, date);
    if found.None? {
      assert after.trips[tripId][|list|].tripDate == date;
      forall x | x in DatesOf(list)
        ensures x in DatesOf(after.trips[tripId])
      {
        var j :| 0 <= j < |list| && list[j].tripDate == x;
        assert after.trips[tripId][j] == list[j];
      }
    } else {
      assert after.trips[tripId][found.value].tripDate == date;
      forall x | x in DatesOf(list)
        ensures x in DatesOf(after.trips[tripId])
      {
        var j :| 0 <= j < |list| && list[j].tripDate == x;
        assert after.trips[tripId][j].tripDate == x;
      }
    }
  }

  /** Every service day of the row ends up covered by an instance of the trip, dated as that day. */
  lemma {:induction false} TripDaysCover(sourceId: string, st: TripState, tripId: string, route: Route, days: seq<int>)
    requires forall k :: 0 <= k < |days| ==> InCalendarRange(days[k])
    ensures var after := TripDays(sourceId, st, tripId, route, days);
      && Covers(st, after)
      && (|days| > 0 ==> tripId in after.trips)
      && forall k :: 0 <= k < |days| ==> tripId in after.trips && FormatYMD(days[k]) in DatesOf(after.trips[tripId])
    decreases |days|
  {
    if |days| > 0 {
      var init := days[..|days| - 1];
      var mid := TripDays(sourceId, st, tripId, route, init);
      TripDaysCover(sourceId, st, tripId, route, init);
      ApplyTripDayCovers(sourceId, mid, tripId, route, FormatYMD(days[|days| - 1]));
      forall k | 0 <= k < |days| - 1
        ensures FormatYMD(days[k]) in DatesOf(TripDays(sourceId, st, tripId, route, days).trips[tripId])
      {
        assert days[k] == init[k];
      }
    }
  }

  /** One trips.txt row loses no instance. */
  lemma ApplyTripRowCovers(ctx: TripContext, st: TripState, row: Row)
    requires ServicesInRange(ctx.services)
    ensures Covers(st, ApplyTripRow(ctx, st, row))
  {
    var routeId := Field(row, "route_id");
    var serviceId := Field(row, "service_id");
    var tripId := Field(row, "trip_id");
    if routeId.Some? && serviceId.Some? && tripId.Some? && routeId.value in ctx.routes && serviceId.value in ctx.services {
      var days := WindowDays(ctx.services[serviceId.value], ctx.onOrAfter, ctx.onOrBefore);
      WindowDaysInRange(ctx.services, serviceId.value, ctx.onOrAfter, ctx.onOrBefore);
      TripDaysCover(ctx.sourceId, st, tripId.value, ctx.routes[routeId.value], days);
    }
  }

  lemma {:induction false} TripRowsCovers(ctx: TripContext, st: TripState, rows: seq<Row>)
    requires ServicesInRange(ctx.services)
    ensures Covers(st, TripRows(ctx, st, rows))
    decreases |rows|
  {
    if |rows| > 0 {
      TripRowsCovers(ctx, st, rows[..|rows| - 1]);
      ApplyTripRowCovers(ctx, TripRows(ctx, st, rows[..|rows| - 1]), rows[|rows| - 1]);
    }
  }

  /** A trips.txt row that is processed: its three ids are set, its route is in scope and its service known. */
  predicate ProcessedRow(ctx: TripContext, row: Row) {
    && Field(row, "route_id").Some? && Field(row, "service_id").Some? && Field(row, "trip_id").Some?
    && row["route_id"] in ctx.routes && row["service_id"] in ctx.services
  }

  /**
   * Completeness: for a processed row, every day of its service inside the
   * window has an instance of its trip id dated that day after the loop.
   */
  /** A processed row gives its trip an instance on each of its service days in the window. */
  lemma ProcessedRowCovers(ctx: TripContext, st: TripState, row: Row, d: int)
    requires ServicesInRange(ctx.services) && ProcessedRow(ctx, row)
    requires d in ctx.services[row["service_id"]] && InWindow(d, ctx.onOrAfter, ctx.onOrBefore)
    ensures InCalendarRange(d)
    ensures var after := ApplyTripRow(ctx, st, row);
      row["trip_id"] in after.trips && FormatYMD(d) in DatesOf(after.trips[row["trip_id"]])
  {
    var days := WindowDays(ctx.services[row["service_id"]], ctx.onOrAfter, ctx.onOrBefore);
    var m :| 0 <= m < |days| && days[m] == d;
    WindowDaysInRange(ctx.services, row["service_id"], ctx.onOrAfter, ctx.onOrBefore);
    TripDaysCover(ctx.sourceId, st, row["trip_id"], ctx.routes[row["route_id"]], days);
  }

  lemma {:induction false} EveryWindowDayHasInstance(ctx: TripContext, st: TripState, rows: seq<Row>, k: nat, d: int)
    requires ServicesInRange(ctx.services)
    requires k < |rows| && ProcessedRow(ctx, rows[k])
    requires d in ctx.services[rows[k]["service_id"]] && InWindow(d, ctx.onOrAfter, ctx.onOrBefore)
    ensures InCalendarRange(d)
    ensures var after := TripRows(ctx, st, rows);
      rows[k]["trip_id"] in after.trips && FormatYMD(d) in DatesOf(after.trips[rows[k]["trip_id"]])
    decreases |rows|
  {
    var init := rows[..|rows| - 1];
    var prev := TripRows(ctx, st, init);
    if k == |rows| - 1 {
      ProcessedRowCovers(ctx, prev, rows[k], d);
    } else {
      assert init[k] == rows[k];
      EveryWindowDayHasInstance(ctx, st, init, k, d);
      ApplyTripRowCovers(ctx, prev, rows[|rows| - 1]);
    }
  }

  /**
   * A row gives trip id `t` the date `x`: the row is processed, names `t`,
   * and `x` is the YYYY-MM-DD of a day of the row's service inside the window.
   */
  ghost predicate RowGivesDate(ctx: TripContext, row: Row, t: string, x: string) {
    && ProcessedRow(ctx, row) && row["trip_id"] == t
    && exists d :: d in ctx.services[row["service_id"]] && InCalendarRange(d) && InWindow(d, ctx.onOrAfter, ctx.onOrBefore)
                   && FormatYMD(d) == x
  }

  /** Trip id `t` has an instance on date `x` in `st`. */
  ghost predicate Had(st: TripState, t: string, x: string) {
    t in st.trips && x in DatesOf(st.trips[t])
  }

  /** Every date an instance carries after the rows was stored already or is given to its trip id by one of the rows. */
  ghost predicate DatesFromRows(ctx: TripContext, before: TripState, after: TripState, rows: seq<Row>) {
    forall t, j :: t in after.trips && 0 <= j < |after.trips[t]| ==>
      Had(before, t, after.trips[t][j].tripDate)
      || exists k :: 0 <= k < |rows| && RowGivesDate(ctx, rows[k], t, after.trips[t][j].tripDate)
  }

  /** From `before` to `after`, the only dates that appear are dates in `dates` of trip id `tripId`. */
  ghost predicate OnlyAdds(before: TripState, after: TripState, tripId: string, dates: set<string>) {
    forall t, j :: t in after.trips && 0 <= j < |after.trips[t]| ==>
      Had(before, t, after.trips[t][j].tripDate)
      || (t == tripId && after.trips[t][j].tripDate in dates)
  }

  lemma OnlyAddsTrans(a: TripState, b: TripState, c: TripState, tripId: string, d1: set<string>, d2: set<string>)
    requires OnlyAdds(a, b, tripId, d1) && OnlyAdds(b, c, tripId, d2)
    ensures OnlyAdds(a, c, tripId, d1 + d2)
  {
    forall t, j | t in c.trips && 0 <= j < |c.trips[t]|
      ensures Had(a, t, c.trips[t][j].tripDate) || (t == tripId && c.trips[t][j].tripDate in d1 + d2)
    {
      var x := c.trips[t][j].tripDate;
      if Had(b, t, x) {
        var j' :| 0 <= j' < |b.trips[t]| && b.trips[t][j'].tripDate == x;
        assert Had(a, t, b.trips[t][j'].tripDate) || (t == tripId && b.trips[t][j'].tripDate in d1);
      } else {
        assert t == tripId && x in d2;
      }
    }
  }

  /** The YYYY-MM-DD texts of a list of days. */
  ghost function DatesOfDays(days: seq<int>): set<string>
    requires forall k :: 0 <= k < |days| ==> InCalendarRange(days[k])
    decreases |days|
  {
    if |days| == 0 then {} else DatesOfDays(days[..|days| - 1]) + {FormatYMD(days[|days| - 1])}
  }

  /** A date of a list of days is the text of one of them. */
  lemma {:induction false} DatesOfDaysMembership(days: seq<int>, x: string)
    requires forall k :: 0 <= k < |days| ==> InCalendarRange(days[k])
    requires x in DatesOfDays(days)
    ensures exists m :: 0 <= m < |days| && FormatYMD(days[m]) == x
    decreases |days|
  {
    var init := days[..|days| - 1];
    if x != FormatYMD(days[|days| - 1]) {
      DatesOfDaysMembership(init, x);
      var m :| 0 <= m < |init| && FormatYMD(init[m]) == x;
      assert init[m] == days[m];
    }
  }

  /** One service date adds no date but its own, and only to its trip id. */
  lemma ApplyTripDayDates(sourceId: string, st: TripState, tripId: string, route: Route, date: string)
    ensures OnlyAdds(st, ApplyTripDay(sourceId, st, tripId, route, date), tripId, {date})
  {
    var after := ApplyTripDay(sourceId, st, tripId, route, date);
    forall t, j | t in after.trips && 0 <= j < |after.trips[t]| && !(t == tripId && after.trips[t][j].tripDate == date)
      ensures Had(st, t, after.trips[t][j].tripDate)
    {
      if t == tripId {
        var list := TripsOf(st, tripId);
        assert j < |list| && list[j].tripDate == after.trips[t][j].tripDate;
      }
    }
  }

  /** The service days of a row add to its trip id only the dates of those days. */
  lemma {:induction false} TripDaysDates(sourceId: string, st: TripState, tripId: string, route: Route, days: seq<int>)
    requires forall k :: 0 <= k < |days| ==> InCalendarRange(days[k])
    ensures OnlyAdds(st, TripDays(sourceId, st, tripId, route, days), tripId, DatesOfDays(days))
    decreases |days|
  {
    if |days| > 0 {
      var init := days[..|days| - 1];
      var last := days[|days| - 1];
      var mid := TripDays(sourceId, st, tripId, route, init);
      TripDaysDates(sourceId, st, tripId, route, init);
      ApplyTripDayDates(sourceId, mid, tripId, route, FormatYMD(last));
      assert TripDays(sourceId, st, tripId, route, days) == ApplyTripDay(sourceId, mid, tripId, route, FormatYMD(last));
      OnlyAddsTrans(st, mid, TripDays(sourceId, st, tripId, route, days), tripId, DatesOfDays(init), {FormatYMD(last)});
    }
  }

  /** One trips.txt row adds to a trip id only dates it gives that trip id. */
  lemma ApplyTripRowDates(ctx: TripContext, st: TripState, row: Row)
    requires ServicesInRange(ctx.services)
    ensures var after := ApplyTripRow(ctx, st, row);
      forall t, j :: t in after.trips && 0 <= j < |after.trips[t]| ==>
        Had(st, t, after.trips[t][j].tripDate) || RowGivesDate(ctx, row, t, after.trips[t][j].tripDate)
  {
    if ProcessedRow(ctx, row) {
      var days := WindowDays(ctx.services[row["service_id"]], ctx.onOrAfter, ctx.onOrBefore);
      WindowDaysInRange(ctx.services, row["service_id"], ctx.onOrAfter, ctx.onOrBefore);
      TripDaysDates(ctx.sourceId, st, row["trip_id"], ctx.routes[row["route_id"]], days);
      var after := ApplyTripRow(ctx, st, row);
      assert after == TripDays(ctx.sourceId, st, row["trip_id"], ctx.routes[row["route_id"]], days);
      forall t, j | t in after.trips && 0 <= j < |after.trips[t]| && !Had(st, t, after.trips[t][j].tripDate)
        ensures RowGivesDate(ctx, row, t, after.trips[t][j].tripDate)
      {
        var x := after.trips[t][j].tripDate;
        DatesOfDaysMembership(days, x);
        var m :| 0 <= m < |days| && FormatYMD(days[m]) == x;
        assert days[m] in ctx.services[row["service_id"]] && InWindow(days[m], ctx.onOrAfter, ctx.onOrBefore);
      }
    }
  }

  /**
   * Soundness of the window: after the loop every date an instance carries
   * was stored already, or is a service day inside the window of the service
   * of a processed row naming that trip id.
   */
  lemma {:induction false} InstancesOnlyInWindow(ctx: TripContext, st: TripState, rows: seq<Row>)
    requires ServicesInRange(ctx.services)
    ensures DatesFromRows(ctx, st, TripRows(ctx, st, rows), rows)
    decreases |rows|
  {
    if |rows| > 0 {
      var init := rows[..|rows| - 1];
      var prev := TripRows(ctx, st, init);
      InstancesOnlyInWindow(ctx, st, init);
      ApplyTripRowDates(ctx, prev, rows[|rows| - 1]);
      assert forall k :: 0 <= k < |init| ==> init[k] == rows[k];
    }
  }
}
