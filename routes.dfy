/**
 * `getOrGenerateRoutes`: find-or-create of the routes of routes.txt that are
 * in scope, keyed by GTFS route id, starting from the stored routes.
 */
module RouteImport {
  import opened Common
  import opened Utils
  import opened Entities

  /** The fields a routes.txt row yields, or None when the row is skipped for a missing field. */
  datatype RouteFields = RouteFields(id: string, routeName: string, routeLongName: string, agencyId: string)

  /**
   * routeName is the short name, else the long name; routeLongName the long
   * name, else the short name; agencyId defaults to ''. A row without
   * route_id, or with neither name, yields nothing.
   */
  function RouteFieldsOf(row: Row): (r: Option<RouteFields>)
    ensures r.Some? <==> Field(row, "route_id").Some?
                         && (Field(row, "route_short_name").Some? || Field(row, "route_long_name").Some?)
    ensures r.Some? ==> r.value.routeName != "" && r.value.routeLongName != ""
  {
    var id := Field(row, "route_id");
    var routeName := OrElse(Field(row, "route_short_name"), Field(row, "route_long_name"));
    var routeLongName := OrElse(Field(row, "route_long_name"), Field(row, "route_short_name"));
    var agencyId := Field(row, "agency_id").GetOr("");
    if id.None? || routeName.None? || routeLongName.None? then None
    else Some(RouteFields(id.value, routeName.value, routeLongName.value, agencyId))
  }

  /** `Route.newRoute`. */
  function NewRoute(sourceId: string, f: RouteFields): Route {
    Route(sourceId, f.id, f.routeName, f.routeLongName, f.agencyId)
  }

  /**
   * `updateFieldsIfNecessary` (the route entity's own method): the route
   * keeps its source and id and takes the row's names and agency; it is
   * saved exactly when one of the three differed.
   */
  function UpdateRouteFields(route: Route, f: RouteFields): (r: (Route, bool))
    ensures r.0.sourceId == route.sourceId && r.0.gtfsRouteId == route.gtfsRouteId
    ensures r.0.routeName == f.routeName && r.0.routeLongName == f.routeLongName && r.0.agencyId == f.agencyId
    ensures r.1 <==> route.routeName != f.routeName || route.routeLongName != f.routeLongName || route.agencyId != f.agencyId
  {
    var updated := route.(routeName := f.routeName, routeLongName := f.routeLongName, agencyId := f.agencyId);
    (updated, updated != route)
  }

  /** Applying the same row twice saves nothing the second time and leaves the route as the first time did. */
  lemma UpdateRouteFieldsIdempotent(route: Route, f: RouteFields)
    ensures UpdateRouteFields(UpdateRouteFields(route, f).0, f) == (UpdateRouteFields(route, f).0, false)
  {
  }

  /** The state of the route loop: the route map, the ids created in order, and the ids of saved updates. */
  datatype RouteState = RouteState(routes: map<string, Route>, created: seq<string>, saved: seq<string>)

  /** The stored routes in scope, keyed by id (a later route of the same id wins). */
  function StoredRouteMap(stored: seq<Route>, scope: set<string>): map<string, Route>
    decreases |stored|
  {
    if |stored| == 0 then map[]
    else
      var prev := StoredRouteMap(stored[..|stored| - 1], scope);
      var route := stored[|stored| - 1];
      if ShouldProcessRoute(scope, route.gtfsRouteId) then prev[route.gtfsRouteId := route] else prev
  }

  function ApplyRouteRow(sourceId: string, scope: set<string>, st: RouteState, row: Row): RouteState {
    var f := RouteFieldsOf(row);
    if f.None? || !ShouldProcessRoute(scope, f.value.id) then st
    else if f.value.id !in st.routes then
      RouteState(st.routes[f.value.id := NewRoute(sourceId, f.value)], st.created + [f.value.id], st.saved)
    else
      var u := UpdateRouteFields(st.routes[f.value.id], f.value);
      RouteState(st.routes[f.value.id := u.0], st.created, if u.1 then st.saved + [f.value.id] else st.saved)
  }

  function RouteRows(sourceId: string, scope: set<string>, st: RouteState, rows: seq<Row>): RouteState
    decreases |rows|
  {
    if |rows| == 0 then st
    else ApplyRouteRow(sourceId, scope, RouteRows(sourceId, scope, st, rows[..|rows| - 1]), rows[|rows| - 1])
  }

  /** The list handed to `bulkCreateRoutes`: the created routes, as they stand after the loop. */
  function CreatedRoutes(st: RouteState): seq<Route>
    requires forall k :: 0 <= k < |st.created| ==> st.created[k] in st.routes
  {
    seq(|st.created|, k requires 0 <= k < |st.created| => st.routes[st.created[k]])
  }

  /** The route loop keeps: created ids are distinct, mapped, and were not stored; every key is in scope. */
  ghost predicate RouteStateValid(st: RouteState, initial: map<string, Route>, scope: set<string>) {
    && (forall id :: id in st.routes ==> ShouldProcessRoute(scope, id))
    && (forall k :: 0 <= k < |st.created| ==> st.created[k] in st.routes && st.created[k] !in initial)
    && (forall i, j :: 0 <= i < j < |st.created| ==> st.created[i] != st.created[j])
    && (forall id :: id in st.routes ==> id in initial || id in st.created)
    && initial.Keys <= st.routes.Keys
  }

  /**
   * `getOrGenerateRoutes`: the route map and the calls it makes, the routes
   * passed to `bulkCreateRoutes` and the ids of routes whose update saved.
   */
  method GetOrGenerateRoutes(sourceId: string, rows: seq<Row>, scope: set<string>, stored: seq<Route>)
    returns (routeMap: map<string, Route>, newRoutes: seq<Route>, saved: seq<string>)
    ensures var st := RouteRows(sourceId, scope, RouteState(StoredRouteMap(stored, scope), [], []), rows);
      && RouteStateValid(st, StoredRouteMap(stored, scope), scope)
      && routeMap == st.routes && newRoutes == CreatedRoutes(st) && saved == st.saved
  {
    routeMap := map[];
    for i := 0 to |stored|
      invariant routeMap == StoredRouteMap(stored[..i], scope)
    {
      assert stored[..i + 1][..i] == stored[..i];
      if ShouldProcessRoute(scope, stored[i].gtfsRouteId) {
        routeMap := routeMap[stored[i].gtfsRouteId := stored[i]];
      }
    }
    assert stored[..|stored|] == stored;
    ghost var initial := routeMap;
    StoredRoutesInScope(stored, scope);
    var created: seq<string> := [];
    saved := [];
    for i := 0 to |rows|
      invariant RouteState(routeMap, created, saved) == RouteRows(sourceId, scope, RouteState(initial, [], []), rows[..i])
    {
      assert rows[..i + 1][..i] == rows[..i];
      var row := rows[i];
      var f := RouteFieldsOf(row);
      if f.None? || !ShouldProcessRoute(scope, f.value.id) {
        continue;
      }
      if f.value.id !in routeMap {
        routeMap := routeMap[f.value.id := NewRoute(sourceId, f.value)];
        created := created + [f.value.id];
      } else {
        var u := UpdateRouteFields(routeMap[f.value.id], f.value);
        routeMap := routeMap[f.value.id := u.0];
        if u.1 {
          saved := saved + [f.value.id];
        }
      }
    }
    assert rows[..|rows|] == rows;
    RouteRowsValid(sourceId, scope, initial, rows);
    newRoutes := seq(|created|, k requires 0 <= k < |created| => routeMap[created[k]]);
  }

  /** One row keeps the route loop's invariant. */
  lemma ApplyRouteRowValid(sourceId: string, scope: set<string>, st: RouteState, row: Row, initial: map<string, Route>)
    requires RouteStateValid(st, initial, scope)
    ensures RouteStateValid(ApplyRouteRow(sourceId, scope, st, row), initial, scope)
  {
  }

  /** The route loop keeps its invariant over any rows, from stored routes in scope. */
  lemma {:induction false} RouteRowsValid(sourceId: string, scope: set<string>, initial: map<string, Route>, rows: seq<Row>)
    requires forall id :: id in initial ==> ShouldProcessRoute(scope, id)
    ensures RouteStateValid(RouteRows(sourceId, scope, RouteState(initial, [], []), rows), initial, scope)
    decreases |rows|
  {
    if |rows| > 0 {
      RouteRowsValid(sourceId, scope, initial, rows[..|rows| - 1]);
      ApplyRouteRowValid(sourceId, scope, RouteRows(sourceId, scope, RouteState(initial, [], []), rows[..|rows| - 1]), rows[|rows| - 1], initial);
    }
  }

  lemma {:induction false} StoredRoutesInScope(stored: seq<Route>, scope: set<string>)
    ensures forall id :: id in StoredRouteMap(stored, scope) ==> ShouldProcessRoute(scope, id)
    decreases |stored|
  {
    if |stored| > 0 {
      StoredRoutesInScope(stored[..|stored| - 1], scope);
    }
  }

  /** The row that last names an in-scope route id decides that route's names and agency. */
  predicate LastRowFor(rows: seq<Row>, scope: set<string>, id: string, k: nat) {
    && k < |rows|
    && RouteFieldsOf(rows[k]).Some? && RouteFieldsOf(rows[k]).value.id == id
    && ShouldProcessRoute(scope, id)
    && forall j :: k < j < |rows| ==> RouteFieldsOf(rows[j]).None? || RouteFieldsOf(rows[j]).value.id != id
  }

  /**
   * Every in-scope route id named by a valid row ends up in the map with
   * the fields of the last such row, whether it was stored or created.
   */
  lemma {:induction false} LastRowWins(sourceId: string, scope: set<string>, st: RouteState, rows: seq<Row>, id: string, k: nat)
    requires LastRowFor(rows, scope, id, k)
    ensures var f := RouteFieldsOf(rows[k]).value;
      var r := RouteRows(sourceId, scope, st, rows).routes;
      && id in r && r[id].routeName == f.routeName && r[id].routeLongName == f.routeLongName
      && r[id].agencyId == f.agencyId
    decreases |rows|
  {
    var init := rows[..|rows| - 1];
    if k < |rows| - 1 {
      assert LastRowFor(init, scope, id, k) by {
        forall j | k < j < |init|
          ensures RouteFieldsOf(init[j]).None? || RouteFieldsOf(init[j]).value.id != id
        {
          assert init[j] == rows[j];
        }
      }
      LastRowWins(sourceId, scope, st, init, id, k);
      assert rows[k] == init[k];
    }
  }

  /** One row creates `id` exactly when it names it, in scope, and it is not yet mapped. */
  lemma ApplyRouteRowCreated(sourceId: string, scope: set<string>, st: RouteState, row: Row, id: string)
    ensures id in ApplyRouteRow(sourceId, scope, st, row).created
      <==> id in st.created
           || (id !in st.routes && ShouldProcessRoute(scope, id) && RouteFieldsOf(row).Some? && RouteFieldsOf(row).value.id == id)
  {
  }

  /**
   * A route id is created exactly when it was not stored in scope and some
   * valid in-scope row names it.
   */
  lemma {:induction false} CreatedExactly(sourceId: string, scope: set<string>, initial: map<string, Route>, rows: seq<Row>, id: string)
    ensures id in RouteRows(sourceId, scope, RouteState(initial, [], []), rows).created
      <==> id !in initial && ShouldProcessRoute(scope, id)
           && exists k :: 0 <= k < |rows| && RouteFieldsOf(rows[k]).Some? && RouteFieldsOf(rows[k]).value.id == id
    decreases |rows|
  {
    if |rows| > 0 {
      var init := rows[..|rows| - 1];
      CreatedExactly(sourceId, scope, initial, init, id);
      CreatedStaysMapped(sourceId, scope, initial, init);
      ApplyRouteRowCreated(sourceId, scope, RouteRows(sourceId, scope, RouteState(initial, [], []), init), rows[|rows| - 1], id);
      assert forall k :: 0 <= k < |init| ==> init[k] == rows[k];
    }
  }

  /** The map's keys are the initial keys and the created ids, each created id not initial. */
  lemma {:induction false} CreatedStaysMapped(sourceId: string, scope: set<string>, initial: map<string, Route>, rows: seq<Row>)
    ensures var st := RouteRows(sourceId, scope, RouteState(initial, [], []), rows);
      && (forall id :: id in st.routes <==> id in initial || id in st.created)
      && (forall id :: id in st.created ==> id !in initial)
    decreases |rows|
  {
    if |rows| > 0 {
      CreatedStaysMapped(sourceId, scope, initial, rows[..|rows| - 1]);
    }
  }
}
