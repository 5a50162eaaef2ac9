/**
 * `GtfsRealtimeImporter`: matches the stop-time updates of a GTFS-realtime
 * trip-updates feed to the stored stop times of the closest trip instance,
 * and collects the actual times and data times to write, and the trip
 * instances whose live-data flag or vehicle changed.
 *
 * The message types hold the fields the importer reads, as the generated
 * protobuf classes decode them (section "TripUpdate" of the GTFS Realtime
 * Reference: StopTimeUpdate, StopTimeEvent, TripDescriptor): an unset
 * scalar field reads as its default, 0 or "", an unset message field is
 * None, and an unset repeated field is the empty list.
 */
module RealtimeImport {
  import opened Common
  import opened Utils
  import opened Entities

  /** `ScheduleRelationship.SCHEDULED`, the same value in TripDescriptor and StopTimeUpdate. */
  const Scheduled: int := 0

  datatype StopTimeEvent = StopTimeEvent(time: int, delay: int)

  datatype StopTimeUpdate = StopTimeUpdate(
    stopSequence: int,
    stopId: string,
    arrival: Option<StopTimeEvent>,
    departure: Option<StopTimeEvent>,
    scheduleRelationship: int)

  datatype TripDescriptor = TripDescriptor(tripId: string, scheduleRelationship: int)

  datatype VehicleDescriptor = VehicleDescriptor(id: string)

  datatype TripUpdate = TripUpdate(
    trip: Option<TripDescriptor>,
    vehicle: Option<VehicleDescriptor>,
    stopTimeUpdates: seq<StopTimeUpdate>)

  datatype FeedEntity = FeedEntity(tripUpdate: Option<TripUpdate>)

  /** A relationship passes when it is falsy or SCHEDULED, which is 0 either way. */
  predicate IsScheduled(relationship: int) {
    relationship == Scheduled
  }

  /** A string field is truthy when it is not empty. */
  predicate Truthy(s: string) {
    s != ""
  }

  // ---------------------------------------------------------------------
  // processStopTimeUpdates

  /**
   * A stored stop time is the target of an update when its stop_sequence
   * is the update's or its stop id is the update's; an unset stop_sequence
   * compares as 0 and an unset stop_id as "".
   */
  predicate Targets(st: StopTime, u: StopTimeUpdate) {
    st.stopSequence == u.stopSequence || st.stopGtfsStopId == Some(u.stopId)
  }

  /** The first stop time an update targets (`find`). */
  function FindTarget(stopTimes: seq<StopTime>, u: StopTimeUpdate): (r: Option<nat>)
    ensures r.Some? ==> r.value < |stopTimes| && Targets(stopTimes[r.value], u)
                        && forall j :: 0 <= j < r.value ==> !Targets(stopTimes[j], u)
    ensures r.None? ==> forall j :: 0 <= j < |stopTimes| ==> !Targets(stopTimes[j], u)
    decreases |stopTimes|
  {
    if |stopTimes| == 0 then None
    else if Targets(stopTimes[0], u) then Some(0)
    else
      var r := FindTarget(stopTimes[1..], u);
      if r.None? then None else Some(r.value + 1)
  }

  /**
   * An update that gives only a stop id still compares its stop_sequence,
   * read as 0: a stop time with sequence 0 placed before the named stop is
   * the one it matches.
   */
  lemma StopIdOnlyMatchesSequenceZero(a: StopTime, b: StopTime, u: StopTimeUpdate)
    requires a.stopSequence == 0 && a.stopGtfsStopId == Some("A")
    requires b.stopSequence == 1 && b.stopGtfsStopId == Some("B")
    requires u.stopSequence == 0 && u.stopId == "B"
    ensures FindTarget([a, b], u) == Some(0)
    ensures Targets(b, u)
  {
  }

  /** The event the live time is read from: the arrival when present, else the departure. */
  function LiveEvent(u: StopTimeUpdate): Option<StopTimeEvent> {
    if u.arrival.Some? then u.arrival else u.departure
  }

  /**
   * The live time of an update for a stop time: the event's time when
   * non-zero, else the stop time's scheduled time plus the event's delay
   * (which reads 0 when unset, so the source's missing-delay branch is never
   * taken on a decoded event); none without an event.
   */
  function LiveTime(st: StopTime, u: StopTimeUpdate): (r: Option<int>)
    ensures r.Some? <==> LiveEvent(u).Some?
  {
    var event := LiveEvent(u);
    if event.None? then None
    else if event.value.time != 0 then Some(event.value.time)
    else Some(st.scheduledTime + event.value.delay)
  }

  /** The key a stop time's pending write is filed under: its id (a stored stop time has one). */
  function IdKey(st: StopTime): string {
    st.id.GetOr("undefined")
  }

  /** The pending writes: actual times and data times by stop-time id; `updated` once anything was recorded. */
  datatype Pending = Pending(updated: bool, actual: map<string, int>, lastUpdated: map<string, int>)

  /** The stop time an update applies to, with its live time; none when the update is ignored. */
  function Resolved(trip: Trip, u: StopTimeUpdate): Option<(StopTime, int)> {
    if !IsScheduled(u.scheduleRelationship) || trip.stopTimes.None? then None
    else
      var k := FindTarget(trip.stopTimes.value, u);
      if k.None? then None
      else
        var st := trip.stopTimes.value[k.value];
        var live := LiveTime(st, u);
        if live.None? then None else Some((st, live.value))
  }

  /**
   * One stop-time update: the data time is recorded when the stored one
   * differs from the feed time, the actual time when the stored one differs
   * from the live time.
   */
  function ApplyUpdate(trip: Trip, updateTime: int, p: Pending, u: StopTimeUpdate): Pending {
    var r := Resolved(trip, u);
    if r.None? then p
    else
      var (st, live) := r.value;
      var stampDiffers := st.lastUpdatedDataTime != Some(updateTime);
      var timeDiffers := st.actualTime != Some(live);
      Pending(p.updated || stampDiffers || timeDiffers,
              if timeDiffers then p.actual[IdKey(st) := live] else p.actual,
              if stampDiffers then p.lastUpdated[IdKey(st) := updateTime] else p.lastUpdated)
  }

  function ApplyUpdates(trip: Trip, updateTime: int, p: Pending, updates: seq<StopTimeUpdate>): Pending
    decreases |updates|
  {
    if |updates| == 0 then p
    else ApplyUpdate(trip, updateTime, ApplyUpdates(trip, updateTime, p, updates[..|updates| - 1]), updates[|updates| - 1])
  }

  /** `processStopTimeUpdates`: whether any write was recorded for the trip, and the pending writes. */
  method ProcessStopTimeUpdates(updates: seq<StopTimeUpdate>, updateTime: int, trip: Trip,
                                actual: map<string, int>, lastUpdated: map<string, int>)
    returns (updated: bool, actual': map<string, int>, lastUpdated': map<string, int>)
    ensures Pending(updated, actual', lastUpdated') == ApplyUpdates(trip, updateTime, Pending(false, actual, lastUpdated), updates)
  {
    updated, actual', lastUpdated' := false, actual, lastUpdated;
    for i := 0 to |updates|
      invariant Pending(updated, actual', lastUpdated') == ApplyUpdates(trip, updateTime, Pending(false, actual, lastUpdated), updates[..i])
    {
      assert updates[..i + 1][..i] == updates[..i];
      var update := updates[i];
      if !IsScheduled(update.scheduleRelationship) {
        continue;
      }
      if trip.stopTimes.None? {
        continue;
      }
      var k := FindTarget(trip.stopTimes.value, update);
      if k.None? {
        continue;
      }
      var stopTime := trip.stopTimes.value[k.value];
      var liveTime := LiveTime(stopTime, update);
      if liveTime.None? {
        continue;
      }
      if stopTime.lastUpdatedDataTime != Some(updateTime) {
        lastUpdated' := lastUpdated'[IdKey(stopTime) := updateTime];
        updated := true;
      }
      if stopTime.actualTime != Some(liveTime.value) {
        actual' := actual'[IdKey(stopTime) := liveTime.value];
        updated := true;
      }
    }
    assert updates[..|updates|] == updates;
  }

  /** An update writes the data time of the stop time filed under `id`: it resolves to it and its stored data time differs. */
  predicate WritesStamp(trip: Trip, updateTime: int, u: StopTimeUpdate, id: string) {
    var r := Resolved(trip, u);
    r.Some? && IdKey(r.value.0) == id && r.value.0.lastUpdatedDataTime != Some(updateTime)
  }

  /** An update writes the actual time of the stop time filed under `id`: it resolves to it and its stored actual time differs. */
  predicate WritesActual(trip: Trip, u: StopTimeUpdate, id: string) {
    var r := Resolved(trip, u);
    r.Some? && IdKey(r.value.0) == id && r.value.0.actualTime != Some(r.value.1)
  }

  /** An update leads to a write: it resolves to a stop time whose data time or actual time differs. */
  predicate Records(trip: Trip, updateTime: int, u: StopTimeUpdate) {
    var r := Resolved(trip, u);
    r.Some? && (r.value.0.lastUpdatedDataTime != Some(updateTime) || r.value.0.actualTime != Some(r.value.1))
  }

  /**
   * The result is true exactly when some update records a write; a data
   * time is pending exactly for the stop times some update finds with a
   * stored data time other than the feed time, and it is the feed time; an
   * actual time is pending exactly for the stop times some update finds with
   * a stored actual time other than its live time, and it is the live time
   * of the last such update; entries no update writes are kept.
   */
  lemma UpdatesRecordExactly(trip: Trip, updateTime: int, updates: seq<StopTimeUpdate>, p: Pending)
    ensures ApplyUpdates(trip, updateTime, p, updates).updated
            <==> p.updated || exists k :: 0 <= k < |updates| && Records(trip, updateTime, updates[k])
    ensures forall id :: (id in ApplyUpdates(trip, updateTime, p, updates).lastUpdated
      <==> id in p.lastUpdated || exists k :: 0 <= k < |updates| && WritesStamp(trip, updateTime, updates[k], id))
    ensures forall id, k :: 0 <= k < |updates| && WritesStamp(trip, updateTime, updates[k], id) ==>
      id in ApplyUpdates(trip, updateTime, p, updates).lastUpdated && ApplyUpdates(trip, updateTime, p, updates).lastUpdated[id] == updateTime
    ensures forall id :: id in p.lastUpdated && (forall k :: 0 <= k < |updates| ==> !WritesStamp(trip, updateTime, updates[k], id)) ==>
      ApplyUpdates(trip, updateTime, p, updates).lastUpdated[id] == p.lastUpdated[id]
    ensures forall id :: (id in ApplyUpdates(trip, updateTime, p, updates).actual
      <==> id in p.actual || exists k :: 0 <= k < |updates| && WritesActual(trip, updates[k], id))
    ensures forall id, k :: 0 <= k < |updates| && WritesActual(trip, updates[k], id)
                            && (forall j :: k < j < |updates| ==> !WritesActual(trip, updates[j], id)) ==>
      ApplyUpdates(trip, updateTime, p, updates).actual[id] == Resolved(trip, updates[k]).value.1
    ensures forall id :: id in p.actual && (forall k :: 0 <= k < |updates| ==> !WritesActual(trip, updates[k], id)) ==>
      ApplyUpdates(trip, updateTime, p, updates).actual[id] == p.actual[id]
  {
    UpdatedIffRecords(trip, updateTime, updates, p);
    StampsKeys(trip, updateTime, updates, p);
    StampsValues(trip, updateTime, updates, p);
    StampsKept(trip, updateTime, updates, p);
    ActualKeys(trip, updateTime, updates, p);
    ActualLastWins(trip, updateTime, updates, p);
    ActualKept(trip, updateTime, updates, p);
  }

  /** One update marks the trip updated exactly when it records a write. */
  lemma ApplyUpdateMarks(trip: Trip, updateTime: int, q: Pending, u: StopTimeUpdate)
    ensures ApplyUpdate(trip, updateTime, q, u).updated == (q.updated || Records(trip, updateTime, u))
  {
  }

  /** One update adds or overwrites the data time of the stop time it writes, and only that one. */
  lemma ApplyUpdateStamps(trip: Trip, updateTime: int, q: Pending, u: StopTimeUpdate)
    ensures forall id :: id in ApplyUpdate(trip, updateTime, q, u).lastUpdated <==> id in q.lastUpdated || WritesStamp(trip, updateTime, u, id)
    ensures forall id :: WritesStamp(trip, updateTime, u, id) ==> ApplyUpdate(trip, updateTime, q, u).lastUpdated[id] == updateTime
    ensures forall id :: id in q.lastUpdated && !WritesStamp(trip, updateTime, u, id) ==>
      ApplyUpdate(trip, updateTime, q, u).lastUpdated[id] == q.lastUpdated[id]
  {
  }

  /** One update adds or overwrites the actual time of the stop time it writes, and only that one. */
  lemma ApplyUpdateActual(trip: Trip, updateTime: int, q: Pending, u: StopTimeUpdate)
    ensures forall id :: id in ApplyUpdate(trip, updateTime, q, u).actual <==> id in q.actual || WritesActual(trip, u, id)
    ensures forall id :: WritesActual(trip, u, id) ==> ApplyUpdate(trip, updateTime, q, u).actual[id] == Resolved(trip, u).value.1
    ensures forall id :: id in q.actual && !WritesActual(trip, u, id) ==>
      ApplyUpdate(trip, updateTime, q, u).actual[id] == q.actual[id]
  {
  }

  /** The trip is marked updated exactly when some update records a write. */
  lemma {:induction false} UpdatedIffRecords(trip: Trip, updateTime: int, updates: seq<StopTimeUpdate>, p: Pending)
    ensures ApplyUpdates(trip, updateTime, p, updates).updated
            <==> p.updated || exists k :: 0 <= k < |updates| && Records(trip, updateTime, updates[k])
    decreases |updates|
  {
    if |updates| > 0 {
      var init := updates[..|updates| - 1];
      UpdatedIffRecords(trip, updateTime, init, p);
      ApplyUpdateMarks(trip, updateTime, ApplyUpdates(trip, updateTime, p, init), updates[|updates| - 1]);
      assert forall k :: 0 <= k < |init| ==> init[k] == updates[k];
    }
  }

  /** A data time is pending exactly for the given ones and the stop times some update writes. */
  lemma {:induction false} StampsKeys(trip: Trip, updateTime: int, updates: seq<StopTimeUpdate>, p: Pending)
    ensures forall id :: (id in ApplyUpdates(trip, updateTime, p, updates).lastUpdated
      <==> id in p.lastUpdated || exists k :: 0 <= k < |updates| && WritesStamp(trip, updateTime, updates[k], id))
    decreases |updates|
  {
    if |updates| > 0 {
      var init := updates[..|updates| - 1];
      StampsKeys(trip, updateTime, init, p);
      ApplyUpdateStamps(trip, updateTime, ApplyUpdates(trip, updateTime, p, init), updates[|updates| - 1]);
      assert forall k :: 0 <= k < |init| ==> init[k] == updates[k];
    }
  }

  /** Every stop time some update writes has the feed time as its pending data time. */
  lemma {:induction false} StampsValues(trip: Trip, updateTime: int, updates: seq<StopTimeUpdate>, p: Pending)
    ensures forall id, k :: 0 <= k < |updates| && WritesStamp(trip, updateTime, updates[k], id) ==>
      id in ApplyUpdates(trip, updateTime, p, updates).lastUpdated && ApplyUpdates(trip, updateTime, p, updates).lastUpdated[id] == updateTime
    decreases |updates|
  {
    if |updates| > 0 {
      var init := updates[..|updates| - 1];
      StampsValues(trip, updateTime, init, p);
      ApplyUpdateStamps(trip, updateTime, ApplyUpdates(trip, updateTime, p, init), updates[|updates| - 1]);
      assert forall k :: 0 <= k < |init| ==> init[k] == updates[k];
    }
  }

  /** A given data time no update writes is kept. */
  lemma {:induction false} StampsKept(trip: Trip, updateTime: int, updates: seq<StopTimeUpdate>, p: Pending)
    ensures forall id :: id in p.lastUpdated && (forall k :: 0 <= k < |updates| ==> !WritesStamp(trip, updateTime, updates[k], id)) ==>
      id in ApplyUpdates(trip, updateTime, p, updates).lastUpdated && ApplyUpdates(trip, updateTime, p, updates).lastUpdated[id] == p.lastUpdated[id]
    decreases |updates|
  {
    if |updates| > 0 {
      var init := updates[..|updates| - 1];
      StampsKept(trip, updateTime, init, p);
      ApplyUpdateStamps(trip, updateTime, ApplyUpdates(trip, updateTime, p, init), updates[|updates| - 1]);
      assert forall k :: 0 <= k < |init| ==> init[k] == updates[k];
    }
  }

  /** An actual time is pending exactly for the given ones and the stop times some update writes. */
  lemma {:induction false} ActualKeys(trip: Trip, updateTime: int, updates: seq<StopTimeUpdate>, p: Pending)
    ensures forall id :: (id in ApplyUpdates(trip, updateTime, p, updates).actual
      <==> id in p.actual || exists k :: 0 <= k < |updates| && WritesActual(trip, updates[k], id))
    decreases |updates|
  {
    if |updates| > 0 {
      var init := updates[..|updates| - 1];
      ActualKeys(trip, updateTime, init, p);
      ApplyUpdateActual(trip, updateTime, ApplyUpdates(trip, updateTime, p, init), updates[|updates| - 1]);
      assert forall k :: 0 <= k < |init| ==> init[k] == updates[k];
    }
  }

  /** The pending actual time of a stop time is the live time of the last update that writes it. */
  lemma {:induction false} ActualLastWins(trip: Trip, updateTime: int, updates: seq<StopTimeUpdate>, p: Pending)
    ensures forall id, k :: 0 <= k < |updates| && WritesActual(trip, updates[k], id)
                            && (forall j :: k < j < |updates| ==> !WritesActual(trip, updates[j], id)) ==>
      id in ApplyUpdates(trip, updateTime, p, updates).actual
      && ApplyUpdates(trip, updateTime, p, updates).actual[id] == Resolved(trip, updates[k]).value.1
    decreases |updates|
  {
    if |updates| > 0 {
      var init := updates[..|updates| - 1];
      var u := updates[|updates| - 1];
      var q := ApplyUpdates(trip, updateTime, p, init);
      ActualLastWins(trip, updateTime, init, p);
      ApplyUpdateActual(trip, updateTime, q, u);
      forall id, k | 0 <= k < |updates| && WritesActual(trip, updates[k], id)
                     && (forall j :: k < j < |updates| ==> !WritesActual(trip, updates[j], id))
        ensures id in ApplyUpdates(trip, updateTime, p, updates).actual
                && ApplyUpdates(trip, updateTime, p, updates).actual[id] == Resolved(trip, updates[k]).value.1
      {
        if k < |init| {
          assert init[k] == updates[k];
          assert !WritesActual(trip, u, id);
          assert forall j :: k < j < |init| ==> init[j] == updates[j];
        }
      }
    }
  }

  /** A given actual time no update writes is kept. */
  lemma {:induction false} ActualKept(trip: Trip, updateTime: int, updates: seq<StopTimeUpdate>, p: Pending)
    ensures forall id :: id in p.actual && (forall k :: 0 <= k < |updates| ==> !WritesActual(trip, updates[k], id)) ==>
      id in ApplyUpdates(trip, updateTime, p, updates).actual && ApplyUpdates(trip, updateTime, p, updates).actual[id] == p.actual[id]
    decreases |updates|
  {
    if |updates| > 0 {
      var init := updates[..|updates| - 1];
      ActualKept(trip, updateTime, init, p);
      ApplyUpdateActual(trip, updateTime, ApplyUpdates(trip, updateTime, p, init), updates[|updates| - 1]);
      assert forall k :: 0 <= k < |init| ==> init[k] == updates[k];
    }
  }

  /**
   * Time resolution: when the event has a non-zero time that time is used,
   * and the delay is added to the scheduled time otherwise, so an event with
   * neither field set gives the scheduled time; the arrival is preferred.
   */
  lemma LiveTimeCases(st: StopTime, u: StopTimeUpdate, e: StopTimeEvent)
    requires LiveEvent(u) == Some(e)
    ensures e.time != 0 ==> LiveTime(st, u) == Some(e.time)
    ensures e.time == 0 ==> LiveTime(st, u) == Some(st.scheduledTime + e.delay)
    ensures e == StopTimeEvent(0, 0) ==> LiveTime(st, u) == Some(st.scheduledTime)
    ensures u.arrival.Some? ==> e == u.arrival.value
  {
  }

  // ---------------------------------------------------------------------
  // The entity loop

  /** The route id column of an instance, '' when it has no route. */
  function RouteIdOf(trip: Trip): string {
    if trip.route.Some? then trip.route.value.gtfsRouteId else ""
  }

  /** The trip id an entity is processed for; none when the entity is skipped before the store is asked. */
  function EntityTripId(entity: FeedEntity): (r: Option<string>)
    ensures r.Some? ==> r.value != ""
  {
    if entity.tripUpdate.None? then None
    else
      var descriptor := entity.tripUpdate.value.trip;
      if descriptor.None? || !Truthy(descriptor.value.tripId) then None
      else if !IsScheduled(descriptor.value.scheduleRelationship) then None
      else Some(descriptor.value.tripId)
  }

  /** The vehicle id an entity reports, when truthy. */
  function VehicleOf(tu: TripUpdate): Option<string> {
    if tu.vehicle.Some? && Truthy(tu.vehicle.value.id) then Some(tu.vehicle.value.id) else None
  }

  /** The instance after an entity: live data once anything was recorded, and the reported vehicle; saved when either changed. */
  function UpdatedTrip(trip: Trip, updated: bool, vehicle: Option<string>): (r: (Trip, bool))
    ensures r.0.gotLiveData == (trip.gotLiveData || updated)
    ensures r.0.vehicleId == (if vehicle.Some? then vehicle else trip.vehicleId)
    ensures r.0 == trip.(gotLiveData := r.0.gotLiveData, vehicleId := r.0.vehicleId)
    ensures r.1 <==> (updated && !trip.gotLiveData) || (vehicle.Some? && trip.vehicleId != vehicle)
  {
    var live := updated && !trip.gotLiveData;
    var vehicleChanged := vehicle.Some? && trip.vehicleId != vehicle;
    (trip.(gotLiveData := trip.gotLiveData || live, vehicleId := if vehicleChanged then vehicle else trip.vehicleId),
     live || vehicleChanged)
  }

  /** The store's closest instance of a trip id to the feed time (in ms), as an input. */
  type ClosestTrip = (string, int) -> Option<Trip>

  /** The inputs every entity is processed against. */
  datatype FeedContext = FeedContext(scope: set<string>, feedUnixTime: int, closest: ClosestTrip)

  /** The state of the entity loop: the pending writes and the instances to save, in order. */
  datatype FeedState = FeedState(actual: map<string, int>, lastUpdated: map<string, int>, toSave: seq<Trip>)

  /** One feed entity. */
  function ApplyEntity(ctx: FeedContext, st: FeedState, entity: FeedEntity): FeedState {
    var tripId := EntityTripId(entity);
    if tripId.None? then st
    else
      var found := ctx.closest(tripId.value, ctx.feedUnixTime * 1000);
      if found.None? || !ShouldProcessRoute(ctx.scope, RouteIdOf(found.value)) then st
      else
        var tu := entity.tripUpdate.value;
        var p := ApplyUpdates(found.value, ctx.feedUnixTime, Pending(false, st.actual, st.lastUpdated), tu.stopTimeUpdates);
        var t := UpdatedTrip(found.value, p.updated, VehicleOf(tu));
        FeedState(p.actual, p.lastUpdated, if t.1 then st.toSave + [t.0] else st.toSave)
  }

  function ApplyEntities(ctx: FeedContext, st: FeedState, entities: seq<FeedEntity>): FeedState
    decreases |entities|
  {
    if |entities| == 0 then st
    else ApplyEntity(ctx, ApplyEntities(ctx, st, entities[..|entities| - 1]), entities[|entities| - 1])
  }

  /**
   * `importGtfsScheduleData` of the realtime importer, with its entities
   * processed one after another in feed order: the actual times and the
   * data times passed to the two bulk time updates, and the instances
   * saved afterwards.
   */
  method ImportGtfsRealtimeData(entities: seq<FeedEntity>, feedUnixTime: int, routeIds: seq<string>, closest: ClosestTrip)
    returns (actualTimeUpdates: map<string, int>, updatedTimeUpdates: map<string, int>, tripsToSave: seq<Trip>)
    ensures FeedState(actualTimeUpdates, updatedTimeUpdates, tripsToSave)
            == ApplyEntities(FeedContext((set r | r in routeIds), feedUnixTime, closest), FeedState(map[], map[], []), entities)
  {
    var routesToProcess := set r | r in routeIds;
    var ctx := FeedContext(routesToProcess, feedUnixTime, closest);
    var feedTime := feedUnixTime * 1000;
    actualTimeUpdates, updatedTimeUpdates, tripsToSave := map[], map[], [];
    for i := 0 to |entities|
      invariant FeedState(actualTimeUpdates, updatedTimeUpdates, tripsToSave) == ApplyEntities(ctx, FeedState(map[], map[], []), entities[..i])
    {
      assert entities[..i + 1][..i] == entities[..i];
      var entity := entities[i];
      if entity.tripUpdate.None? {
        continue;
      }
      var tu := entity.tripUpdate.value;
      if tu.trip.None? || !Truthy(tu.trip.value.tripId) {
        continue;
      }
      var tripId := tu.trip.value.tripId;
      if !IsScheduled(tu.trip.value.scheduleRelationship) {
        continue;
      }
      var found := closest(tripId, feedTime);
      if found.None? || !ShouldProcessRoute(routesToProcess, RouteIdOf(found.value)) {
        continue;
      }
      var trip := found.value;
      var updated;
      updated, actualTimeUpdates, updatedTimeUpdates := ProcessStopTimeUpdates(tu.stopTimeUpdates, feedUnixTime, trip,
                                                                               actualTimeUpdates, updatedTimeUpdates);
      var saveTrip := false;
      if updated && !trip.gotLiveData {
        trip := trip.(gotLiveData := true);
        saveTrip := true;
      }
      var vehicle := VehicleOf(tu);
      if vehicle.Some? && trip.vehicleId != vehicle {
        trip := trip.(vehicleId := vehicle);
        saveTrip := true;
      }
      if saveTrip {
        tripsToSave := tripsToSave + [trip];
      }
    }
    assert entities[..|entities|] == entities;
  }

  // ---------------------------------------------------------------------
  // Properties of the entity loop

  /** An entity is skipped: no trip update, no trip id, a non-SCHEDULED trip, no stored instance, or a route out of scope. */
  predicate Skipped(ctx: FeedContext, entity: FeedEntity) {
    var tripId := EntityTripId(entity);
    || tripId.None?
    || ctx.closest(tripId.value, ctx.feedUnixTime * 1000).None?
    || !ShouldProcessRoute(ctx.scope, RouteIdOf(ctx.closest(tripId.value, ctx.feedUnixTime * 1000).value))
  }

  /**
   * An entity is skipped exactly in those cases, and a skipped entity
   * changes nothing; a trip descriptor whose relationship is unset or 0
   * passes.
   */
  lemma EntitySkipRules(ctx: FeedContext, st: FeedState, entity: FeedEntity)
    ensures Skipped(ctx, entity) ==> ApplyEntity(ctx, st, entity) == st
    ensures EntityTripId(entity).None? <==>
      || entity.tripUpdate.None?
      || entity.tripUpdate.value.trip.None?
      || !Truthy(entity.tripUpdate.value.trip.value.tripId)
      || entity.tripUpdate.value.trip.value.scheduleRelationship != Scheduled
  {
  }

  /**
   * A saved instance has its live-data flag set exactly when it had it or
   * a write was recorded for it, and it is saved only when the flag turned
   * on or a different vehicle was reported; the flag is never reset.
   */
  lemma EntityTripChange(ctx: FeedContext, st: FeedState, entity: FeedEntity)
    requires !Skipped(ctx, entity)
    ensures var trip := ctx.closest(EntityTripId(entity).value, ctx.feedUnixTime * 1000).value;
      var tu := entity.tripUpdate.value;
      var p := ApplyUpdates(trip, ctx.feedUnixTime, Pending(false, st.actual, st.lastUpdated), tu.stopTimeUpdates);
      var r := ApplyEntity(ctx, st, entity);
      && r.actual == p.actual && r.lastUpdated == p.lastUpdated
      && (|r.toSave| == |st.toSave| + 1 <==> (p.updated && !trip.gotLiveData) || (VehicleOf(tu).Some? && trip.vehicleId != VehicleOf(tu)))
      && (|r.toSave| != |st.toSave| + 1 ==> r.toSave == st.toSave)
      && (|r.toSave| == |st.toSave| + 1 ==>
            && r.toSave == st.toSave + [r.toSave[|st.toSave|]]
            && r.toSave[|st.toSave|].gotLiveData == (trip.gotLiveData || p.updated)
            && r.toSave[|st.toSave|].vehicleId == (if VehicleOf(tu).Some? then VehicleOf(tu) else trip.vehicleId)
            && r.toSave[|st.toSave|].tripDate == trip.tripDate
            && r.toSave[|st.toSave|].gtfsTripId == trip.gtfsTripId)
  {
  }

  /** Every instance queued for saving has live data or a vehicle id. */
  lemma {:induction false} SavedTripsHaveNews(ctx: FeedContext, st: FeedState, entities: seq<FeedEntity>)
    requires forall k :: 0 <= k < |st.toSave| ==> st.toSave[k].gotLiveData || st.toSave[k].vehicleId.Some?
    ensures var r := ApplyEntities(ctx, st, entities);
      && |st.toSave| <= |r.toSave| && r.toSave[..|st.toSave|] == st.toSave
      && forall k :: 0 <= k < |r.toSave| ==> r.toSave[k].gotLiveData || r.toSave[k].vehicleId.Some?
    decreases |entities|
  {
    if |entities| > 0 {
      var init := entities[..|entities| - 1];
      SavedTripsHaveNews(ctx, st, init);
      var q := ApplyEntities(ctx, st, init);
      var entity := entities[|entities| - 1];
      if !Skipped(ctx, entity) {
        EntityTripChange(ctx, q, entity);
      }
    }
  }
}
