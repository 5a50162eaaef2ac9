/**
 * The stored entities the ingester reconciles: routes, stops, trip instances
 * (one per GTFS trip id and service date) and stop times, together with the
 * stop-time constructor and the guarded bulk writers of the stop-time model.
 *
 * Entities are values here. Where the source shares one object between a map
 * and a list, the model keeps the map and rebuilds the list from it by id.
 */
module Entities {
  import opened Common
  import opened Utils

  datatype Route = Route(
    sourceId: string,
    gtfsRouteId: string,
    routeName: string,
    routeLongName: string,
    agencyId: string)

  /** A stop; `parent` is the GTFS id of its parent station, when one is linked. */
  datatype Stop = Stop(
    sourceId: string,
    gtfsStopId: string,
    stopName: string,
    parent: Option<string>)

  /**
   * A stop time. `id` is generated by the store on insert; `stop` is the
   * linked stop as the object holds it, `stopGtfsStopId` the column the store
   * fills from that link, present on rows read back from the store.
   */
  datatype StopTime = StopTime(
    id: Option<string>,
    sourceId: string,
    stopSequence: int,
    scheduledTime: int,
    actualTime: Option<int>,
    lastUpdatedDataTime: Option<int>,
    tripId: string,
    tripDate: string,
    stop: Option<string>,
    stopGtfsStopId: Option<string>)

  /** A trip instance: a GTFS trip on one service date (`YYYY-MM-DD`). */
  datatype Trip = Trip(
    sourceId: string,
    gtfsTripId: string,
    tripDate: string,
    gotLiveData: bool,
    vehicleId: Option<string>,
    route: Option<Route>,
    stopTimes: Option<seq<StopTime>>)

  /** `StopTime.newStopTime`: a stop time of the trip at the stop, not yet stored. */
  function NewStopTime(sourceId: string, stopSequence: int, scheduledTime: int, trip: Trip, stop: Stop): (st: StopTime)
    ensures st.sourceId == sourceId && st.stopSequence == stopSequence && st.scheduledTime == scheduledTime
    ensures st.tripId == trip.gtfsTripId && st.tripDate == trip.tripDate && st.stop == Some(stop.gtfsStopId)
    ensures st.id.None? && st.actualTime.None? && st.lastUpdatedDataTime.None? && st.stopGtfsStopId.None?
  {
    StopTime(None, sourceId, stopSequence, scheduledTime, None, None, trip.gtfsTripId, trip.tripDate, Some(stop.gtfsStopId), None)
  }

  /** The GTFS stop id a stop time refers to: the stored column, else the linked stop. */
  function StopIdOf(st: StopTime): Option<string> {
    if st.stopGtfsStopId.Some? then st.stopGtfsStopId else st.stop
  }

  /**
   * A stop time as read back after it was inserted: the store has given it
   * `newId` (unless it had one) and filled the stop column from the link.
   */
  function Stored(st: StopTime, newId: string): (r: StopTime)
    ensures r.id.Some? && (st.id.Some? ==> r.id == st.id)
    ensures StopIdOf(r) == StopIdOf(st) && r.stopGtfsStopId == StopIdOf(st)
    ensures r.stopSequence == st.stopSequence && r.scheduledTime == st.scheduledTime
  {
    st.(id := if st.id.Some? then st.id else Some(newId), stopGtfsStopId := StopIdOf(st))
  }

  /** `StopTime.bulkCreateStopTimes`: nothing for an empty list, else the bulk writer in insert mode. */
  method BulkCreateStopTimes(stopTimes: seq<StopTime>) returns (calls: seq<RepoCall<StopTime>>)
    ensures |stopTimes| == 0 ==> calls == []
    ensures |stopTimes| > 0 ==> calls == SerialPlan(stopTimes, false)
  {
    calls := [];
    if |stopTimes| > 0 {
      calls := BulkInsertOrRemoveItems(stopTimes, false);
    }
  }

  /** `StopTime.bulkRemoveStopTimes`: nothing for an empty list, else the bulk writer in remove mode. */
  method BulkRemoveStopTimes(stopTimes: seq<StopTime>) returns (calls: seq<RepoCall<StopTime>>)
    ensures |stopTimes| == 0 ==> calls == []
    ensures |stopTimes| > 0 ==> calls == SerialPlan(stopTimes, true)
  {
    calls := [];
    if |stopTimes| > 0 {
      calls := BulkInsertOrRemoveItems(stopTimes, true);
    }
  }
}
