/**
 * `getOrGenerateStopTimes`: for every trip id of stop_times.txt, the trip's
 * schedule is built once and every loaded instance of the trip is diffed
 * against it; the new stop times and the deleted ones of all trips are then
 * written in two bulk calls.
 */
module StopTimeImport {
  import opened Common
  import opened Utils
  import opened Entities
  import opened AgencyTimezones
  import opened StopTimeRows
  import opened StopTimeDiff

  /** The inputs shared by every trip id: the rows by trip, the stop map, the timezones by agency, the time conversion. */
  datatype StopTimeContext = StopTimeContext(
    sourceId: string,
    groups: map<string, seq<Row>>,
    stops: map<string, Stop>,
    tzs: map<string, string>,
    unix: ScheduledUnix)

  /** The agency id of an instance's route, '' when it has none. */
  function AgencyOfTrip(trip: Trip): string {
    if trip.route.Some? then trip.route.value.agencyId else ""
  }

  /** The timezone of the agency of the first instance; none when unknown or empty. */
  function TimezoneOf(tzs: map<string, string>, trips: seq<Trip>): (r: Option<string>)
    requires |trips| > 0
    ensures r.Some? <==> AgencyOfTrip(trips[0]) in tzs && tzs[AgencyOfTrip(trips[0])] != ""
    ensures r.Some? ==> r.value == tzs[AgencyOfTrip(trips[0])]
  {
    var agency := AgencyOfTrip(trips[0]);
    if agency in tzs && tzs[agency] != "" then Some(tzs[agency]) else None
  }

  /** The schedule of a trip id: its rows' entries sorted by stop_sequence. */
  function ScheduleOf(ctx: StopTimeContext, tripId: string): seq<ScheduleEntry> {
    SortBySequence(Entries(if tripId in ctx.groups then ctx.groups[tripId] else [], ctx.stops))
  }

  /** The diff of one instance whose stop times were loaded. */
  function DiffOf(ctx: StopTimeContext, schedule: seq<ScheduleEntry>, timezone: string, trip: Trip): TripDiff
    requires trip.stopTimes.Some?
  {
    TripDiff(ctx.sourceId, trip, trip.stopTimes.value, schedule, timezone, ctx.unix)
  }

  /** The instances of one trip id after the diff, with the stop times inserted and deleted, in order. */
  datatype Writes = Writes(trips: seq<Trip>, inserts: seq<StopTime>, removes: seq<StopTime>)

  /** The instance after its diff; an instance without loaded stop times is skipped. */
  function DiffedTrip(ctx: StopTimeContext, schedule: seq<ScheduleEntry>, timezone: string, trip: Trip): Trip {
    if trip.stopTimes.None? then trip
    else trip.(stopTimes := Some(DiffOf(ctx, schedule, timezone, trip).Final()))
  }

  /** The diff applied to each instance of a trip id in turn. */
  function TripListDiff(ctx: StopTimeContext, schedule: seq<ScheduleEntry>, timezone: string, trips: seq<Trip>): Writes
    decreases |trips|
  {
    if |trips| == 0 then Writes([], [], [])
    else
      var w := TripListDiff(ctx, schedule, timezone, trips[..|trips| - 1]);
      var trip := trips[|trips| - 1];
      if trip.stopTimes.None? then Writes(w.trips + [trip], w.inserts, w.removes)
      else
        var d := DiffOf(ctx, schedule, timezone, trip);
        Writes(w.trips + [DiffedTrip(ctx, schedule, timezone, trip)], w.inserts + d.Inserts(d.Width()), w.removes + d.Removes(d.Width()))
  }

  /**
   * The instances of trip id t after its turn: unchanged when there are
   * none or their agency has no timezone, otherwise diffed.
   */
  function UpdatedList(ctx: StopTimeContext, t: string, trips: seq<Trip>): seq<Trip> {
    if |trips| == 0 then trips
    else
      var tz := TimezoneOf(ctx.tzs, trips);
      if tz.None? then trips else TripListDiff(ctx, ScheduleOf(ctx, t), tz.value, trips).trips
  }

  /** The state of the trip-id loop: the instances by trip id and the writes collected so far. */
  datatype StopTimeState = StopTimeState(trips: map<string, seq<Trip>>, inserts: seq<StopTime>, removes: seq<StopTime>)

  function ApplyTripKey(ctx: StopTimeContext, st: StopTimeState, t: string): StopTimeState {
    var trips := if t in st.trips then st.trips[t] else [];
    if |trips| == 0 then st
    else
      var tz := TimezoneOf(ctx.tzs, trips);
      if tz.None? then st
      else
        var w := TripListDiff(ctx, ScheduleOf(ctx, t), tz.value, trips);
        StopTimeState(st.trips[t := w.trips], st.inserts + w.inserts, st.removes + w.removes)
  }

  function TripKeys(ctx: StopTimeContext, st: StopTimeState, keys: seq<string>): StopTimeState
    decreases |keys|
  {
    if |keys| == 0 then st
    else ApplyTripKey(ctx, TripKeys(ctx, st, keys[..|keys| - 1]), keys[|keys| - 1])
  }

  // ---------------------------------------------------------------------
  // The importer's loops

  /** The inner loop over the instances of one trip id. */
  method DiffTripList(ctx: StopTimeContext, schedule: seq<ScheduleEntry>, timezone: string, trips: seq<Trip>) returns (w: Writes)
    ensures w == TripListDiff(ctx, schedule, timezone, trips)
  {
    w := Writes([], [], []);
    for k := 0 to |trips|
      invariant w == TripListDiff(ctx, schedule, timezone, trips[..k])
    {
      assert trips[..k + 1][..k] == trips[..k];
      var trip := trips[k];
      if trip.stopTimes.None? {
        w := w.(trips := w.trips + [trip]);
        continue;
      }
      var stopTimes, inserts, removes := DiffTripStopTimes(DiffOf(ctx, schedule, timezone, trip));
      w := Writes(w.trips + [trip.(stopTimes := Some(stopTimes))], w.inserts + inserts, w.removes + removes);
    }
    assert trips[..|trips|] == trips;
  }

  /**
   * `getOrGenerateStopTimes`: the instances by trip id after every diff,
   * and the calls made to store the new stop times and delete the old ones.
   */
  method GetOrGenerateStopTimes(sourceId: string, stopTimeRows: seq<Row>, agencyRows: seq<Row>,
                                tripsById: map<string, seq<Trip>>, stops: map<string, Stop>, unix: ScheduledUnix)
    returns (trips: map<string, seq<Trip>>, createCalls: seq<RepoCall<StopTime>>, removeCalls: seq<RepoCall<StopTime>>)
    ensures var ctx := StopTimeContext(sourceId, Grouping(stopTimeRows).0, stops, AgencyRows(map[], |agencyRows|, agencyRows), unix);
      var st := TripKeys(ctx, StopTimeState(tripsById, [], []), Grouping(stopTimeRows).1);
      && trips == st.trips
      && createCalls == (if |st.inserts| == 0 then [] else SerialPlan(st.inserts, false))
      && removeCalls == (if |st.removes| == 0 then [] else SerialPlan(st.removes, true))
  {
    var tzs := GetTimezoneByAgency(agencyRows);
    var groups, keys := GetStopTimesByTripId(stopTimeRows);
    var ctx := StopTimeContext(sourceId, groups, stops, tzs, unix);
    var st := StopTimeState(tripsById, [], []);
    for i := 0 to |keys|
      invariant st == TripKeys(ctx, StopTimeState(tripsById, [], []), keys[..i])
    {
      assert keys[..i + 1][..i] == keys[..i];
      var tripId := keys[i];
      var instances := if tripId in st.trips then st.trips[tripId] else [];
      if |instances| == 0 {
        continue;
      }
      var timezone := TimezoneOf(tzs, instances);
      if timezone.None? {
        continue;
      }
      var schedule := GenerateStopTimeSequenceData(if tripId in groups then groups[tripId] else [], stops);
      var w := DiffTripList(ctx, schedule, timezone.value, instances);
      st := StopTimeState(st.trips[tripId := w.trips], st.inserts + w.inserts, st.removes + w.removes);
    }
    assert keys[..|keys|] == keys;
    trips := st.trips;
    createCalls := BulkCreateStopTimes(st.inserts);
    removeCalls := BulkRemoveStopTimes(st.removes);
  }

  // ---------------------------------------------------------------------
  // Properties

  /**
   * The diff of a trip id's instances keeps every instance in its place and
   * changes only its stop times: a loaded instance gets its diff's result,
   * an instance without loaded stop times is left alone.
   */
  lemma {:induction false} TripListDiffShape(ctx: StopTimeContext, schedule: seq<ScheduleEntry>, timezone: string, trips: seq<Trip>)
    ensures var w := TripListDiff(ctx, schedule, timezone, trips);
      && |w.trips| == |trips|
      && forall k :: 0 <= k < |trips| ==> w.trips[k] == DiffedTrip(ctx, schedule, timezone, trips[k])
    decreases |trips|
  {
    if |trips| > 0 {
      var init := trips[..|trips| - 1];
      TripListDiffShape(ctx, schedule, timezone, init);
      var w := TripListDiff(ctx, schedule, timezone, trips);
      forall k | 0 <= k < |trips| - 1
        ensures w.trips[k] == DiffedTrip(ctx, schedule, timezone, trips[k])
      {
        assert init[k] == trips[k];
      }
    }
  }

  /**
   * Each trip id is handled once, so after the loop the instances of a
   * trip id with rows are its diffed instances, and those of any other
   * trip id are untouched; no trip id appears or disappears.
   */
  lemma {:induction false} TripKeysEffect(ctx: StopTimeContext, st: StopTimeState, keys: seq<string>, t: string)
    requires forall i, j :: 0 <= i < j < |keys| ==> keys[i] != keys[j]
    ensures var r := TripKeys(ctx, st, keys);
      && r.trips.Keys == st.trips.Keys
      && (t in st.trips ==> r.trips[t] == if t in keys then UpdatedList(ctx, t, st.trips[t]) else st.trips[t])
    decreases |keys|
  {
    if |keys| > 0 {
      var init := keys[..|keys| - 1];
      var last := keys[|keys| - 1];
      TripKeysEffect(ctx, st, init, t);
      TripKeysEffect(ctx, st, init, last);
      assert t in keys <==> t in init || t == last;
    }
  }

  /**
   * After the import, an instance of a trip id with stop_times.txt rows,
   * whose agency has a timezone and whose stop times were loaded, has one
   * stop time per entry of the trip's schedule, position by position with
   * the entry's stop_sequence, scheduled time and stop; its other fields
   * are unchanged.
   */
  lemma StopTimesFollowSchedule(ctx: StopTimeContext, tripsById: map<string, seq<Trip>>, keys: seq<string>, t: string, k: nat)
    requires forall i, j :: 0 <= i < j < |keys| ==> keys[i] != keys[j]
    requires t in keys && t in tripsById && k < |tripsById[t]|
    requires TimezoneOf(ctx.tzs, tripsById[t]).Some? && tripsById[t][k].stopTimes.Some?
    ensures var r := TripKeys(ctx, StopTimeState(tripsById, [], []), keys).trips;
      var trip := tripsById[t][k];
      var d := DiffOf(ctx, ScheduleOf(ctx, t), TimezoneOf(ctx.tzs, tripsById[t]).value, trip);
      && t in r && k < |r[t]|
      && r[t][k] == trip.(stopTimes := Some(d.Final()))
      && |d.Final()| == |ScheduleOf(ctx, t)|
      && forall i :: 0 <= i < |d.Final()| ==>
           && d.Final()[i].stopSequence == ScheduleOf(ctx, t)[i].stopSequence
           && d.Final()[i].scheduledTime == d.Time(i)
           && StopIdOf(d.Final()[i]) == Some(ScheduleOf(ctx, t)[i].stop.gtfsStopId)
  {
    var st := StopTimeState(tripsById, [], []);
    TripKeysEffect(ctx, st, keys, t);
    var tz := TimezoneOf(ctx.tzs, tripsById[t]).value;
    TripListDiffShape(ctx, ScheduleOf(ctx, t), tz, tripsById[t]);
    FinalFollowsSchedule(DiffOf(ctx, ScheduleOf(ctx, t), tz, tripsById[t][k]));
  }

  /** An instance whose trip id has no stop_times.txt rows, or whose agency has no timezone, keeps its stop times. */
  lemma UntouchedTrips(ctx: StopTimeContext, tripsById: map<string, seq<Trip>>, keys: seq<string>, t: string)
    requires forall i, j :: 0 <= i < j < |keys| ==> keys[i] != keys[j]
    requires t in tripsById && |tripsById[t]| > 0
    requires t !in keys || TimezoneOf(ctx.tzs, tripsById[t]).None?
    ensures var r := TripKeys(ctx, StopTimeState(tripsById, [], []), keys).trips;
      t in r && r[t] == tripsById[t]
  {
    TripKeysEffect(ctx, StopTimeState(tripsById, [], []), keys, t);
  }
}
