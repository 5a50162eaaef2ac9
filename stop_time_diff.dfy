/**
 * The positional diff of one trip instance's stored stop times against the
 * trip's schedule sequence: position i of the stored list is kept when its
 * (stop_sequence, scheduled time, stop id) equals entry i of the schedule;
 * otherwise the stored stop time is deleted and a new one built from the
 * schedule takes its place, and stored positions past the schedule's end are
 * deleted.
 */
module StopTimeDiff {
  import opened Common
  import opened Entities
  import opened StopTimeRows

  /** `dayjs.tz(`${tripDate}T${time}`, timezone).unix()`: the library's conversion, as an input. */
  type ScheduledUnix = (string, string, string) -> int

  /** The inputs of the diff of one trip instance. */
  datatype TripDiff = TripDiff(
    sourceId: string,
    trip: Trip,
    stored: seq<StopTime>,
    schedule: seq<ScheduleEntry>,
    timezone: string,
    unix: ScheduledUnix)
  {
    /** The number of positions the loop visits: the longer of the two lists. */
    function Width(): nat {
      if |stored| < |schedule| then |schedule| else |stored|
    }

    /** The scheduled Unix time at position i; past the schedule's end the time text is '00:00:00'. */
    function Time(i: nat): int {
      unix(trip.tripDate, if i < |schedule| then schedule[i].time else "00:00:00", timezone)
    }

    /** Position i needs no write: both lists have it and the three compared fields agree. */
    predicate Matches(i: nat) {
      && i < |stored| && i < |schedule|
      && stored[i].stopSequence == schedule[i].stopSequence
      && stored[i].scheduledTime == Time(i)
      && stored[i].stopGtfsStopId == Some(schedule[i].stop.gtfsStopId)
    }

    /** The stop time built from schedule entry i. */
    function Fresh(i: nat): StopTime
      requires i < |schedule|
    {
      NewStopTime(sourceId, schedule[i].stopSequence, Time(i), trip, schedule[i].stop)
    }

    /** The stop time at position i after the diff. */
    function FinalAt(i: nat): StopTime
      requires i < |schedule|
    {
      if Matches(i) then stored[i] else Fresh(i)
    }

    /** The trip's stop times after the diff. */
    function Final(): seq<StopTime> {
      seq(|schedule|, i requires 0 <= i < |schedule| => FinalAt(i))
    }

    /** The new stop times of positions below n, in position order. */
    function Inserts(n: nat): seq<StopTime>
      decreases n
    {
      if n == 0 then []
      else Inserts(n - 1) + (if n - 1 < |schedule| && !Matches(n - 1) then [Fresh(n - 1)] else [])
    }

    /** The stored stop times of positions below n that are deleted, in position order. */
    function Removes(n: nat): seq<StopTime>
      decreases n
    {
      if n == 0 then []
      else Removes(n - 1) + (if n - 1 < |stored| && !Matches(n - 1) then [stored[n - 1]] else [])
    }

    /** The number of positions below n that need no write. */
    function MatchCount(n: nat): nat
      decreases n
    {
      if n == 0 then 0 else MatchCount(n - 1) + (if Matches(n - 1) then 1 else 0)
    }
  }

  /** A list whose first n slots hold values and whose remaining slots are empty filters to those values. */
  lemma {:induction false} PresentPrefix(s: seq<Option<StopTime>>, n: nat)
    requires n <= |s|
    requires forall k :: 0 <= k < n ==> s[k].Some?
    requires forall k :: n <= k < |s| ==> s[k].None?
    ensures Present(s) == seq(n, k requires 0 <= k < n => s[k].value)
    decreases |s|
  {
    if |s| > 0 {
      var init := s[..|s| - 1];
      if |s| == n {
        PresentPrefix(init, n - 1);
      } else {
        PresentPrefix(init, n);
      }
    }
  }

  /**
   * The working list after the first i positions: visited positions hold
   * their final stop time, or nothing past the schedule's end; the others
   * still hold the stored stop time.
   */
  function Working(d: TripDiff, i: nat): (w: seq<Option<StopTime>>)
    ensures |w| == (if i <= |d.stored| then |d.stored| else i)
  {
    var len := if i <= |d.stored| then |d.stored| else i;
    seq(len, k requires 0 <= k < len =>
      if k < i then (if k < |d.schedule| then Some(d.FinalAt(k)) else None) else Some(d.stored[k]))
  }

  /** One iteration of the loop takes the working list from position i to position i + 1. */
  lemma WorkingStep(d: TripDiff, i: nat)
    requires i < d.Width()
    ensures d.Matches(i) ==> Working(d, i + 1) == Working(d, i)
    ensures !d.Matches(i) && i < |d.schedule| && i < |d.stored| ==>
      Working(d, i + 1) == Working(d, i)[i := Some(d.Fresh(i))]
    ensures !d.Matches(i) && i < |d.schedule| && i >= |d.stored| ==>
      Working(d, i + 1) == Working(d, i) + [Some(d.Fresh(i))]
    ensures !d.Matches(i) && i >= |d.schedule| ==> i < |d.stored| && Working(d, i + 1) == Working(d, i)[i := None]
  {
  }

  /** Once every position is visited, the set slots are the trip's final stop times. */
  lemma WorkingDone(d: TripDiff)
    ensures Present(Working(d, d.Width())) == d.Final()
  {
    PresentPrefix(Working(d, d.Width()), |d.schedule|);
  }

  /** Position i of the diff loop: compare, then record the writes and overwrite the slot. */
  method DiffPosition(d: TripDiff, i: nat, current: seq<Option<StopTime>>, inserts: seq<StopTime>, removes: seq<StopTime>)
    returns (current': seq<Option<StopTime>>, inserts': seq<StopTime>, removes': seq<StopTime>)
    requires i < d.Width() && current == Working(d, i)
    requires inserts == d.Inserts(i) && removes == d.Removes(i)
    ensures current' == Working(d, i + 1)
    ensures inserts' == d.Inserts(i + 1) && removes' == d.Removes(i + 1)
  {
    WorkingStep(d, i);
    current', inserts', removes' := current, inserts, removes;
    var dbTripStopTime := if i < |current| then current[i] else None;
    assert dbTripStopTime.Some? <==> i < |d.stored|;
    var scheduleTime := d.Time(i);
    if dbTripStopTime.Some? && i < |d.schedule|
       && dbTripStopTime.value.stopSequence == d.schedule[i].stopSequence
       && dbTripStopTime.value.scheduledTime == scheduleTime
       && dbTripStopTime.value.stopGtfsStopId == Some(d.schedule[i].stop.gtfsStopId)
    {
      return;
    }
    if dbTripStopTime.Some? {
      removes' := removes + [dbTripStopTime.value];
    }
    if i < |d.schedule| {
      var newStopTime := NewStopTime(d.sourceId, d.schedule[i].stopSequence, scheduleTime, d.trip, d.schedule[i].stop);
      current' := if i < |current| then current[i := Some(newStopTime)] else current + [Some(newStopTime)];
      inserts' := inserts + [newStopTime];
    } else if dbTripStopTime.Some? {
      current' := current[i := None];
    }
  }

  /**
   * The diff loop of `getOrGenerateStopTimes` for one trip whose stop times
   * were loaded: walks the positions of the longer list, overwriting the
   * working list in place, then drops the emptied slots.
   */
  method DiffTripStopTimes(d: TripDiff) returns (stopTimes: seq<StopTime>, inserts: seq<StopTime>, removes: seq<StopTime>)
    ensures stopTimes == d.Final()
    ensures inserts == d.Inserts(d.Width()) && removes == d.Removes(d.Width())
  {
    var current: seq<Option<StopTime>> := seq(|d.stored|, k requires 0 <= k < |d.stored| => Some(d.stored[k]));
    inserts, removes := [], [];
    var i := 0;
    assert current == Working(d, 0);
    while i < |current| || i < |d.schedule|
      invariant i <= d.Width()
      invariant current == Working(d, i)
      invariant inserts == d.Inserts(i) && removes == d.Removes(i)
      decreases d.Width() - i
    {
      current, inserts, removes := DiffPosition(d, i, current, inserts, removes);
      i := i + 1;
    }
    WorkingDone(d);
    stopTimes := Present(current);
  }

  // ---------------------------------------------------------------------
  // Properties of the diff

  /**
   * After the diff the trip has exactly one stop time per schedule entry,
   * and position i carries entry i's stop_sequence, scheduled time and stop.
   */
  lemma FinalFollowsSchedule(d: TripDiff)
    ensures |d.Final()| == |d.schedule|
    ensures forall i :: 0 <= i < |d.schedule| ==>
      && d.Final()[i].stopSequence == d.schedule[i].stopSequence
      && d.Final()[i].scheduledTime == d.Time(i)
      && StopIdOf(d.Final()[i]) == Some(d.schedule[i].stop.gtfsStopId)
  {
  }

  /** A position whose stored stop time already agrees keeps that stop time and is in neither list. */
  lemma MatchingPositionKept(d: TripDiff, i: nat)
    requires d.Matches(i)
    ensures d.Final()[i] == d.stored[i]
    ensures d.Inserts(i + 1) == d.Inserts(i) && d.Removes(i + 1) == d.Removes(i)
  {
  }

  /**
   * Only mismatching positions write: one insert per schedule position and
   * one delete per stored position, less the positions that agree.
   */
  lemma {:induction false} WriteCounts(d: TripDiff, n: nat)
    requires n <= d.Width()
    ensures d.MatchCount(n) <= n
    ensures |d.Inserts(n)| + d.MatchCount(n) == (if n < |d.schedule| then n else |d.schedule|)
    ensures |d.Removes(n)| + d.MatchCount(n) == (if n < |d.stored| then n else |d.stored|)
    decreases n
  {
    if n > 0 {
      WriteCounts(d, n - 1);
    }
  }

  /** Every deleted stop time is a stored one, and every inserted one is new (no id, no live data). */
  lemma {:induction false} WritesComeFromTheirSide(d: TripDiff, n: nat)
    ensures forall k :: 0 <= k < |d.Removes(n)| ==> d.Removes(n)[k] in d.stored
    ensures forall k :: 0 <= k < |d.Inserts(n)| ==>
      d.Inserts(n)[k].id.None? && d.Inserts(n)[k].actualTime.None? && d.Inserts(n)[k].tripId == d.trip.gtfsTripId
    decreases n
  {
    if n > 0 {
      WritesComeFromTheirSide(d, n - 1);
    }
  }

  /** Stored lists that already agree with the schedule everywhere cause no write at all. */
  lemma UnchangedScheduleNoWrites(d: TripDiff)
    requires |d.stored| == |d.schedule|
    requires forall i :: 0 <= i < |d.schedule| ==> d.Matches(i)
    ensures d.Inserts(d.Width()) == [] && d.Removes(d.Width()) == []
    ensures d.Final() == d.stored
  {
    MatchCountAll(d, d.Width());
    WriteCounts(d, d.Width());
  }

  lemma {:induction false} MatchCountAll(d: TripDiff, n: nat)
    requires n <= |d.stored| && n <= |d.schedule|
    requires forall i :: 0 <= i < n ==> d.Matches(i)
    ensures d.MatchCount(n) == n
    decreases n
  {
    if n > 0 {
      MatchCountAll(d, n - 1);
    }
  }

  /** The stop times of a list as read back from the store after saving, with ids from `ids` for new ones. */
  function ReadBack(s: seq<StopTime>, ids: seq<string>): (r: seq<StopTime>)
    requires |ids| == |s|
    ensures |r| == |s|
  {
    seq(|s|, k requires 0 <= k < |s| => Stored(s[k], ids[k]))
  }

  /**
   * Idempotence: once the diff's result has been stored and read back, the
   * same schedule (and the same time conversion) produces no insert and no
   * delete, and leaves the stop times as they are.
   */
  lemma DiffIdempotent(d: TripDiff, ids: seq<string>)
    requires |ids| == |d.schedule|
    ensures var again := d.(stored := ReadBack(d.Final(), ids));
      && again.Inserts(again.Width()) == []
      && again.Removes(again.Width()) == []
      && again.Final() == again.stored
  {
    var again := d.(stored := ReadBack(d.Final(), ids));
    FinalFollowsSchedule(d);
    forall i | 0 <= i < |again.schedule|
      ensures again.Matches(i)
    {
      assert again.Time(i) == d.Time(i);
      assert again.stored[i] == Stored(d.Final()[i], ids[i]);
    }
    UnchangedScheduleNoWrites(again);
  }
}
