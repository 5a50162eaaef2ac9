/**
 * The per-source watermarks (`UpdateTime`): when the schedule was last
 * processed and for which routes, and the timestamp of the last realtime
 * feed processed. The store holds one row per source id, with the route set
 * in its column form.
 */
module UpdateTimes {
  import opened Common
  import opened Utils

  /** `60 * 60 * 3`: a schedule older than three hours (in seconds) is processed again. */
  const ThreeHours: int := 10800

  // ---------------------------------------------------------------------
  // The lastProcessedRoutes column

  /** `new Set(items)`: the items without repetitions, in order of first appearance. */
  function NewSet(items: seq<string>): (r: seq<string>)
    ensures forall x :: x in r <==> x in items
    ensures forall i, j :: 0 <= i < j < |r| ==> r[i] != r[j]
    decreases |items|
  {
    if |items| == 0 then []
    else
      var prev := NewSet(items[..|items| - 1]);
      var last := items[|items| - 1];
      assert forall x :: x in items <==> x in items[..|items| - 1] || x == last;
      if last in prev then prev else prev + [last]
  }

  /** `filter(Boolean)` on strings: the non-empty ones, in order. */
  function NonEmpty(parts: seq<string>): (r: seq<string>)
    ensures forall x :: x in r <==> x in parts && x != ""
    decreases |parts|
  {
    if |parts| == 0 then []
    else
      var last := parts[|parts| - 1];
      assert forall x :: x in parts <==> x in parts[..|parts| - 1] || x == last;
      NonEmpty(parts[..|parts| - 1]) + (if last != "" then [last] else [])
  }

  /** The transformer's `to`: the set's items joined with ','. */
  function RoutesToColumn(routes: seq<string>): string {
    Join(routes, ',')
  }

  /** The transformer's `from`: the column split on ',', empty parts dropped, as a set. */
  function RoutesFromColumn(column: string): seq<string> {
    NewSet(NonEmpty(Split(column, ',')))
  }

  /** Route ids that survive the column: non-empty and free of ','. */
  predicate ColumnSafe(routes: seq<string>) {
    forall k :: 0 <= k < |routes| ==> routes[k] != "" && ',' !in routes[k]
  }

  lemma {:induction false} NonEmptyKeeps(parts: seq<string>)
    requires forall k :: 0 <= k < |parts| ==> parts[k] != ""
    ensures NonEmpty(parts) == parts
    decreases |parts|
  {
    if |parts| > 0 {
      NonEmptyKeeps(parts[..|parts| - 1]);
      assert parts[..|parts| - 1] + [parts[|parts| - 1]] == parts;
    }
  }

  lemma {:induction false} NewSetKeeps(items: seq<string>)
    requires forall i, j :: 0 <= i < j < |items| ==> items[i] != items[j]
    ensures NewSet(items) == items
    decreases |items|
  {
    if |items| > 0 {
      var init := items[..|items| - 1];
      NewSetKeeps(init);
      assert items[|items| - 1] !in init by {
        forall k | 0 <= k < |init|
          ensures init[k] != items[|items| - 1]
        {
          assert init[k] == items[k];
        }
      }
      assert init + [items[|items| - 1]] == items;
    }
  }

  /**
   * The column round trip is exact for a set (no repetitions) of
   * non-empty ids without ',' — the empty set included.
   */
  lemma RoutesColumnRoundTrip(routes: seq<string>)
    requires ColumnSafe(routes)
    requires forall i, j :: 0 <= i < j < |routes| ==> routes[i] != routes[j]
    ensures RoutesFromColumn(RoutesToColumn(routes)) == routes
  {
    if |routes| == 0 {
      assert Split("", ',') == [""];
      assert NonEmpty([""]) == NonEmpty([""][..0]);
    } else {
      SplitJoin(routes, ',');
      NonEmptyKeeps(routes);
      NewSetKeeps(routes);
    }
  }

  // ---------------------------------------------------------------------
  // The store

  /** A stored row; the routes are kept in their column form. */
  datatype UpdateTimeRow = UpdateTimeRow(lastProcessedScheduleTime: int, lastProcessedFeedTime: int, lastProcessedRoutes: string)

  /**
   * `needsScheduleProcess` on the rows, `now` in ms: a source never
   * processed needs it, so does one last processed without a route now
   * asked for; otherwise only a schedule more than three hours old.
   */
  function NeedsProcess(rows: map<string, UpdateTimeRow>, sourceId: string, routes: seq<string>, now: int): bool {
    if sourceId !in rows then true
    else
      var row := rows[sourceId];
      var processed := RoutesFromColumn(row.lastProcessedRoutes);
      if exists k :: 0 <= k < |routes| && routes[k] !in processed then true
      else ToUnixTs(now) - ThreeHours > row.lastProcessedScheduleTime
  }

  /** `updateLastProcessedScheduleTime` on the rows: the routes and the time replaced, a new row with feed time 0. */
  function ScheduleProcessed(rows: map<string, UpdateTimeRow>, sourceId: string, routes: seq<string>, now: int): map<string, UpdateTimeRow> {
    var feedTime := if sourceId in rows then rows[sourceId].lastProcessedFeedTime else 0;
    rows[sourceId := UpdateTimeRow(ToUnixTs(now), feedTime, RoutesToColumn(NewSet(routes)))]
  }

  /** `lastProcessedFeedTime` on the rows: the stored value, 0 without a row. */
  function FeedTimeOf(rows: map<string, UpdateTimeRow>, sourceId: string): int {
    if sourceId in rows then rows[sourceId].lastProcessedFeedTime else 0
  }

  /** `updateLastProcessedFeedTime` on the rows: an update of the source's row, which creates none. */
  function FeedProcessed(rows: map<string, UpdateTimeRow>, sourceId: string, time: int): map<string, UpdateTimeRow> {
    if sourceId in rows then rows[sourceId := rows[sourceId].(lastProcessedFeedTime := time)] else rows
  }

  /** The table of watermarks. */
  class UpdateTimeStore {
    var rows: map<string, UpdateTimeRow>

    constructor ()
      ensures rows == map[]
    {
      rows := map[];
    }

    /** `needsScheduleProcess`, with the current time (ms) as an input. */
    method NeedsScheduleProcess(sourceId: string, routes: seq<string>, now: int) returns (needs: bool)
      ensures needs == NeedsProcess(rows, sourceId, routes, now)
    {
      if sourceId !in rows {
        return true;
      }
      var updateTime := rows[sourceId];
      var processed := RoutesFromColumn(updateTime.lastProcessedRoutes);
      for k := 0 to |routes|
        invariant forall j :: 0 <= j < k ==> routes[j] in processed
      {
        if routes[k] !in processed {
          return true;
        }
      }
      needs := ToUnixTs(now) - ThreeHours > updateTime.lastProcessedScheduleTime;
    }

    /** `updateLastProcessedScheduleTime`, with the current time (ms) as an input. */
    method UpdateLastProcessedScheduleTime(sourceId: string, routes: seq<string>, now: int)
      modifies this
      ensures rows == ScheduleProcessed(old(rows), sourceId, routes, now)
    {
      var updateTime: UpdateTimeRow;
      if sourceId in rows {
        updateTime := rows[sourceId];
      } else {
        updateTime := UpdateTimeRow(0, 0, "");
      }
      updateTime := updateTime.(lastProcessedRoutes := RoutesToColumn(NewSet(routes)), lastProcessedScheduleTime := ToUnixTs(now));
      rows := rows[sourceId := updateTime];
    }

    method LastProcessedFeedTime(sourceId: string) returns (time: int)
      ensures time == FeedTimeOf(rows, sourceId)
    {
      time := if sourceId in rows then rows[sourceId].lastProcessedFeedTime else 0;
    }

    method UpdateLastProcessedFeedTime(sourceId: string, time: int)
      modifies this
      ensures rows == FeedProcessed(old(rows), sourceId, time)
    {
      if sourceId in rows {
        rows := rows[sourceId := rows[sourceId].(lastProcessedFeedTime := time)];
      }
    }
  }

  // ---------------------------------------------------------------------
  // Properties

  /** The three cases of the staleness decision, the last one a strict comparison. */
  lemma NeedsProcessCases(rows: map<string, UpdateTimeRow>, sourceId: string, routes: seq<string>, now: int)
    ensures sourceId !in rows ==> NeedsProcess(rows, sourceId, routes, now)
    ensures sourceId in rows && (exists k :: 0 <= k < |routes| && routes[k] !in RoutesFromColumn(rows[sourceId].lastProcessedRoutes))
            ==> NeedsProcess(rows, sourceId, routes, now)
    ensures sourceId in rows && (forall k :: 0 <= k < |routes| ==> routes[k] in RoutesFromColumn(rows[sourceId].lastProcessedRoutes))
            ==> (NeedsProcess(rows, sourceId, routes, now) <==> now / 1000 - 10800 > rows[sourceId].lastProcessedScheduleTime)
  {
  }

  /**
   * Right after a schedule was processed for some routes, it is not needed
   * again for any of those routes until more than three hours have passed
   * (ids as the column keeps them: non-empty, without ','); the feed
   * watermark is kept, or 0 on a new row.
   */
  lemma ProcessedScheduleNotNeeded(rows: map<string, UpdateTimeRow>, sourceId: string, routes: seq<string>, asked: seq<string>, now: int, later: int)
    requires ColumnSafe(routes)
    requires forall k :: 0 <= k < |asked| ==> asked[k] in routes
    requires ToUnixTs(later) - ThreeHours <= ToUnixTs(now)
    ensures !NeedsProcess(ScheduleProcessed(rows, sourceId, routes, now), sourceId, asked, later)
    ensures FeedTimeOf(ScheduleProcessed(rows, sourceId, routes, now), sourceId) == FeedTimeOf(rows, sourceId)
  {
    var kept := NewSet(routes);
    assert ColumnSafe(kept) by {
      forall k | 0 <= k < |kept|
        ensures kept[k] != "" && ',' !in kept[k]
      {
        assert kept[k] in routes;
        var j :| 0 <= j < |routes| && routes[j] == kept[k];
      }
    }
    RoutesColumnRoundTrip(kept);
  }

  /** The feed watermark reads back as written for a source with a row; a source without one stays without. */
  lemma FeedWatermarkRoundTrip(rows: map<string, UpdateTimeRow>, sourceId: string, time: int)
    ensures sourceId in rows ==> FeedTimeOf(FeedProcessed(rows, sourceId, time), sourceId) == time
    ensures sourceId !in rows ==> FeedProcessed(rows, sourceId, time) == rows && FeedTimeOf(rows, sourceId) == 0
    ensures forall s :: s != sourceId ==> FeedTimeOf(FeedProcessed(rows, sourceId, time), s) == FeedTimeOf(rows, s)
  {
  }
}
