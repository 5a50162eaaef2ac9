/**
 * `getOrGenerateStops`: find-or-create of the stops of stops.txt keyed by
 * GTFS stop id, then one parent-link update per known stop.
 */
module StopImport {
  import opened Common
  import opened Entities

  /** The state of the stop loop: stops by id, created ids in order, ids of saved renames, parent relations. */
  datatype StopState = StopState(
    stops: map<string, Stop>,
    created: seq<string>,
    saved: seq<string>,
    relations: map<string, string>)

  /** `Stop.newStop`: a stop without a parent. */
  function NewStop(sourceId: string, id: string, stopName: string): Stop {
    Stop(sourceId, id, stopName, None)
  }

  /** The stored stops keyed by id (a later stop of the same id wins). */
  function StoredStopMap(stored: seq<Stop>): map<string, Stop>
    decreases |stored|
  {
    if |stored| == 0 then map[]
    else StoredStopMap(stored[..|stored| - 1])[stored[|stored| - 1].gtfsStopId := stored[|stored| - 1]]
  }

  /**
   * One stops.txt row: a row without stop_id is skipped; a parent_station
   * is recorded for the id; the stop is created (name defaulting to '') or
   * renamed, the rename saved when the name differs.
   */
  function ApplyStopRow(sourceId: string, st: StopState, row: Row): StopState {
    var id := Field(row, "stop_id");
    var stopName := Field(row, "stop_name").GetOr("");
    var parentId := Field(row, "parent_station");
    if id.None? then st
    else
      var relations := if parentId.Some? then st.relations[id.value := parentId.value] else st.relations;
      if id.value !in st.stops then
        StopState(st.stops[id.value := NewStop(sourceId, id.value, stopName)], st.created + [id.value], st.saved, relations)
      else
        var prior := st.stops[id.value];
        StopState(st.stops[id.value := prior.(stopName := stopName)], st.created,
                  if prior.stopName != stopName then st.saved + [id.value] else st.saved, relations)
  }

  function StopRows(sourceId: string, st: StopState, rows: seq<Row>): StopState
    decreases |rows|
  {
    if |rows| == 0 then st
    else ApplyStopRow(sourceId, StopRows(sourceId, st, rows[..|rows| - 1]), rows[|rows| - 1])
  }

  /** One `updateParentIfNecessary` call: the parent stop passed (by id, when known) and the flag passed with it. */
  datatype ParentCall = ParentCall(parent: Option<string>, notFirstProcess: bool)

  /** The parent passed for a stop: the stop its relation names, when that stop is known. */
  function ParentOf(st: StopState, id: string): Option<string> {
    var key := if id in st.relations then st.relations[id] else "";
    if key in st.stops then Some(key) else None
  }

  /** The parent-link calls, one per known stop. */
  function ParentCalls(st: StopState, firstProcess: bool): map<string, ParentCall> {
    map id | id in st.stops :: ParentCall(ParentOf(st, id), !firstProcess)
  }

  /**
   * `getOrGenerateStops`: the stop map, the stops passed to `bulkCreateStops`
   * (before any parent is linked), the ids whose rename saved, and the
   * parent-link calls made afterwards.
   */
  method GetOrGenerateStops(sourceId: string, rows: seq<Row>, stored: seq<Stop>)
    returns (stopMap: map<string, Stop>, newStops: seq<Stop>, saved: seq<string>, parentCalls: map<string, ParentCall>)
    ensures var st := StopRows(sourceId, StopState(StoredStopMap(stored), [], [], map[]), rows);
      && stopMap == st.stops && saved == st.saved
      && (forall k :: 0 <= k < |st.created| ==> st.created[k] in st.stops)
      && newStops == seq(|st.created|, k requires 0 <= k < |st.created| => st.stops[st.created[k]])
      && parentCalls == ParentCalls(st, |StoredStopMap(stored)| == 0)
  {
    stopMap := map[];
    for i := 0 to |stored|
      invariant stopMap == StoredStopMap(stored[..i])
    {
      assert stored[..i + 1][..i] == stored[..i];
      stopMap := stopMap[stored[i].gtfsStopId := stored[i]];
    }
    assert stored[..|stored|] == stored;
    var firstProcess := false;
    if |stopMap| == 0 {
      firstProcess := true;
    }
    ghost var initial := stopMap;
    var relations: map<string, string> := map[];
    var created: seq<string> := [];
    saved := [];
    for i := 0 to |rows|
      invariant StopState(stopMap, created, saved, relations) == StopRows(sourceId, StopState(initial, [], [], map[]), rows[..i])
      invariant forall k :: 0 <= k < |created| ==> created[k] in stopMap
    {
      assert rows[..i + 1][..i] == rows[..i];
      var row := rows[i];
      var id := Field(row, "stop_id");
      var stopName := Field(row, "stop_name").GetOr("");
      var parentId := Field(row, "parent_station");
      if id.None? {
        continue;
      }
      if parentId.Some? {
        relations := relations[id.value := parentId.value];
      }
      if id.value !in stopMap {
        stopMap := stopMap[id.value := NewStop(sourceId, id.value, stopName)];
        created := created + [id.value];
      } else {
        var prior := stopMap[id.value];
        stopMap := stopMap[id.value := prior.(stopName := stopName)];
        if prior.stopName != stopName {
          saved := saved + [id.value];
        }
      }
    }
    assert rows[..|rows|] == rows;
    newStops := seq(|created|, k requires 0 <= k < |created| => stopMap[created[k]]);
    var st := StopState(stopMap, created, saved, relations);
    parentCalls := map id | id in stopMap :: ParentCall(ParentOf(st, id), !firstProcess);
  }

  /** Every stop id of a row with a stop_id is known afterwards, and no known stop is lost. */
  lemma {:induction false} StopRowsKnown(sourceId: string, st: StopState, rows: seq<Row>)
    ensures st.stops.Keys <= StopRows(sourceId, st, rows).stops.Keys
    ensures forall k :: 0 <= k < |rows| && Field(rows[k], "stop_id").Some? ==>
      rows[k]["stop_id"] in StopRows(sourceId, st, rows).stops
    decreases |rows|
  {
    if |rows| > 0 {
      var init := rows[..|rows| - 1];
      StopRowsKnown(sourceId, st, init);
      forall k | 0 <= k < |rows| - 1 && Field(rows[k], "stop_id").Some?
        ensures rows[k]["stop_id"] in StopRows(sourceId, st, rows).stops
      {
        assert rows[k] == init[k];
      }
    }
  }

  /** A relation is recorded only for a parent_station that was set, and every recorded child is a known stop. */
  lemma {:induction false} RelationsFromRows(sourceId: string, st: StopState, rows: seq<Row>)
    requires forall id :: id in st.relations ==> id in st.stops && st.relations[id] != ""
    ensures var r := StopRows(sourceId, st, rows);
      forall id :: id in r.relations ==> id in r.stops && r.relations[id] != ""
    decreases |rows|
  {
    if |rows| > 0 {
      RelationsFromRows(sourceId, st, rows[..|rows| - 1]);
      StopRowsKnown(sourceId, st, rows[..|rows| - 1]);
    }
  }

  /**
   * Every known stop gets exactly one parent-link call; the parent passed is
   * the stop its last parent_station names when that stop is known, else
   * none (provided no stop has the empty id, which the lookup falls back
   * to); the flag is set unless the store held no stop before the run.
   */
  lemma ParentCallsTarget(st: StopState, firstProcess: bool, id: string)
    requires id in st.stops && "" !in st.stops
    ensures id in ParentCalls(st, firstProcess)
    ensures var call := ParentCalls(st, firstProcess)[id];
      && call.notFirstProcess == !firstProcess
      && (call.parent.Some? <==> id in st.relations && st.relations[id] in st.stops)
      && (call.parent.Some? ==> call.parent.value == st.relations[id] && call.parent.value in st.stops)
  {
  }
}
