/**
 * The decisions of `FeedFetcher`: which zip entries become files of the
 * parsed schedule, when a parsed schedule is rejected, which configured
 * data source a source id names, and which HTTP responses are accepted.
 * The download, the unzipping and the CSV parsing are inputs.
 */
module FeedFetcher {
  import opened Common

  /** A configured data source. */
  datatype DataSourceConfig = DataSourceConfig(sourceId: string, gtfsSchedule: string, gtfsRtFeed: string, routes: seq<string>)

  /** An HTTP response: its status code and, for a schedule, the zip entries parsed as CSV, in archive order. */
  datatype Response = Response(statusCode: int, entries: seq<(string, seq<Row>)>)

  /** The files every schedule must have, with at least one row each. */
  const RequiredFiles: seq<string> := ["agency.txt", "routes.txt", "stop_times.txt", "trips.txt", "stops.txt"]

  predicate EndsWithTxt(name: string) {
    |name| >= 4 && name[|name| - 4..] == ".txt"
  }

  /** The entries whose name ends in `.txt`, by name; a later entry of the same name replaces an earlier one. */
  function TxtFiles(entries: seq<(string, seq<Row>)>): (data: GtfsData)
    ensures forall name :: name in data ==> EndsWithTxt(name)
    decreases |entries|
  {
    if |entries| == 0 then map[]
    else
      var prev := TxtFiles(entries[..|entries| - 1]);
      var (name, rows) := entries[|entries| - 1];
      if EndsWithTxt(name) then prev[name := rows] else prev
  }

  /** A file name is kept exactly when it ends in `.txt` and some entry has it, with the rows of its last entry. */
  lemma {:induction false} TxtFilesContents(entries: seq<(string, seq<Row>)>, name: string)
    ensures name in TxtFiles(entries) <==> EndsWithTxt(name) && exists k :: 0 <= k < |entries| && entries[k].0 == name
    ensures name in TxtFiles(entries) ==> exists k :: 0 <= k < |entries| && entries[k].0 == name && TxtFiles(entries)[name] == entries[k].1
                                                     && forall j :: k < j < |entries| ==> entries[j].0 != name
    decreases |entries|
  {
    if |entries| > 0 {
      var init := entries[..|entries| - 1];
      TxtFilesContents(init, name);
      if exists k :: 0 <= k < |init| && init[k].0 == name {
        var k :| 0 <= k < |init| && init[k].0 == name;
        assert entries[k] == init[k];
      }
      if exists k :: 0 <= k < |entries| && entries[k].0 == name {
        var k :| 0 <= k < |entries| && entries[k].0 == name;
        if k < |init| {
          assert init[k] == entries[k];
        }
      }
      if name in TxtFiles(entries) && entries[|entries| - 1].0 != name {
        var k :| 0 <= k < |init| && init[k].0 == name && TxtFiles(init)[name] == init[k].1
                 && forall j :: k < j < |init| ==> init[j].0 != name;
        assert entries[k] == init[k];
        forall j | k < j < |entries|
          ensures entries[j].0 != name
        {
          if j < |init| {
            assert entries[j] == init[j];
          }
        }
      }
    }
  }

  /** The first of `names` that is absent or has no rows (the `forEach` that throws). */
  function FirstMissing(data: GtfsData, names: seq<string>): (r: Option<nat>)
    ensures r.None? <==> forall k :: 0 <= k < |names| ==> names[k] in data && |data[names[k]]| > 0
    ensures r.Some? ==> r.value < |names| && (names[r.value] !in data || |data[names[r.value]]| == 0)
    decreases |names|
  {
    if |names| == 0 then None
    else if names[0] !in data || |data[names[0]]| == 0 then Some(0)
    else
      var r := FirstMissing(data, names[1..]);
      if r.None? then None else Some(r.value + 1)
  }

  /** The validation of a parsed schedule: the required files, then a calendar file of either kind. */
  function ValidateScheduleData(data: GtfsData): (outcome: Outcome<string>)
    ensures outcome.Pass? <==>
      && (forall k :: 0 <= k < |RequiredFiles| ==> RequiredFiles[k] in data && |data[RequiredFiles[k]]| > 0)
      && ("calendar.txt" in data || "calendar_dates.txt" in data)
  {
    if FirstMissing(data, RequiredFiles).Some? then Fail("malformed or missing required schedule data")
    else if "calendar.txt" !in data && "calendar_dates.txt" !in data then Fail("malformed or missing required schedule data")
    else Pass
  }

  /** `getDataSourceURLs`: the first configured source with the id; an error when there is none. */
  function GetDataSourceURLs(sources: seq<DataSourceConfig>, sourceId: string): (r: Result<DataSourceConfig, string>)
    ensures r.Ok? ==> exists k :: 0 <= k < |sources| && sources[k] == r.value && r.value.sourceId == sourceId
                                   && forall j :: 0 <= j < k ==> sources[j].sourceId != sourceId
    ensures r.Err? <==> forall k :: 0 <= k < |sources| ==> sources[k].sourceId != sourceId
    decreases |sources|
  {
    if |sources| == 0 then Err("Could not find data source with ID " + sourceId)
    else if sources[0].sourceId == sourceId then Ok(sources[0])
    else
      var r := GetDataSourceURLs(sources[1..], sourceId);
      if r.Ok? then
        assert exists k :: 0 <= k < |sources| && sources[k] == r.value && forall j :: 0 <= j < k ==> sources[j].sourceId != sourceId by {
          var k :| 0 <= k < |sources| - 1 && sources[1..][k] == r.value && forall j :: 0 <= j < k ==> sources[1..][j].sourceId != sourceId;
          assert sources[k + 1] == r.value;
          forall j | 0 <= j < k + 1
            ensures sources[j].sourceId != sourceId
          {
            if j > 0 {
              assert sources[j] == sources[1..][j - 1];
            }
          }
        }
        r
      else r
  }

  /** `checkFetchResponse`: only status 200 is accepted. */
  function CheckFetchResponse(response: Response): (outcome: Outcome<string>)
    ensures outcome.Fail? <==> response.statusCode != 200
  {
    if response.statusCode != 200 then Fail("Bad response") else Pass
  }

  /**
   * `fetchGtfsScheduleData` from the response on: rejected for an unknown
   * source or a bad status, then the `.txt` entries, then the validation.
   */
  method FetchGtfsScheduleData(sources: seq<DataSourceConfig>, sourceId: string, response: Response) returns (r: Result<GtfsData, string>)
    ensures r.Ok? ==> && (exists k :: 0 <= k < |sources| && sources[k].sourceId == sourceId)
                      && response.statusCode == 200
                      && r.value == TxtFiles(response.entries)
                      && (forall k :: 0 <= k < |RequiredFiles| ==> RequiredFiles[k] in r.value && |r.value[RequiredFiles[k]]| > 0)
                      && ("calendar.txt" in r.value || "calendar_dates.txt" in r.value)
    ensures r.Err? ==> || (forall k :: 0 <= k < |sources| ==> sources[k].sourceId != sourceId)
                       || response.statusCode != 200
                       || (exists k :: 0 <= k < |RequiredFiles| && (RequiredFiles[k] !in TxtFiles(response.entries) || |TxtFiles(response.entries)[RequiredFiles[k]]| == 0))
                       || ("calendar.txt" !in TxtFiles(response.entries) && "calendar_dates.txt" !in TxtFiles(response.entries))
  {
    var source := GetDataSourceURLs(sources, sourceId);
    if source.Err? {
      return Err(source.error);
    }
    var checked := CheckFetchResponse(response);
    if checked.Fail? {
      return Err(checked.error);
    }
    var data := TxtFiles(response.entries);
    var valid := ValidateScheduleData(data);
    if valid.Fail? {
      return Err(valid.error);
    }
    return Ok(data);
  }

  /** A schedule with only a calendar_dates.txt, even an empty one, passes the calendar requirement; with neither file it fails. */
  lemma CalendarRequirement(data: GtfsData)
    requires forall k :: 0 <= k < |RequiredFiles| ==> RequiredFiles[k] in data && |data[RequiredFiles[k]]| > 0
    ensures "calendar_dates.txt" in data && |data["calendar_dates.txt"]| == 0 ==> ValidateScheduleData(data).Pass?
    ensures "calendar.txt" !in data && "calendar_dates.txt" !in data ==> ValidateScheduleData(data).Fail?
  {
  }
}
