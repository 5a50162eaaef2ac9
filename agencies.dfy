/**
 * `getTimezoneByAgency`: the timezone of each agency id of agency.txt, with
 * the empty agency id standing for the only agency of a single-agency feed.
 */
module AgencyTimezones {
  import opened Common

  /**
   * One agency.txt row: skipped without agency_timezone; otherwise its
   * agency id ('' when unset) gets the timezone, and so does '' when the
   * file has at most one row.
   */
  function ApplyAgencyRow(tzs: map<string, string>, agencyCount: nat, row: Row): map<string, string> {
    var id := Field(row, "agency_id").GetOr("");
    var tz := Field(row, "agency_timezone");
    if tz.None? then tzs
    else
      var withId := tzs[id := tz.value];
      if agencyCount <= 1 then withId["" := tz.value] else withId
  }

  function AgencyRows(tzs: map<string, string>, agencyCount: nat, rows: seq<Row>): map<string, string>
    decreases |rows|
  {
    if |rows| == 0 then tzs
    else ApplyAgencyRow(AgencyRows(tzs, agencyCount, rows[..|rows| - 1]), agencyCount, rows[|rows| - 1])
  }

  /** `getTimezoneByAgency`. */
  method GetTimezoneByAgency(rows: seq<Row>) returns (tzs: map<string, string>)
    ensures tzs == AgencyRows(map[], |rows|, rows)
  {
    tzs := map[];
    var agencyLength := |rows|;
    for i := 0 to |rows|
      invariant tzs == AgencyRows(map[], agencyLength, rows[..i])
    {
      assert rows[..i + 1][..i] == rows[..i];
      var row := rows[i];
      var id := Field(row, "agency_id").GetOr("");
      var tz := Field(row, "agency_timezone");
      if tz.None? {
        continue;
      }
      tzs := tzs[id := tz.value];
      if agencyLength <= 1 {
        tzs := tzs["" := tz.value];
      }
    }
    assert rows[..|rows|] == rows;
  }

  /** The agency id a row names, '' when unset. */
  function AgencyIdOf(row: Row): string {
    Field(row, "agency_id").GetOr("")
  }

  /** The row gives agency id `id` a timezone. */
  predicate GivesTimezone(row: Row, agencyCount: nat, id: string) {
    Field(row, "agency_timezone").Some? && (AgencyIdOf(row) == id || (id == "" && agencyCount <= 1))
  }

  /** One row sets `id` exactly when it gives it a timezone, and otherwise leaves it as it was. */
  lemma AgencyRowEffect(tzs: map<string, string>, agencyCount: nat, row: Row, id: string)
    ensures var after := ApplyAgencyRow(tzs, agencyCount, row);
      && (GivesTimezone(row, agencyCount, id) ==> id in after && after[id] == row["agency_timezone"] && after[id] != "")
      && (!GivesTimezone(row, agencyCount, id) ==> (id in after <==> id in tzs) && (id in tzs ==> after[id] == tzs[id]))
  {
  }

  /**
   * An agency id has a timezone exactly when some row with a timezone names
   * it, a row without agency_id naming ''; '' also has one when the file has
   * at most one row and that row has a timezone. Every timezone stored is a
   * non-empty agency_timezone.
   */
  lemma {:induction false} TimezoneKeys(agencyCount: nat, rows: seq<Row>, id: string)
    ensures var tzs := AgencyRows(map[], agencyCount, rows);
      && (id in tzs <==> exists k :: 0 <= k < |rows| && GivesTimezone(rows[k], agencyCount, id))
      && (id in tzs ==> tzs[id] != "")
    decreases |rows|
  {
    if |rows| > 0 {
      var init := rows[..|rows| - 1];
      var row := rows[|rows| - 1];
      TimezoneKeys(agencyCount, init, id);
      AgencyRowEffect(AgencyRows(map[], agencyCount, init), agencyCount, row, id);
      if exists k :: 0 <= k < |init| && GivesTimezone(init[k], agencyCount, id) {
        var k :| 0 <= k < |init| && GivesTimezone(init[k], agencyCount, id);
        assert rows[k] == init[k];
      }
      if exists k :: 0 <= k < |rows| && GivesTimezone(rows[k], agencyCount, id) {
        var k :| 0 <= k < |rows| && GivesTimezone(rows[k], agencyCount, id);
        if k < |rows| - 1 {
          assert init[k] == rows[k];
        }
      }
    }
  }

  /** A feed with a single agency row that has a timezone: that timezone is found under its id and under ''. */
  lemma SingleAgencyDefault(row: Row)
    requires Field(row, "agency_timezone").Some?
    ensures var tzs := AgencyRows(map[], 1, [row]);
      && tzs[""] == row["agency_timezone"] && tzs[AgencyIdOf(row)] == row["agency_timezone"]
  {
    assert [row][..0] == [];
  }

  /** With several agency rows, '' is only found when some row leaves agency_id unset. */
  lemma SeveralAgenciesNoDefault(rows: seq<Row>)
    requires |rows| > 1
    requires forall k :: 0 <= k < |rows| ==> AgencyIdOf(rows[k]) != ""
    ensures "" !in AgencyRows(map[], |rows|, rows)
  {
    TimezoneKeys(|rows|, rows, "");
  }
}
