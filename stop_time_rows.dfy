/**
 * From stop_times.txt rows to the schedule of one trip: grouping the rows by
 * trip id, and turning one trip's rows into the sequence of (stop, time,
 * stop_sequence) entries, sorted by stop_sequence, that the stored stop times
 * are compared against.
 */
module StopTimeRows {
  import opened Common
  import opened Entities

  // ---------------------------------------------------------------------
  // getStopTimesByTripId

  /** The rows of stop_times.txt whose trip_id is `tripId`, in file order. */
  function RowsOfTrip(rows: seq<Row>, tripId: string): seq<Row>
    decreases |rows|
  {
    if |rows| == 0 then []
    else RowsOfTrip(rows[..|rows| - 1], tripId)
         + (if Field(rows[|rows| - 1], "trip_id") == Some(tripId) then [rows[|rows| - 1]] else [])
  }

  /** The grouping after a row: rows without trip_id are dropped, the others appended to their trip's list. */
  function GroupRow(groups: map<string, seq<Row>>, keys: seq<string>, row: Row): (map<string, seq<Row>>, seq<string>) {
    var tripId := Field(row, "trip_id");
    if tripId.None? then (groups, keys)
    else if tripId.value in groups then (groups[tripId.value := groups[tripId.value] + [row]], keys)
    else (groups[tripId.value := [row]], keys + [tripId.value])
  }

  /** The grouping of a prefix of the rows, with the trip ids in order of first appearance. */
  function Grouping(rows: seq<Row>): (map<string, seq<Row>>, seq<string>)
    decreases |rows|
  {
    if |rows| == 0 then (map[], [])
    else
      var prev := Grouping(rows[..|rows| - 1]);
      GroupRow(prev.0, prev.1, rows[|rows| - 1])
  }

  /** `getStopTimesByTripId`: the rows of each trip, and the trip ids in the order the object's keys are visited. */
  method GetStopTimesByTripId(rows: seq<Row>) returns (groups: map<string, seq<Row>>, keys: seq<string>)
    ensures (groups, keys) == Grouping(rows)
  {
    groups, keys := map[], [];
    for i := 0 to |rows|
      invariant (groups, keys) == Grouping(rows[..i])
    {
      assert rows[..i + 1][..i] == rows[..i] && rows[..i + 1][i] == rows[i];
      var row := rows[i];
      assert Grouping(rows[..i + 1]) == GroupRow(groups, keys, row);
      var tripId := Field(row, "trip_id");
      if tripId.None? {
        continue;
      }
      if tripId.value in groups {
        groups := groups[tripId.value := groups[tripId.value] + [row]];
      } else {
        keys := keys + [tripId.value];
        groups := groups[tripId.value := [row]];
      }
    }
    assert rows[..|rows|] == rows;
  }

  /**
   * Each trip id with a row maps to exactly its rows in file order, every
   * key is listed once, and the trip ids without rows are absent.
   */
  lemma {:induction false} GroupingContents(rows: seq<Row>)
    ensures var g := Grouping(rows);
      && (forall t :: t in g.0 <==> t in g.1)
      && (forall t :: t in g.0 ==> g.0[t] == RowsOfTrip(rows, t) && |g.0[t]| > 0)
      && (forall t :: t !in g.0 ==> RowsOfTrip(rows, t) == [])
    ensures forall i, j :: 0 <= i < j < |Grouping(rows).1| ==> Grouping(rows).1[i] != Grouping(rows).1[j]
    decreases |rows|
  {
    if |rows| > 0 {
      var init := rows[..|rows| - 1];
      var row := rows[|rows| - 1];
      GroupingContents(init);
      var prev := Grouping(init);
      var g := Grouping(rows);
      assert g == GroupRow(prev.0, prev.1, row);
      forall t
        ensures RowsOfTrip(rows, t) == RowsOfTrip(init, t) + (if Field(row, "trip_id") == Some(t) then [row] else [])
      {
      }
    }
  }

  /** The index of the first row whose trip_id is `tripId`; the number of rows when there is none. */
  function FirstRowOf(rows: seq<Row>, tripId: string): (r: nat)
    ensures r <= |rows|
    ensures r < |rows| ==> Field(rows[r], "trip_id") == Some(tripId)
    ensures forall b :: 0 <= b < r ==> Field(rows[b], "trip_id") != Some(tripId)
    decreases |rows|
  {
    if |rows| == 0 then 0
    else
      var init := rows[..|rows| - 1];
      var f := FirstRowOf(init, tripId);
      assert forall b :: 0 <= b < |init| ==> init[b] == rows[b];
      if f < |init| then f
      else if Field(rows[|rows| - 1], "trip_id") == Some(tripId) then |init|
      else |rows|
  }

  /** The first row of a trip id among one more row. */
  lemma FirstRowOfStep(rows: seq<Row>, tripId: string)
    requires |rows| > 0
    ensures FirstRowOf(rows, tripId)
            == if FirstRowOf(rows[..|rows| - 1], tripId) < |rows| - 1 then FirstRowOf(rows[..|rows| - 1], tripId)
               else if Field(rows[|rows| - 1], "trip_id") == Some(tripId) then |rows| - 1
               else |rows|
  {
  }

  /** The trip ids listed are the keys of the groups. */
  lemma {:induction false} GroupingKeys(rows: seq<Row>)
    ensures forall t :: t in Grouping(rows).0 <==> t in Grouping(rows).1
    decreases |rows|
  {
    if |rows| > 0 {
      var init := rows[..|rows| - 1];
      GroupingKeys(init);
      var prev := Grouping(init);
      assert Grouping(rows) == GroupRow(prev.0, prev.1, rows[|rows| - 1]);
    }
  }

  /** One more row lists its trip id after the others when it is new, and keeps the list otherwise. */
  lemma GroupingListAfter(init: seq<Row>, row: Row)
    requires forall t :: t in Grouping(init).0 <==> t in Grouping(init).1
    ensures Grouping(init + [row]).1
            == if Field(row, "trip_id").None? || Field(row, "trip_id").value in Grouping(init).1 then Grouping(init).1
               else Grouping(init).1 + [Field(row, "trip_id").value]
  {
    var rows := init + [row];
    assert rows[..|rows| - 1] == init;
    assert Grouping(rows) == GroupRow(Grouping(init).0, Grouping(init).1, row);
  }

  /** One more row keeps the first rows of the listed trip ids, and is the first row of a new one. */
  lemma FirstRowsAfter(init: seq<Row>, row: Row)
    requires forall t :: t in Grouping(init).1 <==> FirstRowOf(init, t) < |init|
    ensures forall t :: (FirstRowOf(init + [row], t)
      == if t in Grouping(init).1 then FirstRowOf(init, t) else if Field(row, "trip_id") == Some(t) then |init| else |init| + 1)
  {
    var rows := init + [row];
    assert rows[..|rows| - 1] == init;
    forall t
      ensures FirstRowOf(rows, t)
        == (if t in Grouping(init).1 then FirstRowOf(init, t) else if Field(row, "trip_id") == Some(t) then |init| else |init| + 1)
    {
      FirstRowOfStep(rows, t);
    }
  }

  /** A list that gains `x` when it is new, against first positions that place a new `x` at `n`. */
  lemma ListedAfter(list: seq<string>, list': seq<string>, x: Option<string>, n: nat,
                    first: string -> nat, first': string -> nat)
    requires list' == if x.None? || x.value in list then list else list + [x.value]
    requires forall t :: t in list <==> first(t) < n
    requires forall t :: first'(t) == if t in list then first(t) else if x == Some(t) then n else n + 1
    ensures forall t :: t in list' <==> first'(t) < n + 1
  {
  }

  /** After one more row, a trip id is listed exactly when some row names it. */
  lemma GroupingListedStep(init: seq<Row>, row: Row)
    requires forall t :: t in Grouping(init).0 <==> t in Grouping(init).1
    requires forall t :: t in Grouping(init).1 <==> FirstRowOf(init, t) < |init|
    ensures forall t :: t in Grouping(init + [row]).1 <==> FirstRowOf(init + [row], t) < |init| + 1
  {
    GroupingListAfter(init, row);
    FirstRowsAfter(init, row);
    ListedAfter(Grouping(init).1, Grouping(init + [row]).1, Field(row, "trip_id"), |init|,
                t => FirstRowOf(init, t), t => FirstRowOf(init + [row], t));
  }

  /** A list ordered by first positions stays ordered when it gains a new `x` placed at `n`, after all the others. */
  lemma OrderedAfter(list: seq<string>, list': seq<string>, x: Option<string>, n: nat,
                     first: string -> nat, first': string -> nat)
    requires list' == if x.None? || x.value in list then list else list + [x.value]
    requires forall t :: t in list ==> first(t) < n
    requires forall i, j :: 0 <= i < j < |list| ==> first(list[i]) < first(list[j])
    requires forall t :: first'(t) == if t in list then first(t) else if x == Some(t) then n else n + 1
    ensures forall i, j :: 0 <= i < j < |list'| ==> first'(list'[i]) < first'(list'[j])
  {
    forall i, j | 0 <= i < j < |list'|
      ensures first'(list'[i]) < first'(list'[j])
    {
      assert list'[i] == list[i] && list[i] in list;
      if j < |list| {
        assert list'[j] == list[j] && list[j] in list;
      }
    }
  }

  /** After one more row, the listed trip ids still follow the order of their first rows. */
  lemma GroupingOrderStep(init: seq<Row>, row: Row)
    requires forall t :: t in Grouping(init).0 <==> t in Grouping(init).1
    requires forall t :: t in Grouping(init).1 <==> FirstRowOf(init, t) < |init|
    requires forall i, j :: 0 <= i < j < |Grouping(init).1| ==>
      FirstRowOf(init, Grouping(init).1[i]) < FirstRowOf(init, Grouping(init).1[j])
    ensures forall i, j :: 0 <= i < j < |Grouping(init + [row]).1| ==>
      FirstRowOf(init + [row], Grouping(init + [row]).1[i]) < FirstRowOf(init + [row], Grouping(init + [row]).1[j])
  {
    GroupingListAfter(init, row);
    FirstRowsAfter(init, row);
    OrderedAfter(Grouping(init).1, Grouping(init + [row]).1, Field(row, "trip_id"), |init|,
                 t => FirstRowOf(init, t), t => FirstRowOf(init + [row], t));
  }

  /**
   * The trip ids are listed exactly when some row names them, in the order
   * of their first rows.
   */
  lemma {:induction false} GroupingOrder(rows: seq<Row>)
    ensures forall t :: t in Grouping(rows).1 <==> FirstRowOf(rows, t) < |rows|
    ensures forall i, j :: 0 <= i < j < |Grouping(rows).1| ==>
      FirstRowOf(rows, Grouping(rows).1[i]) < FirstRowOf(rows, Grouping(rows).1[j])
    decreases |rows|
  {
    if |rows| > 0 {
      var init := rows[..|rows| - 1];
      GroupingOrder(init);
      GroupingKeys(init);
      GroupingListedStep(init, rows[|rows| - 1]);
      GroupingOrderStep(init, rows[|rows| - 1]);
      assert init + [rows[|rows| - 1]] == rows;
    }
  }

  // ---------------------------------------------------------------------
  // parseInt

  function DigitPrefixLength(s: string): (n: nat)
    ensures n <= |s| && AllDigits(s[..n]) && (n < |s| ==> !IsDigit(s[n]))
    decreases |s|
  {
    if |s| > 0 && IsDigit(s[0]) then
      var n := 1 + DigitPrefixLength(s[1..]);
      assert forall k :: 1 <= k < n ==> s[..n][k] == s[1..][..n - 1][k - 1];
      n
    else 0
  }

  /** The length of the optional sign in front of the digits. */
  function SignLength(s: string): nat {
    if |s| > 0 && (s[0] == '-' || s[0] == '+') then 1 else 0
  }

  /**
   * `parseInt(s)` on a decimal text: an optional sign, then the longest run
   * of digits; None (NaN) when there is no digit.
   */
  function ParseInt(s: string): (r: Option<int>)
    ensures r.Some? <==> SignLength(s) < |s| && IsDigit(s[SignLength(s)])
  {
    var start := SignLength(s);
    var n := DigitPrefixLength(s[start..]);
    if n == 0 then None
    else
      assert s[start..][..n] == s[start..start + n];
      var v: int := DigitsValue(s[start..start + n]);
      Some(if start == 1 && s[0] == '-' then -v else v)
  }

  lemma {:induction false} DigitPrefixAll(s: string)
    requires AllDigits(s)
    ensures DigitPrefixLength(s) == |s|
    decreases |s|
  {
    if |s| > 0 {
      DigitPrefixAll(s[1..]);
    }
  }

  /** A sign (or none) followed only by digits reads as the signed value of all the digits. */
  lemma ParseIntOfDigits(s: string)
    requires SignLength(s) < |s| && AllDigits(s[SignLength(s)..])
    ensures ParseInt(s).Some?
    ensures ParseInt(s).value == if s[0] == '-' then -(DigitsValue(s[1..]) as int) else DigitsValue(s[SignLength(s)..])
  {
    var start := SignLength(s);
    DigitPrefixAll(s[start..]);
    assert s[start..][..|s| - start] == s[start..start + (|s| - start)] == s[start..];
  }

  /** The decimal text of a number reads back as that number. */
  lemma ParseIntOfNatToString(n: nat)
    ensures ParseInt(NatToString(n)) == Some(n)
  {
    var s := NatToString(n);
    NatToStringRoundTrip(n);
    assert s[0] != '-' && s[0] != '+' by { assert IsDigit(s[0]); }
    assert s[0..] == s;
    ParseIntOfDigits(s);
  }

  /** A text starting with '-' and a non-zero digit run reads as a negative number. */
  lemma ParseIntNegative(digits: string)
    requires |digits| > 0 && AllDigits(digits) && DigitsValue(digits) > 0
    ensures ParseInt("-" + digits).Some? && ParseInt("-" + digits).value == -(DigitsValue(digits) as int) < 0
  {
    var s := "-" + digits;
    assert s[0] == '-' && SignLength(s) == 1;
    assert s[1..] == digits;
    ParseIntOfDigits(s);
  }

  // ---------------------------------------------------------------------
  // generateStopTimeSequenceData

  /** One entry of a trip's schedule: the stop, the time text and the stop_sequence. */
  datatype ScheduleEntry = ScheduleEntry(stop: Stop, time: string, stopSequence: int)

  /**
   * The entry a stop_times.txt row yields: the time is arrival_time, else
   * departure_time; a row without a time, without a known stop, or whose
   * stop_sequence is missing, not a number or negative yields none.
   */
  function EntryOf(row: Row, stops: map<string, Stop>): (e: Option<ScheduleEntry>)
    ensures e.Some? ==> e.value.time != "" && e.value.stopSequence >= 0
    ensures e.Some? ==> Field(row, "stop_id").GetOr("") in stops && e.value.stop == stops[Field(row, "stop_id").GetOr("")]
  {
    var time := OrElse(Field(row, "arrival_time"), Field(row, "departure_time"));
    var stopKey := Field(row, "stop_id").GetOr("");
    var sequence := Field(row, "stop_sequence");
    var stopSequence := if sequence.Some? then ParseInt(sequence.value) else None;
    if time.None? || stopKey !in stops || stopSequence.None? || stopSequence.value < 0 then None
    else Some(ScheduleEntry(stops[stopKey], time.value, stopSequence.value))
  }

  /** What each row yields, position by position. */
  function RowEntries(rows: seq<Row>, stops: map<string, Stop>): (r: seq<Option<ScheduleEntry>>)
    ensures |r| == |rows| && forall k :: 0 <= k < |rows| ==> r[k] == EntryOf(rows[k], stops)
  {
    seq(|rows|, k requires 0 <= k < |rows| => EntryOf(rows[k], stops))
  }

  /** The entries of the rows that yield one, in file order. */
  function Entries(rows: seq<Row>, stops: map<string, Stop>): seq<ScheduleEntry> {
    Present(RowEntries(rows, stops))
  }

  /** One more row adds its entry, if it yields one, at the end. */
  lemma EntriesStep(rows: seq<Row>, stops: map<string, Stop>, i: int)
    requires 0 <= i < |rows|
    ensures var e := EntryOf(rows[i], stops);
      Entries(rows[..i + 1], stops) == Entries(rows[..i], stops) + (if e.Some? then [e.value] else [])
  {
    var xs := RowEntries(rows[..i + 1], stops);
    assert xs[..i] == RowEntries(rows[..i], stops);
  }

  predicate SortedBySequence(s: seq<ScheduleEntry>) {
    forall i, j :: 0 <= i < j < |s| ==> s[i].stopSequence <= s[j].stopSequence
  }

  /** Places e after every entry of a sorted list whose stop_sequence is not greater. */
  function InsertBySequence(sorted: seq<ScheduleEntry>, e: ScheduleEntry): (r: seq<ScheduleEntry>)
    ensures multiset(r) == multiset(sorted) + multiset{e}
    decreases |sorted|
  {
    if |sorted| == 0 then [e]
    else
      var last := sorted[|sorted| - 1];
      var init := sorted[..|sorted| - 1];
      assert sorted == init + [last];
      if last.stopSequence <= e.stopSequence then sorted + [e]
      else InsertBySequence(init, e) + [last]
  }

  /** Every stop_sequence of a list is at most `bound`. */
  predicate AllAtMost(s: seq<ScheduleEntry>, bound: int) {
    forall k :: 0 <= k < |s| ==> s[k].stopSequence <= bound
  }

  /** A sorted list followed by an entry at least as large as all of it is sorted. */
  lemma SortedAppend(s: seq<ScheduleEntry>, x: ScheduleEntry)
    requires SortedBySequence(s) && AllAtMost(s, x.stopSequence)
    ensures SortedBySequence(s + [x])
  {
    var r := s + [x];
    forall i, j | 0 <= i < j < |r|
      ensures r[i].stopSequence <= r[j].stopSequence
    {
      assert r[i] == s[i];
      if j < |s| {
        assert r[j] == s[j];
      }
    }
  }

  /** Inserting an entry under the bound into a list under the bound stays under it. */
  lemma {:induction false} InsertBySequenceBounded(sorted: seq<ScheduleEntry>, e: ScheduleEntry, bound: int)
    requires AllAtMost(sorted, bound) && e.stopSequence <= bound
    ensures AllAtMost(InsertBySequence(sorted, e), bound)
    decreases |sorted|
  {
    if |sorted| > 0 {
      var init := sorted[..|sorted| - 1];
      var last := sorted[|sorted| - 1];
      InsertBySequenceBounded(init, e, bound);
      var r := InsertBySequence(sorted, e);
      forall k | 0 <= k < |r|
        ensures r[k].stopSequence <= bound
      {
        if k < |r| - 1 && last.stopSequence > e.stopSequence {
          assert r[k] == InsertBySequence(init, e)[k];
        } else if k < |r| - 1 {
          assert r[k] == sorted[k];
        }
      }
    }
  }

  /** Inserting into a sorted list keeps it sorted. */
  lemma {:induction false} InsertBySequenceSorted(sorted: seq<ScheduleEntry>, e: ScheduleEntry)
    requires SortedBySequence(sorted)
    ensures SortedBySequence(InsertBySequence(sorted, e))
    decreases |sorted|
  {
    if |sorted| > 0 {
      var last := sorted[|sorted| - 1];
      var init := sorted[..|sorted| - 1];
      assert AllAtMost(init, last.stopSequence);
      if last.stopSequence > e.stopSequence {
        InsertBySequenceSorted(init, e);
        InsertBySequenceBounded(init, e, last.stopSequence);
        SortedAppend(InsertBySequence(init, e), last);
      } else {
        assert AllAtMost(sorted, e.stopSequence);
        SortedAppend(sorted, e);
      }
    }
  }

  /** `sort` by ascending stop_sequence, ties kept in file order. */
  function SortBySequence(s: seq<ScheduleEntry>): (r: seq<ScheduleEntry>)
    ensures multiset(r) == multiset(s) && SortedBySequence(r)
    decreases |s|
  {
    if |s| == 0 then []
    else
      assert s == s[..|s| - 1] + [s[|s| - 1]];
      var sorted := SortBySequence(s[..|s| - 1]);
      InsertBySequenceSorted(sorted, s[|s| - 1]);
      InsertBySequence(sorted, s[|s| - 1])
  }

  /** `generateStopTimeSequenceData`: the entries of one trip's rows, sorted by stop_sequence. */
  method GenerateStopTimeSequenceData(rows: seq<Row>, stops: map<string, Stop>) returns (sequence: seq<ScheduleEntry>)
    ensures sequence == SortBySequence(Entries(rows, stops))
  {
    var entries: seq<ScheduleEntry> := [];
    for i := 0 to |rows|
      invariant entries == Entries(rows[..i], stops)
    {
      EntriesStep(rows, stops, i);
      var entry := EntryOf(rows[i], stops);
      if entry.Some? {
        entries := entries + [entry.value];
      }
    }
    assert rows[..|rows|] == rows;
    sequence := SortBySequence(entries);
  }

  /** An entry is produced exactly for the rows that yield one. */
  lemma EntriesMembership(rows: seq<Row>, stops: map<string, Stop>, e: ScheduleEntry)
    ensures e in Entries(rows, stops) <==> exists k :: 0 <= k < |rows| && EntryOf(rows[k], stops) == Some(e)
  {
    var xs := RowEntries(rows, stops);
    PresentMembership(xs, e);
    if exists k :: 0 <= k < |xs| && xs[k] == Some(e) {
      var k :| 0 <= k < |xs| && xs[k] == Some(e);
      assert EntryOf(rows[k], stops) == Some(e);
    }
  }

  /**
   * The schedule of a trip is sorted by stop_sequence and holds exactly the
   * entries of its rows (with repetitions); every entry has a time, a known
   * stop and a non-negative stop_sequence.
   */
  lemma ScheduleSequenceProperties(rows: seq<Row>, stops: map<string, Stop>)
    ensures var s := SortBySequence(Entries(rows, stops));
      && SortedBySequence(s)
      && multiset(s) == multiset(Entries(rows, stops))
      && (forall e :: e in s <==> exists k :: 0 <= k < |rows| && EntryOf(rows[k], stops) == Some(e))
      && (forall k :: 0 <= k < |s| ==> s[k].time != "" && s[k].stopSequence >= 0 && s[k].stop in stops.Values)
  {
    var s := SortBySequence(Entries(rows, stops));
    forall e
      ensures e in s <==> exists k :: 0 <= k < |rows| && EntryOf(rows[k], stops) == Some(e)
    {
      assert e in s <==> e in multiset(Entries(rows, stops));
      EntriesMembership(rows, stops, e);
    }
    forall k | 0 <= k < |s|
      ensures s[k].time != "" && s[k].stopSequence >= 0 && s[k].stop in stops.Values
    {
      assert s[k] in s;
      var j :| 0 <= j < |rows| && EntryOf(rows[j], stops) == Some(s[k]);
    }
  }
}
