/**
 * The small helpers of the ingester: route scoping, Unix timestamps, the
 * YYYY-MM-DD form of a UTC date, rounding an instant to UTC midnight with a
 * day offset, and the chunked bulk writer that every bulk insert or delete
 * goes through.
 */
module Utils {
  import opened Common
  import opened Dates

  // ---------------------------------------------------------------------
  // Route scoping

  /** The configured route ids select a route when they name it or hold the sentinel 'all'. */
  predicate ShouldProcessRoute(routes: set<string>, route: string) {
    route in routes || "all" in routes
  }

  /** Without the sentinel exactly the listed routes are processed; with it, every route is. */
  lemma ShouldProcessRouteCases(routes: set<string>, route: string)
    ensures "all" !in routes ==> (ShouldProcessRoute(routes, route) <==> route in routes)
    ensures "all" in routes ==> ShouldProcessRoute(routes, route)
  {
  }

  // ---------------------------------------------------------------------
  // Time stamps and dates

  /** `Math.floor(ms / 1000)`: the whole seconds of an instant, rounded down also before 1970. */
  function ToUnixTs(ms: int): (ts: int)
    ensures ts * 1000 <= ms < ts * 1000 + 1000
  {
    ms / 1000
  }

  /** Instants whose UTC year has four digits, the years the ISO round trip covers. */
  predicate FourDigitYearDay(day: int) {
    InCalendarRange(day) && 1000 <= CivilOfDay(day).year <= 9999
  }

  /** `utcDateToYMDFormat`: the UTC calendar date of an instant as year-MM-DD. */
  function UtcDateToYMDFormat(ms: int): (s: string)
    requires InCalendarRange(UtcDay(ms))
    ensures var c := CivilOfDay(UtcDay(ms));
      && ValidCivil(c)
      && DayOfCivil(c.year, c.month, c.day) == UtcDay(ms)
      && s == FormatCivil(c)
  {
    FormatYMD(UtcDay(ms))
  }

  /** The YMD text of a UTC midnight is the text of its day. */
  lemma MidnightYMD(day: int)
    requires InCalendarRange(day)
    ensures InCalendarRange(UtcDay(day * MsPerDay)) && UtcDateToYMDFormat(day * MsPerDay) == FormatYMD(day)
  {
    assert UtcDay(day * MsPerDay) == day;
  }

  /** `getUTCDate()`: the day of the month of an instant. */
  function GetUTCDate(ms: int): int
    requires InCalendarRange(UtcDay(ms))
  {
    CivilOfDay(UtcDay(ms)).day
  }

  /**
   * `setUTCDate(dt)`: the same year, month and time of day with the day of
   * month set to dt, carried into neighbouring months when out of range.
   */
  function SetUTCDate(ms: int, dt: int): int
    requires InCalendarRange(UtcDay(ms))
  {
    var c := CivilOfDay(UtcDay(ms));
    DayOfCivil(c.year, c.month, dt) * MsPerDay + ms % MsPerDay
  }

  /** `getRoundedUTCDateFromTime`: re-parsing the YMD text gives UTC midnight of the same day. */
  function GetRoundedUTCDateFromTime(ms: int): (r: int)
    requires FourDigitYearDay(UtcDay(ms))
    ensures r == UtcDay(ms) * MsPerDay
  {
    IsoRoundTrip(UtcDay(ms));
    ParseIsoDay(UtcDateToYMDFormat(ms)).value * MsPerDay
  }

  /** `getRoundedUTCDateFromOffset(dayOffset, from)`: UTC midnight of from's day, moved by dayOffset days. */
  method GetRoundedUTCDateFromOffset(dayOffset: int, from: int) returns (date: int)
    requires FourDigitYearDay(UtcDay(from))
    ensures date == (UtcDay(from) + dayOffset) * MsPerDay
    ensures dayOffset == 0 && from % MsPerDay == 0 ==> date == from
  {
    date := GetRoundedUTCDateFromTime(from);
    assert UtcDay(date) == UtcDay(from);
    date := SetUTCDate(date, GetUTCDate(date) + dayOffset);
  }

  // ---------------------------------------------------------------------
  // Bulk writer

  const SerialChunkSize: nat := 100000
  const ParallelChunkSize: nat := 990

  /** One repository call of the bulk writer. */
  datatype RepoCall<T> = Insert(batch: seq<T>) | Remove(batch: seq<T>)

  function Concat<T>(parts: seq<seq<T>>): seq<T> {
    if parts == [] then [] else parts[0] + Concat(parts[1..])
  }

  function Batches<T>(calls: seq<RepoCall<T>>): seq<seq<T>> {
    seq(|calls|, k requires 0 <= k < |calls| => calls[k].batch)
  }

  /** `OrmUtils.chunk`: consecutive slices of `size` items, the last possibly shorter. */
  function Chunk<T>(s: seq<T>, size: nat): (r: seq<seq<T>>)
    requires size > 0
    ensures Concat(r) == s
    ensures forall k :: 0 <= k < |r| ==> 1 <= |r[k]| <= size
    ensures |s| == 0 ==> |r| == 0
    decreases |s|
  {
    if |s| == 0 then []
    else if |s| <= size then [s]
    else
      var rest := Chunk(s[size..], size);
      assert s[..size] + s[size..] == s;
      [s[..size]] + rest
  }

  /** Cutting n items into chunks of 990 makes ceil(n / 990) chunks. */
  lemma {:induction false} ChunkCount<T>(s: seq<T>)
    ensures |Chunk(s, ParallelChunkSize)| == (|s| + ParallelChunkSize - 1) / ParallelChunkSize
    decreases |s|
  {
    if |s| > ParallelChunkSize {
      ChunkCount(s[ParallelChunkSize..]);
    }
  }

  /** The repository call of each chunk: all inserts, or all removes when `remove` is set. */
  function Calls<T>(chunks: seq<seq<T>>, remove: bool): (r: seq<RepoCall<T>>)
    ensures |r| == |chunks| && Batches(r) == chunks
    ensures forall k :: 0 <= k < |r| ==> r[k].batch == chunks[k]
    ensures forall k :: 0 <= k < |r| ==> r[k].Remove? == remove
  {
    seq(|chunks|, k requires 0 <= k < |chunks| => if remove then Remove(chunks[k]) else Insert(chunks[k]))
  }

  /** Serial slices of 100000 items, each cut into chunks of 990, in order. */
  function SerialPlan<T>(items: seq<T>, remove: bool): seq<RepoCall<T>>
    decreases |items|
  {
    if |items| <= SerialChunkSize then Calls(Chunk(items, ParallelChunkSize), remove)
    else Calls(Chunk(items[..SerialChunkSize], ParallelChunkSize), remove)
         + SerialPlan(items[SerialChunkSize..], remove)
  }

  /** Number of repository calls for n items: the sum over serial slices of ceil(slice / 990). */
  function PlannedCallCount(n: nat): nat
    decreases n
  {
    if n <= SerialChunkSize then (n + ParallelChunkSize - 1) / ParallelChunkSize
    else (SerialChunkSize + ParallelChunkSize - 1) / ParallelChunkSize + PlannedCallCount(n - SerialChunkSize)
  }

  lemma ConcatAppend<T>(a: seq<seq<T>>, b: seq<seq<T>>)
    ensures Concat(a + b) == Concat(a) + Concat(b)
  {
    if a != [] {
      assert (a + b)[0] == a[0];
      assert (a + b)[1..] == a[1..] + b;
      ConcatAppend(a[1..], b);
      calc {
        Concat(a + b);
        a[0] + Concat(a[1..] + b);
        a[0] + (Concat(a[1..]) + Concat(b));
        (a[0] + Concat(a[1..])) + Concat(b);
      }
    } else {
      assert a + b == b;
    }
  }

  /** Every item goes to exactly one call, in the original order. */
  lemma {:induction false} SerialPlanConcat<T>(items: seq<T>, remove: bool)
    ensures Concat(Batches(SerialPlan(items, remove))) == items
    decreases |items|
  {
    if |items| > SerialChunkSize {
      var head := Calls(Chunk(items[..SerialChunkSize], ParallelChunkSize), remove);
      var tail := SerialPlan(items[SerialChunkSize..], remove);
      SerialPlanConcat(items[SerialChunkSize..], remove);
      assert Batches(head + tail) == Batches(head) + Batches(tail);
      ConcatAppend(Batches(head), Batches(tail));
      assert items[..SerialChunkSize] + items[SerialChunkSize..] == items;
    }
  }

  /** Every call carries 1 to 990 items and is of the requested kind. */
  lemma {:induction false} SerialPlanCalls<T>(items: seq<T>, remove: bool)
    ensures forall k :: 0 <= k < |SerialPlan(items, remove)| ==>
      1 <= |SerialPlan(items, remove)[k].batch| <= ParallelChunkSize && SerialPlan(items, remove)[k].Remove? == remove
    decreases |items|
  {
    if |items| > SerialChunkSize {
      var head: seq<RepoCall<T>> := Calls(Chunk(items[..SerialChunkSize], ParallelChunkSize), remove);
      var tail: seq<RepoCall<T>> := SerialPlan(items[SerialChunkSize..], remove);
      SerialPlanCalls(items[SerialChunkSize..], remove);
      forall k | 0 <= k < |head + tail|
        ensures 1 <= |(head + tail)[k].batch| <= ParallelChunkSize && (head + tail)[k].Remove? == remove
      {
        if k < |head| {
          var chunks := Chunk(items[..SerialChunkSize], ParallelChunkSize);
          assert (head + tail)[k] == head[k] && head[k].batch == chunks[k];
        } else {
          assert (head + tail)[k] == tail[k - |head|];
        }
      }
    }
  }

  /** The number of calls is the per-slice sum of ceilings. */
  lemma {:induction false} SerialPlanCount<T>(items: seq<T>, remove: bool)
    ensures |SerialPlan(items, remove)| == PlannedCallCount(|items|)
    decreases |items|
  {
    if |items| <= SerialChunkSize {
      ChunkCount(items);
    } else {
      ChunkCount(items[..SerialChunkSize]);
      SerialPlanCount(items[SerialChunkSize..], remove);
    }
  }

  /**
   * Every item goes to exactly one call, in the original order; every call
   * carries 1 to 990 items and is of the requested kind; the number of calls
   * is the per-slice sum of ceilings (so an empty list makes no call).
   */
  lemma SerialPlanProperties<T>(items: seq<T>, remove: bool)
    ensures var calls := SerialPlan(items, remove);
      && Concat(Batches(calls)) == items
      && (forall k :: 0 <= k < |calls| ==> 1 <= |calls[k].batch| <= ParallelChunkSize)
      && (forall k :: 0 <= k < |calls| ==> calls[k].Remove? == remove)
      && |calls| == PlannedCallCount(|items|)
      && (|items| == 0 <==> |calls| == 0)
  {
    SerialPlanConcat(items, remove);
    SerialPlanCalls(items, remove);
    SerialPlanCount(items, remove);
  }

  /** 150000 items make 102 calls for the first 100000 and 51 for the remaining 50000. */
  lemma OneHundredFiftyThousandItems<T>(items: seq<T>, remove: bool)
    requires |items| == 150000
    ensures |SerialPlan(items, remove)| == 153
  {
    SerialPlanProperties(items, remove);
    assert PlannedCallCount(50000) == 51;
  }

  /** The calls the plan makes from position i on. */
  ghost function PlanFrom<T>(items: seq<T>, i: nat, remove: bool): seq<RepoCall<T>> {
    if i < |items| then SerialPlan(items[i..], remove) else []
  }

  /** One serial slice of the plan: the slice's calls followed by the plan from the next slice on. */
  lemma SerialPlanUnfold<T>(items: seq<T>, i: nat, remove: bool)
    requires i < |items|
    ensures var end := if i + SerialChunkSize <= |items| then i + SerialChunkSize else |items|;
      PlanFrom(items, i, remove) == Calls(Chunk(items[i..end], ParallelChunkSize), remove) + PlanFrom(items, i + SerialChunkSize, remove)
  {
    if i + SerialChunkSize < |items| {
      assert items[i..][..SerialChunkSize] == items[i..i + SerialChunkSize];
      assert items[i..][SerialChunkSize..] == items[i + SerialChunkSize..];
    } else {
      assert items[i..] == items[i..|items|];
    }
  }

  /** Issuing one serial slice's calls moves the loop one slice on without changing the whole. */
  lemma PlanFromStep<T>(items: seq<T>, i: nat, remove: bool, calls: seq<RepoCall<T>>, step: seq<RepoCall<T>>)
    requires i < |items|
    requires step == Calls(Chunk(items[i..if i + SerialChunkSize <= |items| then i + SerialChunkSize else |items|], ParallelChunkSize), remove)
    ensures (calls + step) + PlanFrom(items, i + SerialChunkSize, remove) == calls + PlanFrom(items, i, remove)
  {
    SerialPlanUnfold(items, i, remove);
    assert (calls + step) + PlanFrom(items, i + SerialChunkSize, remove) == calls + (step + PlanFrom(items, i + SerialChunkSize, remove));
  }

  /**
   * `bulkInsertOrRemoveItems`: the repository calls it issues, in order, are
   * the serial plan (whose properties SerialPlanProperties states).
   */
  method BulkInsertOrRemoveItems<T>(items: seq<T>, remove: bool) returns (calls: seq<RepoCall<T>>)
    ensures calls == SerialPlan(items, remove)
  {
    calls := [];
    var i := 0;
    assert items[0..] == items;
    while i < |items|
      invariant calls + PlanFrom(items, i, remove) == SerialPlan(items, remove)
      decreases |items| - i
    {
      var end := if i + SerialChunkSize <= |items| then i + SerialChunkSize else |items|;
      var serialChunk := items[i..end];
      var parallelChunks := Chunk(serialChunk, ParallelChunkSize);
      var step := Calls(parallelChunks, remove);
      PlanFromStep(items, i, remove, calls, step);
      calls := calls + step;
      i := i + SerialChunkSize;
    }
  }
}
