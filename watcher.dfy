/**
 * One tick of each periodic job of the watcher: the realtime job (guarded
 * by a single-flight flag, skipping a feed whose timestamp is the stored
 * watermark) and the schedule job (importing a source only when its
 * schedule is stale, for the window of UTC days from two days ago to two
 * days ahead). Sources are visited in configuration order; the first error
 * ends the tick and is swallowed.
 */
module Watcher {
  import opened Common
  import opened Dates
  import opened Utils
  import opened UpdateTimes
  import opened RealtimeImport
  import opened FeedFetcher

  const RtProcessPeriodMs: int := 1000 * 15
  const RtProcessTimeoutMs: int := 1000 * 60 * 5
  const SchedulePeriodMs: int := 1000 * 60 * 60 * 6

  /** A decoded realtime feed message: the header timestamp and the entities. */
  datatype FeedMessage = FeedMessage(timestamp: Option<int>, entities: seq<FeedEntity>)

  /** The feed fetched for a source id; None when fetching or decoding throws. */
  type FeedSource = string -> Option<FeedMessage>

  /** The schedule fetched for a source id; None when fetching or validation throws. */
  type ScheduleSource = string -> Option<GtfsData>

  /**
   * Whether the importer throws for a source id in this tick. The call is
   * made (and whatever it wrote before throwing stays), but the watermark
   * that follows it is not written and the tick ends.
   */
  type ImportThrows = string -> bool

  /** One call of the realtime importer. */
  datatype FeedImport = FeedImport(sourceId: string, entities: seq<FeedEntity>, timestamp: int, routes: seq<string>)

  /** One call of the schedule importer. */
  datatype ScheduleImportCall = ScheduleImportCall(sourceId: string, data: GtfsData, routes: seq<string>, onOrAfter: int, onOrBefore: int)

  /** The state of a tick: the watermark rows, the importer calls made, and whether an error ended the tick. */
  datatype Tick<C> = Tick(rows: map<string, UpdateTimeRow>, calls: seq<C>, failed: bool)

  // ---------------------------------------------------------------------
  // fetchAndProcessFeeds

  /**
   * One source of the realtime job: an error ends the tick; a feed without
   * a (non-zero) timestamp is skipped; a feed whose timestamp differs from
   * the watermark is imported and then becomes the watermark, unless the
   * import throws, which ends the tick with the watermark as it was.
   */
  function FeedStep(fetch: FeedSource, throws: ImportThrows, t: Tick<FeedImport>, source: DataSourceConfig): Tick<FeedImport> {
    if t.failed then t
    else
      var msg := fetch(source.sourceId);
      if msg.None? then t.(failed := true)
      else
        var ts := msg.value.timestamp;
        if ts.None? || ts.value == 0 then t
        else if FeedTimeOf(t.rows, source.sourceId) != ts.value then
          var calls := t.calls + [FeedImport(source.sourceId, msg.value.entities, ts.value, source.routes)];
          if throws(source.sourceId) then Tick(t.rows, calls, true)
          else Tick(FeedProcessed(t.rows, source.sourceId, ts.value), calls, false)
        else t
  }

  function FeedSteps(fetch: FeedSource, throws: ImportThrows, t: Tick<FeedImport>, sources: seq<DataSourceConfig>): Tick<FeedImport>
    decreases |sources|
  {
    if |sources| == 0 then t
    else FeedStep(fetch, throws, FeedSteps(fetch, throws, t, sources[..|sources| - 1]), sources[|sources| - 1])
  }

  // ---------------------------------------------------------------------
  // fetchAndProcessSchedules

  /**
   * One source of the schedule job: nothing unless its schedule needs
   * processing; an error ends the tick; otherwise the import runs and then
   * the schedule watermark is written, unless the import throws, which ends
   * the tick with the watermark as it was.
   */
  function ScheduleStep(fetch: ScheduleSource, throws: ImportThrows, now: int, onOrAfter: int, onOrBefore: int,
                        t: Tick<ScheduleImportCall>, source: DataSourceConfig): Tick<ScheduleImportCall> {
    if t.failed || !NeedsProcess(t.rows, source.sourceId, source.routes, now) then t
    else
      var data := fetch(source.sourceId);
      if data.None? then t.(failed := true)
      else
        var calls := t.calls + [ScheduleImportCall(source.sourceId, data.value, source.routes, onOrAfter, onOrBefore)];
        if throws(source.sourceId) then Tick(t.rows, calls, true)
        else Tick(ScheduleProcessed(t.rows, source.sourceId, source.routes, now), calls, false)
  }

  function ScheduleSteps(fetch: ScheduleSource, throws: ImportThrows, now: int, onOrAfter: int, onOrBefore: int,
                         t: Tick<ScheduleImportCall>, sources: seq<DataSourceConfig>): Tick<ScheduleImportCall>
    decreases |sources|
  {
    if |sources| == 0 then t
    else ScheduleStep(fetch, throws, now, onOrAfter, onOrBefore, ScheduleSteps(fetch, throws, now, onOrAfter, onOrBefore, t, sources[..|sources| - 1]), sources[|sources| - 1])
  }

  /** The watcher's module state: the single-flight flag of the realtime job. */
  class GtfsWatcher {
    var mutex: bool

    constructor ()
      ensures !mutex
    {
      mutex := false;
    }

    /**
     * `fetchAndProcessFeeds`: nothing while another run holds the flag;
     * otherwise the sources in order, and the flag is released whatever
     * happened.
     */
    method FetchAndProcessFeeds(sources: seq<DataSourceConfig>, fetch: FeedSource, throws: ImportThrows, store: UpdateTimeStore)
      returns (imports: seq<FeedImport>)
      modifies this, store
      ensures mutex == old(mutex)
      ensures old(mutex) ==> imports == [] && store.rows == old(store.rows)
      ensures !old(mutex) ==>
        var t := FeedSteps(fetch, throws, Tick(old(store.rows), [], false), sources);
        store.rows == t.rows && imports == t.calls
    {
      imports := [];
      if mutex {
        return;
      }
      mutex := true;
      ghost var initial := store.rows;
      var i := 0;
      while i < |sources|
        invariant 0 <= i <= |sources|
        invariant FeedSteps(fetch, throws, Tick(initial, [], false), sources[..i]) == Tick(store.rows, imports, false)
        invariant FeedSteps(fetch, throws, Tick(initial, [], false), sources) == FeedSteps(fetch, throws, Tick(store.rows, imports, false), sources[i..])
      {
        FeedStepsSplit(fetch, throws, Tick(initial, [], false), sources, i);
        var source := sources[i];
        var msg := fetch(source.sourceId);
        if msg.None? {
          FeedStopsAt(fetch, throws, Tick(store.rows, imports, false), sources[i..]);
          break;
        }
        var ts := msg.value.timestamp;
        if ts.Some? && ts.value != 0 {
          var stored := store.LastProcessedFeedTime(source.sourceId);
          if stored != ts.value {
            if throws(source.sourceId) {
              FeedStopsAt(fetch, throws, Tick(store.rows, imports, false), sources[i..]);
              imports := imports + [FeedImport(source.sourceId, msg.value.entities, ts.value, source.routes)];
              break;
            }
            imports := imports + [FeedImport(source.sourceId, msg.value.entities, ts.value, source.routes)];
            store.UpdateLastProcessedFeedTime(source.sourceId, ts.value);
          }
        }
        assert sources[..i + 1][..i] == sources[..i];
        FeedStepsSplit(fetch, throws, Tick(initial, [], false), sources, i + 1);
        i := i + 1;
      }
      if i == |sources| {
        assert sources[..i] == sources;
      }
      mutex := false;
    }
  }

  /** A tick that an error ended stays as it is, whatever sources remain. */
  lemma {:induction false} FailedTickIsFinal(fetch: FeedSource, throws: ImportThrows, t: Tick<FeedImport>, sources: seq<DataSourceConfig>)
    requires t.failed
    ensures FeedSteps(fetch, throws, t, sources) == t
    decreases |sources|
  {
    if |sources| > 0 {
      FailedTickIsFinal(fetch, throws, t, sources[..|sources| - 1]);
    }
  }

  /** A source whose step ends the tick decides the whole tick. */
  lemma FeedStopsAt(fetch: FeedSource, throws: ImportThrows, t: Tick<FeedImport>, sources: seq<DataSourceConfig>)
    requires |sources| > 0 && FeedStep(fetch, throws, t, sources[0]).failed
    ensures FeedSteps(fetch, throws, t, sources) == FeedStep(fetch, throws, t, sources[0])
  {
    FailedTickIsFinal(fetch, throws, FeedStep(fetch, throws, t, sources[0]), sources[1..]);
    FeedStepsSplit(fetch, throws, t, sources, 1);
    assert sources[..1] == [sources[0]];
  }

  /** The sources of a tick can be visited in two runs. */
  lemma {:induction false} FeedStepsSplit(fetch: FeedSource, throws: ImportThrows, t: Tick<FeedImport>, sources: seq<DataSourceConfig>, i: nat)
    requires i <= |sources|
    ensures FeedSteps(fetch, throws, t, sources) == FeedSteps(fetch, throws, FeedSteps(fetch, throws, t, sources[..i]), sources[i..])
    decreases |sources|
  {
    if i < |sources| {
      var init := sources[..|sources| - 1];
      FeedStepsSplit(fetch, throws, t, init, i);
      assert init[..i] == sources[..i];
      assert sources[i..][..|sources[i..]| - 1] == init[i..];
    } else {
      assert sources[..i] == sources;
      assert sources[i..] == [];
    }
  }

  /**
   * `fetchAndProcessSchedules`: the window is UTC midnight two days before
   * today to UTC midnight two days after, and the sources are visited in
   * order; `now` is the tick's time in ms.
   */
  method FetchAndProcessSchedules(sources: seq<DataSourceConfig>, fetch: ScheduleSource, throws: ImportThrows, now: int, store: UpdateTimeStore)
    returns (onOrAfter: int, onOrBefore: int, imports: seq<ScheduleImportCall>)
    requires FourDigitYearDay(UtcDay(now))
    modifies store
    ensures onOrAfter == (UtcDay(now) - 2) * MsPerDay && onOrBefore == (UtcDay(now) + 2) * MsPerDay
    ensures var t := ScheduleSteps(fetch, throws, now, onOrAfter, onOrBefore, Tick(old(store.rows), [], false), sources);
      store.rows == t.rows && imports == t.calls
  {
    onOrAfter := GetRoundedUTCDateFromOffset(-2, now);
    onOrBefore := GetRoundedUTCDateFromOffset(2, now);
    imports := [];
    ghost var initial := store.rows;
    var i := 0;
    while i < |sources|
      invariant 0 <= i <= |sources|
      invariant ScheduleSteps(fetch, throws, now, onOrAfter, onOrBefore, Tick(initial, [], false), sources[..i]) == Tick(store.rows, imports, false)
      invariant ScheduleSteps(fetch, throws, now, onOrAfter, onOrBefore, Tick(initial, [], false), sources)
                == ScheduleSteps(fetch, throws, now, onOrAfter, onOrBefore, Tick(store.rows, imports, false), sources[i..])
    {
      ScheduleStepsSplit(fetch, throws, now, onOrAfter, onOrBefore, Tick(initial, [], false), sources, i);
      var source := sources[i];
      var needed := store.NeedsScheduleProcess(source.sourceId, source.routes, now);
      if needed {
        var scheduleData := fetch(source.sourceId);
        if scheduleData.None? || throws(source.sourceId) {
          ScheduleStopsAt(fetch, throws, now, onOrAfter, onOrBefore, Tick(store.rows, imports, false), sources[i..]);
          if scheduleData.Some? {
            imports := imports + [ScheduleImportCall(source.sourceId, scheduleData.value, source.routes, onOrAfter, onOrBefore)];
          }
          break;
        }
        imports := imports + [ScheduleImportCall(source.sourceId, scheduleData.value, source.routes, onOrAfter, onOrBefore)];
        store.UpdateLastProcessedScheduleTime(source.sourceId, source.routes, now);
      }
      assert sources[..i + 1][..i] == sources[..i];
      ScheduleStepsSplit(fetch, throws, now, onOrAfter, onOrBefore, Tick(initial, [], false), sources, i + 1);
      i := i + 1;
    }
    if i == |sources| {
      assert sources[..i] == sources;
    }
  }

  lemma {:induction false} FailedScheduleTickIsFinal(fetch: ScheduleSource, throws: ImportThrows, now: int, onOrAfter: int, onOrBefore: int,
                                                     t: Tick<ScheduleImportCall>, sources: seq<DataSourceConfig>)
    requires t.failed
    ensures ScheduleSteps(fetch, throws, now, onOrAfter, onOrBefore, t, sources) == t
    decreases |sources|
  {
    if |sources| > 0 {
      FailedScheduleTickIsFinal(fetch, throws, now, onOrAfter, onOrBefore, t, sources[..|sources| - 1]);
    }
  }

  /** A source whose step ends the tick decides the whole tick. */
  lemma ScheduleStopsAt(fetch: ScheduleSource, throws: ImportThrows, now: int, onOrAfter: int, onOrBefore: int,
                        t: Tick<ScheduleImportCall>, sources: seq<DataSourceConfig>)
    requires |sources| > 0 && ScheduleStep(fetch, throws, now, onOrAfter, onOrBefore, t, sources[0]).failed
    ensures ScheduleSteps(fetch, throws, now, onOrAfter, onOrBefore, t, sources)
            == ScheduleStep(fetch, throws, now, onOrAfter, onOrBefore, t, sources[0])
  {
    var r := ScheduleStep(fetch, throws, now, onOrAfter, onOrBefore, t, sources[0]);
    FailedScheduleTickIsFinal(fetch, throws, now, onOrAfter, onOrBefore, r, sources[1..]);
    ScheduleStepsSplit(fetch, throws, now, onOrAfter, onOrBefore, t, sources, 1);
    assert sources[..1] == [sources[0]];
  }

  lemma {:induction false} ScheduleStepsSplit(fetch: ScheduleSource, throws: ImportThrows, now: int, onOrAfter: int, onOrBefore: int,
                                              t: Tick<ScheduleImportCall>, sources: seq<DataSourceConfig>, i: nat)
    requires i <= |sources|
    ensures ScheduleSteps(fetch, throws, now, onOrAfter, onOrBefore, t, sources)
            == ScheduleSteps(fetch, throws, now, onOrAfter, onOrBefore, ScheduleSteps(fetch, throws, now, onOrAfter, onOrBefore, t, sources[..i]), sources[i..])
    decreases |sources|
  {
    if i < |sources| {
      var init := sources[..|sources| - 1];
      ScheduleStepsSplit(fetch, throws, now, onOrAfter, onOrBefore, t, init, i);
      assert init[..i] == sources[..i];
      assert sources[i..][..|sources[i..]| - 1] == init[i..];
    } else {
      assert sources[..i] == sources;
      assert sources[i..] == [];
    }
  }

  // ---------------------------------------------------------------------
  // Properties

  /**
   * The realtime job imports a source's feed exactly when the feed has a
   * non-zero timestamp different from the watermark. When the import
   * returns, the watermark then holds that timestamp if the source has a row
   * (written by the schedule job); without a row the same feed is imported
   * again on the next tick. When the import throws, the tick ends, the
   * watermark stays, and the next tick imports the same feed again.
   */
  lemma FeedStepRules(fetch: FeedSource, throws: ImportThrows, t: Tick<FeedImport>, source: DataSourceConfig)
    requires !t.failed && fetch(source.sourceId).Some?
    ensures var msg := fetch(source.sourceId).value;
      var r := FeedStep(fetch, throws, t, source);
      && (|r.calls| == |t.calls| + 1 <==>
            msg.timestamp.Some? && msg.timestamp.value != 0 && msg.timestamp.value != FeedTimeOf(t.rows, source.sourceId))
      && (r.failed <==> |r.calls| == |t.calls| + 1 && throws(source.sourceId))
      && (|r.calls| == |t.calls| ==> r == t)
      && (|r.calls| == |t.calls| + 1 ==>
            && r.calls[..|t.calls|] == t.calls
            && r.calls[|t.calls|] == FeedImport(source.sourceId, msg.entities, msg.timestamp.value, source.routes))
      && (r.failed ==>
            && r.rows == t.rows
            && FeedStep(fetch, throws, Tick(r.rows, r.calls, false), source).calls == r.calls + [r.calls[|t.calls|]])
      && (|r.calls| == |t.calls| + 1 && !r.failed ==>
            && (source.sourceId in t.rows ==> FeedTimeOf(r.rows, source.sourceId) == msg.timestamp.value)
            && (source.sourceId !in t.rows ==> FeedTimeOf(r.rows, source.sourceId) == 0 && FeedStep(fetch, throws, r, source).calls == r.calls + [r.calls[|t.calls|]]))
  {
  }

  /**
   * A source whose schedule was just imported is not imported again by a
   * later tick within three hours for the same routes (ids as the routes
   * column keeps them), unless an error ends that tick first.
   */
  lemma ScheduleNotRepeated(fetch: ScheduleSource, throws: ImportThrows, now: int, later: int, onOrAfter: int, onOrBefore: int,
                            t: Tick<ScheduleImportCall>, source: DataSourceConfig)
    requires !t.failed && NeedsProcess(t.rows, source.sourceId, source.routes, now) && fetch(source.sourceId).Some?
    requires !throws(source.sourceId)
    requires ColumnSafe(source.routes)
    requires ToUnixTs(later) - ThreeHours <= ToUnixTs(now)
    ensures var r := ScheduleStep(fetch, throws, now, onOrAfter, onOrBefore, t, source);
      && |r.calls| == |t.calls| + 1
      && ScheduleStep(fetch, throws, later, onOrAfter, onOrBefore, r, source) == r
  {
    ProcessedScheduleNotNeeded(t.rows, source.sourceId, source.routes, source.routes, now, later);
  }

  /**
   * A schedule import that throws ends the tick and leaves the watermark as
   * it was, so the next tick at the same time imports the source again.
   */
  lemma ScheduleRetriedAfterThrow(fetch: ScheduleSource, throws: ImportThrows, now: int, onOrAfter: int, onOrBefore: int,
                                  t: Tick<ScheduleImportCall>, source: DataSourceConfig)
    requires !t.failed && NeedsProcess(t.rows, source.sourceId, source.routes, now) && fetch(source.sourceId).Some?
    requires throws(source.sourceId)
    ensures var r := ScheduleStep(fetch, throws, now, onOrAfter, onOrBefore, t, source);
      && r.failed && r.rows == t.rows && |r.calls| == |t.calls| + 1
      && ScheduleStep(fetch, throws, now, onOrAfter, onOrBefore, Tick(r.rows, r.calls, false), source).calls == r.calls + [r.calls[|t.calls|]]
  {
  }
}
