# transit-tracker reconciliation core, in Dafny

transit-tracker ingests a static GTFS schedule and a GTFS-realtime trip-updates
feed per configured data source, and keeps a store of routes, stops, trip
instances (one per trip id and service date) and stop times in step with them.
This project models the decisions of that core and proves properties about them.

- **Schedule import** (`ScheduleImport`): the routes in scope, the stops and their
  parent links, the trip instances of a UTC date window, and the stop-time
  reconciliation of every instance against the schedule.
  - Routes: `RouteImport`. Stops: `StopImport`.
  - Service calendars: `Calendar`. Trip instances: `TripImport`.
  - Grouping and sorting `stop_times.txt`: `StopTimeRows`.
  - Agency timezones: `AgencyTimezones`.
  - The per-position diff of one instance: `StopTimeDiff`.
  - The per-trip loop and the bulk writes: `StopTimeImport`, `Entities`, `Utils`.
- **Realtime import** (`RealtimeImport`): which feed entities are applied to
  which stored instance. For each applied entity it computes which stop times
  get a new actual time and a new "last updated" stamp, and which trips are
  saved because they received live data or a new vehicle.
- **Watermarks** (`UpdateTimes`): a class holding the per-source `UpdateTime`
  rows.
  - It decides whether a schedule is stale.
  - It records the schedule and feed times.
  - It encodes the route set as a comma-joined column.
- **Watcher** (`Watcher`): one tick of the realtime job and one tick of the
  schedule job.
  - The realtime job's single-flight flag is a class field.
  - The realtime job skips a feed whose timestamp is the stored watermark.
  - The schedule job uses a window of two UTC days back to two ahead.
  - The first error ends a tick: a failed fetch, or an importer that throws.
    A throwing importer leaves the watermark unwritten, so the next tick
    imports that source again.
- **Fetcher** (`FeedFetcher`): how a downloaded archive becomes schedule data.
  - Only `.txt` entries are kept.
  - The required files are checked.
  - The data source is looked up.
  - Any status other than 200 is rejected.
- **Dates** (`Dates`, `Common`): proleptic Gregorian dates as epoch days and
  times as milliseconds. `YYYY-MM-DD` and `YYYYMMDD` text are formatted and
  parsed, and the round trips are proved.

Code that updates state step by step is modelled as methods with loops:

- `GetServiceIdsPerDay`, `GetOrGenerateRoutes/Stops/Trips/StopTimes`,
  `ProcessStopTimeUpdates`, `ImportGtfsRealtimeData`, `BulkInsertOrRemoveItems`;
- the store and watcher classes.

Each method is proved equal to a fold over its input, and the properties are
proved about those folds. Inputs the core reads from outside are parameters:

- the store's query results;
- the clock;
- dayjs' timezone conversion (`ScheduledUnix`);
- the fetched and decoded data;
- whether an importer throws for a source in a tick (`ImportThrows`).

Writes the core makes to the store are returned as values: new and saved
entities, and insert/remove batches.

Where the entity model classes and the importer disagree, the model follows
the importer. `src/models/trip.ts` names the trip's date column `date` and
has no `vehicleId`, while the importer reads and writes `tripDate` and
`vehicleId`. `src/models/route.ts` has no `agencyId`, `newRoute`,
`updateFieldsIfNecessary` or `bulkCreateRoutes`, while the importer calls them.

## Model

| member | source | states |
|---|---|---|
| Common.SplitJoin | src/models/updateTime.ts:18-19 | splitting a ','-join of at least one part, none containing ',', gives back the parts |
| Common.NatToStringRoundTrip | src/utils.ts:21-23 | the decimal text of a natural number is all digits, non-empty, and reads back as the number |
| Dates.FormatYMDInjective | src/utils.ts:19-24 | two days in range with the same YYYY-MM-DD text are the same day, so a trip date names one day |
| Dates.IsoRoundTrip | src/utils.ts:35-37 | reading back the YYYY-MM-DD text of a four-digit-year day gives that day (the midnight rounding) |
| Utils.ShouldProcessRouteCases | src/utils.ts:39-41 | a route is processed iff its id is in the set, and always when the set holds "all" |
| Utils.ToUnixTs | src/utils.ts:15-17 | the seconds value is the floor of ms/1000: ts*1000 <= ms < ts*1000+1000 |
| Utils.GetRoundedUTCDateFromOffset | src/utils.ts:28-33 | the result is UTC midnight of the day `dayOffset` days after the day of `from`; midnight with offset 0 is unchanged |
| Utils.GetRoundedUTCDateFromTime | src/utils.ts:35-37 | the result is UTC midnight of the same day |
| Utils.BulkInsertOrRemoveItems | src/utils.ts:43-62 | the calls made are the serial chunks of 100000 split into parallel chunks of 990, all inserts or all removes |
| Utils.SerialPlanProperties | src/utils.ts:43-62 | the batches, concatenated, are exactly the items in order, each of 1 to 990 items, all of the requested kind |
| Utils.OneHundredFiftyThousandItems | src/utils.ts:47-51 | 150000 items take 102 + 51 = 153 calls |
| Calendar.ParseGtfsDate | src/utils/gtfsScheduleImporter.ts:375-380 | a date is produced iff the first 8 characters are digits with month 1-12 and day 1-31, and it is that civil date (overflowing days roll into the next month) |
| Calendar.ParseGtfsDateRoundTrip | src/utils/gtfsScheduleImporter.ts:375-380 | a YYYYMMDD text of a valid four-digit-year date parses to that date |
| Calendar.GetServiceIdsPerDay | src/utils/gtfsScheduleImporter.ts:149-212 | the per-service dates equal the fold of calendar.txt then calendar_dates.txt |
| Calendar.CalendarRowDaysMembership | src/utils/gtfsScheduleImporter.ts:170-182 | a complete calendar row serves day d iff d lies between its start and end dates and its weekday flag is "1" |
| Calendar.ExceptionAddRuns | src/utils/gtfsScheduleImporter.ts:197-202 | an exception of type 1 adds one occurrence of its date to the service (creating the service); other services are unchanged |
| Calendar.ExceptionRemoveStops | src/utils/gtfsScheduleImporter.ts:203-208 | an exception of type 2 removes every copy of its date from a known service and keeps its other dates; no service appears or disappears |
| Calendar.ExceptionRemoveUnknownIgnored | src/utils/gtfsScheduleImporter.ts:205-207 | removing from an unknown service changes nothing |
| Calendar.ServiceDaysSorted | src/utils/gtfsScheduleImporter.ts:170-201 | every service's dates are in ascending order |
| Calendar.SortedPermutationUnique | src/utils/gtfsScheduleImporter.ts:201 | two sorted permutations of the same dates are equal, so the re-sort after each push is determined |
| Calendar.ServiceDaysInRange | src/utils/gtfsScheduleImporter.ts:172-200 | every service date is a calendar day the YYYY-MM-DD format covers |
| AgencyTimezones.GetTimezoneByAgency | src/utils/gtfsScheduleImporter.ts:133-147 | the timezone map equals the fold over agency.txt |
| AgencyTimezones.TimezoneKeys | src/utils/gtfsScheduleImporter.ts:136-145 | an agency id has a timezone iff some row with a timezone names it, a row without agency_id naming ''; '' also has one when the file has at most one row and it has a timezone; each stored timezone is non-empty |
| AgencyTimezones.SingleAgencyDefault | src/utils/gtfsScheduleImporter.ts:144 | with one agency row, its timezone is found under its id and under '' |
| AgencyTimezones.SeveralAgenciesNoDefault | src/utils/gtfsScheduleImporter.ts:135-144 | with several rows that all set agency_id, '' has no timezone |
| RouteImport.RouteFieldsOf | src/utils/gtfsScheduleImporter.ts:61-71 | a row is usable iff route_id and at least one of the two names are set, and then both names are non-empty (each falls back on the other) |
| RouteImport.UpdateRouteFields | src/utils/gtfsScheduleImporter.ts:81 | the route keeps its source and id and takes the row's names and agency; it is saved iff one of the three differed |
| RouteImport.UpdateRouteFieldsIdempotent | src/utils/gtfsScheduleImporter.ts:81 | applying the same row again saves nothing and leaves the route as it is |
| RouteImport.GetOrGenerateRoutes | src/utils/gtfsScheduleImporter.ts:50-87 | the route map, the new routes and the saved ids equal the fold of routes.txt over the stored in-scope routes |
| RouteImport.StoredRoutesInScope | src/utils/gtfsScheduleImporter.ts:54-58 | only stored routes in scope enter the map |
| RouteImport.CreatedExactly | src/utils/gtfsScheduleImporter.ts:72-78 | a route is created iff it was not stored in scope and some valid in-scope row names it |
| RouteImport.CreatedStaysMapped | src/utils/gtfsScheduleImporter.ts:74-78 | the map holds exactly the stored routes and the created ones, and no created route was stored |
| RouteImport.LastRowWins | src/utils/gtfsScheduleImporter.ts:74-82 | a route named by several rows ends with the fields of the last one |
| StopImport.GetOrGenerateStops | src/utils/gtfsScheduleImporter.ts:89-131 | the stop map, new stops, saved ids and parent-link calls equal the fold of stops.txt; "first process" means the store held no stop |
| StopImport.StopRowsKnown | src/utils/gtfsScheduleImporter.ts:99-117 | every row with a stop_id leaves that stop in the map, and no stop is dropped |
| StopImport.RelationsFromRows | src/utils/gtfsScheduleImporter.ts:108-110 | every recorded parent link belongs to a known stop and names a non-empty parent id |
| StopImport.ParentCallsTarget | src/utils/gtfsScheduleImporter.ts:125-129 | every known stop gets one parent call, whose parent is the named stop iff that stop is known |
| TripImport.UpdateTripRoute | src/utils/gtfsScheduleImporter.ts:253 | the instance refers to the row's route, keeps every other field, and is saved iff that changed it |
| TripImport.UpdateTripRouteIdempotent | src/utils/gtfsScheduleImporter.ts:253 | applying the same route again saves nothing |
| TripImport.FindTrip | src/utils/gtfsScheduleImporter.ts:244 | the first instance with the date, or none iff no instance has it |
| TripImport.WindowDays | src/utils/gtfsScheduleImporter.ts:241 | exactly the service days whose midnight lies within the window, bounds included |
| TripImport.ProcessTripRow | src/utils/gtfsScheduleImporter.ts:223-256 | one trips.txt row updates the instances as the fold's step does, and the references to new and saved instances stay valid |
| TripImport.GetOrGenerateTrips | src/utils/gtfsScheduleImporter.ts:214-260 | the instance map, new instances and saved instances equal the fold of trips.txt over the stored window instances |
| TripImport.TripRowsKeepDistinct | src/utils/gtfsScheduleImporter.ts:244-250 | if no trip id had two instances on a date before, none has after |
| TripImport.TripRowsCovers | src/utils/gtfsScheduleImporter.ts:218-250 | no instance is lost: every date a trip id had, it still has |
| TripImport.EveryWindowDayHasInstance | src/utils/gtfsScheduleImporter.ts:234-250 | a usable row and a service day in the window give that trip an instance dated that day |
| TripImport.TripDaysDates | src/utils/gtfsScheduleImporter.ts:241-250 | the service days of one row add instances only to that row's trip id, and only on the dates of those days |
| TripImport.ApplyTripRowDates | src/utils/gtfsScheduleImporter.ts:218-250 | every instance after one trips.txt row was stored already, or belongs to the row's trip id and is dated a day of the row's service inside the window, and the row is processed |
| TripImport.InstancesOnlyInWindow | src/utils/gtfsScheduleImporter.ts:218-250 | every instance after the import was stored already, or its date is the YYYY-MM-DD of a day of the service of some processed row naming that trip id, inside the window |
| StopTimeRows.GetStopTimesByTripId | src/utils/gtfsScheduleImporter.ts:262-275 | the groups and the key order equal the grouping fold |
| StopTimeRows.GroupingContents | src/utils/gtfsScheduleImporter.ts:264-273 | the keys are the set trip_ids, each listed once, and each group is its trip's rows in file order, never empty |
| StopTimeRows.FirstRowOf | src/utils/gtfsScheduleImporter.ts:264-273 | the index of a trip id's first row: that row names it and no earlier one does |
| StopTimeRows.GroupingOrder | src/utils/gtfsScheduleImporter.ts:264-273 | a trip id is listed iff some row names it, and the list follows the order of the trip ids' first rows |
| StopTimeRows.ParseIntOfNatToString | src/utils/gtfsScheduleImporter.ts:299 | parseInt reads a decimal numeral back as its number |
| StopTimeRows.ParseIntNegative | src/utils/gtfsScheduleImporter.ts:299-300 | a negative numeral parses as negative, so the row is refused |
| StopTimeRows.EntryOf | src/utils/gtfsScheduleImporter.ts:281-307 | an entry has a non-empty time, a sequence >= 0 and a known stop |
| StopTimeRows.SortBySequence | src/utils/gtfsScheduleImporter.ts:309 | the result is a permutation of the entries, ordered by stop_sequence |
| StopTimeRows.GenerateStopTimeSequenceData | src/utils/gtfsScheduleImporter.ts:277-311 | the sequence equals the sorted entries of the usable rows |
| StopTimeRows.ScheduleSequenceProperties | src/utils/gtfsScheduleImporter.ts:277-311 | the sequence holds exactly the entries of the usable rows, sorted, each with a time and a known stop |
| StopTimeDiff.DiffTripStopTimes | src/utils/gtfsScheduleImporter.ts:340-367 | the instance's new stop times, inserts and removes equal the per-position specification |
| StopTimeDiff.FinalFollowsSchedule | src/utils/gtfsScheduleImporter.ts:340-367 | afterwards the instance has one stop time per schedule entry, each with that entry's sequence, time and stop |
| StopTimeDiff.MatchingPositionKept | src/utils/gtfsScheduleImporter.ts:345-352 | a position equal in sequence, time and stop keeps its stored row and writes nothing |
| StopTimeDiff.WriteCounts | src/utils/gtfsScheduleImporter.ts:340-365 | inserts + matches = schedule length and removes + matches = stored length |
| StopTimeDiff.WritesComeFromTheirSide | src/utils/gtfsScheduleImporter.ts:354-359 | removes are stored rows; inserts are new rows (no id, no actual time) for the instance's trip |
| StopTimeDiff.UnchangedScheduleNoWrites | src/utils/gtfsScheduleImporter.ts:345-352 | a schedule equal at every position writes nothing and keeps the stored list |
| StopTimeDiff.DiffIdempotent | src/utils/gtfsScheduleImporter.ts:340-367 | diffing again against the stored result of a diff writes nothing |
| StopTimeImport.TimezoneOf | src/utils/gtfsScheduleImporter.ts:322-329 | a timezone is found iff the first instance's agency has a non-empty one, and it is that one |
| StopTimeImport.DiffTripList | src/utils/gtfsScheduleImporter.ts:332-368 | the instances and writes for one trip id equal the per-instance fold |
| StopTimeImport.GetOrGenerateStopTimes | src/utils/gtfsScheduleImporter.ts:313-372 | the updated instances equal the fold over the grouping keys, and the inserts and removes are each one bulk plan, or nothing when empty |
| StopTimeImport.TripListDiffShape | src/utils/gtfsScheduleImporter.ts:332-368 | each instance is diffed alone, in order; the instance count, ids and dates are unchanged |
| StopTimeImport.TripKeysEffect | src/utils/gtfsScheduleImporter.ts:318-369 | a trip id with stop-time rows gets its reconciled instance list, every other keeps its list, and the set of trip ids is unchanged |
| StopTimeImport.StopTimesFollowSchedule | src/utils/gtfsScheduleImporter.ts:330-367 | a processed instance ends with exactly its trip's sorted schedule as stop times |
| StopTimeImport.UntouchedTrips | src/utils/gtfsScheduleImporter.ts:320-329 | an instance list with no stop-time rows, or without a timezone, is left as it was |
| Entities.NewStopTime | src/models/stopTime.ts:43-51 | a new stop time carries the given source, sequence, time, trip id, trip date and stop, and has no id or live data |
| Entities.BulkCreateStopTimes | src/models/stopTime.ts:53-58 | no call for no rows; otherwise the insert plan |
| Entities.BulkRemoveStopTimes | src/models/stopTime.ts:60-65 | no call for no rows; otherwise the remove plan |
| ScheduleImport.ImportGtfsScheduleData | src/utils/gtfsScheduleImporter.ts:30-47 | the four steps chained, with each step's map passed to the next, equal their specifications |
| ScheduleImport.StopTimeStepKeepsDates | src/utils/gtfsScheduleImporter.ts:313-372 | the stop-time step keeps every trip id and every instance's position and date |
| ScheduleImport.OneInstancePerTripDate | src/utils/gtfsScheduleImporter.ts:30-47 | after the whole import no trip id has two instances on one date, given the store had none |
| RealtimeImport.FindTarget | src/utils/gtfsTripUpdateImporter.ts:73 | the first stop time matching the update's sequence or stop id, an unset one read as 0 or "", or none iff no stop time matches |
| RealtimeImport.StopIdOnlyMatchesSequenceZero | src/utils/gtfsTripUpdateImporter.ts:73 | an update giving only a stop id matches an earlier stop time with sequence 0, not the named stop |
| RealtimeImport.LiveTime | src/utils/gtfsTripUpdateImporter.ts:77-88 | a live time exists iff the update has an arrival or a departure event; the missing-delay branch is never taken on a decoded event |
| RealtimeImport.LiveTimeCases | src/utils/gtfsTripUpdateImporter.ts:79-88 | arrival is preferred; a non-zero time wins, else the scheduled time plus the delay, so an event with neither field set gives the scheduled time |
| RealtimeImport.ProcessStopTimeUpdates | src/utils/gtfsTripUpdateImporter.ts:62-99 | the updated flag and the two update maps equal the fold over the stop-time updates |
| RealtimeImport.UpdatesRecordExactly | src/utils/gtfsTripUpdateImporter.ts:69-98 | updated iff some update changes a stamp or actual time; a stamp is pending iff some matched stop time's stored stamp differs from the feed time, and it is the feed time; an actual time is pending iff some matched stop time's stored actual time differs from the live time, and it is the last such update's live time; entries no update writes are kept |
| RealtimeImport.EntityTripId | src/utils/gtfsTripUpdateImporter.ts:29-36 | an entity's trip id, when there is one, is non-empty |
| RealtimeImport.UpdatedTrip | src/utils/gtfsTripUpdateImporter.ts:43-53 | gotLiveData is set once live data comes; the vehicle is replaced when one is given; saved iff either changed |
| RealtimeImport.ImportGtfsRealtimeData | src/utils/gtfsTripUpdateImporter.ts:14-60 | the two update maps and the trips to save equal the fold over the entities |
| RealtimeImport.EntitySkipRules | src/utils/gtfsTripUpdateImporter.ts:22-41 | a skipped entity changes nothing; an entity has no usable trip id iff it has no trip update, no trip, an unset or empty trip_id, or a non-SCHEDULED relationship |
| RealtimeImport.EntityTripChange | src/utils/gtfsTripUpdateImporter.ts:42-53 | an applied entity saves its trip iff it brought live data to a trip without any, or a new vehicle |
| RealtimeImport.SavedTripsHaveNews | src/utils/gtfsTripUpdateImporter.ts:43-53 | every trip saved has live data or a vehicle |
| UpdateTimes.NewSet | src/models/updateTime.ts:18 | the same members, without repetitions |
| UpdateTimes.RoutesColumnRoundTrip | src/models/updateTime.ts:15-22 | a set of non-empty ids without ',' survives the column's to/from transform exactly |
| UpdateTimes.UpdateTimeStore.NeedsScheduleProcess | src/models/updateTime.ts:24-34 | equals the staleness decision on the stored rows |
| UpdateTimes.NeedsProcessCases | src/models/updateTime.ts:24-34 | needed for an unknown source or a route not processed before; otherwise iff now/1000 - 10800 > last time |
| UpdateTimes.ProcessedScheduleNotNeeded | src/models/updateTime.ts:36-46 | right after processing, the schedule is not needed again for those routes within three hours; the feed watermark is kept, or 0 for a new row |
| UpdateTimes.UpdateTimeStore.LastProcessedFeedTime | src/models/updateTime.ts:48-50 | the stored feed time, 0 without a row |
| UpdateTimes.FeedWatermarkRoundTrip | src/models/updateTime.ts:48-54 | a written feed time reads back for a source with a row; without a row nothing is written; other sources are unchanged |
| FeedFetcher.TxtFilesContents | src/clients/gtfsDataFetcher.ts:40-50 | a file is kept iff its name ends in .txt and some entry has it, with the rows of the last such entry |
| FeedFetcher.ValidateScheduleData | src/clients/gtfsDataFetcher.ts:54-59 | the data passes iff the five required files are present and non-empty and a calendar file of either kind is present |
| FeedFetcher.CalendarRequirement | src/clients/gtfsDataFetcher.ts:59 | an empty calendar_dates.txt alone satisfies the calendar requirement; no calendar file fails it |
| FeedFetcher.GetDataSourceURLs | src/clients/gtfsDataFetcher.ts:65-70 | the first source with the id, or an error iff none has it |
| FeedFetcher.CheckFetchResponse | src/clients/gtfsDataFetcher.ts:72-77 | rejected iff the status is not 200 |
| FeedFetcher.FetchGtfsScheduleData | src/clients/gtfsDataFetcher.ts:30-62 | schedule data only for a known source, status 200 and a valid set of .txt files, and it is exactly those files; each error names a failing condition |
| Watcher.FailedTickIsFinal | src/listeners/gtfsWatcher.ts:23-51 | once an error ends a realtime tick, the remaining sources change nothing |
| Watcher.FailedScheduleTickIsFinal | src/listeners/gtfsWatcher.ts:56-77 | once an error ends a schedule tick, the remaining sources change nothing |
| Watcher.FeedStepRules | src/listeners/gtfsWatcher.ts:29-51 | a feed is imported iff its timestamp is non-zero and differs from the watermark; the tick fails iff that import throws, and then the watermark stays and the next tick imports the same feed; otherwise the watermark holds the timestamp if the source has a row, and without a row the same feed is imported again |
| Watcher.ScheduleNotRepeated | src/listeners/gtfsWatcher.ts:63-68 | a schedule just imported without an exception is not imported again by a tick within three hours for the same routes |
| Watcher.ScheduleRetriedAfterThrow | src/listeners/gtfsWatcher.ts:63-76 | a schedule import that throws ends the tick with the watermark unchanged, so the next tick imports the source again |
| Watcher.FetchAndProcessSchedules | src/listeners/gtfsWatcher.ts:55-78 | the window is midnight two UTC days back to two days ahead; the rows and import calls equal the fold over the sources, including the call that threw |

## Left out

- Watcher.GtfsWatcher.FetchAndProcessFeeds: a member that reads `old` state, so its contract is stated here instead. The flag is restored on every path. With the flag set, nothing happens. Otherwise the watermarks and import calls equal the fold over the sources.
- Watcher: the watermark reads and writes of the store are assumed never to throw. In the source, such an exception is swallowed by the same try/catch as a failed fetch and ends the tick. What an importer wrote before it threw is not part of the tick's state: the importers are modelled separately.
- The timeout of the realtime tick (`timeoutPromise`, 5 minutes) and the interval timers (15 s, 6 h) are left out. They are concurrency, and the model has one tick at a time. The period constants are declared but not used.
- `Promise.all` over feed entities and over parent links is modelled as sequential, in input order. Interleavings at `await` points, such as two entities for the same trip, are not modelled.
- HTTP, unzipping, CSV parsing and protobuf decoding are not modelled. Their results are inputs. A decoded realtime message reads an unset scalar field as its default (0 or ""), as the generated classes declare, so an update without stop_sequence matches a stop time with sequence 0 and an event without time or delay gives the scheduled time. An unset message field is `None`. A `Long` timestamp or event time is treated as a plain integer.
- The header timestamp of a feed message is kept as an optional value. The watcher skips both the unset and the 0 reading, so they behave the same.
- The store's queries are inputs: stored routes, stops, window trips with stop times, and the closest trip for an id and a time. The persistence helpers are modelled as the values they write, not their SQL: bulk creates, `Trip.save`, `StopTime.bulkUpdateTimes`, `updateFieldsIfNecessary`, `updateParentIfNecessary`, `updateRouteIfNecessary`. `Stop.updateParentIfNecessary`'s own decision is not part of this model; the calls it receives are.
- dayjs' timezone conversion is not modelled. `ScheduledUnix` is a function parameter giving the seconds for a date, time and timezone.
- Calendar dates are modelled only for years 0 to 9999, the range that YYYY-MM-DD text covers. `Utils.GetRoundedUTCDateFromOffset` and `Watcher.FetchAndProcessSchedules` require the current day to be in 1000-9999.
- Utils.GetRoundedUTCDateFromOffset: the default argument `new Date()` is the caller's `now` parameter.
- An Invalid Date from a malformed calendar_dates.txt date is not modelled: the exception row is skipped. In the source, a type-1 row with a malformed date still creates its service, holding an Invalid Date that never passes the window filter. The model does not create that service.
- Calendar.ServiceDaysSorted: holds because the model skips malformed exception dates. In the source, the sort comparator returns NaN for an Invalid Date, so that service's dates can be left unsorted.
- `parseInt` is modelled for an optional sign and a decimal digit prefix. Leading whitespace and `0x` prefixes are not.
- The order of equal stop_sequence values after sorting is not modelled. The source's comparator never returns 0, so that order is engine-defined. The model uses a stable insertion order and proves only "sorted and a permutation".
- The ordering of integer-like keys in `Object.keys` is not modelled. Trip ids with stop-time rows are visited in first-seen order. Each trip id is processed independently, so only the order of the insert and remove batches depends on this.
- RealtimeImport.RouteIdOf: reads the route id from the instance's loaded route. The source reads the `routeGtfsRouteId` column, or '' when it is empty. The model assumes the store fills that column from the same route relation.
- TripImport.NewTrip: `Trip.newTrip` is not part of this model. It is assumed to set the new instance's stop times to an empty list. If it left them undefined, the stop-time step would skip new instances in the same run (src/utils/gtfsScheduleImporter.ts:332-338).
- TripImport.UpdateTripRoute: `updateRouteIfNecessary` is not part of this model. It is assumed to compare whole route values, so a route whose names changed in the route step counts as a different route and every instance of it is saved.
- RouteImport.UpdateRouteFields: `updateFieldsIfNecessary` is not part of this model. It is assumed to save exactly when one of the names or the agency differs.
- A stop time without an id is keyed as "undefined" in the realtime update maps (`IdKey`), as a JavaScript object key would be.
- The clock is one `now` value per schedule tick. The source reads it again for the window, the staleness test and the watermark.
- Logging is left out.
- Configuration loading, the realtime fetch's own HTTP handling, the database setup and migrations, and the entry point are not part of this model.
