# Fleet dashboard core, modelled in Dafny

The fleet dashboard has two halves:

- A Node backend, `backend/server.js`. It forwards a session cookie to an upstream fleet-tracking API and caches every upstream list in a single-flight time-to-live cache (`memo`). It fans requests out through bounded worker pools (`runPool`). It folds per-device trip, event and maintenance lists into KPI reports. It also keeps a shared JSON alert state that clients patch.
- A React front end, whose pages and components turn those reports into alert cards, counters, charts and tables.

This project models the deterministic core of both halves as pure Dafny functions, small state machines and a few methods, and proves the properties those pieces promise.

| module | file | what it models |
|---|---|---|
| `Common` | common.dfy | `Number()` results, `toLowerCase` on ASCII and Latin-1 letters, `trim`, `includes`, `filter`, sums |
| `Cache` | cache.dfy | `cacheKey`, `DEFAULT_TTL`, and `memo` as a state machine of Call / Resolve / Reject events |
| `Fetchers` | fetchers.dfy | `asArr`, the per-resource cache keys and ttls, and the fetchers' error policy on top of `validateStatus` |
| `Pool` | pool.dfy | the three `runPool`s as one cooperative state machine with three failure policies, for any completion order |
| `Sorting` | sorting.dfy | `Array.prototype.sort` with a numeric comparator (stable) |
| `Reports` | reports.dfy | `new Map(entries)` and the average-speed, max-speed, avg-fuel, active-devices, total-distance and maintenance-efficiency folds |
| `VehicleAlerts` | vehicle_alerts.dfy | the vehicle-alerts report: notification labels, `parseNotifIds`, `inferStateFromEvent`, occurrences, geofences, final state |
| `Company` | company.dfy | `companyFromUsername` (backend and Alerts page) and the Alerts page's `slug` |
| `LegacyState` | legacy_state.dfy | the legacy `patches` merge with first-write-wins `takenBy`/`takenAt` |
| `AlertsPage` | alerts_page.dfy | cards from report rows, the persisted merge, the filter, counters, progress, the action-plan operations, `applyRange` |
| `Dashboard` | dashboard.dfy | `classifyAlert`, `stateKeyToBucket`, fallback status and violation counting, the status pie, the top-N fuel bars |
| `Comparison` | comparison.dfy | `getGroupIdFromDevice`, `selectedDeviceSet`, L/100 km, the efficiency score, the per-device row |
| `MultiSelect` | multiselect.dfy | `filtered`, `allSelected`, `toggle`, `toggleAll`, clear |
| `ResolvedAlerts` | resolved_alerts.dfy | id extraction, state-to-row mapping with defaults, refresh, the filter |

Modelling choices:

- JavaScript values that may be missing are `Option`s.
- `Number(x)` of a record field is a `JsNumber`: finite, `NaN` or an infinity.
- Numbers are `real`s and timestamps are `int`s.
- Anything the code delegates to the runtime is a parameter of the model:
  - `normalize("NFKD")` (`nfkd`);
  - `Number()` of a string (`num`) and the text of a number (`numText`);
  - `crypto.randomUUID` (`uuid`, `newId`, `commentId`), indexed by the alert's position and the step's index, so that each call the page makes draws its own value;
  - the clock (`now`);
  - date formatting.
- The cache's producer and the pools' jobs are abstract outcomes: a value or a failure.
- The event loop's choice of which runner resumes next is an arbitrary schedule. The pool properties hold for every schedule.

## Model

| member | source | states |
|---|---|---|
| Common.Trim | backend/server.js:502 | the trimmed text is the input with its leading and trailing white space cut off, a slice with only white space before and after it; it begins and ends with a non-space; it is empty exactly when the input is all white space, white space being tab, vertical tab, form feed, BOM, every Zs space separator and the four line terminators |
| Common.Lower | src/pages/Alerts.tsx:221 | lower-casing keeps the length and maps each character on its own |
| Cache.CacheKey | backend/server.js:90 | the key is the parts joined by a pipe character: no parts give the empty key; otherwise it is as long as the parts plus one separator between each two, starts with the first part, and a separator follows the first part when there is a second |
| Cache.CacheKeyInjective | backend/server.js:90 | keys built from parts that hold no separator character identify their parts: equal keys mean equal part lists |
| Cache.CacheKeyCollision | backend/server.js:90 | parts that contain the separator can collide: two different part lists can give one key |
| Cache.CallStep | backend/server.js:91-110 | a fresh truthy entry is served unchanged; a pending key is joined; otherwise, and only then, the producer starts and the key becomes pending with the call's start time and ttl |
| Cache.ResolveStep | backend/server.js:97-105 | when the key is pending, success stores the value with expiry call-start + ttl, which the `finally` block keeps; a key that is no longer pending is left alone; every other key keeps its entry or stays absent |
| Cache.RejectStep | backend/server.js:102-105 | when the key is pending, failure removes exactly its entry; otherwise the store is unchanged |
| Cache.SingleFlight | backend/server.js:91-110 | for every event sequence, producer invocations plus the in-flight count before equal settlements plus the in-flight count after; at most one computation per key runs |
| Cache.ConcurrentCallsInvokeOnce | backend/server.js:95-109 | calls for a key with no completion in between invoke the producer at most once, and exactly once when the first call finds no fresh value |
| Cache.CallsWhilePendingJoin | backend/server.js:95 | while a key is pending, any number of calls for it leave the store unchanged and invoke nothing |
| Cache.TtlRespected | backend/server.js:91-100 | after a fetch started at t0 succeeds with a truthy value, a later call is served from the cache exactly while now < t0 + ttl, and re-fetches afterwards |
| Cache.FalsyValueNotServed | backend/server.js:94 | a stored falsy value is never served: the next call invokes the producer again |
| Cache.FailureNotCached | backend/server.js:101-106 | after a failure the key has no entry and the next call invokes the producer again |
| Fetchers.AsArr | backend/server.js:68 | an array is kept, any other truthy value is wrapped, a falsy value gives the empty list |
| Fetchers.Ttl | backend/server.js:84-89 | trips live 60 s, events 45 s, maintenance 120 s, the four metadata lists 5 min |
| Fetchers.Produce | backend/server.js:130-185 | the producer fails exactly on no response, on a status outside 200-499 (5xx included, for every resource), or on a 4xx for devices or groups; other 4xx give `[]`; 2xx-3xx give the body as a list |
| Fetchers.Fetch | backend/server.js:130-185 | a fetch on the resource's cache key serves a fresh ready entry, joins a pending one, and otherwise, and only then, starts the producer and marks the key pending with the resource's ttl |
| Fetchers.DegradedEmptyListIsCached | backend/server.js:146-185 | a best-effort resource answering 4xx caches `[]` as ready with expiry start + ttl, and serves it until then |
| Fetchers.FailedFetchLeavesNoEntry | backend/server.js:130-145 | a failed fetch leaves no entry, so the next call fetches again |
| Pool.Init | backend/server.js:115 | `min(limit, n)` runners each claim their own first index; every slot starts as a hole |
| Pool.RunInv | backend/server.js:112-124 | every schedule keeps the pool invariant: indices are claimed once, in order, and each finished job's slot holds its outcome |
| Pool.ScheduleIndependent | backend/server.js:112-124 | whatever the completion order, once no runner waits: without failure every index was claimed exactly once and slot i holds job i's outcome; fail-fast without failure means every job succeeded; a failure flag means fail-fast and some job failed |
| Pool.Drain | backend/server.js:112-124 | running the pool to completion terminates with the slots of every job's outcome (limit >= 1), or all holes (limit 0); fail-fast succeeds exactly when every job does |
| Pool.ServerRunPool | backend/server.js:112-124 | a negative limit rejects; limit 0 resolves to holes; otherwise the pool resolves exactly when every worker call succeeds, and then result i is `worker(items[i], i)` |
| Pool.TrimHoles | src/pages/Dashboard.tsx:461 | an array written only at some indices ends at its last written slot; only holes are dropped |
| Pool.DashboardRunPool | src/pages/Dashboard.tsx:460-471 | every job runs once; a success is stored at its own index and a failure leaves a hole; the array ends at its last success |
| Pool.ComparisonRunPool | src/components/FilterComparisonBlock.tsx:47-64 | every job runs once; the array has one slot per job, holding the value or `undefined` |
| Pool.CompactExpected | src/components/FilterComparisonBlock.tsx:217-218 | filtering out the empty slots leaves exactly the successful outcomes in job order |
| Pool.SwallowingPoolsAgree | src/pages/Dashboard.tsx:275-276 | after `.filter(Boolean)` both error-swallowing pools give the successes in job order |
| Sorting.SortBy | backend/server.js:390 | the result is ordered by key and is a permutation of the input |
| Sorting.SortSorted | backend/server.js:390 | an already ordered list is left as it is |
| Sorting.SortStable | backend/server.js:390 | the sort is stable: for every key, the elements with that key keep their input order |
| Reports.NewMapDistinct | backend/server.js:236 | the map built from the pool's pairs holds each id once |
| Reports.NewMapHasKeys | backend/server.js:236 | every id of the pairs is a key of the map |
| Reports.NewMapLastValue | backend/server.js:236 | each pair of the map is the last pair with its id |
| Reports.FoldIsFlat | backend/server.js:248-256 | the per-device fold sums and counts exactly the flat list of finite values; used devices are those with a finite value |
| Reports.AverageSpeed | backend/server.js:248-257 | the average is sum/count of all finite speeds, or 0 without one; the trip count is the number of finite speeds; used devices are those with one |
| Reports.AverageSpeedBounds | backend/server.js:257 | the average lies between any lower and upper bound of the finite speeds |
| Reports.MaxSpeed | backend/server.js:272-291 | the maximum is >= 0 and bounds every finite max speed; meta is null exactly when none exceeds 0, else it describes the first trip reaching the maximum; every device counts as used |
| Reports.MaxSpeedCountIsFlat | backend/server.js:275-278 | the trip count is the number of finite max speeds over all devices |
| Reports.FuelOf | backend/server.js:307-311 | a record yields a value exactly when its fuel is finite; the value is never negative and equals a non-negative input |
| Reports.AverageFuel | backend/server.js:306-320 | the total is the sum of clamped values; the average is total/count or 0; both are non-negative; used devices are those with trips |
| Reports.FuelSumNonNegative | backend/server.js:319 | the clamped sum is never negative, so the final clamp never fires |
| Reports.ActiveDevices | backend/server.js:335-337 | the count is the number of reported ids |
| Reports.ActiveDevicesSound | backend/server.js:335-337 | the active ids are distinct, and an id is reported exactly when its last trip list, the one the map keeps, is non-empty |
| Reports.NewMapKeepsLast | backend/server.js:236 | the last pair given for an id is the pair the map holds |
| Reports.DistanceOf | backend/server.js:889-892 | a finite meter field gives its value / 1000; otherwise a finite kilometre field gives its value; otherwise nothing |
| Reports.TotalDistance | backend/server.js:884-895 | the total is max(0, sum of per-trip kilometres) and never negative |
| Reports.TotalDistanceExample | backend/server.js:884-895 | a 1000 m trip and a 5 km trip give 6 km |
| Reports.MaintenanceEfficiency | backend/server.js:908-920 | total counts every pool pair; up-to-date counts devices without an overdue record; efficiency is their percentage in [0, 100], or 0 |
| Reports.CountUpToDateIsFilter | backend/server.js:911-918 | the loop's counter is the number of devices with no record due |
| Reports.MaintResponseOkIsCount | backend/server.js:921 | the response's `ok` is the up-to-date count, since the later key overwrites `ok: true`; with one overdue device of three it is 2 |
| VehicleAlerts.NotifLabel | backend/server.js:358 | the label is name, else alarms, else type, else `notif:<id>` |
| VehicleAlerts.NotifMap | backend/server.js:355-360 | every notification with a finite id has an entry, and every entry is the label of some notification with that id |
| VehicleAlerts.NotifMapKeys | backend/server.js:355-360 | the notification map's keys are exactly the finite ids |
| VehicleAlerts.NotifMapLastWins | backend/server.js:355-360 | an id's label is that of its last definition |
| VehicleAlerts.GeofenceMap | backend/server.js:362-366 | every geofence with a finite id has an entry, and every entry is the name, or `geofence:<id>`, of some geofence with that id |
| VehicleAlerts.GeofenceMapLastWins | backend/server.js:362-366 | an id's name is that of its last definition |
| VehicleAlerts.Split | backend/server.js:368 | the split yields at least one piece and no piece holds a comma or white space; SepRuns states where it cuts |
| VehicleAlerts.SepRuns | backend/server.js:368 | the input is exactly the pieces of the split interleaved with non-empty runs of separators, one run between each two pieces, so the pieces are the maximal separator-free stretches in order |
| VehicleAlerts.FiniteParts | backend/server.js:368 | `filter(Number.isFinite)`: one value per finite entry, the i-th being the value of the i-th finite entry |
| VehicleAlerts.ParseNotifIds | backend/server.js:368 | an empty value gives no id; otherwise the ids are, in order, the numbers of the split pieces whose `Number()` is finite |
| VehicleAlerts.SplitKeepsContent | backend/server.js:368 | the pieces joined back give the input minus its separators |
| VehicleAlerts.TrailingSeparatorGivesZero | backend/server.js:368 | `"7,"` splits into `"7"` and `""`, and the empty token parses to id 0 |
| VehicleAlerts.LabelState | backend/server.js:380-382 | on a lower-cased label: idle exactly when it contains `idle`; arret exactly when it does not but contains `engineoff`, `engine off`, `arrêt` or `arret`; nothing exactly when it contains none of these |
| VehicleAlerts.IdsState | backend/server.js:378-384 | the ids give no state exactly when no id's label decides; otherwise the state the first deciding label gives |
| VehicleAlerts.InferState | backend/server.js:370-385 | `ignitionOn` gives en_service, `ignitionOff` gives arret, an alarm naming idle gives idle (all case-insensitively); otherwise the notification ids decide: no state exactly when no id's label decides, else the first deciding label's state; never hors_service |
| VehicleAlerts.IdsStateNotHors | backend/server.js:378-384 | the notification ids never infer en_service or hors_service |
| VehicleAlerts.Track | backend/server.js:406-408 | the tracked pair is the initial (none, 0) or one of the observations, with a state and a non-negative time |
| VehicleAlerts.TrackIsLastDecisive | backend/server.js:406-408 | in time order the tracked state is that of the last event with a state and a non-negative time; with none it stays unset |
| VehicleAlerts.FinalState | backend/server.js:387-410 | after the sort, the state is hors_service exactly for a device without events; otherwise it is the inferred state of the last decisive event, or en_service when there is none |
| VehicleAlerts.TrackStateIsInferred | backend/server.js:406-410 | a tracked state is always an inferred one |
| VehicleAlerts.StateLabelInjective | backend/server.js:369 | distinct states get distinct labels |
| VehicleAlerts.TotalOccurrences | backend/server.js:398-402 | the occurrence count is 0 exactly when no event has a type |
| VehicleAlerts.OccurrencesCountTypedEvents | backend/server.js:398-402 | the occurrence count is 0 exactly when no event has a type, and is at least the number of typed events |
| VehicleAlerts.GeofencesFromPositiveIds | backend/server.js:403-404 | a name is among a row's geofences exactly when some event has a finite, positive geofence id whose map name, or `geofence:<id>` when it has none, it is |
| VehicleAlerts.AlertSetIff | backend/server.js:398-401 | a label is among a row's alerts exactly when some event is typed with it (not `alarm`), is an alarm naming it, or carries a notification id whose map label, or `notif:<id>`, it is |
| VehicleAlerts.DeviceRow | backend/server.js:412-420 | the geofence count is the size of the geofence set, and the state label is the label of the state |
| VehicleAlerts.Report | backend/server.js:387-421 | one row per pool entry, in entry order, each for its own device id |
| Company.CollapseClean | backend/server.js:74 | the replacement leaves only word characters and single dashes, keeps every word character in order, and keeps a leading word character first |
| Company.WordRuns | backend/server.js:74 | the maximal runs of word characters, each non-empty and made of word characters only |
| Company.CollapseRuns | backend/server.js:74 | on a string starting with a word character, the replacement is its word runs joined by single dashes, plus one dash when it ends with a non-word character |
| Company.StripCollapseIsJoinedRuns | backend/server.js:74-75 | replacing then stripping edge dashes gives exactly the word runs joined by single dashes |
| Company.StripKeepsWords | backend/server.js:75 | stripping edge dashes keeps every word character |
| Company.StripClean | backend/server.js:75 | a collapsed string loses its edge dashes and stays collapsed |
| Company.LowerKeepsWords | backend/server.js:76 | the word characters of the lower-cased text are the lower-cased word characters |
| Company.LowerClean | backend/server.js:76 | lower-casing a collapsed, stripped string leaves only slug characters |
| Company.Slug | src/pages/Alerts.tsx:32-38 | a slug holds only lower-case word characters and single inner dashes; its word characters are the normalised input's, lower-cased |
| Company.SlugIsJoinedRuns | src/pages/Alerts.tsx:32-38 | a slug is the word runs of the normalised input, joined by single dashes and lower-cased |
| Company.SlugEmptyIff | src/pages/Alerts.tsx:32-38 | a slug is empty exactly when the normalised input has no word character |
| Company.SlugOfSlug | src/pages/Alerts.tsx:32-38 | a string already in slug form is its own slug (when normalisation keeps it) |
| Company.SlugIdempotent | src/pages/Alerts.tsx:32-38 | slugging a slug changes nothing (when normalisation keeps it) |
| Company.BeforeAt | backend/server.js:70 | the part before the first `@`: a prefix with no `@`, followed by `@` or the end |
| Company.CompanyFromUsername | backend/server.js:69-78 | the company is the slug of the part before `@`, or `default` when that slug is empty; it is never empty and always a slug |
| Company.DomainIgnored | src/pages/Alerts.tsx:114-122 | usernames that share the part before `@` belong to one company |
| Company.CompanyIdempotent | backend/server.js:69-78 | a company name is its own company (when normalisation keeps it) |
| LegacyState.Merge | backend/server.js:507-514 | patch keys win over previous keys, no other key appears or is lost; `updatedAt` is now; `updatedBy` is the user, else the previous one, else null; truthy `takenBy`/`takenAt` are kept; otherwise an `in_progress` patch sets them |
| LegacyState.BlankIdSkipped | backend/server.js:502-503 | a patch whose trimmed id is empty changes nothing |
| LegacyState.ApplyOne | backend/server.js:501-515 | a patch with a blank trimmed id changes nothing; otherwise its trimmed id holds the merge of its previous object and the patch; every other id keeps its entry or stays absent |
| LegacyState.ApplyAll | backend/server.js:501-515 | afterwards an id is present exactly when it was before or a patch names it (non-blank); every named id holds an object; an id no patch names keeps its entry |
| LegacyState.ClaimIsFirstWriteWins | backend/server.js:512-513 | once a record has truthy `takenBy` and `takenAt`, no patch list changes them |
| LegacyState.ClaimedByFirstInProgress | backend/server.js:512-513 | an `in_progress` patch by a named user on an unclaimed record claims it for that user at now |
| LegacyState.PatchedIdsStamped | backend/server.js:501-515 | every id patched in a request ends up an object stamped with the request's time |
| LegacyState.MergeIdempotent | backend/server.js:507-514 | re-applying the same patch at the same time changes nothing |
| AlertsPage.LabelToType | src/pages/Alerts.tsx:220-225 | speed/overspeed/alarm labels are critical; otherwise fuel/idle/zone/geofence labels are warnings; everything else is success |
| AlertsPage.LabelToTypeIgnoresCase | src/pages/Alerts.tsx:220-225 | classification does not depend on case |
| AlertsPage.OverspeedIsSpeed | src/pages/Alerts.tsx:222 | every label the `overspeed` test catches is already caught by `speed` |
| AlertsPage.StableId | src/pages/Alerts.tsx:262 | a card id starts with its device id and `::` |
| AlertsPage.Card | src/pages/Alerts.tsx:255-278 | a card is a new alert titled by its label, typed by `labelToType`, with no comments, plan or driver, located at the first geofence or `—` |
| AlertsPage.RowCards | src/pages/Alerts.tsx:255-278 | one card per label of the row, in label order |
| AlertsPage.Synthesize | src/pages/Alerts.tsx:255-278 | one card per label over all rows: the i-th card is titled by the i-th label of the rows in order; every card is new, with no plan and no comments, and typed by its title |
| AlertsPage.SynthesizeSnoc | src/pages/Alerts.tsx:257-277 | one more row appends exactly that row's cards after the cards of the rows before it |
| AlertsPage.MergeOne | src/pages/Alerts.tsx:285-296 | status and type come from truthy persisted values, the plan from a non-empty persisted plan, comments from any persisted array; nothing else changes |
| AlertsPage.MergePersisted | src/pages/Alerts.tsx:285-296 | each card is merged with the record of its own id; cards without one are unchanged |
| AlertsPage.EmptyPersistedLists | src/pages/Alerts.tsx:292-293 | an empty persisted plan keeps the card's plan while empty persisted comments clear its comments |
| AlertsPage.MergeIdempotent | src/pages/Alerts.tsx:285-296 | merging the same records twice is merging them once |
| AlertsPage.FilteredAlerts | src/pages/Alerts.tsx:330-340 | an alert is kept exactly when it matches the query, the type filter and the active-only switch |
| AlertsPage.FilterOrderAndIdentity | src/pages/Alerts.tsx:330-340 | the filter keeps list order; an empty query with every type and all statuses keeps the whole list |
| AlertsPage.ResolvedHiddenWhenActiveOnly | src/pages/Alerts.tsx:338 | a resolved alert never shows in the active-only view |
| AlertsPage.StatusCountsSum | src/pages/Alerts.tsx:342-345 | the new, in-progress and resolved counters add up to the list length |
| AlertsPage.Percent | src/pages/Alerts.tsx:346 | with no total the percentage is 0; otherwise it is within 0.5 of part/total × 100 (rounding half up) |
| AlertsPage.PercentBounds | src/pages/Alerts.tsx:346 | a rounded percentage of part <= total lies in [0, 100], is 100 for part = total and 0 for part = 0 |
| AlertsPage.TreatmentRate | src/pages/Alerts.tsx:346 | the treatment rate lies in [0, 100] and is 0 for an empty list |
| AlertsPage.Progress | src/pages/Alerts.tsx:313-318 | progress is 0 for an empty plan, lies in [0, 100], is 100 when all steps are done and 0 when none is, and is within 0.5 of done/total × 100 |
| AlertsPage.DefaultLabels | src/pages/Alerts.tsx:92-97 | every type's default plan has between 1 and `MAX_ACTIONS` steps |
| AlertsPage.InjectDefaultPlan | src/pages/Alerts.tsx:350-360 | an alert with a plan is unchanged; one without gets its type's default labels, all undone, step i with the i-th fresh id, and nothing else changes |
| AlertsPage.InjectIdempotent | src/pages/Alerts.tsx:350-360 | injecting twice is injecting once, whatever ids the second call would draw |
| AlertsPage.TakeInCharge | src/pages/Alerts.tsx:362-382 | only matching alerts change: each becomes in progress, keeps its plan or gets the default one with its own fresh step ids, and gains one comment with its own fresh id; others are unchanged |
| AlertsPage.TakeInChargeFreshIds | src/pages/Alerts.tsx:356-373 | two alerts taken in charge together never share a step id or a comment id, even when their alert ids repeat |
| AlertsPage.ToggleIn | src/pages/Alerts.tsx:417 | only steps with the given id flip `done`; every other step is unchanged |
| AlertsPage.ToggleStep | src/pages/Alerts.tsx:412-421 | only the matching alert's matching step flips; other alerts are unchanged |
| AlertsPage.ToggleTwice | src/pages/Alerts.tsx:412-421 | toggling the same step twice restores the list |
| AlertsPage.AddVerdictFor | src/pages/Alerts.tsx:436-446 | a full plan refuses; a label equal up to case to an existing one is refused as a duplicate; otherwise the step is added |
| AlertsPage.AddStep | src/pages/Alerts.tsx:429-448 | a blank label changes nothing; other alerts are unchanged; each matching alert gains exactly one undone step with the trimmed label and its own fresh id, unless the plan is full or has the label already |
| AlertsPage.AddStepKeepsPlansValid | src/pages/Alerts.tsx:429-448 | plans of at most `MAX_ACTIONS` steps with labels distinct up to case stay so |
| AlertsPage.AddStepRespectsLimit | src/pages/Alerts.tsx:436-439 | an alert whose plan already has `MAX_ACTIONS` steps is unchanged |
| AlertsPage.MarkResolved | src/pages/Alerts.tsx:459 | only the matching alert changes: it becomes resolved and of type success |
| AlertsPage.MarkResolvedIdempotent | src/pages/Alerts.tsx:459 | resolving twice is resolving once, and the resolved alert leaves the active-only view |
| AlertsPage.ApplyRange | src/pages/Alerts.tsx:147-156 | a range is accepted exactly when both dates are valid and from < to; unparsable dates are reported as invalid; the resolved-alerts page repeats the same check |
| Dashboard.ClassifyAlert | src/pages/Dashboard.tsx:153-159 | speed words win, then stop words, then brake words, else other |
| Dashboard.ClassifyIgnoresCase | src/pages/Dashboard.tsx:153-159 | classification does not depend on case |
| Dashboard.StateKeyToBucket | src/pages/Dashboard.tsx:160-177 | en_service/service/running are in service, idle is waiting, maintenance is maintenance, every other state (missing included) is off line; case is ignored |
| Dashboard.ServerStatesBucket | src/pages/Dashboard.tsx:160-177 | each state the vehicle-alerts report emits lands in its intended bucket |
| Dashboard.CountStatuses | src/pages/Dashboard.tsx:236-241 | each counter is the number of rows in its bucket, and the counters sum to the row count |
| Dashboard.Weight | src/pages/Dashboard.tsx:244 | a row's weight is its alert count when that is a number other than 0; a missing, non-numeric or zero count weighs 1; the weight is never 0 |
| Dashboard.AddTo | src/pages/Dashboard.tsx:247-251 | adding to one class raises the total by exactly that amount |
| Dashboard.ClassesPartitionLabels | src/pages/Dashboard.tsx:248-251 | every label falls in exactly one class: the four class counts add up to the number of labels |
| Dashboard.CountLabels | src/pages/Dashboard.tsx:248-251 | each class grows by the number of the row's labels classified into it, and the counters in all by the number of labels |
| Dashboard.CountViolations | src/pages/Dashboard.tsx:243-253 | each class grows by the rows' shares in it: a row without labels puts its weight in `other`, a row with labels one per label into that label's class; the counters in all grow by every row's share |
| Dashboard.LabelsIgnoreWeight | src/pages/Dashboard.tsx:244-252 | a labelled row's alert count plays no part |
| Dashboard.UnlabelledRowsOtherIsTotal | src/pages/Dashboard.tsx:214-253 | when no row has labels and every count is a non-zero number, `other` grows by exactly the alert total |
| Dashboard.StatusPieAsWritten | src/pages/Dashboard.tsx:297-302 | the pie as written: four slices, `En Service` showing the off-line counter and `Hors Ligne` the in-service counter, waiting and maintenance in between |
| Dashboard.StatusPieSwapped | src/pages/Dashboard.tsx:297-302 | with one running vehicle, the pie as written shows `En Service` 0 and `Hors Ligne` 1 |
| Dashboard.StatusPie | src/pages/Dashboard.tsx:297-302 | the corrected pie: four slices, each named for a bucket and showing that bucket's counter; the slices sum to the counters' sum |
| Dashboard.StatusPieCountsBuckets | src/pages/Dashboard.tsx:297-302 | in the corrected pie each slice counts the rows of its own bucket, and the slices sum to the row count |
| Dashboard.ShortName | src/pages/Dashboard.tsx:281 | a name of at most 12 characters is kept; a longer one is cut to its last 6 |
| Dashboard.Ranked | src/pages/Dashboard.tsx:275-277 | the ranking is a permutation of the successful jobs ordered by fuel, largest first |
| Dashboard.RankedStable | src/pages/Dashboard.tsx:276 | devices with equal fuel keep their job order |
| Dashboard.Top | src/pages/Dashboard.tsx:275-278 | the top holds min(`TOP_N`, successes) devices in descending fuel order |
| Dashboard.FuelBars | src/pages/Dashboard.tsx:275-283 | at most `TOP_N` bars, in descending fuel order, with names of at most 12 characters |
| Dashboard.BarOf | src/pages/Dashboard.tsx:279-283 | a bar carries its device's fuel and a name of at most 12 characters |
| Dashboard.TopIsTop | src/pages/Dashboard.tsx:275-278 | the devices with a bar are the first ones of the ranking, and none left out burned more than one shown |
| Dashboard.BarsFromSuccesses | src/pages/Dashboard.tsx:273-276 | the bars are built from the successful jobs only, in job order before sorting |
| Comparison.Coalesce | src/components/FilterComparisonBlock.tsx:19 | `??` yields the first present value, and nothing only when none is present |
| Comparison.GroupIdOf | src/components/FilterComparisonBlock.tsx:18-21 | the group id is the first present of groupId, group_id, group.id, attributes.groupId, or null when none is |
| Comparison.SelectedDeviceSet | src/components/FilterComparisonBlock.tsx:114-130 | an explicit device selection is the set; else a group selection keeps the devices of selected groups; else every device |
| Comparison.SelectionPrecedence | src/components/FilterComparisonBlock.tsx:114-130 | a group selection only narrows the fleet, and it is ignored while devices are selected |
| Comparison.DeviceKey | src/components/FilterComparisonBlock.tsx:126-129 | the device key is `id`, else `ID`, else `uuid`; a null `uuid` gives the text `null` and a missing one the text `undefined` |
| Comparison.LitersPer100 | src/components/FilterComparisonBlock.tsx:177 | 0 when km <= 0; otherwise the value times km is 100 × fuel |
| Comparison.AlertPenalty | src/components/FilterComparisonBlock.tsx:198 | the alert penalty is 5 per alert, capped at 30 |
| Comparison.Clamp | src/components/FilterComparisonBlock.tsx:200 | the clamp lands in [0, 100] and keeps a value already there |
| Comparison.Efficiency | src/components/FilterComparisonBlock.tsx:195-200 | the efficiency score lies in [0, 100] |
| Comparison.EfficiencyFacts | src/components/FilterComparisonBlock.tsx:195-200 | more alerts never raise the score; a moving low-consumption vehicle with no alerts scores 100, and at least 70 with any alerts |
| Comparison.AlertsFor | src/components/FilterComparisonBlock.tsx:150-156 | a device absent from the report has 0 alerts; the last row for a device decides its count |
| Comparison.MakeRow | src/components/FilterComparisonBlock.tsx:167-214 | a row carries the device's id, name, L/100 km, distance and alerts, and its efficiency is the score of that consumption and alert count over that distance, in [0, 100]; no distance means 0 L/100 km |
| Comparison.RowEfficiencyFacts | src/components/FilterComparisonBlock.tsx:195-212 | of two rows for the same device and fuel, the one with more alerts never has the higher efficiency; a moving device burning at most 20 L/100 km with no alerts has efficiency 100 |
| MultiSelect.Filtered | src/components/MultiSelect.tsx:35-39 | a blank query keeps every option; otherwise an option is kept exactly when its lower-cased label contains the trimmed, lower-cased query |
| MultiSelect.FilteredIsSublist | src/components/MultiSelect.tsx:35-39 | the search keeps the options' order |
| MultiSelect.BlankQueryIffTrimmedEmpty | src/components/MultiSelect.tsx:36-37 | the lower-cased query is blank exactly when the trimmed query is empty |
| MultiSelect.AllSelectedIsLengthTest | src/components/MultiSelect.tsx:41 | the length test can claim all is selected while an option is unselected, when the selection holds a value that is no longer an option |
| MultiSelect.AllSelectedIffEverySelected | src/components/MultiSelect.tsx:41 | for a valid selection over distinct option values, the length test holds exactly when every option is selected |
| MultiSelect.Toggle | src/components/MultiSelect.tsx:43-46 | a selected value is removed and an unselected one appended; every other value keeps its membership |
| MultiSelect.ToggleTwice | src/components/MultiSelect.tsx:43-46 | toggling twice restores membership |
| MultiSelect.ToggleKeepsValid | src/components/MultiSelect.tsx:43-46 | toggling an option's value keeps the selection duplicate-free and within the options |
| MultiSelect.ToggleAll | src/components/MultiSelect.tsx:48-51 | toggling all clears a full selection and otherwise selects every option value in option order |
| MultiSelect.ToggleAllKeepsValid | src/components/MultiSelect.tsx:48-51 | toggling all yields a valid selection when option values are distinct |
| MultiSelect.Clear | src/components/MultiSelect.tsx:103 | clearing empties the selection |
| ResolvedAlerts.Ids | src/pages/ResolvedAlerts.tsx:157-159 | the ids are non-empty texts, no more than the done rows |
| ResolvedAlerts.IdsAreFilter | src/pages/ResolvedAlerts.tsx:157-159 | the ids are exactly the done rows' id texts with empty ones dropped, order kept |
| ResolvedAlerts.IdsAreDoneRows | src/pages/ResolvedAlerts.tsx:157-159 | every id comes from a done row, in the done list's order |
| ResolvedAlerts.RefreshPlan | src/pages/ResolvedAlerts.tsx:161-165 | the list is cleared, with no state lookup, exactly when there is no id |
| ResolvedAlerts.Refreshed | src/pages/ResolvedAlerts.tsx:157-197 | the page shows one row per id, and none after a clear |
| ResolvedAlerts.OrElse | src/pages/ResolvedAlerts.tsx:184-186 | the fallback for a text field: the field itself when it is a non-empty text, else the default |
| ResolvedAlerts.OrNull | src/pages/ResolvedAlerts.tsx:190-192 | the null fallback: the field is present in the result exactly when it is a non-empty text, and then unchanged |
| ResolvedAlerts.MakeRow | src/pages/ResolvedAlerts.tsx:172-197 | the row keeps its id; the type is the stored type or success; the title is title, else label, else `Alerte`; dashes replace a missing vehicle, driver or location; a missing plan or comment list is empty |
| ResolvedAlerts.MapRows | src/pages/ResolvedAlerts.tsx:172-197 | one row per id, in id order, each built from that id's stored state or the defaults |
| ResolvedAlerts.MissingStateDefaults | src/pages/ResolvedAlerts.tsx:172-197 | an id without stored state gives a success titled `Alerte` with dashes and empty lists |
| ResolvedAlerts.Filtered | src/pages/ResolvedAlerts.tsx:209-222 | a row is kept exactly when it matches the trimmed query and the type filter |
| ResolvedAlerts.FilteredOrderAndIdentity | src/pages/ResolvedAlerts.tsx:209-222 | the filter keeps list order; a blank query with every type keeps the whole list |

## Left out

- HTTP, the Express routes, axios and `pg`: requests, responses and SQL are not modelled. The upstream answer and the cache's producer are abstract outcomes.
- Concurrency and timers: the cache is a sequence of events and the pools follow an arbitrary schedule. Promise objects, `await` and microtask timing are not modelled.
- `normalize("NFKD")`, `Number()` of a string, number formatting, `Date.parse`, date formatting and `crypto.randomUUID` are parameters.
- `localeCompare`: the row's alert and geofence lists are modelled as sets, because the sort order depends on the locale.
- Floating point: numbers are exact reals, so `toFixed`, rounding of sums and the `NaN`/`Infinity` results of arithmetic are not modelled.
- Integer width: none of the counts here wraps, so unbounded integers are used.
- `Math.round` is modelled as floor(x + 0.5) on exact values.
- React state, `localStorage`, `sessionStorage` and rendering are not modelled. The pages' operations are functions from the old list to the new one.
- Comparison.MakeRow: the plate, group name, maintenance status and temperature are constants or device-metadata lookups and are not modelled.
- Comparison.AlertsFor: the report rows arrive as pairs of a finite device id and an already converted alert count; the `Number()` conversions and the skipping of non-finite ids are not modelled.
- The Dashboard's server-summary branch (src/pages/Dashboard.tsx:219-233) is left out, because the vehicle-alerts report never sends a `summary`.
- The legacy state response's `count` and the storage of the merged state are left out.
- VehicleAlerts.DeviceRow: the `alerts` and `geofences` arrays are the sets before their locale sort.
- Common.Lower: `toLowerCase` is modelled on the ASCII and Latin-1 capitals only. Other capitals (Œ, Ÿ, Greek, Cyrillic and the rest of Unicode) are kept as they are, and the changes of length some of them cause in JavaScript (İ becomes two code units) are not modelled. The case-insensitive matches of the Alerts, Dashboard, MultiSelect and ResolvedAlerts pages inherit this.
- Dashboard.ShortName: lengths and the slice count characters, where JavaScript counts UTF-16 code units, so a name with characters outside the Basic Multilingual Plane is measured and cut differently.
- Pool.ServerRunPool: a non-numeric `UPSTREAM_CONCURRENCY` is not modelled (the limit is an integer). A negative limit makes `new Array` throw, which is modelled as a rejection.
- src/lib/api.ts, the pages that display mock data, and the build configuration are not part of this model.

Where the written behaviour and the surrounding documentation differ, the model follows the code:

- Only a 4xx status degrades a best-effort fetch to `[]`. A 5xx or a missing response makes the HTTP client reject (its `validateStatus` accepts 200-499 only), and that failure propagates through `memo` uncached.
- The Alerts page filter lower-cases the query without trimming it, while the resolved-alerts filter trims it.
- An event time before 1970 never updates the tracked state, because the loop starts from time 0.

## Findings

| source | as written | input that shows it | evidently intended | confidence | as-written member | corrected member |
|---|---|---|---|---|---|---|
| src/pages/Dashboard.tsx:297-302 | the `En Service` slice shows the off-line counter and the `Hors Ligne` slice shows the in-service counter | one row with state `en_service`: the pie shows `En Service` 0 and `Hors Ligne` 1 | each slice shows its own bucket's counter | high, not executed | Dashboard.StatusPieSwapped | Dashboard.StatusPieCountsBuckets |
