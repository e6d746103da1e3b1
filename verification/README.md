# Household ledger: a verified model of its algorithms and protocols

A Dafny model of the parts of the household ledger whose correctness is not visible from any one
function: the engine that turns a recurring rule into due dates, the Open Food Facts client that many
request threads share, the receipt image pipeline, four state machines that run across requests
(offline expense queue, one-time codes, rolling sessions, auto-pay), and the parser of Greek amounts.

`dafny verify dfyconfig.toml` checks the whole project.

## How it is laid out

| files | what they hold |
|---|---|
| `civil_calendar`, `month_arithmetic`, `orthodox_easter`, `business_days` | days as ordinals, clamped month addition, the Orthodox Easter computus, Greek business days |
| `schedule_rules`, `iso_week`, `decimal_text`, `period_keys`, `entry_window`, `schedule_entries`, `schedule_theorems`, `schedule_meaning`, `generation`, `preview` | the rule engine, its generator and loop, period keys, what its dates are in calendar terms, the making of entries, the preview endpoint |
| `ordered_dict`, `lookup_client`, `lookup_cache`, `lookup_protocol`, `lookup_breaker`, `lookup_call`, `slot_clock`, `lookup_runs`, `lookup_load`, `json_nesting` | the Open Food Facts client: class, cache law, interleavings, what the breaker and the failure cache do over a run, one whole call, slots, cache and slots inside every interleaving, runs under full load, nesting scanner |
| `otsu`, `receipt_image` | greyscale, Otsu threshold, binarise, sharpen |
| `offline_queue`, `offline_replay`, `offline_flush` | the browser queue and flush loop; many windows, a lossy network and the server; the loop inside such a run |
| `one_time_codes`, `session_cap`, `auto_pay`, `auto_pay_runs`, `auto_pay_job` | TOTP claims, session cookies, the auto-pay tables, overlapping jobs and one whole job |
| `gr_number`, `options` | amounts on receipts; the shared option type |

Code that updates state is a class or a method with its loops; each method is proved against a function
or predicate, and the theorems are lemmas about those. What those functions mean is stated apart from
them, in calendar terms, fields and numbers (`ScheduleMeaning`, `LookupBreaker`, and the members here
whose names end in `Means` or `Fits`). Protocols are state machines with one step per
critical section, and the theorems quantify over every finite run.

## Where the code does less than its comments say

Each of these is a theorem with the exact condition, in both directions.

- **Easter dates without an entry.** An item never gets two entries for one period, because
  `generate_occurrences` skips a period that has a row (`OneRowPerPeriod`). For `easter_offset` that skip
  also drops dates: from any start in 1900 or later, every date of a rule gets its entry exactly for
  offsets of -93 days or more; below, two dates share a year and the later one silently gets none
  (`EasterKeysDistinctIff`, `EveryDateGetsItsEntryIff`).
- **Preview horizon.** `_preview_until` is called far enough for the sparsest rule. It is, except for
  120-month rules placed by business days: those show fewer dates than asked for from some starts
  (`PreviewIsFullIff`, `SparsePreviewFallsShort`).
- **Lookup budget.** docs/OPENFOODFACTS.md promises at most about 86 reads a minute, under a limit of
  100, for any number of workers. The peak of slots is `w * ceil(60 / (0.7 w))`, and whole runs of calls
  reach it read for read. It is never below 86, and of the counts 1 to 64 that `configured_workers` allows
  it is within 100 exactly for 1 to 16, 18 to 20, 22 to 25, 29 to 33 and 43 to 50 (`RunsKeepToIff`,
  `BusyMinute`, `DocumentedBudget`).
- **Session cap.** A re-issue reads the sign-in time after the route's own check. A step opens a way to a
  cookie accepted beyond the cap exactly when it is a re-issue whose cookie runs out in between
  (`StepKeepsTruthIff`, `CapBreaksIff`; a run of 117 days is `SwitchAtExpiryOutlivesTheCap`). A cookie
  without `iat` is bounded by `session_max_age_seconds` alone, exactly; it would outlive the cap if the
  cap were set no longer than that (`CapHolds`).
- **One-time codes.** The claim does not look at the secret. A used step is accepted again exactly when the
  secret was replaced between the call's read and its claim and the new one has accepted no step as late
  (`ReusedIff`, `EachStepOnceIff`).
- **Auto-pay.** app/scheduler.py says exactly one runner can ever pay an entry, and app/models.py that an
  undone auto-payment stays undone. The claim does not look at the stamp: each entry is auto-paid at most
  once exactly when no claim meets an entry that is open and stamped (`ClaimPaysTwiceIff`, `PaidOnceIff`),
  which takes an undo or a delete while a run has the entry on its list (`PaidTwiceOnlyIfReopened`).

## Model

| member | source | states |
|---|---|---|
| CivilCalendar.CivilRoundTrip | app/core/schedule.py:120-125 | splitting any ordinal into year, month and day gives a real date that maps back to the ordinal |
| CivilCalendar.CivilUnique | app/core/schedule.py:83-85 | every civil date is split back into its own year, month and day |
| MonthArithmetic.OnDayInMonth | app/core/schedule.py:83-85 | a clamped day always lies in its month, on the smaller of the day and the month's length |
| MonthArithmetic.AddMonthsLands | app/core/schedule.py:118-118 | adding k months lands exactly k months on, clamped, and an unclamped addition is undone by subtracting |
| MonthArithmetic.AddMonthsMonotone | app/api/recurring.py:203-206 | adding the same months keeps the order of dates |
| OrthodoxEaster.EasterInSpring | app/core/calendar_gr.py:25-27 | Easter falls from 1 April to 30 May in every year, not before 4 April from 1900 on, and not after 9 May in 1900 to 2199 |
| OrthodoxEaster.EasterIsSunday | app/core/calendar_gr.py:25-27 | the computus always gives a Sunday, for years 1500 to 4999 |
| OrthodoxEaster.EasterFollowsTheMoon | app/core/calendar_gr.py:25-27 | for years 1500 to 4999 Easter is the first Sunday after the full moon the Julian calendar has in that year of its 19-year cycle |
| BusinessDays.BusinessDayMeans | app/core/calendar_gr.py:16-40 | a day is a business day exactly when it is Monday to Friday, none of the eight fixed dates and not 48 or 2 days before or 1 or 50 days after Easter |
| BusinessDays.SixDaysHaveABusinessDay | app/core/calendar_gr.py:30-40 | any six consecutive days contain a business day, in every year |
| BusinessDays.FindPreviousBusinessDay | app/core/calendar_gr.py:43-47 | the search ends, on the greatest business day at or before the date |
| BusinessDays.FindNextBusinessDay | app/core/calendar_gr.py:50-54 | the search ends, on the least business day at or after the date |
| BusinessDays.Adjusted | app/core/calendar_gr.py:57-63 | the adjustment as run equals its specification, by case |
| BusinessDays.AdjustLaws | app/core/calendar_gr.py:57-63 | adjusting is monotone and idempotent, moves at most five days one way, ends on a business day and leaves one alone |
| BusinessDays.LastBusinessDayInMonth | app/core/schedule.py:127-130 | the last business day of a month lies inside that month |
| ScheduleEntries.FindLastBusinessDay | app/core/calendar_gr.py:66-68 | searching back from the last of the month gives the specified day |
| ScheduleRules.AcceptedExactly | app/core/schedule.py:57-80 | a rule is accepted as a schedule exactly when its kind, its adjustment and the fields the kind uses name that schedule, in the ranges 1 to 120 months, 1 to 31, 1 to 12, -120 to 120 days, 0 to 6 and 1 to 52 weeks; months and adjustment must make sense even where unused |
| ScheduleRules.Advances | app/core/schedule.py:104-148 | for every rule kind and position, the next due date is at least a week after this one, adjustments included |
| ScheduleRules.Ascending | app/core/schedule.py:171-173 | so due dates strictly ascend and the repeated-date skip can never fire |
| ScheduleRules.CumulativeClosedForm | app/core/schedule.py:111-118 | the k-th monthly-interval date lies k intervals of months after the start, on the shortest day met so far |
| ScheduleRules.ShortestIsLeast | app/core/schedule.py:112-114 | that day is the minimum of the start's day and the lengths of all months visited |
| ScheduleEntries.CandidateStream.constructor | app/core/schedule.py:104-148 | the generator stands at the first date of its rule |
| ScheduleEntries.CandidateStream.Next | app/core/schedule.py:104-148 | each resumption yields the nominal and due date of its position, for all six kinds; what these are is `RunsThroughWhatFits` |
| ScheduleEntries.IterEntries | app/core/schedule.py:151-182 | the loop ends for every rule, start, end, total and horizon, with the rule's error or exactly the specified window of dates and keys; what these are is `EntriesAreWhatFits` |
| EntryWindow.WindowUnique | app/core/schedule.py:171-182 | stream and limits determine the window |
| EntryWindow.WindowIsExact | app/core/schedule.py:171-182 | a window is strictly ascending, inside its limits, and misses an entry only because `total` earlier ones are there |
| ScheduleTheorems.EntriesExact | app/core/schedule.py:159-182 | the entries are exactly the rule's dates from start to the last day with their keys, so the early return loses nothing |
| ScheduleTheorems.LaterHorizonExtends | app/core/schedule.py:161-163 | a later horizon only appends entries |
| ScheduleMeaning.RunsThroughWhatFits | app/core/schedule.py:104-148 | a rule runs through exactly the dates that fit it: the weekday every so many weeks from the start on; the day of the month, or its last, or the last business day, every so many months; the month and day each year; so many days from Easter; or, for monthly_interval, the shortest day met |
| ScheduleMeaning.EntriesAreWhatFits | app/core/schedule.py:151-182 | the entries are exactly those of the dates that fit the rule and, moved to a business day as the rule says, fall due from the start to the end and the horizon, in order, under the keys of the unmoved dates; one is missing only for the total |
| ScheduleMeaning.WeeklyDates | app/core/schedule.py:144-148 | a weekly rule has its first date in the seven days from the start, its own weekday on every date and its number of weeks between two |
| ScheduleMeaning.KeySpells | app/core/schedule.py:88-101 | a key writes the year, the year and month, or the year of the week's Thursday and its number, in decimal digits |
| ScheduleTheorems.EntriesHaveDistinctKeys | app/core/schedule.py:92-94 | no two entries of one generation share a key, for every kind and horizon; Easter rules with an offset of at least -93 and a start in 1900 or later |
| ScheduleTheorems.OldGeneratorDates | tests/test_schedule_rules.py:150-166 | the frozen old loop yields the rule's dates up to its limits and its cap of 600 rows |
| ScheduleTheorems.LegacyRuleUnchanged | tests/test_schedule_rules.py:182-196 | for all starts, intervals and limits the new engine gives the old generator's dates, up to the old cap |
| IsoWeek.IsThursdayRule | app/core/schedule.py:96-98 | the library's week arithmetic is the rule of ISO 8601: a week belongs to the year of its Thursday |
| IsoWeek.LabelsAreInjective | app/core/schedule.py:96-98 | two days carry the same ISO year and week only if they lie in the same week |
| DecimalText.LabelInjective | app/core/schedule.py:98-101 | a printed key determines the numbers it was printed from |
| PeriodKeys.KeyMeansPeriod | app/core/schedule.py:88-101 | two dates have one key exactly when they share the month, year or ISO week their kind counts in |
| PeriodKeys.KeysDistinct | app/core/schedule.py:88-101 | for every kind but easter_offset any two dates of a rule have different keys |
| PeriodKeys.EarlyOffsetsCollide | app/core/schedule.py:99-100 | every offset below -93 gives two consecutive dates one key, from some start |
| PeriodKeys.EasterKeysDistinctIff | app/core/schedule.py:92-100 | the keys of all dates of an Easter rule are pairwise distinct from every start in 1900 or later exactly when its offset is at least -93 |
| Generation.GenerateOccurrences | app/services/bills.py:78-146 | answers with the rule's error, or makes exactly the specified rows for the rule's dates up to the horizon, given the rows there are |
| Generation.RowsAreOfFittingDates | app/services/bills.py:106-145 | every new row is of a date that fits the rule, due from the start to the end and thirteen months from today, under its key, skipped exactly if past and past dates are to be skipped; at most 600 |
| Generation.NoneMissed | app/services/bills.py:114-145 | below the ceiling every wanted date has its period taken, or a row on the day of a date of its period |
| Generation.RowBlocks | app/services/bills.py:161-173 | a row's key blocks that period under rules that count alike and nothing under others; a row without one counts for the month it is due |
| Generation.ItemFollows | app/services/bills.py:64-75 | an item follows exactly the schedule its fields say, with a missing kind, adjustment or number of weeks filled in and months brought into 1 to 120 |
| Generation.OneRowPerPeriod | app/services/bills.py:85-90 | whatever the rule and the rows there are, every new row has a period and a day that no other row has |
| Generation.FreshEntriesAllMade | app/services/bills.py:114-145 | dates with periods and days of their own all get their rows, in order, up to the ceiling |
| Generation.EarlyOffsetLosesADate | app/services/bills.py:123-124 | for every Easter offset below -93 and every day from 2018 on, a start for which a wanted date gets no row |
| Generation.EveryDateGetsItsEntryIff | app/services/bills.py:106-145 | every wanted date of a rule gets its row, from every start in 1900 or later, exactly when the rule is no Easter rule with an offset below -93 |
| Generation.SecondTimeMakesNothing | app/services/bills.py:85-98 | generating again on the same day makes no row, unless the first time stopped at the ceiling |
| Generation.KeyHasItsFormat | app/services/bills.py:149-173 | the keys of a rule have the format of its kind, so a row of the rule always blocks its own period |
| Preview.NextDates | app/api/recurring.py:498-522 | answers with the rule's error, the end-date error, or the first `count` due dates from today or the start up to end and horizon; a missing number of weeks is one |
| Preview.PreviewIsWhatFits | app/api/recurring.py:518-522 | the dates shown are the due dates of the dates that fit the rule, from today or the start to the end and ten years for each date asked for, in order; one is missing only for the count |
| Preview.BodyNames | app/api/recurring.py:503-512 | a request names a schedule exactly when its fields say it, a missing number of weeks or 0 meaning every week |
| Preview.DensePreviewIsFull | app/api/recurring.py:203-208 | with no end date, a dense rule's preview has exactly `count` dates |
| Preview.SparsePreviewFallsShort | app/api/recurring.py:203-206 | every other valid rule has a start and a day from 2028 on from which the one date asked for is missing |
| Preview.PreviewIsFullIff | app/api/recurring.py:203-208 | the preview is always full exactly for the dense rules: all but 120-month rules placed by business days |
| LookupClient.OpenFoodFactsClient.constructor | app/integrations/openfoodfacts.py:264-272 | a new client is in the initial state, all permits free |
| LookupClient.OpenFoodFactsClient.CachedAnswer | app/integrations/openfoodfacts.py:282-287 | a hit returns the stored answer and makes the key most recent; a miss changes nothing |
| LookupClient.OpenFoodFactsClient.Store | app/integrations/openfoodfacts.py:289-293 | the new cache is the specified one and within `max_entries` |
| LookupClient.OpenFoodFactsClient.RememberFailure | app/integrations/openfoodfacts.py:295-301 | expired failures go first, then the oldest, only when over the bound; the result is within it |
| LookupClient.DropOldest | app/integrations/openfoodfacts.py:292-293 | popping from the front leaves exactly the newest n entries |
| LookupClient.DropExpired | app/integrations/openfoodfacts.py:298-299 | exactly the entries that have not run out stay, in order |
| LookupClient.OpenFoodFactsClient.AdmitLookup | app/integrations/openfoodfacts.py:431-441 | the first critical section decides between answer, recent failure, open circuit, admission and probe, each stated in the fields, and touches only recency and the probing flag |
| LookupClient.OpenFoodFactsClient.RecordFailure | app/integrations/openfoodfacts.py:303-315 | the failure is remembered; an outage of a probe, or the third, opens the breaker for 60 seconds, another is counted, and an answered probe closes it; the client stays consistent |
| LookupClient.OpenFoodFactsClient.RecordSuccess | app/integrations/openfoodfacts.py:317-320 | closes the breaker, resets the count and changes nothing else |
| LookupClient.OpenFoodFactsClient.Reserve | app/integrations/openfoodfacts.py:322-331 | a caller is granted the next slot exactly if it is at most two seconds away, waits exactly until then, or is refused with the clock untouched |
| LookupCache.EveryRunHoldsNewest | app/integrations/openfoodfacts.py:282-293 | after any run the cache holds exactly the most recently used keys with the last value stored for each |
| LookupCache.CacheAgreesWithUnboundedMap | app/integrations/openfoodfacts.py:282-293 | a get hits exactly when an unbounded map has a live answer and fewer than `max_entries` other keys were used since, and returns that answer |
| LookupProtocol.StepKeepsInvariant | app/integrations/openfoodfacts.py:424-462 | every step of any call keeps permits, probing flag, failure count and both caches consistent |
| LookupProtocol.EveryRunIsSafe | app/integrations/openfoodfacts.py:424-462 | in every reachable state permits are conserved, the flag is up exactly while one probe is unfinished, the count is below the threshold, caches are bounded, and an idle client is clean |
| LookupProtocol.AdmittedWhileOpenIsTheProbe | app/integrations/openfoodfacts.py:438-441 | a call let in while the breaker is open is the only probe, after the open period |
| LookupProtocol.OpenBreakerBlocks | app/integrations/openfoodfacts.py:303-320 | until a success or an answered probe closes it, an open breaker lets in only probes and none before its time, over any run |
| LookupProtocol.RecoversInAMinute | app/integrations/openfoodfacts.py:431-445 | a minute after the last call every lookup is answered or let in |
| LookupProtocol.ReleaseWithinBound | app/integrations/openfoodfacts.py:461-462 | the bounded semaphore is never released above its bound |
| LookupBreaker.ExchangeIsRecorded | app/integrations/openfoodfacts.py:449-459 | whatever other calls do meanwhile, a call's next step after its exchange records how it ended |
| LookupBreaker.LogTellsBreaker | app/integrations/openfoodfacts.py:303-320 | over every run the count is the outages recorded since the last success, closing or opening, and the breaker is open exactly from an opening to the next closing, for 60 seconds from the last opening |
| LookupBreaker.OpenKeepsOut | app/integrations/openfoodfacts.py:438-441 | after any run, until something closes an open breaker, no lookup that misses the cache is let in for 60 seconds from its opening, and then only probes are |
| LookupBreaker.OutageKeepsOut | app/integrations/openfoodfacts.py:307-312 | after the third outage since the last success, closing or opening, or any outage of a probe, no lookup that misses the cache is let in for 60 seconds until a success or an answered probe |
| LookupBreaker.ThreeOutagesKeepOut | app/integrations/openfoodfacts.py:307-312 | of any three outages with no success and no answered probe among them one opens the breaker, and it keeps lookups out for 60 seconds |
| LookupBreaker.FailureKeepsKeyOut | app/integrations/openfoodfacts.py:295-301 | over any run a barcode whose failure is recorded is not let in for 60 seconds, unless a failure is recorded while `max_entries` others are being refused |
| LookupBreaker.OldestFailuresDropped | app/integrations/openfoodfacts.py:297-301 | at the bound exactly the oldest of the failures that still count are dropped |
| LookupCall.UnderPermit | app/integrations/openfoodfacts.py:443-462 | the permit comes back on every path, and the reply is a refusal or the outcome's |
| LookupCall.ByBarcode | app/integrations/openfoodfacts.py:424-467 | a whole call is a run of the protocol from where the client stands, gives back permit and probe on every path, and replies by its first obstacle |
| SlotClock.RefusalChangesNothing | app/integrations/openfoodfacts.py:326-329 | without the refused caller all others get the same slots |
| SlotClock.GrantedSpaced | app/integrations/openfoodfacts.py:322-331 | any two slots granted in any run are at least the interval apart |
| SlotClock.WindowBound | app/integrations/openfoodfacts.py:251-254 | a half-open window of length L holds at most ceil(L / interval) slots |
| SlotClock.WindowBoundAttained | app/integrations/openfoodfacts.py:251-254 | some run of callers fills the window to that bound |
| SlotClock.WorkersPeak | app/integrations/openfoodfacts.py:249-254 | w workers have at most w * ceil(60 / 0.7w) slots in a minute together, and can have that many |
| SlotClock.KeepsToIff | app/integrations/openfoodfacts.py:249-254 | w slot clocks keep to a limit in every minute, whatever is asked of them, exactly when that peak is within it |
| LookupRuns.RunIsCacheOps | app/integrations/openfoodfacts.py:424-459 | over every interleaving the cache is the result of the gets and puts of the calls in the order of their steps |
| LookupRuns.EveryRunAgreesWithUnboundedMap | app/integrations/openfoodfacts.py:282-293 | in every reachable state the exact hit condition against the unbounded map holds over all calls together |
| LookupRuns.SlotsAreGranted | app/integrations/openfoodfacts.py:322-331 | over every interleaving the calls sent on to the exchange have the slots the slot clock grants to the asks in order |
| LookupRuns.EveryRunSpacesSlots | app/integrations/openfoodfacts.py:251-254 | over every interleaving slots are at least the interval apart and a window of length L holds at most ceil(L / interval) |
| LookupLoad.OneCall | app/integrations/openfoodfacts.py:424-467 | on a resting client a whole call has its slot and its exchange at once and leaves the client resting |
| LookupLoad.BusyRun | app/integrations/openfoodfacts.py:251-254 | a run of whole calls, one after the other, whose slots and exchanges fill a window of any length to the bound |
| LookupLoad.BusyMinute | app/integrations/openfoodfacts.py:249-254 | w processes whose exchanges in one minute reach w * ceil(60 / 0.7w) |
| LookupLoad.RunsKeepToIff | app/integrations/openfoodfacts.py:249-254 | over every run of calls in w processes a limit of slots a minute is kept exactly when that peak is within it |
| LookupLoad.DocumentedBudget | docs/OPENFOODFACTS.md:24-24 | for every number of processes and over every run: 100 slots a minute are kept exactly by the counts listed, 86 only by 1, 2, 43 and 86, and 85 by none |
| JsonNesting.TooDeep | app/integrations/openfoodfacts.py:204-224 | the early-exit scan answers whether the depth ever exceeds 32 outside strings |
| JsonNesting.TooDeepIffNesting | app/integrations/openfoodfacts.py:204-205 | on every JSON text, any strings, escapes and white space, the scan says yes exactly when the value nests more than 32 arrays and objects |
| Otsu.Histogram | static/receipt-scanner.js:306-307 | every bin holds the number of pixels of its level |
| Otsu.Threshold | static/receipt-scanner.js:308-321 | the one-pass loop returns the least threshold of greatest between-class variance over all splits, or 128 when no level splits the pixels |
| Otsu.VarianceSplits | static/receipt-scanner.js:317-319 | at every split within-class and between-class variance add up to the same total |
| Otsu.OtsuMinimisesWithin | static/receipt-scanner.js:305-321 | the threshold is the least one that minimises the squared distance of the pixels from their class means over all splits |
| Otsu.SplitsIffTwoLevels | static/receipt-scanner.js:313-315 | a splitting threshold exists exactly when the image has two grey levels |
| Otsu.OneLevelKeepsDefault | static/receipt-scanner.js:310-310 | an image of one grey level, or without pixels, keeps the threshold 128 |
| ReceiptImage.Greyscale | static/receipt-scanner.js:298-303 | each level is the whole number nearest to 29.9 % red, 58.7 % green and 11.4 % blue, the upper one half-way; a neutral pixel keeps its value; the image is unchanged |
| ReceiptImage.LevelLaws | static/receipt-scanner.js:302-302 | a neutral pixel has its own level, more of any channel never darkens, and pure red, green and blue are 76, 150 and 29 |
| ReceiptImage.Binarise | static/receipt-scanner.js:323-328 | every pixel becomes opaque, white above the threshold and black otherwise |
| ReceiptImage.Neighbourhood | static/receipt-scanner.js:338-348 | sums exactly the levels of the 3x3 box that lie in the image and counts them, one to nine bytes, at borders and corners too |
| ReceiptImage.BoxIsNine | static/receipt-scanner.js:338-348 | that box is the pixel and its eight neighbours, of which those in the image count |
| ReceiptImage.SharpenPixel | static/receipt-scanner.js:337-355 | the sharpened pixel of a black and white image is that pixel, opaque, at borders and corners too |
| ReceiptImage.Sharpen | static/receipt-scanner.js:330-357 | the sharpening pass leaves a black and white image as it is |
| ReceiptImage.PreprocessCanvas | static/receipt-scanner.js:294-358 | for any size every pixel ends opaque, white above and black up to the Otsu threshold of the original's grey levels |
| OfflineQueue.OfflineStore.Save | static/offline.js:27-47 | the record goes in under a new key with its own client id if it has one and otherwise a fresh one, and nothing else changes |
| OfflineQueue.OfflineStore.AllPending | static/offline.js:63-73 | every queued id once, in key order |
| OfflineQueue.OfflineStore.DeletePending | static/offline.js:75-84 | removes that record and no other |
| OfflineQueue.OfflineStore.Flush | static/offline.js:106-149 | keeps exactly the records whose exchange failed; sent counts the 2xx answers not redirected or ending on a bucket page or the transactions, rejected the 4xx other than 403; an unreadable queue is left alone |
| OfflineQueue.FlushCountsEveryRecord | static/offline.js:114-148 | sent, rejected and kept records add up to the queue |
| OfflineReplay.RefusalsAreNotSuccess | static/offline.js:86-100 | no redirect to a page other than the create's own, CSRF refusal, validation error or deleted replay is taken for success; a failed form token, another page and a server error keep the record, another 4xx turns it down |
| OfflineReplay.OtherPagesAreForeign | app/auth.py:533-602 | the sign-in, two-factor and dashboard pages a request can be sent to are none of the create's own |
| OfflineReplay.OwnPageIsSuccess | static/offline.js:94-100 | whatever the bucket, the answer to a stored expense is taken for success exactly when its own page is shown with a 2xx |
| OfflineReplay.AnswerToStored | app/services/transactions.py:245-258 | storing a request leaves the expense stored in its household and is judged sent exactly when its own page is then shown, or turned down if it is there deleted |
| OfflineReplay.AnswerToRecognised | app/routes/transactions.py:264-272 | a repeated request is answered the same way at its look-up, and goes on to be stored only if the household has no such row |
| OfflineReplay.StepAnswersHonestly | app/services/transactions.py:250-258 | an answer the flush takes for success is given only once the expense is stored |
| OfflineReplay.QueueChanges | static/offline.js:132-140 | a step takes a record off the queue only if it is stored or was turned down |
| OfflineReplay.StepKeepsRows | app/models.py:377-378 | no step gives a household two rows with one client id |
| OfflineReplay.StepKeepsInvariant | static/offline.js:106-149 | every step of windows, network and server keeps all of this together |
| OfflineReplay.NoExpenseIsLost | static/offline.js:94-149 | over every run each saved expense is queued, stored, or was answered with a 4xx other than 403 |
| OfflineReplay.StoredAsSaved | app/services/transactions.py:245-258 | every stored row is one saved expense, in its bucket and its bucket's household |
| OfflineReplay.StoredAtMostOnce | app/models.py:377-378 | over every run, whichever households are active meanwhile, the server stores at most one transaction for each client id |
| OfflineFlush.StepSettles | static/offline.js:131-145 | every step leaves a window's list and the queue, or settles the first record of the list as its exchange says |
| OfflineFlush.SoloFlushIsTheLoop | static/offline.js:106-149 | in any run a window that flushes to the end with nothing saved or removed elsewhere meets each record once and leaves what the flush loop leaves |
| OfflineFlush.StoredLeavesTheQueue | static/offline.js:132-134 | in any run, a window that flushes to the end alone and can delete records takes every record off the queue for which it receives the page of a stored expense |
| OfflineFlush.GoodFlushEmptiesTheQueue | static/offline.js:106-149 | a flush to the end in which nothing is refused, lost or deleted and every redirect ends on the expense's page leaves the queue empty |
| OneTimeCodes.Candidate | app/auth.py:147-154 | the earliest step of the window that the code fits and that is no replay, or none |
| OneTimeCodes.User.Claim | app/auth.py:155-164 | the conditional update succeeds exactly for a newer step and then stores it |
| OneTimeCodes.User.VerifyTotp | app/auth.py:131-174 | accepts exactly a code of a newer step when the present second is in that step's thirty or in the thirty before or after; stores the earliest such step, and otherwise changes nothing |
| OneTimeCodes.ReplayNeedsANewStep | app/auth.py:153-154 | a code sent again is accepted only as the code of a later step |
| OneTimeCodes.AcceptedStepsIncrease | app/auth.py:147-174 | over every interleaving accepted steps are within one of the caller's and strictly increase under the user's own secret |
| OneTimeCodes.ReusedIff | app/auth.py:155-168 | in every reachable state a claim of a used step is accepted exactly when its secret was replaced since the read and the new one has accepted no step as late |
| OneTimeCodes.EachStepOnceIff | app/auth.py:155-168 | over every run each step of each secret is accepted at most once exactly when no claim of a used step meets that condition |
| OneTimeCodes.EachStepOnce | app/auth.py:155-168 | so a step is accepted again only by a call whose secret was replaced between read and claim |
| OneTimeCodes.WithoutResetStepsIncrease | app/auth.py:147-174 | in a run without a reset all accepted steps strictly increase |
| OneTimeCodes.RaceHasOneWinner | app/auth.py:155-168 | of two overlapping calls with one code the first to claim wins and the other is refused |
| OneTimeCodes.ResetBetweenReadAndClaim | app/auth.py:157-162 | a run in which a reset between read and claim lets a used step through, for any codes |
| SessionCap.Response.SetSession | app/auth.py:207-245 | the new cookie is a full session with the sign-in time given, or the present one; pending and pre-session cookies go, device mark and form token are set for the user |
| SessionCap.Response.RollSession | app/auth.py:360-395 | re-signs the unchanged payload exactly for a cookie request with no session cookie set or cleared by the route, a live full session of the same user, more than a day old and within the cap; the result is accepted; otherwise leaves the response alone |
| SessionCap.StepKeepsTruthIff | app/auth.py:191-204 | a step keeps every cookie's sign-in time true exactly when a re-issue still finds its cookie accepted |
| SessionCap.EveryCookieHasASignIn | app/auth.py:207-232 | over every run each cookie is of a user who really signed in, at the time its cap is counted from |
| SessionCap.KeepRolling | app/auth.py:360-395 | for any settings with cookies living longer than a day, rolling a full session daily keeps a cookie accepted up to any second within the cap of its sign-in |
| SessionCap.CapHolds | app/auth.py:312-323 | over every run of sign-ins, rolls and re-issues that read in time, an accepted cookie descends from a sign-in at most the cap ago; acceptance is exactly the signature's age and, with `iat`, the cap counted from the sign-in's second |
| SessionCap.LateReissueOutlivesTheCap | app/auth.py:191-204 | from any truthful state and for any settings with cookies living longer than the refresh period, a late re-issue can be followed to a cookie accepted beyond the cap |
| SessionCap.CapBreaksIff | app/auth.py:191-232 | after any run that read in time, a step opens a way past the cap exactly when it is a late re-issue |
| SessionCap.SwitchAtExpiryOutlivesTheCap | app/routes/auth.py:385-391 | a run with the default settings that leaves a cookie accepted 117 days after its sign-in |
| AutoPay.Ledger.Snapshot | app/scheduler.py:140-189 | lists each entry today's query selects exactly once, with its own amount if it has one and otherwise the bill's, and the bill's payer |
| AutoPay.Ledger.ClaimOccurrence | app/services/bills.py:332-359 | turns an unpaid, unlinked entry into a paid one with time and payer, or changes nothing |
| AutoPay.Ledger.SettleOccurrence | app/services/bills.py:544-552 | a won claim adds one transaction if the bill has a bucket and none otherwise; a lost one writes nothing |
| AutoPay.Ledger.PayItem | app/scheduler.py:198-214 | claim, payment and stamp happen together or not at all |
| AutoPayJob.AutoPayDueBills | app/scheduler.py:123-234 | one job is a run of the interleaved system; it pays and stamps exactly the unpaid, unlinked, never auto-paid entries up to three days due of active outgoing auto-pay bills, each with a bucket by a new transaction of the entry's amount if it has one and otherwise the bill's; counts them, and touches nothing else |
| AutoPayRuns.PaidOnlyInWindow | app/scheduler.py:42-44 | over every run of jobs and user steps a payment is 0 to 3 days after the due date its job saw, and the stamps are exactly the entries paid |
| AutoPayRuns.EveryListIsRight | app/scheduler.py:140-189 | over every run each job is given exactly the entries to be paid on its day, each once, with its own amount if it has one and otherwise the bill's |
| AutoPayRuns.PaidAsListed | app/scheduler.py:164-214 | over every run each transaction an auto-payment made has the amount its entry, or else its bill, had when some job listed it |
| AutoPayRuns.ClaimPaysTwiceIff | app/scheduler.py:194-214 | in every reachable state with no entry paid twice, the next claim keeps it so exactly when its entry is not both open and stamped |
| AutoPayRuns.PaidOnceIff | app/scheduler.py:16-18 | over every run of jobs, workers and user steps each entry is auto-paid at most once exactly when no claim meets an open, stamped entry |
| AutoPayRuns.PaidTwiceOnlyIfReopened | app/models.py:644-647 | so an entry is paid a second time only if it was reopened while a job had it on its list |
| AutoPayRuns.RaceHasOneWinner | app/services/bills.py:332-359 | of two workers about to claim one entry the first pays it and the second writes nothing |
| AutoPayRuns.UndoDuringJobPaysTwice | app/models.py:644-646 | for every bill and entry the query selects, on any day, a run in which an undo between two workers' claims lets it be paid twice |
| GrNumber.FindsNumber | app/routes/scan.py:201-204 | inside any digit-free text the parser isolates exactly the number |
| GrNumber.AmountRoundTrip | app/routes/scan.py:197-213 | every amount in cents printed with any thousands and decimal sign, inside any digit-free text, is read back |
| GrNumber.WholeRoundTrip | app/routes/scan.py:206-209 | every whole amount with thousands groups is read back |
| GrNumber.TailDecides | app/routes/scan.py:205-209 | one digit after the last separator is tenths, two are hundredths, three or more belong to the whole number |
| GrNumber.TenthsRoundTrip | app/routes/scan.py:197-213 | every amount in tenths, such as 14,5, is read back |
| GrNumber.PlainRoundTrip | app/routes/scan.py:197-213 | every amount in cents without thousands signs is read back |
| GrNumber.NoDigitsNoNumber | app/routes/scan.py:201-203 | a text without digits is no number |

## Left out

- Dates before year 1 and after year 9999: days are unbounded ordinals, so Python's overflow errors and the `date.max` fallback of `_preview_until` are not modelled. The computus of dateutil is defined for years 1 to 4999; later years hold its Gregorian shift at 35 days so that the function stays total.
- EasterIsSunday: claimed for 1500 to 4999, because before that the century correction of the computus is not the Gregorian one.
- EasterKeysDistinctIff: starts in 1900 or later, because before that Easter can fall before 4 April.
- Strip: trimming of white space around barcodes and one-time codes; the model starts from the trimmed text.
- TooDeepIffNesting: bodies of one-byte characters or UTF-8; in the UTF-16 and UTF-32 bodies that `json.loads` accepts too, a character can contain the bytes of a bracket or a quote and mislead the scan.
- Digits outside ASCII, which the receipt parser's `\d` also matches.
- Binary floating point: luminance, variances, amounts, monotonic clock and slot times are reals.
- The wait between a slot and its exchange: the model counts slots, and a request may start later than its slot.
- One clock reading per critical section of the lookup client, where `_cached` and the breaker check read the clock one after the other.
- The thread that can outlive a fetch deadline, HTTP, TLS, response size limits and the mapping of products: a fetch is an arbitrary outcome.
- Upscaling and drawing of the photo (`drawImage`), OCR and camera code.
- Saved expenses get client ids no other saved expense has: the model takes `crypto.randomUUID` as fresh, and the wizard form sends none of its own.
- Records of any other kind than expense in the offline queue: the wizard's form is the only one that queues, and its kind is fixed; income has a form of its own that never does.
- The fields of a queued expense other than client id, kind and bucket are one opaque text; what makes the server answer 4xx to them is left open, so a 404 after a household switch and a 429 are both possible refusals.
- Receipts, splits, fuel and cash takes of a created transaction, and every other service: settlement, stock, statements, match suggestions.
- Rows of an item from before a change of its kind of rule, beyond the format test that decides what they block.
- Signing, encryption and hashing: cookies and codes are values, a code is an arbitrary function of secret and step.
- Re-encryption of an old TOTP secret after a successful check.
- Session version, membership and two-factor checks of `require_auth`: any of them only makes a cookie less acceptable.
- Rounding of amounts to cents: amounts are integers.
- Notifications, the choice of a bill's payer (a field of the bill here) and the errors of an own-share bill without shares inside the auto-pay job; a job may stop at any point.
- Retention, purge and deletion of bills and entries while a job runs.
- Pages, templates, migrations, OIDC, CSP, service-worker caching: input and output.
