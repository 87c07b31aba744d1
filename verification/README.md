# Verified model of the deals server

The deals server keeps flight deals in POSIX shared memory, so that several worker processes can
add and search them at the same time. This project models its core in Dafny and proves what that
core promises, over every input or every run.

* **Shared tables** (`PageIndex`, `Tables`, `SharedTable`, `DealTable`, `DealsSystem`,
  `DealsSafety`, `Provenance`, `Witnesses`, `Locks`). `SharedTable` is the table object with its loops over the page index.
  Its methods are proved against the functions of `PageIndex`. `Tables` adds the pages, a
  generation number per page and the list of all reservations ever granted. `DealsSystem` puts two
  such tables (deals and payload bytes) under any number of processes whose steps interleave
  freely. The main results are that a search finds exactly the live part of an append-only log,
  that a deal found still has its payload, and that a half-finished insertion is never seen.
* **Dates** (`Calendar`, `SearchQuery`, `DateGroups`, `DateLimits`). Day numbers, weekdays and
  YYYYMMDD codes against the calendar's own next-day rule; the windows of a search; why the 32-bit
  grouping key loses no date, and exactly when the computed result limit can.
* **Aggregation** (`Aggregation`, `Chains`). The three cheapest-deal searches as one algorithm with a
  key function, the history walk `findCheapestAndLast` exactly as written, and what both come to, said
  of the deals of a group.
* **Searches** (`Searches`, `Offers`, `Sorting`). Scan, filter chain, grouping, pick, sort and cut together,
  and what the answer of a search says about the log, in every reachable state of every run.
* **HTTP** (`Strings`, `Http`, `HttpParts`, `HttpLaws`). The incremental request parser, for the message format
  of section 5 of RFC 2616: how a stream is cut into chunks does not matter, and a printed request
  comes back.
* **Responses** (`Framing`). The self-describing response format, its decoder and their round trip.
* **Top destinations** (`TopDestinations`). The ranking, and the one-minute cache in front of it.

`Base` and `DealTypes` hold shared vocabulary.

## Assumptions

* The clock never goes back, and sums of 32-bit times do not wrap. A process may act on a clock
  reading that is out of date.
* One section under a table lock, one `memcpy` of a record and one raise of `global_expire_at` are
  each one step. Truncating both tables is one step.
* No process is killed while it holds a lock.
* Low memory is not reported while a table is empty. `ReservationKeepsNamesIff` shows that this is
  exactly what the code needs: on an empty table the low-memory branch never writes the page name.
* A copy that comes after its page was recycled does no harm (`Orderly`). In the payload table it
  spoils nothing written since; `CopyKeepsInvariantIff` shows that exactly those copies keep the
  table's invariant. In the deals table neither what it overwrites nor the deal is live, unless the
  slot is reserved for that very deal; `CopyKeepsDealInvIff` shows that this is exact too. Copies
  that come in time always pass (`CopiesInTimePass`).
* The clock reads at least one day, so that `max(...) - DEALS_EXPIRES` does not wrap.
* Clock, low memory, lock timeouts and what other processes do are parameters or free choices of
  the step.

## Where the code does less than one would expect

* **Late copies.** `addRecord` copies after it has released the lock and does not check that the
  page it reserved was not recycled meanwhile. Such a copy can destroy a live deal
  (`LateCopyLosesADeal`) or another deal's payload (`LateCopySpoilsAPayload`). For the moment after the
  copy, `CopyKeepsRefinementIff` says exactly when search and log still agree. `CopyKeepsDealInvIff` and
  `CopyKeepsReadBackIff` say exactly which copies keep the invariant from which all later agreement
  follows, and `HarmfulCopyShows` that a copy which breaks it, on a slot its owner has yet to fill,
  makes search and log disagree. The theorems about whole runs admit the harmless ones.
* **Late stamps.** A deal is stamped after its payload was reserved. If the clock moves on in
  between, the payload page may go before the deal does, and the deal reads another deal's bytes: by
  eviction (`LateStampReadsForeignBytes`), or when the page has expired and is used again
  (`LateStampOutlivesItsPage`). `LosingThePayloadHidesTheDealIff`: whichever step takes the page, it
  hides the deal exactly if the page was to expire no earlier than the deal. So a later record on the
  same page makes up for a late stamp.
* **Truncation between the two halves of an insertion.** A process that has its payload, but no index
  slot yet, indexes its deal after the truncation; the deal is in view and its bytes can be gone
  (`TruncationLosesAPayload`). `TruncationOrphansIff` says which processes go on, and
  `ReservationLastsIff` and `FoundDealKeepsReservationIff` which deals lose their reservation. The
  payload theorem is stated deal by deal (`Whole`), for every run.
* **Copies overtaken by a truncation.** If a search is under way for so long that such a copy has
  become harmless, it may still see the deal (`OvertakenCopyReachesASearch`); `QuietUnlessTruncated`
  shows that without a truncation this cannot happen.
* **The picked deal can be outdated.** The comment at src/deals_types.cpp:79 says the result is the
  newest available. `PickCanBeOutdated` refutes that; `PickIsOutdatedIff` says exactly for which
  histories made by the fold it happens.
* **Cheaper deals can be missed.** The fold keeps one current deal. If a newer, dearer deal for the same
  itinerary takes its place, cheaper deals passed over before are not looked at again. So the example
  at src/deals_types.cpp:45-49, where 15 is to be selected, comes out as 16
  (`CheaperNewestCanBeMissed`), and even a cheaper deal for the answer's own itinerary from the same
  second can be missed (`CheaperTwinCanBeMissed`). `HistoryIsTheChain` says for all groups what the
  history is; `CheapestOfNewestIff` and `CheapestTwinIff` say exactly when the two properties hold, and
  `WithoutRisesTheCheapest` and `CheapestTwin` where they always do.
* **Bad POST requests.** For a request whose line is malformed but reads as a POST with its whole
  body present, the completion flag depends on how the stream was cut
  (`CompletionIsChunkingFreeIff`, `BadPostDiffers`). A request line with an empty URI is one
  (`EmptyUriIsBadPost`).
* **Unlimited answers of the wrong length.** A top-destinations request without a limit may be
  answered by the shorter list that a request with a small limit left in the cache
  (`UnlimitedAnswerCanBeShort`), or by a longer one. `UnlimitedAnswerIsFreshIff` is the exact condition.
* **Dropped dates.** The result limit computed for a search by date can be too small. `Fits` is a
  number to compare with it that the request alone gives, and `LimitSufficesIff` shows that it is
  exact. Grouping by departure or by both dates, and by return between two given bounds, the limit
  always fits (`ClosedReturnFits`), as by an exact date between a first departure and a last return
  (`BoundedExactFits`). It can drop dates with a one-day departure when only a last return
  is given, which needs room for every day up to it and for the one-way deals (`LastReturnFitsIff`),
  or none (`OpenReturnNeverFits`); and with an exact date when an outer bound is open, when one-way
  deals form a group of their own (`ExactOneWayDropsAGroup`), or when first departure and last return
  lie more than 65535 days apart, so that the 16-bit limit wraps (`ExactWideRangeDropsAll`).
* **The decoder looks at 100 bytes** for the first semicolon, so the round trip holds exactly while
  the header length has fewer than 100 digits (`DecodeOfEncode`).
* **Page 0 is never unlinked** by maintenance, however long it has been expired
  (`MaintenanceIsCautious`).
* DOCUMENTATION.md gives the top-destinations cache a life of 24 hours; the code gives it 60
  seconds. Error texts speak of 365 days and of 10 days; the code accepts 367 and 11. The model
  follows the code.

## Main results

* Tables and runs: `EverySearchRefinesTheLog`, `EveryLoggedDealWasGiven`, `EveryFoundDealHasItsPayload`,
  `FoundDealKeepsReservationIff`, `UnfinishedCopiesStayInvisible`, `TicketsTileThePage`,
  `MaintenanceIsCautious`, `CopyKeepsDealInvIff`, `CopyKeepsInvariantIff`,
  `LosingThePayloadHidesTheDealIff`, `MutualExclusion`.
* Searches: `SearchSeesTheMatchingLog`, `AnswersComeFromTheLog`, `AnswersAreCheapestOfTheLog`,
  `DateSearchAnswersEveryDate`, `HistoryIsTheChain`, `CheapestTwinIff`, `CheapestOfNewestIff`,
  `PickIsOutdatedIff`, `DistinctPickIsCheapest`, `InOrderPickIsNewest`.
* Dates: `NextDayIsNextNumber`, `CodeOrderIsDayOrder`, `WeekdayFollowsDayNumber`,
  `CombinationGroupsAreDatePairs`, `LimitSufficesIff`, `LimitCoversEveryDate`.
* HTTP and responses: `ChunkingDoesNotMatter`, `CompletionIsChunkingFreeIff`, `RequestRoundTrip`,
  `DecodeOfEncode`.
* Top destinations: `TruncationKeepsTheTop`, `CountersAddUp`, `CachedAnswersAreRecent`,
  `UnlimitedAnswerIsFreshIff`.

The other rows below are the program's own loops and methods, and the steps that lead to these.

## Model

| member | source | states |
|---|---|---|
| PageIndex.FirstUnused | src/shared_memory.tpp:81-88 | the position where scan, cleanup and maintenance stop: everything before it is used, it is not |
| PageIndex.Pick | src/shared_memory.tpp:180-208 | the entry where the search for room stops, and that no earlier entry would have done |
| PageIndex.Oldest | src/shared_memory.tpp:183-186 | the first used entry with the minimal expiry, 0 if nothing is used |
| PageIndex.LastRecent | src/shared_memory.tpp:338-351 | no entry behind it is recent, and it is itself recent unless it is the default 0 |
| PageIndex.AliveUpToIs | src/shared_memory.tpp:92-94 | the entries collected for a scan are exactly the alive ones below the bound, each once, in order |
| PageIndex.ScanVisitsEveryAliveEntry | src/shared_memory.tpp:81-101 | the entries visited are exactly those of the whole index that expire after clock and watermark; the early break skips none |
| PageIndex.CleanupLeavesNothingUsed | src/shared_memory.tpp:130-143 | after cleanup no entry is used, although it stops at the first unused one; what was used is blank, with all slots free and no name |
| PageIndex.MaintenanceIsCautious | src/shared_memory.tpp:338-377 | at most five entries go, all at the tail, never page 0, each 60 s past expiry by clock or watermark; nothing releasable is left at the tail unless five went |
| PageIndex.ReservationKeepsNamesIff | src/shared_memory.tpp:210-225 | used entries keep naming their own page exactly if memory is not reported low on an empty index |
| PageIndex.ReservationKeepsPrefix | src/shared_memory.tpp:180-234 | used entries stay a prefix, and an evicted page has the minimal expiry of all used pages |
| PageIndex.NoSpaceIff | src/shared_memory.tpp:180-230 | there is no space exactly if every page is in use, not expired, and has too few free slots |
| PageIndex.ReservationAt | src/shared_memory.tpp:187-234 | the first page that is unused, expired or has room decides: continued behind what it holds, started over, or named and started; nothing else changes and the watermark stays |
| PageIndex.EvictionAt | src/shared_memory.tpp:210-234 | with low memory the page that expires first starts over instead, and the watermark rises to the expiry it had |
| SharedTable.Context.Raise | src/shared_memory.tpp:399-403 | the watermark becomes the maximum of old and new |
| SharedTable.SharedTable.FindRoom | src/shared_memory.tpp:173-208 | the loop finds the specified entry and, at an unused one, the oldest page before it |
| SharedTable.SharedTable.CollectAlive | src/shared_memory.tpp:81-101 | the loop collects the specified scan list |
| SharedTable.SharedTable.FindReleasable | src/shared_memory.tpp:338-358 | the loop finds the end of the used prefix and the last recent entry in it |
| SharedTable.SharedTable.ClearDown | src/shared_memory.tpp:360-376 | the loop clears exactly the entries above the last recent one, at most five, and unlinks them from the top down |
| SharedTable.SharedTable.ReleaseTail | src/shared_memory.tpp:330-378 | the locked part of maintenance computes `Maintain`, unlinks exactly the pages no longer used, keeps the index well-formed and page 0 in use |
| SharedTable.SharedTable.ClearAll | src/shared_memory.tpp:130-143 | the loop clears and unlinks the used prefix, no more |
| SharedTable.SharedTable.Fill | src/shared_memory.tpp:219-234 | the chosen entry is emptied unless current, loses the reserved slots, and its expiry only grows |
| SharedTable.SharedTable.Choose | src/shared_memory.tpp:177-215 | which entry is used and in which of the four ways |
| SharedTable.SharedTable.ReserveLocked | src/shared_memory.tpp:180-234 | the locked part of an insertion is `Reserve`, raises the watermark on eviction, and keeps the index well-formed |
| SharedTable.SharedTable.CheckShared | src/shared_memory.tpp:330-378 | maintenance runs when the shared timer is due and sets it |
| SharedTable.SharedTable.ReleaseExpired | src/shared_memory.tpp:317-380 | the new value of the process's and of the shared timer, what `Maintain` does when both are due and nothing otherwise, the pages unlinked, and the lock given back on every path |
| SharedTable.MaintainTwice | src/shared_memory.tpp:320-335 | once maintenance has been done, a pass by any process that starts before the interval is over touches nothing |
| SharedTable.SharedTable.AddRecord | src/shared_memory.tpp:169-236 | the grant or the error; no space exactly if every page is in use, not expired and too full; a page in use with room is continued; index untouched on every error, lock as free afterwards as before on every path |
| SharedTable.SharedTable.PagesToRead | src/shared_memory.tpp:74-103 | the locked part of a scan |
| SharedTable.SharedTable.Cleanup | src/shared_memory.tpp:122-145 | cleanup leaves nothing used and gives the lock back; on a lock timeout nothing changes |
| SharedTable.CopyRecords | src/shared_memory.tpp:243-244 | the reserved range holds the data, the rest of the page is as before |
| SharedTable.ReadPage | src/shared_memory.tpp:109-114 | the elements of a page that pass the record cutoff, in order |
| SharedTable.ReadAll | src/shared_memory.tpp:105-115 | the elements of all collected pages, in order |
| SharedTable.Search | src/deals_query.cpp:10-14 | cutoff first, pages collected under the lock, elements read after it: the result is the specified scan |
| SharedTable.GrantIsWellFormed | src/shared_memory.tpp:197-234 | a reservation keeps the index well-formed and its subtraction never underflows |
| SharedTable.MaintainedIsWellFormed | src/shared_memory.tpp:338-377 | maintenance keeps the index well-formed |
| Tables.GrantFacts | src/shared_memory.tpp:219-234 | what a grant does to its page: start at the old end or at 0, new size, expiry at least that of the new record, all other entries untouched |
| Tables.ReserveKeepsInvariant | src/shared_memory.tpp:180-234 | every reservation keeps the table invariant (shape, tickets inside pages, order, tiling, stored data) |
| Tables.CopyKeepsInvariantIff | src/shared_memory.tpp:241-246 | a copy keeps the table invariant exactly if it spoils nothing written in the present generation of its page, as every copy in time does |
| Tables.CopyKeepsReadBackIff | src/shared_memory.tpp:236-246 | after a copy, late or not, another reservation reads back what it wrote exactly if the two agree wherever they overlap |
| Tables.ReserveKeepsLasts | src/shared_memory.tpp:190-234 | reservations lose their slots to others only when their record has expired by the clock or the watermark |
| Tables.CleanupEndsAll | src/shared_memory.tpp:130-143 | a cleanup takes every reservation away |
| Tables.UnlinkKeepsInvariant | src/shared_memory.tpp:130-143 | unlinking the tail of the used prefix, by maintenance or cleanup, keeps the table invariant |
| Tables.TicketsTileThePage | src/shared_memory.tpp:224-234 | allocator conservation: the slots handed out in a generation are exactly the first `max - available`, each belongs to exactly one reservation, and `available` never exceeds `max` |
| Tables.ReserveRetiresOnlyExpired | src/shared_memory.tpp:190-215 | a reservation takes another's slots only when that record has expired by the clock or by the watermark it raises |
| Tables.MaintenanceRetiresOnlyExpired | src/shared_memory.tpp:345-376 | maintenance takes slots only 60 s after the record expired |
| DealTable.SlotBounded | src/deals_query.cpp:8-11 | page expiry bounds record expiry: a live record lies in a used page that expires no earlier |
| DealTable.LaterKeeps | src/deals_query.cpp:10-11 | a later clock or higher watermark only takes deals out of view |
| DealTable.ReserveKeeps | src/shared_memory.tpp:180-234 | a reservation keeps the agreement of pages and log, although the slot it shows still holds old content |
| DealTable.CopyKeeps | src/shared_memory.tpp:241-246 | a copy in time appends its deal to the log |
| DealTable.CopyKeepsDealInvIff | src/shared_memory.tpp:236-246 | a copy, late or not, keeps the invariant between pages and log exactly if the slot holds nothing live and the deal is not live either, unless the slot was reserved for that very deal |
| DealTable.HarmfulCopyShows | src/shared_memory.tpp:236-246 | a copy that breaks the invariant, on a slot its owner has yet to fill, makes search and log disagree at once or when the owner's copy is made |
| DealTable.UnwrittenSlotIsDead | src/shared_memory.tpp:503-507 | a reserved slot not yet filled holds zeros or an outdated deal |
| DealTable.MaintainKeeps | src/shared_memory.tpp:338-377 | maintenance keeps the agreement |
| DealTable.CleanupKeeps | src/shared_memory.tpp:122-148 | cleanup leaves the empty log |
| DealTable.ScanIsEverythingShown | src/shared_memory.tpp:81-115 | the visited pages show each element as often as all alive pages together |
| DealTable.ScanRefinesLog | src/deals_query.cpp:10-36 | page skip, early break and record cutoff together give exactly the live part of the log, as a multiset |
| DealTable.CopyKeepsRefinementIff | src/shared_memory.tpp:236-246 | the moment after a copy, late or not, search and log agree exactly if the visible slot it hits is not live, or, out of sight, the deal itself is not |
| DealsSystem.InitialKeeps | src/deals_database.cpp:13-20 | an empty database satisfies the invariant |
| DealsSystem.StepKeepsInv | src/deals_database.cpp:45-76 | every step of every process, in any interleaving and with harmless late copies, keeps the invariant of both tables, the log, the processes and the reservations |
| DealsSystem.CopiesInTimePass | src/shared_memory.tpp:236-246 | a copy made before its page is recycled always meets what runs require of copies |
| DealsSystem.RunKeepsInv | src/deals_database.cpp:25-76 | so the invariant holds in every state of every run |
| DealsSystem.EverySearchRefinesTheLog | src/deals_query.cpp:10-36 | in every reachable state a search finds exactly the deals added since the last truncation with timestamp + one day beyond clock and watermark, each as often as added |
| DealsSystem.FoundAsOftenAsAdded | src/deals_query.cpp:10-36 | the same for one deal in numbers: found as often as added while its timestamp plus 86400 lies ahead of clock and watermark, never after |
| Provenance.EveryLoggedDealWasGiven | src/deals_database.cpp:33-75 | in every run each deal of the log was given to `addDeal`, field by field and with its bytes, carries what the clock read when it was stamped, and was put behind the deals that precede it |
| Provenance.EachInsertionOnce | src/deals_database.cpp:33-75 | no insertion puts two entries into the log |
| Provenance.EveryFoundDealWasGiven | src/deals_database.cpp:50-75 | what a search finds is, field by field, what somebody gave |
| DealsSafety.ReservationLastsIff | src/shared_memory.tpp:190-234 | while a deal stamped with the time of a payload reservation could be in view, the reservation is in force exactly if no truncation came after it |
| DealsSafety.StepKeepsPlaces | src/deals_database.cpp:62-64 | every step keeps, for every deal logged or in hand, that it carries the place its bytes were copied to |
| DealsSafety.EveryFoundDealHasItsPayload | src/deals_database.cpp:85-88 | in every reachable state a deal that a search finds was added, and reads back exactly its own bytes if it was stamped no later than some reservation on its payload's page, its own or a later one, and no truncation came after that |
| DealsSafety.FoundDealKeepsReservationIff | src/deals_database.cpp:45-76 | a deal that searches find, stamped no later than a reservation on its payload's page, still owns its payload exactly if no truncation came after that reservation |
| DealsSafety.TruncationOrphansIff | src/deals_database.cpp:25-28 | a truncation takes every payload reservation; the next step of the process is in order exactly if it holds no index slot for a deal still live |
| DealsSafety.FillDealsWithData | src/deals_database.cpp:81-104 | one payload per found deal, in order |
| DealsSafety.LosingThePayloadHidesTheDealIff | src/shared_memory.tpp:190-234 | whichever step takes a deal's payload, recycling an expired page, eviction or maintenance, it hides the deal exactly if the page was to expire no earlier than the deal |
| DealsSafety.CoveredByThePage | src/shared_memory.tpp:264-278 | so it does for every deal stamped no later than some reservation on the page |
| DealsSafety.StepKeepsBacked | src/shared_memory.tpp:232-246 | within a page generation no step leaves a slot with content that a search started earlier would take for live, unless it was copied there in that generation |
| DealsSafety.RunMovesOn | src/shared_memory.tpp:219-234 | page generations only move on, reservations are never forgotten, and later ones belong to later generations |
| DealsSafety.UnfinishedCopiesStayInvisible | src/deals_query.cpp:34-36 | whatever passes a cutoff fixed earlier, on a page not recycled since, was completely copied there in the present generation, if no late copy put a deal there that was live when the cutoff was fixed |
| DealsSafety.QuietUnlessTruncated | src/shared_memory.tpp:190-246 | there is no such late copy unless a truncation came after its slot was reserved |
| Witnesses.TruncationLosesAPayload | src/deals_database.cpp:25-76 | a run from the empty database in which a truncation cuts an insertion in two: the deal is found and its byte reads as zero |
| Witnesses.LateStampReadsForeignBytes | src/deals_database.cpp:46-52 | a run in which a deal stamped one second late is found and, its payload page evicted, reads another deal's byte |
| Witnesses.LateStampOutlivesItsPage | src/shared_memory.tpp:190-193 | the same two seconds late, its payload page used again after it expired |
| Witnesses.LateCopySpoilsAPayload | src/shared_memory.tpp:236-246 | a run of two processes after which a late copy overwrites the payload of a whole deal in view |
| Witnesses.LateCopyLosesADeal | src/shared_memory.tpp:236-246 | a run of two processes after which a late copy takes a live deal of the log out of all searches |
| Witnesses.OvertakenCopyReachesASearch | src/shared_memory.tpp:236-246 | a run in which a copy overtaken by a truncation passes the cutoff of a search that began a day earlier |
| Locks.CriticalSection.Enter | src/locks.cpp:96-99 | takes the semaphore and remembers to post, or changes nothing on a timeout |
| Locks.CriticalSection.Exit | src/locks.cpp:104-109 | posts once if needed and forgets |
| Locks.StepKeepsToken | src/locks.cpp:30-35 | semaphore value plus objects that must still post is kept at 1 by every step, destruction included |
| Locks.RunKeepsToken | src/locks.cpp:61-109 | hence by every run |
| Locks.MutualExclusion | src/locks.cpp:96-123 | at most one object holds the section, and nobody enters while one does |
| Locks.NoDoublePost | src/locks.cpp:104-123 | an explicit exit followed by the guard or the destructor posts once |
| Calendar.NextDayIsNextNumber | src/utils.cpp:156-162 | the next calendar day has the next day number, across months, leap days and centuries |
| Calendar.DayOne | src/utils.cpp:156-162 | day one is 0001-01-01, a Monday |
| Calendar.AddDaysCounts | src/utils.cpp:156-162 | n days later is n numbers later |
| Calendar.YearDay | src/utils.cpp:156-162 | a day number is that of new year's day plus the days of the year passed |
| Calendar.CodeOrderIsDayOrder | src/types.cpp:198-227 | comparing YYYYMMDD codes is comparing days, and equal codes or numbers mean equal dates |
| Calendar.CodeRoundTrip | src/types.cpp:158-161 | taking a code apart gives the date it was made from |
| Calendar.DaysAfterCounts | src/types.cpp:189-192 | `days_after` is the number of calendar days from one date to the other |
| Calendar.WeekdayFollowsDayNumber | src/utils.cpp:63-76 | the weekday is (day number - 1) mod 7, Monday being 0 |
| SearchQuery.SearchQuery.DepartureDates | src/search_query.cpp:60-88 | the window set, and failure exactly on bounds in the wrong order |
| SearchQuery.SearchQuery.ReturnDates | src/search_query.cpp:91-119 | the same for return dates |
| SearchQuery.SearchQuery.ResultLimit | src/search_query.cpp:211-220 | accepts 1 to 367 and otherwise changes nothing |
| SearchQuery.ClosedWindowDays | src/search_query.cpp:67-83 | the valid dates between two bounds are exactly the `duration` days from the first on |
| SearchQuery.ShortWindowSpread | src/deals_cheapest_by_date.cpp:54-59 | eleven days span fewer than 2^14 codes, even over the end of a year |
| DateGroups.KeyIsInjective | src/deals_cheapest_by_date.cpp:75-77 | the 32-bit key tells apart any two pairs of codes from windows of fewer than 2^14 codes |
| DateGroups.CombinationGroupsAreDatePairs | src/deals_cheapest_by_date.cpp:47-77 | with the limits that the checks enforce, two matching deals share a group exactly if they agree on both dates |
| DateGroups.KeyBits | src/deals_cheapest_by_date.cpp:75-77 | the key bit by bit |
| DateGroups.ReadyIff | src/deals_cheapest_by_date.cpp:35-61 | which requests are let through: an interval, none over 367 days, two of at most 11 for all combinations |
| DateGroups.ReadyMeans | src/deals_cheapest_by_date.cpp:5-33 | what each is grouped by, and its limit |
| DateLimits.MaxDurationIs | src/search_query.cpp:131-149 | the days from first departure to last return, or the longer of the two windows |
| DateLimits.LimitSufficesIff | src/deals_cheapest_by_date.cpp:5-84 | for a request by dates: however many dated deals match, they fall into no more groups than the computed limit, exactly if the number of possible groups, given by the request, is within it |
| DateLimits.LimitCoversEveryDate | src/deals_cheapest_by_date.cpp:5-84 | in every way of grouping by date there are never more groups than a limit that fits, whatever else is asked for |
| DateLimits.ReturnFitsIff | src/deals_cheapest_by_date.cpp:20-26 | the exact bound on return-date groups: the days a return can be on, and one group of one-way deals |
| DateLimits.ExactFitsIff | src/deals_cheapest_by_date.cpp:64-73 | the exact bound on groups by an exact date: departures that return on it, returns that depart on it, and the one-way deals |
| DateLimits.ClosedReturnFits | src/deals_cheapest_by_date.cpp:20-26 | grouping by return between two given bounds, the limit always fits |
| DateLimits.BoundedExactFits | src/search_query.cpp:131-138 | grouping by an exact date, without one-way deals, between a first departure and a last return at most 65535 days apart, the limit always fits |
| DateLimits.LastReturnFitsIff | src/deals_cheapest_by_date.cpp:20-26 | with a one-day departure and only a last return, the request's limit fits exactly if it leaves room for every day up to it and for the one-way deals |
| DateLimits.OpenReturnNeverFits | src/deals_cheapest_by_date.cpp:20-26 | with a one-day departure and no last return, no limit that a request can ask for fits |
| DateLimits.ExactOneWayDropsAGroup | src/search_query.cpp:135-138 | departure, last return and exact date on one day: the limit is 1 and there can be two groups |
| DateLimits.ExactWideRangeDropsAll | src/deals_cheapest_by_date.cpp:8-13 | a first departure 65535 days before the last return makes the limit 0 and drops the only group |
| DateGroups.ComparatorIsRank | src/deals_cheapest_by_date.cpp:117-143 | each comparator, that for an exact date included, orders matching deals by a rank |
| Aggregation.FindCheapestAndLast | src/deals_types.cpp:53-81 | the loop terminates and returns the last entry if nothing before supersedes it, else the last one that no entry from 1 to two places before it supersedes |
| Aggregation.PicksLastUnlessSuperseded | src/deals_types.cpp:53-81 | what that means for the entries before the result |
| Aggregation.PickCanBeOutdated | src/deals_types.cpp:79-80 | a history of three deals, made by the fold, whose result is outdated |
| Aggregation.FoldHistory | src/deals_cheapest.cpp:13-34 | what every history made by the fold satisfies |
| DealTypes.SameItineraryIff | src/deals_types.cpp:40-43 | the five fields that make an itinerary |
| Aggregation.OnlyFirstCanSupersede | src/deals_types.cpp:53-81 | in such histories no entry but the first can be a newer deal for the itinerary of the result |
| Aggregation.PickIsOutdatedIff | src/deals_types.cpp:79-80 | for histories made by the fold, the result is outdated exactly if the first entry supersedes an entry that no other earlier one supersedes, and all entries behind that are superseded by one other than the first |
| Aggregation.InOrderPickIsNewest | src/deals_cheapest.cpp:13-45 | if deals arrive in time order no processed deal of the same itinerary is newer than the result |
| Aggregation.DistinctPickIsCheapest | src/deals_cheapest_by_country.cpp:17-47 | if no two deals share an itinerary the result is the cheapest, the last among ties |
| Chains.HistoryIsTheChain | src/deals_cheapest.cpp:13-34 | for positive prices, in any order of arrival: the history is the first deal, then each time the first that takes the place of the one before, newer of the same itinerary, no dearer of the same second, or no dearer of another itinerary |
| Chains.ChainIsUnique | src/deals_cheapest.cpp:13-34 | there is only one such chain |
| Chains.InOrderPickEndsTheChain | src/deals_cheapest.cpp:13-45 | in time order the answer is its end |
| Chains.CheaperNeedsARise | src/deals_cheapest.cpp:27-33 | a deal cheaper than the answer came before a newer, dearer deal for the itinerary then current |
| Chains.WithoutRisesTheCheapest | src/deals_cheapest.cpp:13-45 | if no itinerary gets dearer with time the answer is the cheapest of the group, the last among ties |
| Chains.CheapestTwinIff | src/deals_cheapest_by_country.cpp:31-35 | when the answer is the cheapest deal of its own itinerary and second |
| Chains.CheapestTwin | src/deals_cheapest_by_country.cpp:31-35 | it is, if different itineraries never share a second |
| Chains.CheaperTwinCanBeMissed | src/deals_cheapest_by_date.cpp:92-107 | four deals in time order whose answer is not |
| Chains.CheapestOfNewestIff | src/deals_types.cpp:45-52 | when the answer is the cheapest among the newest deals of each itinerary |
| Chains.CheaperNewestCanBeMissed | src/deals_types.cpp:45-52 | the example of the source, whose answer is not |
| Aggregation.UpdateKeepsGroups | src/deals_cheapest_by_date.cpp:87-108 | processing one deal updates its own group as the fold says and no other |
| Aggregation.Aggregator.ProcessDeal | src/deals_cheapest.cpp:13-34 | the maps hold, for every group, the fold over the deals of that group seen so far |
| Aggregation.Aggregator.PickFor | src/deals_cheapest.cpp:38-40 | the deal picked from a group belongs to the group and was processed |
| Aggregation.Aggregator.PostSearch | src/deals_cheapest_by_date.cpp:111-114 | exactly one deal for each group that has one, and no group twice |
| SearchQuery.Accepts | src/deals_query.cpp:32-103 | the chain of early returns lets exactly the deals through that satisfy every filter that is set |
| Offers.StoredOfferComesBack | src/deals_database.cpp:50-73 | what a caller gave can be read off the stored deal: places, dates, kind of flight and price |
| Offers.MasksMeetIff | src/deals_query.cpp:94-100 | a deal passes a weekday filter exactly if its mask and the wanted mask have a day in common |
| Offers.WeekdayFilterIff | src/types.cpp:240-242 | for a deal stored with its dates, exactly if the weekday of the date is wanted |
| Offers.StayFilterIff | src/deals_database.cpp:66-73 | a stay filter below 255 asks for the number of days from departure to return |
| Offers.AcceptedWasAskedFor | src/deals_query.cpp:34-100 | what is accepted lies within every range and set that was asked for |
| Offers.WithinWhatWasAsked | src/deals_query.cpp:34-100 | what stays within all of these is accepted, whatever else differs |
| Offers.NothingAsked | src/deals_query.cpp:34-103 | with nothing asked every live deal is accepted |
| Sorting.Sort | src/deals_cheapest.cpp:43-44 | sorted by rank, nothing lost or added |
| Searches.ProcessAll | src/deals_query.cpp:13-14 | exactly the matching deals reach the aggregator, in scan order |
| Searches.PickPerGroup | src/deals_query.cpp:13-18 | one deal for each group of matching deals |
| Searches.SortAndCut | src/deals_query.cpp:16-25 | sorted by rank, cut to the limit; a group left out ranks no better than any kept one |
| Searches.Execute | src/deals_query.cpp:5-26 | the same for a search as a whole |
| Searches.SearchSeesTheMatchingLog | src/deals_query.cpp:10-36 | in every reachable state a search works on exactly the matching deals of the log, as a multiset |
| Searches.AnswersComeFromTheLog | src/deals_query.cpp:10-18 | in every reachable state an uncut answer has exactly one deal for each group with a matching live deal in the log, itself such a deal |
| Searches.AnswersWereAskedFor | src/deals_query.cpp:32-103 | in every reachable state every answer is a deal of the log, less than a day old by clock and watermark, from the origin and to the destinations, countries and dates asked for |
| Searches.AnswersAreCheapestOfTheLog | src/deals_cheapest.cpp:13-45 | in every reachable state, with distinct itineraries and positive prices, the answer for a group is a cheapest of the matching live deals of the log |
| Searches.AnswersHaveTheirPayload | src/deals_database.cpp:81-88 | in every reachable state each answered deal that is whole reads back the bytes it was added with |
| Searches.DateSearchAnswersEveryDate | src/deals_query.cpp:20-23 | in every reachable state a search by date whose limit fits answers exactly the dates for which the log has a matching live deal: the cut drops none |
| Searches.CountrySearchAnswersEveryCountry | src/deals_cheapest_by_country.cpp:5-14 | in every reachable state a search by given countries answers exactly those with a matching live deal in the log |
| Strings.FindsFirst | src/utils.cpp:14-16 | what a search for a delimiter finds: the first occurrence, or none |
| Strings.SplitString | src/utils.cpp:10-27 | the loop computes the pieces between delimiters |
| Strings.ConcatString | src/utils.cpp:32-39 | the loop glues the chunks together |
| Strings.JoinOfSplit | src/utils.cpp:10-27 | joining the pieces gives the text back, up to one delimiter at its end |
| Strings.PiecesAreClean | src/utils.cpp:10-27 | no piece contains the delimiter |
| Strings.SplitOfJoin | src/utils.cpp:10-27 | splitting joined pieces gives the pieces back |
| Http.ParseHeaderLine | src/http.cpp:38-54 | name in lower case and value behind colon and one space; lines without colon give nothing |
| Http.ParseHeaders | src/http.cpp:26-57 | the headers of all lines but the first, in order |
| Http.ParseParams | src/http.cpp:76-92 | the query parameters, in order |
| HttpParts.LookupIs | src/types.cpp:8-15 | the value of the first object of that name |
| HttpParts.LookupIsNone | src/types.cpp:8-15 | nothing if there is none |
| HttpParts.LowerIs | src/utils.cpp:44-48 | each capital letter becomes its small form and nothing else changes |
| HttpParts.HeaderLine | src/http.cpp:38-54 | name and value around the first colon, with or without one space |
| HttpParts.Parameter | src/http.cpp:83-89 | name and value around the first equals sign, or a name alone |
| HttpParts.RequestLineIff | src/http.cpp:110-120 | which request lines are good, and what a bad one leaves |
| HttpParts.StolIs | src/http.cpp:183-188 | how a length is read: space skipped, sign taken, digits as far as they go, refused beyond 64 bits |
| HttpParts.OddLengths | src/http.cpp:183-188 | a negative length wraps, an empty one counts as 0 |
| Http.HttpParser.Write | src/http.cpp:163-208 | the state after one chunk |
| Http.HttpParser.TryHead | src/http.cpp:168-199 | the part that looks for the head, and whether to go on |
| Http.HttpParser.ReadHead | src/http.cpp:176-195 | headers, header end, body length, request and verdict are those of the stream's head |
| Http.HttpParser.ParseRequest | src/http.cpp:100-121 | request line, path and parameters, and whether they are well-formed |
| HttpLaws.HeadStays | src/http.cpp:163-208 | nothing that follows changes a head once found |
| HttpLaws.FeedAgrees | src/http.cpp:163-208 | after any chunks the parser knows exactly what the stream so far says |
| HttpLaws.ChunkingDoesNotMatter | src/http.cpp:163-208 | two ways to cut a stream give the same headers, request, header end, body length and verdict, and the same completion unless the request is bad |
| HttpLaws.CompletionIsChunkingFreeIff | src/http.cpp:190-207 | completion is independent of the chunks exactly if the stream is not a bad POST with its body present |
| HttpLaws.BadPostDiffers | src/http.cpp:190-207 | for such a stream an additional empty chunk changes the flag |
| HttpLaws.EmptyUriIsBadPost | src/http.cpp:63-66 | every POST request line with an empty URI makes such a stream |
| HttpLaws.CompletionIsFinal | src/http.cpp:197-207 | completion, verdict, headers and request are never withdrawn |
| HttpLaws.HeadersAndBodyAreTheStream | src/http.cpp:213-222 | header text and body together are the stream, and the header text ends with the blank line |
| HttpLaws.HeadOfPrint | src/http.cpp:15-121 | the head found in a printed request is that request |
| HttpLaws.RequestRoundTrip | src/http.cpp:163-208 | a well-formed request, printed with as much of its body as has come and fed in any chunks, comes back; a GET is complete, a POST exactly if as many bytes have come as its first content-length header announces or there is none, and nothing else |
| HttpLaws.LeadingBlankLineIsIgnored | src/http.cpp:176-178 | a stream that starts with a blank line is never parsed |
| Framing.WriteTopResult | src/deals_server.cpp:263-295 | the loops build the specified response; no blocks give the empty answer |
| Framing.ReservedDigitsAreExact | src/deals_server.cpp:282-290 | one correction of the digit count always suffices |
| Framing.HeaderStatesItsOwnLength | src/deals_server.cpp:282-290 | the leading number is the length of the header that contains it |
| Framing.ReadInfoLength | test/decode.js:16-27 | the first loop reads the number before the first semicolon in the first 100 bytes |
| Framing.ReadBlocks | test/decode.js:38-48 | the second loop cuts one block per size |
| Framing.ParseServerResponse | test/decode.js:6-51 | the decoder as a whole |
| Framing.DecodeOfEncode | test/decode.js:16-48 | decoding a response gives exactly its blocks, whatever they contain, exactly while the leading number has fewer than 100 digits |
| Framing.NumberIs | test/decode.js:18-27 | what the conversion of a piece of text reads |
| Framing.SliceIs | test/decode.js:29-44 | what a slice of the response is |
| Framing.DecodeRefuses | test/decode.js:16-27 | which responses are refused |
| TopDestinations.CountersAddUp | src/top_destinations.cpp:120-130 | the counters of a complete ranking add up to the number of matching records |
| TopDestinations.TruncationKeepsTheTop | src/top_destinations.cpp:132-137 | kept entries carry their true counts, and no omitted destination has a larger count than a kept one |
| TopDestinations.CountsRecordsOfTheLocale | src/top_destinations.cpp:147-160 | a destination counts as often as records of the asked locale and dates name it |
| TopDestinations.TopDstSearchQuery.ProcessElement | src/top_destinations.cpp:147-160 | each counter is the multiplicity of its destination among the matching records |
| TopDestinations.TopDstSearchQuery.ListDestinations | src/top_destinations.cpp:128-130 | one entry per counter, none missing, none twice |
| TopDestinations.TopDstSearchQuery.Exec | src/top_destinations.cpp:120-140 | the result is the cut of a complete ranking of what the scan showed |
| TopDestinations.TopDstDatabase.GetCachedResult | src/top_destinations.cpp:31-64 | hit or miss, and an expired entry is dropped |
| TopDestinations.TopDstDatabase.SaveResultToCache | src/top_destinations.cpp:69-89 | empty and dated results are not saved, others live 60 seconds |
| TopDestinations.TopDstDatabase.GetLocaleTop | src/top_destinations.cpp:94-115 | cached answer, refusal or fresh ranking, and the cache afterwards |
| TopDestinations.StepKeepsInv | src/top_destinations.cpp:31-115 | everything in the cache is the cut of a ranking that was saved for that locale |
| TopDestinations.CachedAnswersAreRecent | src/cache.hpp:22-32 | in every run a cached answer for limit k is the first k entries of a complete ranking for the locale saved at most 60 s earlier; without a limit it is that ranking cut to the saver's limit |
| TopDestinations.StoredResultIsCached | src/top_destinations.cpp:69-89 | a result computed for a request without dates is in the cache for the next 60 seconds |
| TopDestinations.HitIff | src/top_destinations.cpp:31-64 | when the cache answers: undated requests, up to 60 seconds after saving, for at most as many entries as were saved |
| TopDestinations.WrongLimitsAreRefused | src/search_query.cpp:211-220 | whatever is cached, a limit outside 1 to 367 is refused |
| TopDestinations.UnlimitedAnswerIsFreshIff | src/top_destinations.cpp:50-64 | in every run, a cached answer to a request without a limit is what a fresh search would have answered at the time of saving exactly if the saver's limit was 20 too or neither limit cuts the ranking |
| TopDestinations.UnlimitedAnswerCanBeShort | src/top_destinations.cpp:50-64 | a run in which such an answer has one entry although two destinations are wanted |

## Left out

- Shared memory itself (`shm_open`, `mmap`, `ftruncate`, `statvfs`): a page is a sequence that is zeroed when it is created, and low memory is a free choice.
- Stale local mappings after an unlink (`opened_pages_list`) and torn copies: they need a model of operating-system memory.
- `DealsDatabase::addDeal` as one method: its parts are the steps of `DealsSystem` so that other processes can run between them; `Offers.InfoOf` is the deal it is given, the weekday of a missing return being left open.
- Pages as shared arrays in `SharedTable.Search` and `Tables`: pages are values there, so aliasing between local mappings is not captured; `CopyRecords` works on an array.
- SharedTable.SharedTable.AddRecord: starts at the size check; the maintenance call before it is `ReleaseExpired`, and the report of memory use is left out. Like `ReserveLocked`, `GrantIsWellFormed`, `Tables.GrantFacts`, `Tables.ReserveKeepsInvariant`, `Tables.ReserveRetiresOnlyExpired` and `DealTable.ReserveKeeps` it requires that memory is not reported low on an empty table, where `PageIndex.ReservationKeepsNamesIff` shows the index to break; and that the expiry fits 32 bits.
- DealTable.CopyKeeps: for copies in time; `DealTable.CopyKeepsDealInvIff` covers all copies.
- DealsSystem.StepKeepsInv: late copies that do harm are excluded by `Orderly`; what they do is shown in `Witnesses`. The same holds for all theorems about runs.
- DealsSafety.UnfinishedCopiesStayInvisible: not for slots that a late copy fills with a deal live when the search began; `Witnesses.OvertakenCopyReachesASearch` shows one.
- DealsSystem.EverySearchRefinesTheLog: a search is one step that reads clock, cutoff and pages at once; `DealsSafety.UnfinishedCopiesStayInvisible` covers a cutoff fixed in an earlier state.
- Chains.CheapestTwinIff: stated for the end of the chain, which is the answer when deals come in time order.
- Searches.Execute: takes the limit that `pre_search` leaves; the checks of the searches by destination and by country are `Searches.DestinationPreSearch` and `Searches.CountryPreSearch`.
- DateGroups.ComparatorIsRank: for deals whose dates are in order; the server refuses others, and the comparator for an exact date would not be an order on them.
- DateLimits.LimitSufficesIff: for deals that carry calendar dates with 16-bit years, in order. That the limit does not fit is shown for requests by dates alone; other filters can leave fewer groups.
- DealTable.HarmfulCopyShows: not for a slot already filled by a deal that is no longer live; there the copied deal stays in view until the page goes.
- Calendar.DaysAfterCounts: for valid dates whose year fits 16 bits; text forms of dates, and the text form of `days_between_dates`, are left out.
- Http.HttpParser.Write: bytes are characters, and lower-casing is that of ASCII.
- HttpLaws.RequestRoundTrip: a printed header value follows one space; values and tokens must not contain the delimiters that the parser splits at.
- Framing.ParseServerResponse: numbers are unbounded naturals made of digits; JavaScript's `Number` on other text (signs, fractions, spaces) reads as a format error.
- TopDestinations.TopDstSearchQuery.Exec: what the scan shows is a parameter, and `std::sort` is any sort by descending counter.
- `src/tcp_server.*`, signal handling, request routing, statsd, timers, `reset_not_for_production`, unit tests and `spike/`: plumbing and tooling.
- `src/deals_stats.cpp`, `src/deals_unique_routes.cpp`, the `COUNTRIES` table and the packing of IATA codes: easy folds and finite facts.
