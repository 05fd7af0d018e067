# PadelBud matchmaking and slot provisioning, modelled in Dafny

PadelBud's backend is a set of Cloud Functions over a Firestore store. This
project models the core of `padel_bud/functions/src/index.ts`:

- **The search-request trigger** (`onSearchRequestCreated`). A player posts a
  search request with a location and a time. The trigger ranks the clubs by
  distance from the player and keeps the three nearest. It writes them on the
  request and marks the request available. It then walks those clubs in
  rank order. In each club it looks for the first court with an available
  slot that starts within two hours of the requested time, bounds included.
  It also looks for at least three other available requests for that club in
  the same window, excluding the player's own request and any request from
  the same user. If both are found, it takes the three partners nearest the
  player and creates one match of four, with the player first, in a single
  batch. It stops after the first match.
- **Slot provisioning** (`generateTimeSlotsForCourt`, and the daily sweep
  `generateDailyTimeSlots` that runs it for every court). This expands the
  weekly schedule of a court's club into back-to-back slots of one game's
  length over a range of days. Each slot gets an id derived from its court
  and start time, and is inserted only when no slot has that id yet.

The store is a record of collections (`Docs.Coll`): a map from document id to
document, plus the order in which the store lists them. Queries are filters
over that listing, and a point read is a map lookup. A batch that updates a
missing document fails as a whole.

Three things the functions take from outside become parameters:

- the distance library (`geolib.getDistance`) is a function argument
  `dist`;
- the server time is the integer `now`;
- the generated match id is `matchId`.

The host calendar is turned into a sequence of `Provisioning.Day` values
(local midnight and weekday).

Modules:

| file | module | what it holds |
|---|---|---|
| maybe.dfy | Maybe | `Option`, first present value of a sequence |
| seqs.dfy | Seqs | `Distinct` |
| docs.dfy | Docs | collections, writes, batch updates, filtered queries, first match |
| geo.dfy | Geo | point conversion, distance with the `MAX_SAFE_INTEGER` sentinel |
| ranking.dfy | Ranking | stable sort by key, the `n` closest |
| decimal.dfy | Decimal | decimal rendering and reading of naturals |
| clock.dfy | Clock | weekday names, `"HH:mm"` parsing, slot offsets within a day |
| entities.dfy | Entities | documents, constants, game duration, slot ids |
| provisioning.dfy | Provisioning | slot generation for one court and for all courts |
| search.dfy | Search | nearest clubs, courts of a club, matching slot, pending requests |
| allocation.dfy | Allocation | the match-creating batch |
| matchmaking.dfy | Matchmaking | the search-request trigger |

## Model

| member | source | states |
|---|---|---|
| Docs.Put | padel_bud/functions/src/index.ts:95-101 | a set writes the document under its id and changes nothing else; a new id is listed after the existing ones; a well-formed listing stays well formed |
| Docs.UpdateAll | padel_bud/functions/src/index.ts:103-119 | a batch of updates changes exactly the listed existing documents, keeps every other document and the listing, and adds no document |
| Docs.Select | padel_bud/functions/src/index.ts:39-47 | a filtered query returns exactly the listed documents that pass the filter, never more than the collection holds, without repeats when the listing has none |
| Docs.SelectKeepsOrder | padel_bud/functions/src/index.ts:39-47 | a filtered query returns its documents in enumeration order: of any two results, the earlier is listed first |
| Docs.First | padel_bud/functions/src/index.ts:76-87 | the first listed document passing the test; absent exactly when none passes; every document listed before it fails the test |
| Docs.AllIds | padel_bud/functions/src/index.ts:141 | an unfiltered read lists exactly the stored, listed documents |
| Docs.AllIdsIsListing | padel_bud/functions/src/index.ts:141 | on a well-formed collection an unfiltered read returns the whole listing, in order |
| Geo.ConvertGeoPoint | padel_bud/functions/src/index.ts:11-17 | null for a missing point or when both latitude spellings or both longitude spellings are missing; `latitude`/`longitude` win over `lat`/`lng`, and `lat`/`lng` stand in when the long spelling is missing |
| Geo.ShapesRoundTrip | padel_bud/functions/src/index.ts:13-16 | a point in either field spelling converts back to itself |
| Geo.ConvertIdempotent | padel_bud/functions/src/index.ts:11-17 | converting a converted point gives it back unchanged |
| Geo.LatitudeLongitudePriority | padel_bud/functions/src/index.ts:13-14 | when the long spellings are present the short ones are ignored |
| Geo.CalculateDistance | padel_bud/functions/src/index.ts:60-63 | the sentinel `MAX_SAFE_INTEGER` exactly when a location is missing, the library distance otherwise |
| Ranking.SortByKey | padel_bud/functions/src/index.ts:28 | the sort is a permutation of its input in nondecreasing key order |
| Ranking.SortIsStable | padel_bud/functions/src/index.ts:28 | items with equal keys keep their input order |
| Ranking.Closest | padel_bud/functions/src/index.ts:28-29 | sort-then-slice keeps `min(n, length)` items, sorted, drawn from the input |
| Ranking.ClosestBound | padel_bud/functions/src/index.ts:28-29 | every item left out has a key at least as large as every item kept |
| Ranking.ClosestIsPrefix | padel_bud/functions/src/index.ts:28-29 | the kept items are the head of the full sorted order |
| Ranking.LeftOutIsFarther | padel_bud/functions/src/index.ts:28-29 | an input item whose id was not kept is at least as far as each kept item |
| Ranking.FewAreAllKept | padel_bud/functions/src/index.ts:29 | with no more than `n` items, all of them are kept |
| Ranking.ClosestItemsDistinct | padel_bud/functions/src/index.ts:192-199 | the slice of a ranking of distinct ids repeats no id |
| Decimal.RenderRoundTrip | padel_bud/functions/src/index.ts:299 | the rendered start time is all digits and reads back as the same instant |
| Decimal.RenderInjective | padel_bud/functions/src/index.ts:299 | different instants render differently |
| Clock.WeekdayName | padel_bud/functions/src/index.ts:260-268 | every host weekday maps to one of the seven schedule keys |
| Clock.WeekdayRoundTrip | padel_bud/functions/src/index.ts:260-268 | the weekday mapping is a bijection between `getDay()` values and schedule keys |
| Clock.SundayIsLast | padel_bud/functions/src/index.ts:260-268 | `getDay()` 0 (Sunday) picks `"Sunday"`, and 1 to 6 pick `"Monday"` to `"Saturday"` |
| Clock.ParseClock | padel_bud/functions/src/index.ts:283-287 | an opening time is read only from a string that has a `':'` |
| Clock.ParseClockParts | padel_bud/functions/src/index.ts:283-287 | `"h:m"` followed by nothing or by a further `':'` part is `h*60 + m` when both parts are digits (an empty part reads as 0), and no time otherwise |
| Clock.ParseClockEight | padel_bud/functions/src/index.ts:283-287 | `"08:00"` is minute 480 |
| Clock.ParseClockNoon | padel_bud/functions/src/index.ts:283-287 | `"12:00"` is minute 720 |
| Clock.ParseClockOneDigit | padel_bud/functions/src/index.ts:283-287 | `"8:0"` is minute 480, as `Number` reads single digits |
| Clock.ParseClockEmptyMinutes | padel_bud/functions/src/index.ts:283-287 | `"08:"` is minute 480, as `Number("")` is 0 |
| Clock.ParseClockIgnoresSeconds | padel_bud/functions/src/index.ts:283-287 | `"08:00:30"` is minute 480: the destructuring drops a third part |
| Clock.ParseClockRejectsLetters | padel_bud/functions/src/index.ts:283-287 | `"8h:30"` gives no time, as `Number` gives `NaN` and the loop makes no slot |
| Clock.ClockRoundTrip | padel_bud/functions/src/index.ts:283-287 | every minute of the day written as `"HH:mm"` parses back to that minute |
| Clock.SlotOffsets | padel_bud/functions/src/index.ts:291 | the loop's starts are `open + i*duration`, each slot ends by closing time, and one more slot would not fit |
| Clock.SlotCount | padel_bud/functions/src/index.ts:291 | a day holds `(close - open) / duration` slots, none when it closes before it opens |
| Clock.SlotsAreBackToBack | padel_bud/functions/src/index.ts:291-296 | each slot begins where the previous one ends |
| Clock.MorningExample | padel_bud/functions/src/index.ts:291 | 08:00 to 12:00 with one-hour games gives four slots, the last at 11:00 |
| Entities.GameDuration | padel_bud/functions/src/index.ts:288 | a missing or zero duration means 60 minutes; any other duration is kept; the result is positive |
| Entities.SlotKeyInjective | padel_bud/functions/src/index.ts:298-300 | one slot id names one court and one start instant |
| Provisioning.SetupOf | padel_bud/functions/src/index.ts:227-288 | a court is provisioned exactly when it exists, has a non-empty club id, that club exists and has a schedule; the setup is then that club's stored schedule and the court's game duration |
| Provisioning.DayHours | padel_bud/functions/src/index.ts:270-287 | a day has hours exactly when its weekday has an entry that is not closed, has a non-empty start and end, and both read as times; the hours are then those two times, and every other day is skipped |
| Provisioning.DayHoursOfOpenDay | padel_bud/functions/src/index.ts:270-287 | an open day whose start and end both parse gets exactly those two minutes as its hours |
| Provisioning.DayRun | padel_bud/functions/src/index.ts:290-291 | the inner loop yields no start exactly when the first game would end after closing time, and otherwise its first start is the opening minute after midnight |
| Provisioning.DayStartsAreOffsets | padel_bud/functions/src/index.ts:255-292 | a day without hours gets no starts; otherwise its starts are its midnight plus each slot offset between opening and closing |
| Provisioning.PlannedStartsAreDayStarts | padel_bud/functions/src/index.ts:255-292 | the starts planned over the horizon are exactly the starts of its days |
| Provisioning.MondayMorningExample | padel_bud/functions/src/index.ts:260-292 | a day whose schedule opens Mondays 08:00 to 12:00 with one-hour games gets starts at 08:00, 09:00, 10:00 and 11:00 after its midnight, whatever the other days hold |
| Provisioning.ProvisionCreatesScheduledSlots | padel_bud/functions/src/index.ts:255-316 | after a run, every start of every day of the horizon has its slot in the store |
| Provisioning.MondayMorningSlots | padel_bud/functions/src/index.ts:255-316 | a court whose stored club schedule opens Mondays 08:00 to 12:00, and whose game duration is one hour, has its 08:00 and 11:00 slots after a run over a Monday, whatever the other days hold |
| Provisioning.InsertSlotsKeys | padel_bud/functions/src/index.ts:298-316 | after insertion the ids are the old ids plus every planned id |
| Provisioning.InsertSlotsKeepsPresent | padel_bud/functions/src/index.ts:302-305 | an existing slot is never overwritten |
| Provisioning.InsertSlotsCount | padel_bud/functions/src/index.ts:305-316 | the count returned is the number of documents added |
| Provisioning.InsertSlotsNew | padel_bud/functions/src/index.ts:307-314 | every added slot is available, priced 25, with no buddies, one game long, under its derived id, at a planned start |
| Provisioning.InsertSlotsWf | padel_bud/functions/src/index.ts:302-316 | insertion keeps the slot listing free of repeats and in step with the stored slots |
| Provisioning.InsertSlotsAppend | padel_bud/functions/src/index.ts:255-317 | inserting two runs of starts in one go is inserting them one after the other, and the counts add up |
| Provisioning.InsertPresentIsNoOp | padel_bud/functions/src/index.ts:302-305 | inserting starts whose ids all exist changes nothing and counts 0 |
| Provisioning.Provision | padel_bud/functions/src/index.ts:225-320 | an early return writes nothing and counts 0; a run writes only slots |
| Provisioning.ProvisionFrame | padel_bud/functions/src/index.ts:298-316 | a run removes and overwrites no slot, its count equals the number of slots added, every added slot is a fresh slot of the court, and the store stays well formed |
| Provisioning.ProvisionIdempotent | padel_bud/functions/src/index.ts:298-316 | a second run over the same days creates nothing and leaves the store unchanged |
| Provisioning.DayRunIsInstants | padel_bud/functions/src/index.ts:290-292 | the inner loop's starts are the instants `midnight + (open + i*duration)` minutes of the day's slot offsets |
| Provisioning.ProvisionDay | padel_bud/functions/src/index.ts:291-317 | the inner `for` loop inserts exactly the slots, and returns exactly the count, of the day's planned starts |
| Provisioning.GenerateTimeSlotsForCourt | padel_bud/functions/src/index.ts:225-320 | the day-by-day loop computes the same store and count as the whole-horizon run |
| Provisioning.SetupIgnoresSlots | padel_bud/functions/src/index.ts:227-250 | a court's setup and planned ids do not depend on the slots |
| Provisioning.ProvisionCovers | padel_bud/functions/src/index.ts:298-316 | after a run every planned id of the court is present |
| Provisioning.ProvisionCoveredIsNoOp | padel_bud/functions/src/index.ts:302-305 | a run whose planned ids all exist changes nothing |
| Provisioning.ProvisionAll | padel_bud/functions/src/index.ts:362-366 | the daily sweep writes only slots |
| Provisioning.ProvisionAllFrame | padel_bud/functions/src/index.ts:354-366 | the sweep removes and overwrites no slot, keeps the store well formed, and its total equals the number of slots added |
| Provisioning.ProvisionAllCovers | padel_bud/functions/src/index.ts:362-366 | after the sweep every planned id of every swept court is present |
| Provisioning.ProvisionAllCoveredIsNoOp | padel_bud/functions/src/index.ts:362-366 | a sweep over courts whose planned ids all exist changes nothing |
| Provisioning.ProvisionAllIdempotent | padel_bud/functions/src/index.ts:348-373 | a second daily sweep over the same days creates nothing |
| Provisioning.GenerateDailyTimeSlots | padel_bud/functions/src/index.ts:354-366 | the loop over the listed courts computes the sweep's store and total |
| Search.ClubDistance | padel_bud/functions/src/index.ts:22-26 | a club's ranking distance is the sentinel exactly when its location is unusable, and otherwise the library distance from the user to the club's point |
| Search.KeyClubs | padel_bud/functions/src/index.ts:21-27 | each listed club is keyed by its own ranking distance, in listing order |
| Search.RankClubs | padel_bud/functions/src/index.ts:19-28 | ranking fails, as the library throws, exactly when the user has no location and some club has one |
| Search.GetClosestClubs | padel_bud/functions/src/index.ts:19-31 | absent exactly when ranking throws; otherwise `min(3, clubs)` stored club ids in nondecreasing distance |
| Search.ClosestClubsAreDistinct | padel_bud/functions/src/index.ts:19-31 | the chosen clubs repeat no club when the store lists each club once |
| Search.ClosestClubsAreNearest | padel_bud/functions/src/index.ts:28-30 | a club left out is at least as far as every club chosen |
| Search.FewClubsAllKept | padel_bud/functions/src/index.ts:29 | with three clubs or fewer every club is chosen, located or not |
| Search.LocatedClubsFirst | padel_bud/functions/src/index.ts:24-28 | among the chosen clubs, no located club comes after an unlocated one |
| Search.ClubRankingIsStable | padel_bud/functions/src/index.ts:28 | clubs at equal distance keep the store's listing order |
| Search.ClosestAreRankingHead | padel_bud/functions/src/index.ts:28-30 | the chosen clubs are the head of the full ranking |
| Search.GetCourtsOfClub | padel_bud/functions/src/index.ts:33-36 | exactly the stored courts whose club id is the club |
| Search.FindMatchingTimeSlotForCourt | padel_bud/functions/src/index.ts:65-88 | the first listed slot of the court that is available and starts within two hours either side, bounds included; absent exactly when there is none; not the slot closest in time |
| Search.FindSlotInClub | padel_bud/functions/src/index.ts:157-170 | the first court of the club, in listing order, with a matching slot, and that slot; absent exactly when no court of the club has one |
| Search.SlotInClubIsOnClubCourt | padel_bud/functions/src/index.ts:157-170 | the courts tried are those getCourtsOfClub lists: none has a slot exactly when the search fails, and the court found is one of them |
| Search.FindPlayersForClub | padel_bud/functions/src/index.ts:38-58 | exactly the listed requests that are available, hold the club among their nearby clubs, and fall in the window with both bounds included |
| Allocation.UserIds | padel_bud/functions/src/index.ts:96 | the match lists the players' user ids in player order |
| Allocation.CreateMatch | padel_bud/functions/src/index.ts:90-123 | fails with no write exactly when a request, user or slot to update is missing; otherwise writes the match once, takes every player's request and the slot out of availability, points every player's user at the match with buddies state 2, and changes nothing else; the request, user and slot listings keep their order and a new match is listed last |
| Matchmaking.Others | padel_bud/functions/src/index.ts:180-183 | the partner candidates are the club's pending requests in the window other than the player's own request and those of the player's user |
| Matchmaking.PartnerDistance | padel_bud/functions/src/index.ts:193-196 | a candidate's distance is the sentinel exactly when either location is unusable, and otherwise the library distance between the two points |
| Matchmaking.KeyPartners | padel_bud/functions/src/index.ts:193-197 | each candidate is keyed by its own distance from the originator, in candidate order |
| Matchmaking.NearestPartners | padel_bud/functions/src/index.ts:192-199 | `min(3, candidates)` candidates in nondecreasing distance |
| Matchmaking.PartnersAreNearest | padel_bud/functions/src/index.ts:192-199 | a candidate left out is at least as far as each partner chosen |
| Matchmaking.PartnersAreDistinct | padel_bud/functions/src/index.ts:192-199 | distinct candidates give distinct partners |
| Matchmaking.Members | padel_bud/functions/src/index.ts:204-207 | each partner joins with its request id and that request's user id |
| Matchmaking.GroupOf | padel_bud/functions/src/index.ts:204-207 | a group has four players: the originator first, then three candidates with their own user ids |
| Matchmaking.GroupPartnersAreNearest | padel_bud/functions/src/index.ts:192-207 | after the originator, the group is the nearest partners in order |
| Matchmaking.GroupRequestsAreDistinct | padel_bud/functions/src/index.ts:183-207 | the four requests of a group are pairwise different |
| Matchmaking.TryClub | padel_bud/functions/src/index.ts:157-207 | a club yields a plan exactly when it has a matching slot and at least three candidates; the plan uses that slot and the nearest-partner group |
| Matchmaking.PlanRequestsAreDistinct | padel_bud/functions/src/index.ts:180-207 | a plan never counts one request twice |
| Matchmaking.FirstPlan | padel_bud/functions/src/index.ts:153-218 | the clubs are tried in rank order and the first that yields a plan wins; no plan exactly when no club yields one |
| Matchmaking.Enrich | padel_bud/functions/src/index.ts:145-147 | the request gets its nearby clubs and is marked available; its user, location and time, and every other request, are unchanged |
| Matchmaking.OriginOf | padel_bud/functions/src/index.ts:133-136 | the trigger works with the request's own id, user and time, and with a location exactly when the stored one converts |
| Matchmaking.NearbyOf | padel_bud/functions/src/index.ts:141-142 | ranking the clubs fails exactly when the request has no usable location and some club has one; otherwise `min(3, clubs)` stored club ids in nondecreasing distance from the request |
| Matchmaking.MatchLoop | padel_bud/functions/src/index.ts:153-220 | no plan leaves the store as the enrichment write left it; the run aborts exactly when a plan exists and its batch fails, and otherwise commits the first plan |
| Matchmaking.OnSearchRequestCreated | padel_bud/functions/src/index.ts:127-222 | no event means no write; a ranking failure aborts before any write; clubs and courts never change; without a match only the request's enrichment is written, also when the batch aborts; at most one match is created |
| Matchmaking.TriggerOutcome | padel_bud/functions/src/index.ts:145-221 | once the clubs are ranked, a match is made exactly when the first plan over the enriched store exists and its batch commits; an abort exactly when that batch fails; no match exactly when there is no plan |
| Matchmaking.MatchRetiresGroupAndSlot | padel_bud/functions/src/index.ts:103-119 | after a match no player's request is found by any partner query, and its slot is no longer offered for its court |
| Matchmaking.MatchIsFirstPlan | padel_bud/functions/src/index.ts:153-217 | a match is made in the first nearby club, in rank order, that yields a plan |
| Matchmaking.MatchedGroup | padel_bud/functions/src/index.ts:203-214 | a match has four players with the originator first and three candidates; afterwards all four requests are unavailable, all four users point at the match and the slot is taken |
| Matchmaking.UnmatchedMeansNoPlan | padel_bud/functions/src/index.ts:172-189 | without a match every nearby club lacked a slot or three partners |
| Matchmaking.EnrichOverwrites | padel_bud/functions/src/index.ts:145-147 | the enrichment write does not depend on the availability or nearby clubs the request held |
| Matchmaking.TriggerIgnoresAvailability | padel_bud/functions/src/index.ts:133-147 | the outcome does not depend on whether the stored request is still available, so a request already absorbed into a match is handled as if still available, and can be matched again, if its event is delivered again |

## Left out

- Firestore I/O, awaiting, logging and the trigger and scheduler wrappers are left out. The functions are modelled on an explicit store value. `NoEvent` stands for an event without a snapshot; the model's condition for it is `reqId !in st.requests.docs`. That also covers a request deleted after it was created: the source then ranks the clubs from the event's snapshot and fails at the update at line 145, so it aborts with the same store where the model returns quietly.
- Enumeration order: the store lists documents in the order they were first written. Firestore lists them by document id. The model keeps the order as part of the store, and every "first" result is relative to it.
- The implicit ordering of the partner query: the range filter on `dateTime` makes Firestore order by `dateTime`. The model uses the store's listing order instead, which only matters for ties in partner distance.
- Dates and time zones: days come in as `Day` values. Daylight-saving jumps, `Date` arithmetic and the host clock are not modelled. Instants are integer milliseconds.
- Entities.SlotKey: the slot id uses the decimal millisecond count where the source uses the ISO-8601 string with `':'` and `'.'` replaced. Both are injective and contain no `'_'`, which is what the idempotence proofs need.
- Clock.ParseClock: only digit strings are read as numbers. JavaScript's `Number` also accepts whitespace, signs, decimals, hex and exponents; those inputs give no slots in the model.
- Negative game durations are left out: the source's loop would not terminate.
- Entities.GameDuration: only whole-minute durations are modelled (`gameDuration` is a natural). A fractional duration such as `1.5`, which the source's loop would step by, is not represented.
- The catch-all at lines 321-324 is left out: no modelled step throws inside provisioning.
- The try/catch in the two wrappers (lines 337-343 and 351-372) is left out, and so is the `courtsSnap.empty` early return. That return writes nothing and reports nothing, which is what the sweep does for no courts.
- Concurrency and redelivery: triggers that run at the same time, and batches that interleave with them, are not modelled. The effect of a redelivered event is stated by `Matchmaking.TriggerIgnoresAvailability`.
- The geolib library is not part of this model. Its `getDistance` is the parameter `dist`, any function into naturals below `MAX_SAFE_INTEGER` (every distance on Earth in metres is one); nothing else is assumed about its geometry. The sentinel-iff contracts of `Geo.CalculateDistance`, `Search.ClubDistance` and `Matchmaking.PartnerDistance` rely on that range: a negative, fractional or sentinel-sized library result is not modelled.
- `createdAt` is the parameter `now`, and the generated match id is the parameter `matchId`. Both are server-side values.
- Fields the source does not read or write (court names, user profiles) are not modelled.
