# RotaSocial volunteer dashboard — a Dafny model of its list logic

RotaSocial is a web dashboard. On it, volunteers browse support cases ("demandas") for
school children, accept or decline them, chat with the family and follow each case on a
timeline. All of its logic lives in the page component `app/page.tsx`. Around that logic
sit React rendering and Supabase calls. This project models the pure part of the logic
over immutable Dafny data and proves what the page promises:

- **Paging** (`paging.dfy`): the row window of page *p* and the `hasMore` rule. It also
  models the merge in `fetchDemands`, which appends a fetched page and collapses the list
  through a JavaScript `Map` keyed by `id`. The model keeps the `Map`'s
  insertion-order semantics: an existing key keeps its slot and takes the new value.
  `fetchDemands` itself is modelled as one step from a backend reply.
- **Feed** (`feed.dfy`): the `filtered` list. It applies the text, status, category,
  dismissal and radius filters, then the mode-dependent sort.
- **StableSort** (`stable_sort.dfy`): `Array.prototype.sort` with a comparator that
  subtracts keys. It is modelled as a stable insertion sort over `Rank = At(real) |
  Infinite`. A lemma shows that any sorted, stable rearrangement equals it.
- **Text** (`text.dfy`): `trim`, `toLowerCase` and `includes`, as the search and chat use
  them.
- **Actions** (`actions.dfy`): the local updates after accept, conclude and decline, the
  offline chat send, the simulated call and the realtime append.
- **Timeline** (`timeline.dfy`): `buildTimeline`.
- **Geo**, **Risk**: the null guard of `distanceKm` and the `RiskBar` clamp.
- **Supabase** (`supabase.dfy`): the record types of `types/supabase.ts`.

Nullable columns are `Option`s. Timestamps are integers (milliseconds). The clock
(`now`), whether the backend is configured (`offline`), and the values the backend or the
browser returns (rows, errors, the prompted name, local message ids) are all parameters.
The great-circle formula is a parameter `metric` of type `(real, real, real, real) -> real`.

Behaviour of the code that a reader may not expect:

- "minhas" keeps every case `em_progresso`, with no check of the volunteer name.
- A case of unknown distance always passes the radius filter.
- The search query is lower-cased but not trimmed. Only the emptiness test uses the
  trimmed string.
- "Voluntário aceitou" needs status `em_progresso` and a non-empty name. A concluded case
  does not get the event.
- More pages are expected only when a page returns exactly `pageSize` rows
  (`=== pageSize`). Any other length ends paging, not only a shorter page.

## Model

| member | source | states |
|---|---|---|
| Paging.PageWindow | app/page.tsx:267 | page p asks for rows p*10 through p*10+9: ten rows starting at p*10 |
| Paging.PageWindowsTile | app/page.tsx:267 | row i is requested by page i / 10 and by no other page |
| Paging.PageWindowsAdjacent | app/page.tsx:267 | each page's window starts right after the previous one ends |
| Paging.ById | app/page.tsx:270-275 | the merged list has non-empty, pairwise distinct ids, exactly the truthy ids of the input; each entry is the last input record with its id, entries are in first-occurrence order, and the list is no longer than its input |
| Paging.MergedFromIsById | app/page.tsx:270-275 | the four promises above determine the merged list completely: any list keeping them is the merge |
| Paging.MergePage | app/page.tsx:269-276 | on the first load the page alone is merged; otherwise the previous list followed by the page is merged |
| Paging.MergeIncremental | app/page.tsx:269-276 | merging a page into an already merged list equals merging all rows at once |
| Paging.RedeliveryIsIdempotent | app/page.tsx:269-276 | merging the same page a second time changes nothing |
| Paging.Fetch | app/page.tsx:259-284 | offline: list kept, no more pages. On error: list and hasMore kept, error message set, with the default text when the error has none. On rows: list merged, hasMore iff exactly 10 rows, error cleared. Loading is always off afterwards |
| Paging.FetchKeepsUniqueIds | app/page.tsx:269-276 | every fetch step keeps the ids of the case list unique and non-empty |
| Paging.FetchAccumulates | app/page.tsx:269-277 | after successive pages the list is the merge of all rows fetched so far |
| Paging.RefetchIsIdempotent | app/page.tsx:259-284 | fetching the same page twice leaves the feed as fetching it once |
| Feed.Filtered | app/page.tsx:290-324 | the list holds exactly the input records that pass every active filter, each as often as in the input. No dismissed id appears. It is ordered by the mode's comparator. Records with equal keys keep their input order |
| Feed.StagesAreOneFilter | app/page.tsx:291-315 | the five staged filters, each skipped when its control is empty, are one filter by the conjunction of the active predicates, so their order does not matter |
| Feed.KeyOrderIsPrecedes | app/page.tsx:316-322 | the sort key orders a before b exactly when the mode's comparator allows it: highest risk first (null counts as 0), newest first, or nearest first with unknown distances last |
| Feed.NoPositionKeepsLoadOrder | app/page.tsx:311-322 | nearest-first without a volunteer position keeps the loaded order of the kept cases |
| Feed.InitialViewShowsAll | app/page.tsx:290-324 | with the controls in their initial state and no position, the list is the loaded list unchanged |
| Feed.AllKeptIsSorted | app/page.tsx:290-322 | when every loaded case passes the filters, the list is the loaded list sorted by the mode's key |
| Feed.HighestRiskFirstExample | app/page.tsx:316-317 | scores 10, 90 and 50 under highest risk come out 90, 50, 10 |
| Feed.RadiusExample | app/page.tsx:311-315 | at (0, 0) with a 50 km radius, the case 0 km away is kept and the one 111.2 km away is dropped |
| StableSort.Sort | app/page.tsx:316-322 | the result is sorted by rank, is a permutation of the input, and keeps the input order within each rank |
| StableSort.StableSortIsUnique | app/page.tsx:316-322 | every sorted rearrangement that keeps each rank's input order is this sort's result |
| StableSort.SortFilterCommute | app/page.tsx:309-322 | filtering after sorting equals sorting after filtering |
| StableSort.SortKeepsMaxLast | app/page.tsx:630 | an element given last that nothing outranks stays last |
| Text.TrimStripsEnds | app/page.tsx:292 | trim gives "" exactly for all-white-space input; otherwise the result starts and ends with a non-space |
| Text.TrimIsInnerBlock | app/page.tsx:292 | the trimmed string is a block of the input with only white space around it |
| Text.TrimIdempotent | app/page.tsx:396 | trimming twice is trimming once |
| Text.Lower | app/page.tsx:293-297 | lower-casing keeps the length and maps each character on its own |
| Text.ContainsAt | app/page.tsx:295-297 | `includes` holds exactly when the query occurs at some position |
| Geo.DistanceKm | app/page.tsx:61-62 | the distance is unknown exactly when one of the four coordinates is null; otherwise it is the metric's value |
| Risk.RiskPercent | app/page.tsx:81 | the bar's percentage lies in [0, 100]. It is 0 for a missing score, the score itself inside the range, and the nearest bound outside it |
| Actions.Accept | app/page.tsx:410-417 | offline: the configuration notice and nothing else. An empty or cancelled name: nothing. An update error: the failure notice, list unchanged. Otherwise every record with the id becomes `em_progresso` assigned to the name, and every other record is unchanged |
| Actions.AcceptTouchesOneRecord | app/page.tsx:416 | with unique ids, accepting rewrites exactly the record at the case's position |
| Actions.AcceptIdempotent | app/page.tsx:416 | accepting twice with the same name equals accepting once |
| Actions.AcceptAndConcludeMoveBetweenSelectors | app/page.tsx:300-305 | an accepted case matches "minhas" and not "aguardando"; a concluded case matches only "concluidas" |
| Actions.RewriteKeepsIds | app/page.tsx:416-423 | accept and conclude keep every record's id in place, so unique ids stay unique |
| Actions.Conclude | app/page.tsx:419-424 | offline: the configuration notice only. An update error: the failure notice, list unchanged. Otherwise every record with the id becomes `concluida` and nothing else changes |
| Actions.Decline | app/page.tsx:474 | the dismissed ids become the earlier ones, in order, followed by the declined id alone; an id is dismissed afterwards exactly when it was before or is the declined one; no other control changes |
| Actions.DeclineHidesOnlyThatCase | app/page.tsx:309 | after a decline the visible list is the previous one without the declined case, in the same order |
| Actions.OnInsert | app/page.tsx:382 | a realtime message is appended at the end and the earlier messages are untouched |
| Actions.SendMessage | app/page.tsx:387-408 | a blank input or no open case changes nothing. Offline, one volunteer message with the trimmed text is appended and the box is cleared. Online, the list is untouched and the box is cleared iff the insert succeeded |
| Actions.SentMessageIsTrimmed | app/page.tsx:396 | a message sent offline is non-empty, has no surrounding white space, and belongs to the open case |
| Actions.SimulateCall | app/page.tsx:426-439 | offline, the earlier messages are kept and one last message is added: a system note "Ligação simulada ao responsável." for the case, with the local id and time; online the local list is untouched |
| Actions.SimulateCallIsEcho | app/page.tsx:426-439 | the offline list equals the online list after the realtime echo (the append at line 382) of the inserted note |
| Timeline.BuildTimeline | app/page.tsx:616-631 | the events are in ascending date order. They are the pushed events rearranged, with events of equal date in push order |
| Timeline.TimelineHolds | app/page.tsx:617-629 | an event appears exactly when it is one of these: the creation; the consent when granted; the acceptance when shown; one of the first three messages; the conclusion of a concluded case |
| Timeline.TimelineLength | app/page.tsx:617-629 | the length is 1, plus 1 per optional event present, plus min(3, number of messages) |
| Timeline.ConsentShown | app/page.tsx:619 | the consent event appears iff consent was given, dated at the consent |
| Timeline.AcceptanceShown | app/page.tsx:620-622 | "Voluntário aceitou" appears iff the case is `em_progresso` with a non-empty volunteer name, and it names that volunteer |
| Timeline.ConclusionShown | app/page.tsx:627-629 | "Demanda concluída" appears iff the case is `concluida`, dated at the supplied now |
| Timeline.TimelineIgnoresLaterMessages | app/page.tsx:623 | once three messages exist, further messages do not change the timeline |
| Timeline.CreatedLeadsItsDate | app/page.tsx:618-630 | no event dated on or after the creation precedes "Demanda criada", so the acceptance (same date) follows it |
| Timeline.ConcludedIsLast | app/page.tsx:627-630 | when no other event is later than now, "Demanda concluída" is the last event |

## Left out

- The haversine arithmetic (`app/page.tsx:63-69`) is floating-point trigonometry. It is
  the parameter `metric`, and distances are `real` rather than the rounded float. No
  symmetry or zero-distance facts are claimed about it.
- `scripts/seed.js` generates random data and inserts it. It is not part of this model.
- `lib/supabaseClient.ts` is not part of this model. Its only effect, offline mode when
  the environment variables are missing, is the `offline` parameter.
- Rendering is not modelled: `app/layout.tsx`, the cards, icons, `StatusBadge`, the
  `MapMini` projection and the risk bar's colour bands.
- React hooks, effects and the asynchronous calls are not modelled. Each action is one
  pure step from the backend's reply. The `loading` flag is only switched off, since the
  intermediate render is not observable in a pure step.
- The `sending` flag of the chat is left out. It only disables the button while an insert
  is in flight.
- The geolocation lookup, with its timeout and fallback coordinates
  (`app/page.tsx:245-257`), is browser I/O. The position is the pair
  `volLat`/`volLng` of the view.
- The scroll trigger (`app/page.tsx:239-244`) depends on DOM measurements. The page number
  is an input of `PageWindow`.
- The realtime channel's subscribe and unsubscribe lifecycle and the message loading with
  mock messages (`app/page.tsx:340-385`) are not modelled. They are external
  subscriptions, wall-clock time and `date-fns` formatting. Only the append in the
  callback is modelled.
- Paging.Fetch: the case of a reply with neither rows nor an error (`data` null) is not
  modelled. Records are assumed to carry a `created_at`; the column is non-null.
- Text.Lower: upper case is mapped for ASCII and Latin-1 letters only. The rest of the
  Unicode lower-case mapping is not modelled, including mappings that change the length
  (U+0130 becomes "i" followed by U+0307) and context-sensitive ones (the final sigma).
- Timeline.BuildTimeline: dates that do not parse (NaN) are not modelled.
