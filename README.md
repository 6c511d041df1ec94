# Art table selection model

A Dafny model of the selection logic of the `ArtTable` component. The table shows
one page of artwork records at a time, 12 per page. The user can say "select the
first N records", which covers pages that were never fetched. On the page being
viewed, the user can also check or uncheck rows by hand. The component keeps:

- the 1-based page, the rows loaded for it, and the fixed page size of 12;
- the virtual count N;
- an override map from record id to a forced state (selected or deselected).

A row's global rank is `(page - 1) * 12 + index + 1`. A row counts as selected when
its override says so. A row with no override counts as selected when its rank is at
most N. The total count is `max(0, N + #forced-selected - #forced-deselected)`.
When the table reports a new checked set for the page, each loaded row gets an
override only where its checked state differs from the state N implies. Otherwise
any override it had is deleted.

Files:

- `Wrappers.dfy`: the `Option` type, used for nullable inputs.
- `Paging.dfy`: rank, its inverse, the footer range, the paginator offset and the
  page-event conversion.
- `Selection.dfy`: the selection as pure functions (`Derive`, `TotalSelected`,
  `Reconciled`) and the lemmas about them.
- `ArtTable.dfy`: a class whose fields are the component's state. It has methods
  for the submit button, the page event, a completed load and the selection-change
  event. The selection-change method keeps the source's loop over the loaded rows.

Facts about the code that shape the model:

- The rank of offset 5 on page 3 is `(3 - 1) * 12 + 5 + 1 = 30`.
- A submitted count that is null or at most 0 is ignored without raising an error.
- Page responses are applied in the order they arrive, with no stale-response guard
  (`ArtTable.PageLoaded`). The page number changes first (`ArtTable.OnPage`), so until
  the new rows arrive, the old rows are read with the new page's ranks.

Several lemmas need the loaded rows to have distinct ids (`DistinctIds`). The table
identifies rows by `dataKey="id"`, which assumes unique ids. The frame lemma and the
"last reconciliation wins" lemma hold without that assumption.

## Model

| member | source | states |
|---|---|---|
| `Paging.RankExamples` | src/components/ArtTable.tsx:49 | page 1, offset 0 has rank 1; page 3, offset 5 has rank 30 |
| `Paging.RanksConsecutive` | src/components/ArtTable.tsx:96 | ranks on a page go up by one per row, and the next page's first rank follows the last slot of the page before it |
| `Paging.RanksIncrease` | src/components/ArtTable.tsx:49 | ranks strictly increase in (page, offset) order, within a page and across pages |
| `Paging.RankRoundTrip` | src/components/ArtTable.tsx:49 | each slot (page >= 1, offset 0..11) has a rank >= 1, and `PageOf`/`OffsetOf` give that slot back |
| `Paging.RankCovers` | src/components/ArtTable.tsx:49 | each rank >= 1 is the rank of the slot `PageOf`/`OffsetOf` give; every record position has exactly one slot |
| `Paging.FooterRangeIsPageSlots` | src/components/ArtTable.tsx:67 | the footer's from..to range starts at the page's first rank and holds exactly the ranks of the page's slots that are at most `totalRecords` |
| `Paging.FullPageFooter` | src/components/ArtTable.tsx:67 | on a full page the footer spans 12 ranks and ends at the last slot's rank |
| `Paging.PageConversionRoundTrip` | src/components/ArtTable.tsx:84-85 | the event page `(e.page or 0) + 1` is >= 1; `first` is the count of records before the page; the 0-based page index taken from `first` leads back to the same page |
| `Selection.Keep` | src/components/ArtTable.tsx:48-56 | the index-aware filter returns the elements at the masked positions, in increasing position order |
| `Selection.Derive` | src/components/ArtTable.tsx:47-57 | the selection is an ordered subsequence of the loaded rows: its k-th row is the row at the k-th selected position |
| `Selection.DeriveSelects` | src/components/ArtTable.tsx:51-55 | a loaded row is selected iff its override is true, or it has no override and its rank is at most the virtual count |
| `Selection.DeriveNothing` | src/components/ArtTable.tsx:55 | with virtual count 0 and no overrides, no row on any page is selected |
| `Selection.DeriveEverything` | src/components/ArtTable.tsx:49-55 | when the virtual count reaches the rank of the last loaded row, `(page - 1) * 12 + rows` (a full page or a short last page), and no loaded row has an override, every loaded row is selected |
| `Selection.ShortLastPageSelected` | src/components/ArtTable.tsx:49-55 | 25 records, count 30: the one row of page 3 (rank 25) is selected |
| `Selection.TotalSelected` | src/components/ArtTable.tsx:59-63 | the count is never negative; it equals virtual count + forced-selected - forced-deselected whenever that is >= 0, and 0 otherwise; it does not depend on the page or the rows |
| `Selection.ForcedCountsPartition` | src/components/ArtTable.tsx:60-61 | the forced-selected and forced-deselected counts add up to the number of overrides |
| `Selection.TotalSelectedBounds` | src/components/ArtTable.tsx:59-63 | the count lies within the number of overrides of the virtual count |
| `Selection.ReconcileStep` | src/components/ArtTable.tsx:97-104 | one row's step leaves an entry iff checked differs from implied, the entry is the checked state, and no other id changes |
| `Selection.Reconciled` | src/components/ArtTable.tsx:91-105 | starting from a copy of the old map, ids not on the page keep their entries, and only page ids can be added |
| `Selection.ReconciledEntries` | src/components/ArtTable.tsx:95-105 | afterwards a page row has an entry iff its checked state differs from its rank-implied state, the entry equals the checked state, and so no page entry is redundant |
| `Selection.ReconciledAgree` | src/components/ArtTable.tsx:91-105 | the result depends on the old map only off the page: maps that agree outside some ids still agree outside those of them not on the page |
| `Selection.ReconcileLastWins` | src/components/ArtTable.tsx:91-107 | reconciling with one checked set and then another gives the same map as reconciling with the second alone |
| `Selection.ReconcileIdempotent` | src/components/ArtTable.tsx:91-107 | reconciling twice with the same checked set gives the same map as reconciling once |
| `Selection.DeriveAfterReconcile` | src/components/ArtTable.tsx:95-105 | deriving the selection right after reconciling with checked set C returns exactly the loaded rows whose ids are in C, in page order |
| `Selection.DisplayedIdsExact` | src/components/ArtTable.tsx:89 | a loaded row's id is in the checked set the table displays iff the row is effectively selected |
| `Selection.ReconcileDisplayedIsIdentity` | src/components/ArtTable.tsx:90-108 | when the map has no redundant page entry, the table reporting the checked set it already shows changes nothing |
| `Selection.ReconcileOneClick` | src/components/ArtTable.tsx:97-104 | requires `Minimal` (no page row's override equals its implied state) and distinct ids; then one click on a row changes only that row's entry: the entry is removed if the row had one, otherwise an entry with the clicked state is added |
| `Selection.ClickShiftsCount` | src/components/ArtTable.tsx:59-63 | requires `Minimal` and distinct ids; then one click moves the unfloored count by exactly one: up for a check, down for an uncheck |
| `Selection.ClickTwiceRestores` | src/components/ArtTable.tsx:95-107 | requires `Minimal` and distinct ids; then checking a row and then unchecking it (or the reverse) restores the override map and the total count |
| `Selection.UncheckFirstOfPageTwo` | src/components/ArtTable.tsx:95-105 | virtual count 15, page 2 loaded, uncheck the rank-13 row: the map becomes that id forced off, and the count is 14 |
| `Selection.ClickTwiceWithRedundantEntry` | src/components/ArtTable.tsx:97-104 | without `Minimal` the revert fails: count 5, page 1, row id 1 with a redundant forced-selected entry; unchecking then rechecking leaves no entry, and the count falls from 6 to 5 |
| `Paging.Rank` | src/components/ArtTable.tsx:49 | the rank is the number of records before the page plus the offset plus one, and is >= 1 for page >= 1 and offset >= 0; properties in `RankRoundTrip`, `RankCovers`, `RanksIncrease` |
| `Paging.FooterFrom` | src/components/ArtTable.tsx:67 | the footer's first rank is one past the records before the page, and >= 1; see `FooterRangeIsPageSlots` |
| `Paging.FooterTo` | src/components/ArtTable.tsx:67 | the footer's last rank is the minimum of `page * 12` and `totalRecords`: at most both and equal to one; see `FooterRangeIsPageSlots` |
| `Paging.TableFirst` | src/components/ArtTable.tsx:84 | `first` is a non-negative multiple of 12 for page >= 1; see `PageConversionRoundTrip` |
| `Paging.PageFromEvent` | src/components/ArtTable.tsx:85 | the page is >= 1 and its `first` is the event's 0-based page index (0 if missing) times 12; see `PageConversionRoundTrip` |
| `Selection.Implied` | src/components/ArtTable.tsx:97 | a row is implied selected iff its offset is below the virtual count minus the records before the page |
| `Selection.Effective` | src/components/ArtTable.tsx:51-55 | an entry decides the row's state; no entry, or one equal to the implied state, leaves the implied state; see `DeriveSelects` |
| `Selection.ForcedCount` | src/components/ArtTable.tsx:60-61 | the number of entries forcing a value is at most the map size, and 0 iff no entry forces it; see `ForcedCountsPartition` |
| `ArtTableComponent.ArtTable.CurrentSelection` | src/components/ArtTable.tsx:47-57 | the selection shown is drawn from the loaded rows; with distinct ids a row is in it iff its override, or else its rank, says so |
| `ArtTableComponent.ArtTable.SelectedCount` | src/components/ArtTable.tsx:59-63 | in a valid state the count shown lies within the number of overrides of the virtual count |
| `ArtTableComponent.ArtTable.constructor` | src/components/ArtTable.tsx:10-17 | starts on page 1 with no rows, virtual count 0 and no overrides |
| `ArtTableComponent.ArtTable.Submit` | src/components/ArtTable.tsx:41-46 | a missing or non-positive input changes nothing; n > 0 sets the virtual count to n and empties the map, so the count is n |
| `ArtTableComponent.ArtTable.OnPage` | src/components/ArtTable.tsx:85 | the page becomes the event page plus one; rows, count and map are unchanged |
| `ArtTableComponent.ArtTable.PageLoaded` | src/components/ArtTable.tsx:28 | the loaded rows become the response data, or no rows when it carries none; nothing else changes |
| `ArtTableComponent.ArtTable.OnSelectionChange` | src/components/ArtTable.tsx:90-108 | the loop leaves the map equal to `Reconciled` of the old map; ids off the page keep their entries; the page has no redundant entry; the derived selection is exactly the reported rows |

## Left out

- `loadData` and the effect that calls it on a page change: this is network I/O. `ArtTable.PageLoaded` takes a response's `data`. Only a rejected fetch, or a body that is not JSON, leaves the rows unchanged. A JSON body without `pagination` has already replaced the rows before the error is logged: that path is `PageLoaded(None)` or `PageLoaded(Some(data))` followed by the logged error.
- The `loading` flag, the fetched `totalRecords` and the error logging: these are I/O plumbing. The footer functions take `totalRecords` as a parameter.
- Rendering (the data table, columns, overlay panel, number input and button) and hiding the overlay after a submit: these are foreign UI widgets.
- The `customInput` state: `ArtTable.Submit` takes the input value directly. Only `null` and `<= 0` are checked, as in the code. Non-integer input is not modelled, because JavaScript numbers are not modelled.
- The display fields of an artwork: only `id` matters to the selection.
- Ids and counts are unbounded integers. JavaScript's double-precision numbers and their limits are not modelled.
- A lemma that the total count is the true number of selected records across the whole record set. The code does not guarantee it, for example when the virtual count exceeds the record total or the record order changes between visits.
- `Selection.DeriveSelects`: stated only for pages whose loaded rows have distinct ids, because a repeated id makes membership in the selection ambiguous.
- `Selection.ReconciledEntries`: stated only for distinct ids; with a repeated id, the last row carrying it decides its entry.
- `Selection.DeriveAfterReconcile`: stated only for distinct ids, for the same reason.
- `ArtTableComponent.ArtTable.OnSelectionChange`: its selection and minimality guarantees hold only when the loaded rows have distinct ids; the frame and the equation with `Reconciled` hold always.
- `Selection.ReconcileOneClick`: requires `Minimal`, that no page row's override equals its implied state. With a redundant entry the click replaces it by the opposite entry instead of removing it (`Selection.ClickTwiceWithRedundantEntry`). Such an entry can arise when a row reconciled at one rank is later shown at another, for example while the old rows are read with a new page's ranks, or when the record order changes between visits.
- `Selection.ClickShiftsCount`: requires `Minimal` for the same reason; with a redundant entry one click can move the unfloored count by two.
- `Selection.ClickTwiceRestores`: requires `Minimal`; the code does not restore a redundant entry (`Selection.ClickTwiceWithRedundantEntry` shows the count falling from 6 to 5).
