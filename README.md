# Angarium dashboard client: a Dafny model of its list logic

Angarium's web dashboard is a single-page client for a GPU job scheduler.
It lists jobs and nodes fetched from the control plane and computes what the
operator sees. This project models the parts of that client that decide *what
is shown*:

- the Jobs page's search, status tabs and creation-time sort;
- the page count and the rows shown for the current page;
- the jobs table's pager, with its numbered buttons and ellipses;
- the prev/next buttons, the "Showing x to y" caption and the per-row actions;
- the Terminal Exit Code cell and the `--:--` timestamp sentinel;
- the dashboard's aggregate figures and its Cluster Health card;
- the UP-first ordering of the node list.

The model is written in Dafny, and the properties the screens rely on are
proved about it.

Modules:

- `Types` (`types.dfy`): `Job`, `Node` and their states.
- `Text` (`text.dfy`): ASCII lower-casing and substring search.
- `StableSort` (`stable_sort.dfy`): `Array.prototype.sort`, which has been
  stable since ECMAScript 2019, as a stable insertion sort by an integer key.
  It comes with its permutation, ordering and tie-order properties, plus a
  uniqueness lemma. Every sort in the client is an instance of it.
- `Jobs` (`jobs.dfy`): `processedJobs`, `totalPages` and the page slice, with
  JavaScript `slice` semantics.
- `JobsTable` (`jobs_table.dfy`): `getPageNumbers` as a method with loops,
  proved against the predicate `IsPager`. It also holds the prev/next clamps,
  the caption, the row actions and the cells.
- `JobsView` (`jobs_view.dfy`): the Jobs page's React state as a class whose
  handlers overwrite its fields.
- `DashboardStats` (`dashboard_stats.dfy`): the figures `useDashboardStats`
  computes, and the hook's state as a class.
- `NodeOrder` (`node_order.dfy`): `useNodes`' sorted copy.
- `Dashboard` (`dashboard.dfy`): the Cluster Health decision, the noun, and
  the RAM placeholder.

Inputs that come from outside the client are parameters:

- the fetched lists;
- how a fetch ended (`DashboardStats.Fetch`): an array, a falsy body, a
  rejected promise, or a non-array body such as the `{}` that
  `src/lib/api.ts:25-27` returns for an empty response;
- the `loading` flag.

## Model

| member | source | states |
|---|---|---|
| Text.LowerChar | src/pages/Jobs.tsx:34-36 | ASCII upper-case letters map to their lower-case letter, everything else is unchanged, and the result is never an upper-case letter |
| Text.Lower | src/pages/Jobs.tsx:34-36 | lower-casing keeps the length and lower-cases character by character |
| Text.LowerIdempotent | src/pages/Jobs.tsx:34-36 | lower-casing twice is lower-casing once |
| Text.Contains | src/pages/Jobs.tsx:34-36 | `includes`; its meaning is the occurrence characterisation of `Text.ContainsIffOccurs` |
| Text.ContainsIffOccurs | src/pages/Jobs.tsx:34-36 | `includes` holds iff the query occurs at some position of the text |
| Text.ContainsEmpty | src/pages/Jobs.tsx:34-36 | every text includes the empty query |
| StableSort.WithKey | src/pages/Jobs.tsx:46-50 | the elements with one key, in order, are never more than the input; the stability lemmas are stated with it |
| StableSort.Insert | src/pages/Jobs.tsx:46-50 | inserting adds exactly one element |
| StableSort.SortBy | src/pages/Jobs.tsx:46-50 | sorting keeps the length |
| StableSort.WithKeyAppend | src/pages/Jobs.tsx:46-50 | picking one key's elements distributes over concatenation |
| StableSort.InsertPermutes | src/pages/Jobs.tsx:46-50 | insertion adds exactly the new element to the multiset |
| StableSort.InsertSorted | src/pages/Jobs.tsx:46-50 | insertion into a sorted sequence keeps it sorted |
| StableSort.InsertKeepsTies | src/pages/Jobs.tsx:46-50 | insertion puts the new element before its equal-key elements, as if it were prepended |
| StableSort.SortByPermutes | src/pages/Jobs.tsx:46-50 | the sort returns a permutation of its input |
| StableSort.SortBySorted | src/pages/Jobs.tsx:46-50 | the sort's result is ordered by key |
| StableSort.SortByKeepsTies | src/pages/Jobs.tsx:46-50 | elements with equal keys keep their input order (stability) |
| StableSort.StableSortIsUnique | src/pages/Jobs.tsx:46-50 | two sorted sequences with the same key groups in the same order are equal |
| StableSort.IsSortBy | src/pages/Jobs.tsx:46-50 | any sorted, tie-preserving rearrangement is exactly the sort, so a stable sort's result is determined |
| Jobs.FilterJobs | src/pages/Jobs.tsx:33-43 | the filter never lengthens the list |
| Jobs.MatchesSearch | src/pages/Jobs.tsx:34-36 | the search predicate; stated by `SearchIgnoresQueryCase`, `SearchIgnoresFieldCase`, `OwnerlessMatch` and `OwnerlessSearch` |
| Jobs.MatchesStatus | src/pages/Jobs.tsx:38-40 | the tab predicate; stated by `StateClasses`, `FilterKeepsExactlyMatches` and `ActivePlusDoneIsAll` |
| Jobs.FilterKeepsExactlyMatches | src/pages/Jobs.tsx:33-43 | each job occurs in the result as often as in the input if it matches the search and the tab, and not at all otherwise |
| Jobs.FilterMembership | src/pages/Jobs.tsx:33-43 | a job is in the result iff it is fetched and matches both the search and the tab |
| Jobs.StateClasses | src/pages/Jobs.tsx:38-40 | every state is in exactly one of the ACTIVE and DONE tabs |
| Jobs.ActivePlusDoneIsAll | src/pages/Jobs.tsx:38-40 | the ACTIVE and DONE tabs together list as many jobs as ALL |
| Jobs.EmptySearchKeepsAll | src/pages/Jobs.tsx:31-43 | an empty search on the ALL tab keeps every job in fetched order |
| Jobs.SearchIgnoresQueryCase | src/pages/Jobs.tsx:34-36 | the search does not depend on the query's letter case |
| Jobs.SearchIgnoresFieldCase | src/pages/Jobs.tsx:34-36 | the search does not depend on the letter case of id, command or owner |
| Jobs.OwnerlessMatch | src/pages/Jobs.tsx:34-36 | for a job without an owner, `owner_id?.` drops out and the search is "query in id or in command" |
| Jobs.OwnerlessSearch | src/pages/Jobs.tsx:34-36 | a job without an owner matches iff the lower-cased query occurs in its lower-cased id or command |
| Jobs.ProcessedJobs | src/pages/Jobs.tsx:30-53 | `processedJobs`; stated by `ProcessedIsPermutationOfFiltered`, `ProcessedIsOrdered`, `ProcessedKeepsFetchedOrder` and `ProcessedIsTheStableSort` |
| Jobs.SortKey | src/pages/Jobs.tsx:46-49 | the comparator as an ascending key; stated by `ProcessedIsOrdered` |
| Jobs.ProcessedIsPermutationOfFiltered | src/pages/Jobs.tsx:46-52 | sorting neither adds nor drops a filtered job |
| Jobs.ProcessedIsOrdered | src/pages/Jobs.tsx:46-50 | 'desc' lists newest first and 'asc' oldest first |
| Jobs.ProcessedKeepsTies | src/pages/Jobs.tsx:46-50 | jobs with the same creation time keep the order of the filtered list |
| Jobs.FilterCommutesWithKey | src/pages/Jobs.tsx:33-43 | the filter keeps relative order: taking the jobs with one key and filtering commute |
| Jobs.ProcessedKeepsFetchedOrder | src/pages/Jobs.tsx:30-53 | the rows with one creation time are the fetched jobs with that time, filtered, in fetched order |
| Jobs.ProcessedIsTheStableSort | src/pages/Jobs.tsx:30-53 | any ordered, tie-preserving arrangement of the filtered jobs is `processedJobs` |
| Jobs.TotalPages | src/pages/Jobs.tsx:55 | `Math.ceil(n / pageSize)`; stated by `TotalPagesIsCeiling` |
| Jobs.TotalPagesIsCeiling | src/pages/Jobs.tsx:55 | the page count is the least number of pages that holds every row, and 0 for no rows |
| Jobs.PageSlice | src/pages/Jobs.tsx:56-59 | `paginatedJobs`; stated by `PageSliceRows`, `PageNonEmptyIffInRange` and `PagesCoverAll` |
| Jobs.JsSlice | src/pages/Jobs.tsx:58 | `Array.prototype.slice`; stated by `SliceNonNegative` |
| Jobs.SliceNonNegative | src/pages/Jobs.tsx:58 | with bounds that are not negative, `slice` returns the rows between them, each bound cut to the length |
| Jobs.PageSliceRows | src/pages/Jobs.tsx:56-59 | page p shows rows (p-1)·size up to p·size, cut at the end of the list, and never more than one page of rows |
| Jobs.PageNonEmptyIffInRange | src/pages/Jobs.tsx:55-59 | a page shows some row iff its number is at most the page count |
| Jobs.PagesUpToIsPrefix | src/pages/Jobs.tsx:56-59 | pages 1..k together are the first k·size rows |
| Jobs.PagesCoverAll | src/pages/Jobs.tsx:55-59 | pages 1..totalPages together are the whole processed list, each row once and in order |
| JobsTable.GetPageNumbers | src/components/jobs/JobsTable.tsx:53-76 | `IsPager` holds. For at most 10 pages the buttons are exactly 1..T, whatever the current page. For more pages there are 3 to 9 entries, the first being 1 and the last T, and page k has a button iff it is 1, T, or a page in 2..T-1 within 2 of the current page. Numbers increase, an ellipsis sits exactly where numbers skip, and buttons not separated by one are consecutive. For a current page in 1..T, that page has a button, the leading ellipsis appears iff the page is above 4, and the trailing one iff it is below T-3. A stale page past T is covered by `PagerPastLastPage` |
| JobsTable.PagerButtonsInRange | src/components/jobs/JobsTable.tsx:53-76 | every numbered button is a page between 1 and T |
| JobsTable.PagerPastLastPage | src/components/jobs/JobsTable.tsx:53-76 | on a page past the last one, that page has no button; with more than 10 pages every button other than 1 and T is at most two pages below the current one |
| JobsTable.CountingUp | src/components/jobs/JobsTable.tsx:57-58 | the short pager 1..T satisfies `IsPager` |
| JobsTable.WindowIsItems | src/components/jobs/JobsTable.tsx:59-74 | the long pager, entry by entry |
| JobsTable.WindowProperties | src/components/jobs/JobsTable.tsx:59-74 | the long pager satisfies `IsPager` |
| JobsTable.WindowNumbers | src/components/jobs/JobsTable.tsx:59-74 | the long pager's numbers increase, and neighbouring numbers without an ellipsis between them are consecutive |
| JobsTable.WindowContents | src/components/jobs/JobsTable.tsx:59-74 | the long pager shows page k iff k is 1, T, or within 2 of the current page |
| JobsTable.WindowGaps | src/components/jobs/JobsTable.tsx:59-74 | in the long pager an ellipsis stands between two numbers exactly where pages are skipped |
| JobsTable.PrevPage | src/components/jobs/JobsTable.tsx:265 | `Math.max(1, page - 1)`; stated by `PrevNextStayInRange` |
| JobsTable.NextPage | src/components/jobs/JobsTable.tsx:296 | `Math.min(totalPages, page + 1)`; stated by `PrevNextStayInRange` |
| JobsTable.PrevNextStayInRange | src/components/jobs/JobsTable.tsx:265-297 | from an existing page, previous and next stay within 1..T and step by one except at the ends |
| JobsTable.ShowingRange | src/components/jobs/JobsTable.tsx:239 | the caption's two numbers; stated by `ShowingEmpty`, `ShowingMatchesPage` and `ShowingPastLastPage` |
| JobsTable.ShowingEmpty | src/components/jobs/JobsTable.tsx:239 | with no rows the caption reads "0 to 0" |
| JobsTable.ShowingMatchesPage | src/components/jobs/JobsTable.tsx:239 | on an existing page, the caption's numbers are the 1-based positions of the first and last row shown |
| JobsTable.ShowingPastLastPage | src/components/jobs/JobsTable.tsx:239 | for a non-empty list, on a page past the last one no row is shown and the caption's start exceeds its end |
| JobsTable.ShowsLogs | src/components/jobs/JobsTable.tsx:125 | the logs button's condition; stated by `RowActions` |
| JobsTable.CanCancel | src/components/jobs/JobsTable.tsx:136 | the cancel button's condition; stated by `RowActions` |
| JobsTable.RowActions | src/components/jobs/JobsTable.tsx:125-136 | cancel is offered exactly for the ACTIVE-tab states, logs for every state but QUEUED, and every row offers at least one action |
| JobsTable.ExitCodeCell | src/components/jobs/JobsTable.tsx:181 | the exit-code cell; stated by `ExitCodeShownOnlyWhenExited` |
| JobsTable.ExitCodeShownOnlyWhenExited | src/components/jobs/JobsTable.tsx:181 | the exit code is shown iff the job SUCCEEDED or FAILED, and then it is the job's own code |
| JobsTable.FormatTimestamp | src/components/jobs/JobsTable.tsx:48-51 | `formatTimestamp`; stated by `TimestampSentinel` |
| JobsTable.TimestampSentinel | src/components/jobs/JobsTable.tsx:48-51 | a stamp shows `--:--` iff it is absent, empty, or starts with "0001"; any other stamp is formatted |
| JobsView.JobsPage.constructor | src/pages/Jobs.tsx:18-27 | empty search, ALL tab, newest first, page 1 of 10 rows |
| JobsView.JobsPage.ReceiveJobs | src/pages/Jobs.tsx:15 | a refresh replaces the list and keeps the page and the controls |
| JobsView.JobsPage.SetSearchQuery | src/pages/Jobs.tsx:81-88 | typing changes only the query; the page is not reset |
| JobsView.JobsPage.SetFilterStatus | src/pages/Jobs.tsx:81-88 | a tab changes only the tab; the page is not reset |
| JobsView.JobsPage.SetSortOrder | src/pages/Jobs.tsx:81-88 | the order changes only the order, and the number of pages stays the same |
| JobsView.JobsPage.SetPageSize | src/pages/Jobs.tsx:99-102 | a new page size returns to page 1, which shows the first `size` processed rows |
| JobsView.JobsPage.GoPrevious | src/components/jobs/JobsTable.tsx:265 | the page becomes max(1, page-1), staying in range if it was |
| JobsView.JobsPage.GoNext | src/components/jobs/JobsTable.tsx:296 | the page becomes min(T, page+1), always an existing page |
| JobsView.JobsPage.GoToPage | src/components/jobs/JobsTable.tsx:282 | a numbered button sets that page, which exists |
| DashboardStats.CountState | src/hooks/useDashboardStats.ts:35-36 | a state's count is at most the number of jobs |
| DashboardStats.CountActive | src/hooks/useDashboardStats.ts:42-44 | the active-node count is at most the number of nodes |
| DashboardStats.CountOffline | src/hooks/useDashboardStats.ts:43 | the offline-node count is at most the number of nodes |
| DashboardStats.IsActiveNode | src/hooks/useDashboardStats.ts:42 | READY or UP; stated by `NodeCountsPartition` and `AllBusyIffNoActiveNoOffline` |
| DashboardStats.IsOfflineNode | src/hooks/useDashboardStats.ts:43 | OFFLINE or DOWN; stated by `NodeCountsPartition` and `OfflineCountPositive` |
| DashboardStats.SumUtilization | src/hooks/useDashboardStats.ts:46 | the utilisation sum with `\|\| 0`; stated by `UtilizationSumBounds` |
| DashboardStats.RamUsed | src/hooks/useDashboardStats.ts:49 | the used-memory sum with `\|\| 0`; stated by `RamAdds` and `RamUsedWithinTotal` |
| DashboardStats.RamTotal | src/hooks/useDashboardStats.ts:50 | the total-memory sum with `\|\| 0`; stated by `RamAdds` and `RamTotalZero` |
| DashboardStats.RoundHalfUp | src/hooks/useDashboardStats.ts:56 | `Math.round(a / b)`; stated by `RoundIsNearest` and `RoundOfPercentMean` |
| DashboardStats.Received | src/hooks/useDashboardStats.ts:21-33 | `.catch(() => [])` then `raw \|\| []`; stated by `FailedFetchIsolated` |
| DashboardStats.InitialStats | src/hooks/useDashboardStats.ts:6-15 | the initial figures; stated by `InitialIsEmptyCluster` |
| DashboardStats.RecentJobs | src/hooks/useDashboardStats.ts:38-40 | the five newest jobs; stated by `RecentLength`, `RecentNewestFirst`, `RecentAreNewest` and `RecentIsHeadOfJobsPage` |
| DashboardStats.GpuUtilization | src/hooks/useDashboardStats.ts:46-47 | the rounded mean utilisation; stated by `RoundIsNearest` and `UtilizationIsPercentage` |
| DashboardStats.ComputeStats | src/hooks/useDashboardStats.ts:35-61 | the record `setStats` receives; stated by the count, recent-job, RAM and utilisation lemmas below |
| DashboardStats.Refresh | src/hooks/useDashboardStats.ts:20-66 | one fetch round; stated by `RefreshOutcome` and `FailedFetchIsolated` |
| DashboardStats.StatesPartitionJobs | src/hooks/useDashboardStats.ts:35-36 | the seven state counts add up to the number of jobs |
| DashboardStats.CountersAndActiveTab | src/hooks/useDashboardStats.ts:35-36 | running + queued + starting is the size of the Jobs page's ACTIVE tab, and running + queued never exceeds the job count |
| DashboardStats.RecentLength | src/hooks/useDashboardStats.ts:38-40 | there are min(5, jobs) recent jobs |
| DashboardStats.RecentNewestFirst | src/hooks/useDashboardStats.ts:38-40 | recent jobs are listed newest first |
| DashboardStats.RecentAreNewest | src/hooks/useDashboardStats.ts:38-40 | recent jobs are drawn from the fetched jobs, and no job left out is newer than one shown |
| DashboardStats.RecentIsHeadOfJobsPage | src/hooks/useDashboardStats.ts:38-40 | the recent jobs are the first five rows of the Jobs page with an empty search, ALL tab and 'desc' order |
| DashboardStats.NodeCountsPartition | src/hooks/useDashboardStats.ts:42-44 | active, offline and BUSY nodes add up to all nodes |
| DashboardStats.OfflineCountPositive | src/hooks/useDashboardStats.ts:43 | the offline count is positive iff some node is OFFLINE or DOWN |
| DashboardStats.AllBusyIffNoActiveNoOffline | src/hooks/useDashboardStats.ts:42-44 | no node is active or offline iff every node is BUSY |
| DashboardStats.RamAdds | src/hooks/useDashboardStats.ts:49-50 | the RAM totals add over concatenated node lists, a missing reading counting 0 |
| DashboardStats.RamUsedWithinTotal | src/hooks/useDashboardStats.ts:49-50 | if each node uses at most its memory, the cluster does too |
| DashboardStats.RamTotalZero | src/hooks/useDashboardStats.ts:50 | with non-negative readings, the total is 0 iff no node reports memory |
| DashboardStats.RoundIsNearest | src/hooks/useDashboardStats.ts:56 | the rounded mean is within one half of a/b, halves rounding up |
| DashboardStats.UtilizationIsPercentage | src/hooks/useDashboardStats.ts:46-47 | with readings in 0..100 the utilisation is in 0..100, and 0 for no nodes |
| DashboardStats.RoundOfPercentMean | src/hooks/useDashboardStats.ts:56 | `Math.round` of a mean a/b with 0 ≤ a ≤ 100·b is an integer in 0..100 |
| DashboardStats.UtilizationSumBounds | src/hooks/useDashboardStats.ts:46 | with readings in 0..100 the sum is in 0..100·n |
| DashboardStats.InitialIsEmptyCluster | src/hooks/useDashboardStats.ts:6-15 | the initial figures are those of an empty cluster |
| DashboardStats.RefreshOutcome | src/hooks/useDashboardStats.ts:20-66 | a non-array body keeps the previous figures; otherwise the figures depend only on what was fetched |
| DashboardStats.FailedFetchIsolated | src/hooks/useDashboardStats.ts:21-33 | a failed or null jobs fetch zeroes only the job figures, and a failed nodes fetch only the node figures |
| DashboardStats.StatsHook.constructor | src/hooks/useDashboardStats.ts:6-16 | initial figures, loading |
| DashboardStats.StatsHook.FetchData | src/hooks/useDashboardStats.ts:19-67 | one round sets the figures as `Refresh` says and clears loading |
| NodeOrder.Compare | src/hooks/useNodes.ts:31-33 | the -1/1/0 comparator; stated by `CompareIsRankDifference` |
| NodeOrder.CompareIsRankDifference | src/hooks/useNodes.ts:30-34 | the comparator is the difference of the UP ranks |
| NodeOrder.GroupsAreKeyGroups | src/hooks/useNodes.ts:30-34 | rank 0 is the UP nodes and rank 1 the others |
| NodeOrder.SortedNodes | src/hooks/useNodes.ts:30-34 | `sortedNodes`; stated by `SortedNodesIsPartition`, `SortedNodesPermutes`, `UpNodesFirst` and `GroupsKeepFetchedOrder` |
| NodeOrder.UpNodesAreUp | src/hooks/useNodes.ts:30-34 | the UP group holds only UP nodes and the other group none |
| NodeOrder.GroupIsItsOwnFilter | src/hooks/useNodes.ts:30-34 | filtering a group again changes nothing |
| NodeOrder.SortedNodesIsPartition | src/hooks/useNodes.ts:30-34 | the sorted list is the UP nodes in fetched order followed by all other nodes in fetched order |
| NodeOrder.SortedNodesPermutes | src/hooks/useNodes.ts:30 | the sorted copy holds exactly the fetched nodes |
| NodeOrder.UpNodesFirst | src/hooks/useNodes.ts:30-34 | every UP node precedes every node of another status |
| NodeOrder.GroupsKeepFetchedOrder | src/hooks/useNodes.ts:30-34 | within the UP group and within the rest, fetched order is kept; READY, BUSY, OFFLINE and DOWN are not reordered among themselves |
| NodeOrder.NoUpNodesNoChange | src/hooks/useNodes.ts:30-34 | a list without UP nodes comes back unchanged |
| NodeOrder.NoUpIsOther | src/hooks/useNodes.ts:30-34 | without UP nodes all nodes fall in the other group |
| Dashboard.ClusterHealth | src/pages/Dashboard.tsx:85-100 | the Cluster Health card's choice; stated by `HealthOfCluster` and `HealthWhileLoading` |
| Dashboard.NodeNoun | src/pages/Dashboard.tsx:88 | the singular or plural noun; stated by `OfflineNoun` |
| Dashboard.ShowsSyncing | src/pages/Dashboard.tsx:43-46 | the RAM placeholder's condition; stated by `SyncingPlaceholder` |
| Dashboard.HealthOfCluster | src/pages/Dashboard.tsx:85-100 | the offline alert shows iff some node is OFFLINE or DOWN, and then counts them; "Awaiting node registration" shows iff loading is over and every node is BUSY; otherwise "fully healthy" |
| Dashboard.HealthWhileLoading | src/pages/Dashboard.tsx:90 | while loading the card never waits for registration; the initial state reads healthy, a fetched empty cluster awaits registration |
| Dashboard.OfflineNoun | src/pages/Dashboard.tsx:88 | the noun is "node" exactly when one node is offline |
| Dashboard.SyncingPlaceholder | src/pages/Dashboard.tsx:43-46 | with non-negative memory readings, only the RAM card shows "Syncing Resources...", and it does so iff loading is over and no node reports memory |

## Left out

- The control plane (scheduler, agents, database, authentication) is not part of this model; only the client's logic is.
- HTTP, the 5-second polling intervals and the promise plumbing are out of scope. A fetch is a parameter, `DashboardStats.Fetch`, and a completed round is one call of `StatsHook.FetchData`.
- Log streaming (`useJobLogs`), the logs modal, job submission and cancellation requests are out of scope: they are I/O.
- Rendering, colour maps, icons and the expanded-row toggle are out of scope: they decide how things look, not what is shown.
- Jobs.ProcessedJobs: `created_at` is carried as the integer `new Date(...).getTime()` yields. Date parsing, invalid dates (NaN, which makes the JavaScript comparator inconsistent) and locale formatting are not modelled.
- Jobs.ProcessedJobs: takes the fetched list as a sequence. A null list is the model's `[]`, as `jobs ? [...jobs] : []` (src/pages/Jobs.tsx:31) makes it. A truthy non-array body, such as the `{}` of src/lib/api.ts:25-27 stored by `setJobs`, makes `[...jobs]` throw while rendering; that failure is not modelled.
- NodeOrder.SortedNodes: takes the fetched list as a sequence. src/hooks/useNodes.ts:30 spreads `nodes` unguarded, so a null list or a non-array body stored by `setNodes` throws; that failure is not modelled.
- Jobs.MatchesSearch: `toLowerCase` is ASCII-only here; Unicode case mappings are not modelled.
- Jobs.ProcessedJobs: `Array.prototype.sort` sorts its copy in place; the model gives the sorted sequence as a value, which is all the copy is used for.
- DashboardStats.GpuUtilization: readings are integers and the mean is rounded exactly. Floating-point division error and fractional readings are not modelled.
- JobsTable.FormatTimestamp: the time-of-day formatting of a real stamp is not modelled; the model returns the stamp itself to stand for it.
- JobsView.JobsPage.GoToPage: requires a page in 1..totalPages (what `PagerButtonsInRange` proves every numbered button is), rather than membership in the pager's list.
- JobsView.JobsPage.GoPrevious and GoNext: require more than one page, since the pager is only shown then; the buttons' disabled state at the ends does not change the result, because the clamps already return the same page.
- JobsTable.TimestampSentinel: covers the queued, started and finished stamps. The expanded row also passes `created_at` through `formatTimestamp` (src/components/jobs/JobsTable.tsx:195). `created_at` is carried as a parsed integer here, so the sentinel test on its text is not modelled, and neither is the locale formatting of the Created column (line 121).
