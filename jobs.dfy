/** The Jobs page's list pipeline: search, status class, order by creation
    time, page count and the slice shown on the current page. */
module Jobs {
  import opened Types
  import opened Text
  import opened StableSort

  /** The three status tabs. */
  datatype StatusFilter = ALL | ACTIVE | DONE

  datatype SortOrder = Desc | Asc

  /** The ACTIVE tab's states. */
  predicate IsActive(s: JobState)
  {
    s == QUEUED || s == RUNNING || s == STARTING
  }

  /** The DONE tab's states. */
  predicate IsDone(s: JobState)
  {
    s == SUCCEEDED || s == FAILED || s == CANCELED || s == LOST
  }

  /** The query occurs, ignoring case, in the id, the command or the owner;
      a job without an owner can match only through id or command. */
  predicate MatchesSearch(job: Job, query: string)
  {
    var q := Lower(query);
    Contains(Lower(job.id), q)
    || Contains(Lower(job.command), q)
    || (job.ownerId.Some? && Contains(Lower(job.ownerId.value), q))
  }

  predicate MatchesStatus(job: Job, filter: StatusFilter)
  {
    filter == ALL
    || (filter == ACTIVE && IsActive(job.state))
    || (filter == DONE && IsDone(job.state))
  }

  predicate Keep(job: Job, query: string, filter: StatusFilter)
  {
    MatchesSearch(job, query) && MatchesStatus(job, filter)
  }

  /** `result.filter(...)`: the kept jobs, in their original order. */
  function FilterJobs(jobs: seq<Job>, query: string, filter: StatusFilter): (r: seq<Job>)
    ensures |r| <= |jobs|
  {
    if jobs == [] then []
    else (if Keep(jobs[0], query, filter) then [jobs[0]] else []) + FilterJobs(jobs[1..], query, filter)
  }

  /** The comparator `dateB - dateA` ('desc') or `dateA - dateB` ('asc'),
      written as an ascending key. */
  function SortKey(order: SortOrder): Job -> int
  {
    if order == Desc then (j: Job) => -j.createdAt else (j: Job) => j.createdAt
  }

  /** `processedJobs`: filter a copy of the list, then sort it stably by creation time. */
  function ProcessedJobs(jobs: seq<Job>, query: string, filter: StatusFilter, order: SortOrder): seq<Job>
  {
    SortBy(FilterJobs(jobs, query, filter), SortKey(order))
  }

  // ---------------------------------------------------------------- filter

  /** A job is kept exactly when search and status both match, and it is kept
      as many times as it occurs. */
  lemma {:induction false} FilterKeepsExactlyMatches(jobs: seq<Job>, query: string, filter: StatusFilter)
    ensures forall j :: multiset(FilterJobs(jobs, query, filter))[j]
                        == if Keep(j, query, filter) then multiset(jobs)[j] else 0
  {
    if jobs != [] {
      FilterKeepsExactlyMatches(jobs[1..], query, filter);
      assert jobs == [jobs[0]] + jobs[1..];
    }
  }

  lemma FilterMembership(jobs: seq<Job>, query: string, filter: StatusFilter, j: Job)
    ensures j in FilterJobs(jobs, query, filter) <==> j in jobs && Keep(j, query, filter)
  {
    FilterKeepsExactlyMatches(jobs, query, filter);
    assert j in FilterJobs(jobs, query, filter) <==> multiset(FilterJobs(jobs, query, filter))[j] > 0;
    assert j in jobs <==> multiset(jobs)[j] > 0;
  }

  lemma StateClasses(s: JobState)
    ensures IsActive(s) <==> !IsDone(s)
  {
  }

  /** ACTIVE and DONE split the seven states, so their tabs split the ALL tab. */
  lemma {:induction false} ActivePlusDoneIsAll(jobs: seq<Job>, query: string)
    ensures |FilterJobs(jobs, query, ACTIVE)| + |FilterJobs(jobs, query, DONE)|
            == |FilterJobs(jobs, query, ALL)|
  {
    if jobs != [] {
      ActivePlusDoneIsAll(jobs[1..], query);
      StateClasses(jobs[0].state);
    }
  }

  /** An empty search on the ALL tab keeps every job, in order. */
  lemma {:induction false} EmptySearchKeepsAll(jobs: seq<Job>)
    ensures FilterJobs(jobs, "", ALL) == jobs
  {
    if jobs != [] {
      ContainsEmpty(Lower(jobs[0].id));
      EmptySearchKeepsAll(jobs[1..]);
    }
  }

  /** Matching ignores the case of the query. */
  lemma SearchIgnoresQueryCase(job: Job, query: string)
    ensures MatchesSearch(job, query) == MatchesSearch(job, Lower(query))
  {
    LowerIdempotent(query);
  }

  /** Matching ignores the case of the job's fields. */
  lemma SearchIgnoresFieldCase(a: Job, b: Job, query: string)
    requires Lower(a.id) == Lower(b.id) && Lower(a.command) == Lower(b.command)
    requires a.ownerId.Some? == b.ownerId.Some?
    requires a.ownerId.Some? ==> Lower(a.ownerId.value) == Lower(b.ownerId.value)
    ensures MatchesSearch(a, query) == MatchesSearch(b, query)
  {
  }

  /** Without an owner, the search is the disjunction over id and command. */
  lemma OwnerlessMatch(job: Job, query: string)
    requires job.ownerId.None?
    ensures MatchesSearch(job, query) <==>
      Contains(Lower(job.id), Lower(query)) || Contains(Lower(job.command), Lower(query))
  {
  }

  /** Without an owner, only the id and the command are searched, each for
      some case-insensitive occurrence of the query. */
  lemma OwnerlessSearch(job: Job, query: string)
    requires job.ownerId.None?
    ensures MatchesSearch(job, query) <==>
      (exists i :: OccursAt(Lower(job.id), Lower(query), i))
      || (exists i :: OccursAt(Lower(job.command), Lower(query), i))
  {
    OwnerlessMatch(job, query);
    var q := Lower(query);
    ContainsIffOccurs(Lower(job.id), q);
    ContainsIffOccurs(Lower(job.command), q);
  }

  // ---------------------------------------------------------------- order

  lemma ProcessedIsPermutationOfFiltered(jobs: seq<Job>, query: string, filter: StatusFilter, order: SortOrder)
    ensures multiset(ProcessedJobs(jobs, query, filter, order)) == multiset(FilterJobs(jobs, query, filter))
  {
    SortByPermutes(FilterJobs(jobs, query, filter), SortKey(order));
  }

  /** Newest first for 'desc', oldest first for 'asc'. */
  lemma ProcessedIsOrdered(jobs: seq<Job>, query: string, filter: StatusFilter, order: SortOrder)
    ensures var r := ProcessedJobs(jobs, query, filter, order);
      forall i, j :: 0 <= i < j < |r| ==>
        if order == Desc then r[i].createdAt >= r[j].createdAt else r[i].createdAt <= r[j].createdAt
  {
    var key := SortKey(order);
    var r := ProcessedJobs(jobs, query, filter, order);
    SortBySorted(FilterJobs(jobs, query, filter), key);
    forall i, j | 0 <= i < j < |r|
      ensures if order == Desc then r[i].createdAt >= r[j].createdAt else r[i].createdAt <= r[j].createdAt
    {
      assert key(r[i]) <= key(r[j]);
    }
  }

  /** Filtering keeps, for every key, the jobs with that key in their order:
      picking one key group and filtering commute. */
  lemma {:induction false} FilterCommutesWithKey(jobs: seq<Job>, query: string, filter: StatusFilter, key: Job -> int, k: int)
    ensures WithKey(FilterJobs(jobs, query, filter), key, k) == FilterJobs(WithKey(jobs, key, k), query, filter)
  {
    if jobs != [] {
      var j, rest := jobs[0], jobs[1..];
      FilterCommutesWithKey(rest, query, filter, key, k);
      var kept := if Keep(j, query, filter) then [j] else [];
      assert FilterJobs(jobs, query, filter) == kept + FilterJobs(rest, query, filter);
      WithKeyAppend(kept, FilterJobs(rest, query, filter), key, k);
      if key(j) == k {
        assert WithKey(jobs, key, k) == [j] + WithKey(rest, key, k);
        assert ([j] + WithKey(rest, key, k))[1..] == WithKey(rest, key, k);
      } else {
        assert WithKey(jobs, key, k) == WithKey(rest, key, k);
      }
    }
  }

  /** Jobs created at the same time keep the order the filtered list had. */
  lemma ProcessedKeepsTies(jobs: seq<Job>, query: string, filter: StatusFilter, order: SortOrder)
    ensures KeepsTiesInOrder(ProcessedJobs(jobs, query, filter, order), FilterJobs(jobs, query, filter), SortKey(order))
  {
    SortByKeepsTies(FilterJobs(jobs, query, filter), SortKey(order));
  }

  /** Jobs created at the same time appear in the order they were fetched:
      for every creation time, the rows with it are the fetched jobs with it,
      filtered. */
  lemma ProcessedKeepsFetchedOrder(jobs: seq<Job>, query: string, filter: StatusFilter, order: SortOrder, k: int)
    ensures WithKey(ProcessedJobs(jobs, query, filter, order), SortKey(order), k)
         == FilterJobs(WithKey(jobs, SortKey(order), k), query, filter)
  {
    SortByKeepsTies(FilterJobs(jobs, query, filter), SortKey(order));
    FilterCommutesWithKey(jobs, query, filter, SortKey(order), k);
  }

  /** Every stable sort of the filtered jobs by creation time gives exactly
      `processedJobs`, whatever algorithm the engine uses. */
  lemma ProcessedIsTheStableSort(r: seq<Job>, jobs: seq<Job>, query: string, filter: StatusFilter, order: SortOrder)
    requires Sorted(r, SortKey(order))
    requires KeepsTiesInOrder(r, FilterJobs(jobs, query, filter), SortKey(order))
    ensures r == ProcessedJobs(jobs, query, filter, order)
  {
    IsSortBy(r, FilterJobs(jobs, query, filter), SortKey(order));
  }

  // ---------------------------------------------------------------- pages

  /** `Math.ceil(n / pageSize)`. */
  function TotalPages(n: nat, pageSize: int): (t: nat)
    requires pageSize >= 1
  {
    (n + pageSize - 1) / pageSize
  }

  /** t is the ceiling of n / pageSize: the least number of pages of
      pageSize rows that hold n rows. */
  lemma TotalPagesIsCeiling(n: nat, pageSize: int)
    requires pageSize >= 1
    ensures TotalPages(n, pageSize) * pageSize >= n
    ensures (TotalPages(n, pageSize) - 1) * pageSize < n || n == 0
    ensures TotalPages(n, pageSize) == 0 <==> n == 0
  {
    var t := TotalPages(n, pageSize);
    var r := (n + pageSize - 1) % pageSize;
    assert n + pageSize - 1 == t * pageSize + r;
    assert (t - 1) * pageSize == t * pageSize - pageSize;
  }

  /** `Array.prototype.slice(start, end)`: negative bounds count from the end,
      bounds past the end are cut to the length. */
  function JsSlice<T>(s: seq<T>, start: int, end: int): (r: seq<T>)
  {
    var lo := if start < 0 then Max(|s| + start, 0) else Min(start, |s|);
    var hi := if end < 0 then Max(|s| + end, 0) else Min(end, |s|);
    if lo < hi then s[lo..hi] else []
  }

  function Min(a: int, b: int): int { if a <= b then a else b }
  function Max(a: int, b: int): int { if a >= b then a else b }

  /** `paginatedJobs`: rows (page-1)*pageSize up to (but excluding) page*pageSize. */
  function PageSlice<T>(s: seq<T>, page: int, pageSize: int): seq<T>
  {
    var start := (page - 1) * pageSize;
    JsSlice(s, start, start + pageSize)
  }

  /** With bounds that are not negative, `slice` is the rows between the
      bounds, each cut to the length. */
  lemma SliceNonNegative<T>(s: seq<T>, start: int, end: int)
    requires 0 <= start <= end
    ensures Min(start, |s|) <= Min(end, |s|)
    ensures JsSlice(s, start, end) == s[Min(start, |s|)..Min(end, |s|)]
  {
  }

  /** Page p starts (p-1)*pageSize rows in and ends pageSize rows later. */
  lemma PageBounds(page: int, pageSize: int)
    requires page >= 1 && pageSize >= 1
    ensures 0 <= (page - 1) * pageSize
    ensures (page - 1) * pageSize + pageSize == page * pageSize
  {
    MulMonotone(0, page - 1, pageSize);
  }

  /** For a page of at least 1, the slice is the rows from (page-1)*pageSize
      to min(page*pageSize, n), so never more than pageSize of them. */
  lemma PageSliceRows<T>(s: seq<T>, page: int, pageSize: int)
    requires page >= 1 && pageSize >= 1
    ensures var lo := Min((page - 1) * pageSize, |s|);
      var hi := Min(page * pageSize, |s|);
      lo <= hi && PageSlice(s, page, pageSize) == s[lo..hi]
    ensures |PageSlice(s, page, pageSize)| <= pageSize
  {
    PageBounds(page, pageSize);
    var start := (page - 1) * pageSize;
    SliceNonNegative(s, start, start + pageSize);
  }

  /** A page at or after the first is nonempty exactly when it is at most
      the page count. */
  lemma PageNonEmptyIffInRange<T>(s: seq<T>, page: int, pageSize: int)
    requires page >= 1 && pageSize >= 1
    ensures PageSlice(s, page, pageSize) != [] <==> page <= TotalPages(|s|, pageSize)
  {
    var n, t := |s|, TotalPages(|s|, pageSize);
    var lo := (page - 1) * pageSize;
    PageBounds(page, pageSize);
    SliceNonNegative(s, lo, lo + pageSize);
    TotalPagesIsCeiling(n, pageSize);
    if page <= t {
      MulMonotone(page - 1, t - 1, pageSize);
      assert lo < n;
      assert Min(lo, n) < Min(lo + pageSize, n);
    } else {
      MulMonotone(t, page - 1, pageSize);
      assert n <= lo;
      assert Min(lo, n) == Min(lo + pageSize, n);
    }
  }

  lemma MulMonotone(a: int, b: int, c: int)
    requires a <= b && c >= 0
    ensures a * c <= b * c
  {
    assert b * c - a * c == (b - a) * c;
  }

  /** Pages 1..k laid end to end. */
  function PagesUpTo<T>(s: seq<T>, pageSize: int, k: nat): seq<T>
  {
    if k == 0 then [] else PagesUpTo(s, pageSize, k - 1) + PageSlice(s, k, pageSize)
  }

  /** The rows up to `a`, then those from `a` to `b`, are the rows up to `b`. */
  lemma PrefixThenSlice<T>(s: seq<T>, a: int, b: int)
    requires 0 <= a <= b
    ensures s[..Min(a, |s|)] + s[Min(a, |s|)..Min(b, |s|)] == s[..Min(b, |s|)]
  {
  }

  lemma {:induction false} PagesUpToIsPrefix<T>(s: seq<T>, pageSize: int, k: nat)
    requires pageSize >= 1
    ensures PagesUpTo(s, pageSize, k) == s[..Min(k * pageSize, |s|)]
  {
    if k > 0 {
      var lo := (k - 1) * pageSize;
      PageBounds(k, pageSize);
      PagesUpToIsPrefix(s, pageSize, k - 1);
      SliceNonNegative(s, lo, lo + pageSize);
      PrefixThenSlice(s, lo, lo + pageSize);
      assert PagesUpTo(s, pageSize, k) == s[..Min(lo, |s|)] + JsSlice(s, lo, lo + pageSize);
    }
  }

  /** Pages 1..totalPages laid end to end give back the whole list. */
  lemma PagesCoverAll<T>(s: seq<T>, pageSize: int)
    requires pageSize >= 1
    ensures PagesUpTo(s, pageSize, TotalPages(|s|, pageSize)) == s
  {
    PagesUpToIsPrefix(s, pageSize, TotalPages(|s|, pageSize));
    TotalPagesIsCeiling(|s|, pageSize);
  }
}
