/** The jobs table: the pager's page list, the previous/next buttons, the
    "Showing X to Y of N" caption, and the per-row rules. */
module JobsTable {
  import opened Types
  import opened Jobs

  /** One entry of the pager: a page button or a `...` marker. */
  datatype PageItem = Number(n: int) | Ellipsis

  const MaxVisible: int := 10

  /** `Math.floor((maxVisible - 5) / 2)`, which is 2. */
  const SideBuffer: int := (MaxVisible - 5) / 2

  /** The page numbers grow strictly from left to right. */
  ghost predicate NumbersIncrease(pages: seq<PageItem>)
  {
    forall i, j :: 0 <= i < j < |pages| && pages[i].Number? && pages[j].Number? ==> pages[i].n < pages[j].n
  }

  /** Every `...` sits between two numbers and stands for at least one page
      that has no button. */
  ghost predicate EllipsesMarkGaps(pages: seq<PageItem>)
  {
    forall i :: 0 <= i < |pages| && pages[i].Ellipsis? ==>
      0 < i < |pages| - 1 && pages[i - 1].Number? && pages[i + 1].Number?
      && pages[i - 1].n + 1 < pages[i + 1].n
  }

  /** Two numbers with no `...` between them are consecutive pages. */
  ghost predicate NeighboursConsecutive(pages: seq<PageItem>)
  {
    forall i :: 0 <= i < |pages| - 1 && pages[i].Number? && pages[i + 1].Number? ==>
      pages[i + 1].n == pages[i].n + 1
  }

  /** The buttons `start`, `start+1`, ..., `end-1`. */
  ghost function Run(start: int, end: int): seq<PageItem>
    requires start <= end
  {
    seq(end - start, k => Number(start + k))
  }

  /** What the pager shows for `page` of `totalPages`: every page when there
      are at most ten (none when there are none); otherwise at most nine
      entries from 1 to totalPages, whose buttons are exactly the first and
      last page and the pages within two of the current one, with a `...`
      after the first page iff page > 4 and before the last iff
      page < totalPages - 3 (for a page in range). In every case the current
      page in range has a button, numbers strictly increase, each `...`
      stands for at least one page, and buttons not separated by `...` are
      consecutive pages. */
  ghost predicate IsPager(page: int, totalPages: int, pages: seq<PageItem>)
  {
    && (totalPages <= 10 ==> pages == seq(Max(totalPages, 0), k => Number(k + 1)))
    && (totalPages > 10 ==>
      && 3 <= |pages| <= 9
      && pages[0] == Number(1) && pages[|pages| - 1] == Number(totalPages)
      && (forall k :: Number(k) in pages <==>
            (k == 1 || k == totalPages || (2 <= k <= totalPages - 1 && page - 2 <= k <= page + 2)))
      && (1 <= page <= totalPages ==>
            && (pages[1] == Ellipsis <==> page > 4)
            && (pages[|pages| - 2] == Ellipsis <==> page < totalPages - 3)))
    && (1 <= page <= totalPages ==> Number(page) in pages)
    && NumbersIncrease(pages) && EllipsesMarkGaps(pages) && NeighboursConsecutive(pages)
  }

  /** On a stale page past the last one (the list shrank under it), the
      current page has no button; with more than ten pages, every button
      but the first is within two pages below it or is the last page. */
  lemma PagerPastLastPage(page: int, totalPages: int, pages: seq<PageItem>)
    requires IsPager(page, totalPages, pages) && page > totalPages
    ensures Number(page) !in pages
    ensures totalPages > 10 ==> forall k :: Number(k) in pages ==> k == 1 || k == totalPages || page - 2 <= k
  {
    if totalPages <= 10 {
      forall i | 0 <= i < |pages| ensures pages[i] != Number(page) {
        assert pages[i] == Number(i + 1) && i + 1 <= totalPages;
      }
    }
  }

  /** `getPageNumbers`, built by pushing onto a list as the source does. */
  method GetPageNumbers(page: int, totalPages: int) returns (pages: seq<PageItem>)
    ensures IsPager(page, totalPages, pages)
  {
    pages := [];
    if totalPages <= MaxVisible {
      var i := 1;
      while i <= totalPages
        invariant 1 <= i <= Max(totalPages, 0) + 1
        invariant pages == seq(i - 1, k => Number(k + 1))
      {
        pages := pages + [Number(i)];
        i := i + 1;
      }
      CountingUp(page, totalPages);
    } else {
      assert SideBuffer == 2;
      pages := pages + [Number(1)];
      if page > SideBuffer + 2 {
        pages := pages + [Ellipsis];
      }
      ghost var head := pages;
      var start := Max(2, page - SideBuffer);
      var end := Min(totalPages - 1, page + SideBuffer);
      var i := start;
      while i <= end
        invariant start <= i <= Max(start, end + 1)
        invariant pages == head + Run(start, i)
      {
        pages := pages + [Number(i)];
        i := i + 1;
      }
      assert start == First(page) && i == First(page) + MidLen(page, totalPages);
      ghost var middle := Run(start, i);
      assert pages == head + middle;
      if page < totalPages - (SideBuffer + 1) {
        pages := pages + [Ellipsis];
      }
      pages := pages + [Number(totalPages)];
      assert pages == Window(page, totalPages);
      WindowProperties(page, totalPages);
    }
  }

  /** Every button of the pager is a page that exists. */
  lemma PagerButtonsInRange(page: int, totalPages: int, pages: seq<PageItem>)
    requires IsPager(page, totalPages, pages)
    ensures forall p :: Number(p) in pages ==> 1 <= p <= totalPages
  {
    forall p | Number(p) in pages ensures 1 <= p <= totalPages {
      var i :| 0 <= i < |pages| && pages[i] == Number(p);
      if totalPages <= 10 {
        assert pages[i] == Number(i + 1);
      }
    }
  }

  /** 1, 2, ..., n without markers. */
  lemma CountingUp(page: int, totalPages: int)
    requires totalPages <= 10
    ensures IsPager(page, totalPages, seq(Max(totalPages, 0), k => Number(k + 1)))
  {
    if 1 <= page <= totalPages {
      assert seq(Max(totalPages, 0), k => Number(k + 1))[page - 1] == Number(page);
    }
  }

  // The long-list shape, position by position.

  /** 1 when a `...` follows the first page. */
  function Lead(page: int): int { if page > 4 then 1 else 0 }

  /** 1 when a `...` precedes the last page. */
  function Trail(page: int, t: int): int { if page < t - 3 then 1 else 0 }

  /** The first middle button, `Math.max(2, page - sideBuffer)`. */
  function First(page: int): int { Max(2, page - 2) }

  /** The number of middle buttons, from `start` to `end` inclusive. */
  function MidLen(page: int, t: int): int { Max(0, Min(t - 1, page + 2) - First(page) + 1) }

  ghost function Window(page: int, t: int): seq<PageItem>
  {
    [Number(1)] + (if page > 4 then [Ellipsis] else [])
    + Run(First(page), First(page) + MidLen(page, t))
    + (if page < t - 3 then [Ellipsis] else []) + [Number(t)]
  }

  ghost function ItemAt(page: int, t: int, p: int): PageItem
  {
    var lead, mid := Lead(page), MidLen(page, t);
    if p == 0 then Number(1)
    else if p < 1 + lead then Ellipsis
    else if p < 1 + lead + mid then Number(First(page) + p - 1 - lead)
    else if p < 1 + lead + mid + Trail(page, t) then Ellipsis
    else Number(t)
  }

  lemma WindowIsItems(page: int, t: int)
    ensures Window(page, t) == seq(2 + Lead(page) + MidLen(page, t) + Trail(page, t), p => ItemAt(page, t, p))
  {
  }

  lemma WindowProperties(page: int, t: int)
    requires t > 10
    ensures IsPager(page, t, Window(page, t))
  {
    WindowIsItems(page, t);
    var pages := Window(page, t);
    assert Lead(page) + Trail(page, t) >= 1;
    WindowNumbers(page, t);
    WindowContents(page, t);
    WindowGaps(page, t);
  }

  lemma WindowNumbers(page: int, t: int)
    requires t > 10
    ensures NumbersIncrease(Window(page, t)) && NeighboursConsecutive(Window(page, t))
  {
    WindowIsItems(page, t);
  }

  lemma WindowContents(page: int, t: int)
    requires t > 10
    ensures forall k :: Number(k) in Window(page, t) <==>
      (k == 1 || k == t || (2 <= k <= t - 1 && page - 2 <= k <= page + 2))
  {
    WindowIsItems(page, t);
    var pages := Window(page, t);
    var lead := Lead(page);
    forall k ensures Number(k) in pages <==> (k == 1 || k == t || (2 <= k <= t - 1 && page - 2 <= k <= page + 2)) {
      if 2 <= k <= t - 1 && page - 2 <= k <= page + 2 {
        assert pages[1 + lead + k - First(page)] == Number(k);
      }
      if k == t {
        assert pages[|pages| - 1] == Number(t);
      }
    }
  }

  lemma WindowGaps(page: int, t: int)
    requires t > 10
    ensures EllipsesMarkGaps(Window(page, t))
  {
    WindowIsItems(page, t);
  }

  // ---------------------------------------------------------------- pager buttons

  /** The previous button: `Math.max(1, page - 1)`. */
  function PrevPage(page: int): int
  {
    Max(1, page - 1)
  }

  /** The next button: `Math.min(totalPages, page + 1)`. */
  function NextPage(page: int, totalPages: int): int
  {
    Min(totalPages, page + 1)
  }

  /** From a page within range, both buttons land within range, one step
      away unless already at that end. */
  lemma PrevNextStayInRange(page: int, totalPages: int)
    requires 1 <= page <= totalPages
    ensures 1 <= PrevPage(page) <= totalPages && 1 <= NextPage(page, totalPages) <= totalPages
    ensures PrevPage(page) == if page == 1 then 1 else page - 1
    ensures NextPage(page, totalPages) == if page == totalPages then totalPages else page + 1
  {
  }

  // ---------------------------------------------------------------- caption

  /** The "Showing X to Y of N" caption's X and Y. */
  function ShowingRange(page: int, pageSize: int, totalCount: int): (int, int)
  {
    (if totalCount > 0 then (page - 1) * pageSize + 1 else 0, Min(page * pageSize, totalCount))
  }

  /** An empty list reads "Showing 0 to 0". */
  lemma ShowingEmpty(page: int, pageSize: int)
    requires page >= 1 && pageSize >= 1
    ensures ShowingRange(page, pageSize, 0) == (0, 0)
  {
    assert page * pageSize >= 1 * pageSize;
  }

  /** On a page within range the caption names exactly the rows the table
      shows: X-1 is the index of the first shown row and Y-X+1 their number. */
  lemma ShowingMatchesPage<T>(s: seq<T>, page: int, pageSize: int)
    requires pageSize >= 1 && 1 <= page <= TotalPages(|s|, pageSize)
    ensures var (x, y) := ShowingRange(page, pageSize, |s|);
      var rows := PageSlice(s, page, pageSize);
      1 <= x <= y <= |s| && y - x + 1 == |rows|
      && forall i :: 0 <= i < |rows| ==> rows[i] == s[x - 1 + i]
  {
    PageSliceRows(s, page, pageSize);
    PageNonEmptyIffInRange(s, page, pageSize);
    var lo := (page - 1) * pageSize;
    var hi := Min(page * pageSize, |s|);
    assert page * pageSize == lo + pageSize;
    assert lo < |s|;
    var rows := PageSlice(s, page, pageSize);
    assert rows == s[lo..hi];
    assert ShowingRange(page, pageSize, |s|) == (lo + 1, hi);
  }

  /** A page past the last one (reachable when a search or tab change
      shortens the list and the current page is kept) shows no rows, and
      its caption starts after it ends. */
  lemma ShowingPastLastPage<T>(s: seq<T>, page: int, pageSize: int)
    requires pageSize >= 1 && |s| > 0 && page > TotalPages(|s|, pageSize)
    ensures PageSlice(s, page, pageSize) == []
    ensures ShowingRange(page, pageSize, |s|).0 > ShowingRange(page, pageSize, |s|).1
  {
    PageNonEmptyIffInRange(s, page, pageSize);
    PageSliceRows(s, page, pageSize);
    TotalPagesIsCeiling(|s|, pageSize);
    MulMonotone(TotalPages(|s|, pageSize), page - 1, pageSize);
  }

  // ---------------------------------------------------------------- rows

  /** The terminate button is rendered for QUEUED, RUNNING and STARTING. */
  predicate CanCancel(s: JobState)
  {
    s in [QUEUED, RUNNING, STARTING]
  }

  /** The logs button is rendered for every state except QUEUED. */
  predicate ShowsLogs(s: JobState)
  {
    s != QUEUED
  }

  /** Cancel is offered exactly on the ACTIVE tab's states; logs exactly on
      jobs that have started or finished; every row has at least one action. */
  lemma RowActions(s: JobState)
    ensures CanCancel(s) <==> IsActive(s)
    ensures ShowsLogs(s) <==> IsDone(s) || s == RUNNING || s == STARTING
    ensures CanCancel(s) || ShowsLogs(s)
  {
  }

  /** The exit-code cell: the code (possibly absent) or `---`. */
  datatype ExitCell = Code(code: Option<int>) | Dashes

  function ExitCodeCell(job: Job): ExitCell
  {
    if job.state == SUCCEEDED || job.state == FAILED then Code(job.exitCode) else Dashes
  }

  /** The code is shown only for the two finished states that have one:
      never for an active job, nor for a canceled or lost one. */
  lemma ExitCodeShownOnlyWhenExited(job: Job)
    ensures ExitCodeCell(job).Code? <==> IsDone(job.state) && job.state != CANCELED && job.state != LOST
    ensures ExitCodeCell(job).Code? ==> ExitCodeCell(job).code == job.exitCode
  {
  }

  /** A timeline cell: the `--:--` placeholder or the formatted clock time. */
  datatype TimeCell = Placeholder | Clock(ts: string)

  /** `formatTimestamp`: absent, empty or year-0001 stamps (the server's zero
      time) show the placeholder; the clock formatting itself is locale code. */
  function FormatTimestamp(ts: Option<string>): TimeCell
  {
    if ts.None? || ts.value == "" || "0001" <= ts.value then Placeholder else Clock(ts.value)
  }

  /** The placeholder shows exactly for an absent stamp, an empty one, and
      one in year 0001; any other stamp is formatted. */
  lemma TimestampSentinel(rest: string, ts: string)
    ensures FormatTimestamp(None) == Placeholder
    ensures FormatTimestamp(Some("0001" + rest)) == Placeholder
    ensures FormatTimestamp(Some(ts)) == Placeholder <==> ts == "" || "0001" <= ts
    ensures FormatTimestamp(Some(ts)) != Placeholder ==> FormatTimestamp(Some(ts)) == Clock(ts)
  {
  }
}
