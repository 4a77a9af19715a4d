/** The Jobs page's UI state: the fetched list, the search box, the status
    tab, the sort order, the current page and the page size, each a React
    state variable that the page's handlers overwrite. */
module JobsView {
  import opened Types
  import opened Jobs
  import opened JobsTable

  /** The page sizes the "Per Page" selector offers. */
  const PageSizeOptions: seq<int> := [10, 20, 30, 50, 100]

  class JobsPage {
    var jobs: seq<Job>
    var searchQuery: string
    var filterStatus: StatusFilter
    var sortOrder: SortOrder
    var currentPage: int
    var pageSize: int

    /** The current page is at least 1 and the size is one the selector offers. */
    ghost predicate Valid()
      reads this
    {
      currentPage >= 1 && pageSize in PageSizeOptions
    }

    /** The current page is a page that exists (page 1 of an empty list counts). */
    ghost predicate PageInRange()
      reads this
      requires Valid()
    {
      currentPage <= Max(1, PageCount())
    }

    /** The initial state: no jobs yet, empty search, ALL tab, newest first,
        page 1 of 10 rows. */
    constructor ()
      ensures Valid() && PageInRange()
      ensures jobs == [] && searchQuery == "" && filterStatus == ALL && sortOrder == Desc
      ensures currentPage == 1 && pageSize == 10
    {
      jobs := [];
      searchQuery := "";
      filterStatus := ALL;
      sortOrder := Desc;
      currentPage := 1;
      pageSize := 10;
    }

    function Processed(): seq<Job>
      reads this
    {
      ProcessedJobs(jobs, searchQuery, filterStatus, sortOrder)
    }

    /** `totalPages`. */
    function PageCount(): nat
      reads this
      requires Valid()
    {
      TotalPages(|Processed()|, pageSize)
    }

    /** `paginatedJobs`, the rows handed to the table. */
    function Visible(): seq<Job>
      reads this
    {
      PageSlice(Processed(), currentPage, pageSize)
    }

    /** A refresh replaces the list; the current page is kept. */
    method ReceiveJobs(fetched: seq<Job>)
      requires Valid()
      modifies this
      ensures Valid()
      ensures jobs == fetched && currentPage == old(currentPage) && pageSize == old(pageSize)
      ensures searchQuery == old(searchQuery) && filterStatus == old(filterStatus) && sortOrder == old(sortOrder)
    {
      jobs := fetched;
    }

    /** Typing in the search box; the current page is kept. */
    method SetSearchQuery(q: string)
      requires Valid()
      modifies this
      ensures Valid()
      ensures searchQuery == q && currentPage == old(currentPage) && pageSize == old(pageSize)
      ensures jobs == old(jobs) && filterStatus == old(filterStatus) && sortOrder == old(sortOrder)
    {
      searchQuery := q;
    }

    /** Choosing a status tab; the current page is kept. */
    method SetFilterStatus(f: StatusFilter)
      requires Valid()
      modifies this
      ensures Valid()
      ensures filterStatus == f && currentPage == old(currentPage) && pageSize == old(pageSize)
      ensures jobs == old(jobs) && searchQuery == old(searchQuery) && sortOrder == old(sortOrder)
    {
      filterStatus := f;
    }

    /** Choosing the sort order; the current page is kept, and so is the
        number of pages. */
    method SetSortOrder(o: SortOrder)
      requires Valid()
      modifies this
      ensures Valid()
      ensures sortOrder == o && currentPage == old(currentPage) && pageSize == old(pageSize)
      ensures jobs == old(jobs) && searchQuery == old(searchQuery) && filterStatus == old(filterStatus)
      ensures PageCount() == old(PageCount())
    {
      ProcessedIsPermutationOfFiltered(jobs, searchQuery, filterStatus, sortOrder);
      ProcessedIsPermutationOfFiltered(jobs, searchQuery, filterStatus, o);
      assert |multiset(Processed())| == |multiset(ProcessedJobs(jobs, searchQuery, filterStatus, o))|;
      sortOrder := o;
    }

    /** Choosing a page size always goes back to page 1, which shows the first
        `size` rows. */
    method SetPageSize(size: int)
      requires Valid() && size in PageSizeOptions
      modifies this
      ensures Valid() && PageInRange()
      ensures pageSize == size && currentPage == 1
      ensures jobs == old(jobs) && searchQuery == old(searchQuery)
      ensures filterStatus == old(filterStatus) && sortOrder == old(sortOrder)
      ensures Visible() == Processed()[..Min(size, |Processed()|)]
    {
      pageSize := size;
      currentPage := 1;
      PageSliceRows(Processed(), 1, size);
    }

    /** The previous button, shown only when there is more than one page. */
    method GoPrevious()
      requires Valid() && PageCount() > 1
      modifies this`currentPage
      ensures Valid()
      ensures currentPage == PrevPage(old(currentPage))
      ensures old(PageInRange()) ==> PageInRange()
    {
      currentPage := PrevPage(currentPage);
    }

    /** The next button, shown only when there is more than one page; from a
        stale page past the end it goes to the last page. */
    method GoNext()
      requires Valid() && PageCount() > 1
      modifies this`currentPage
      ensures Valid() && PageInRange()
      ensures currentPage == NextPage(old(currentPage), PageCount())
    {
      currentPage := NextPage(currentPage, PageCount());
    }

    /** A numbered button of the pager; its numbers lie in 1..totalPages
        (`JobsTable.PagerButtonsInRange`). */
    method GoToPage(p: int)
      requires Valid() && 1 <= p <= PageCount()
      modifies this`currentPage
      ensures Valid() && PageInRange()
      ensures currentPage == p
    {
      currentPage := p;
    }
  }
}
