/** The admin "Manage Books" page: which endpoint a fetch uses, the page
    buttons shown around the current page, the Previous/Next clamps and the
    "Showing x to y of z results" line. */
module ManageBooks {
  import opened Common
  import opened Json

  const ItemsPerPage: int := 10

  /** How many page buttons are drawn: `Math.min(5, totalPages)`, and an
      array length below zero is zero. */
  function WindowSize(total: int): (n: nat)
    ensures n <= 5 && n <= (if total < 0 then 0 else total)
    ensures total >= 5 ==> n == 5
  {
    if total <= 0 then 0 else if total < 5 then total else 5
  }

  /** The number on button `i` of the window. */
  function PageNumber(current: int, total: int, i: int): int {
    if total <= 5 then i + 1
    else if current <= 3 then i + 1
    else if current >= total - 2 then total - 4 + i
    else current - 2 + i
  }

  function PageWindow(current: int, total: int): (w: seq<int>)
    ensures |w| == WindowSize(total)
    ensures forall i :: 0 <= i < |w| ==> w[i] == PageNumber(current, total, i)
  {
    seq(WindowSize(total), i => PageNumber(current, total, i))
  }

  /** "Show pages around current page": for a current page within range, the
      buttons are consecutive page numbers, all within 1..total, and one of
      them is the current page. */
  lemma WindowAroundCurrent(current: int, total: int)
    requires 1 <= current <= total
    ensures forall i :: 0 <= i < |PageWindow(current, total)| - 1 ==>
              PageWindow(current, total)[i + 1] == PageWindow(current, total)[i] + 1
    ensures forall i :: 0 <= i < |PageWindow(current, total)| ==> 1 <= PageWindow(current, total)[i] <= total
    ensures current in PageWindow(current, total)
  {
    var w := PageWindow(current, total);
    var k :=
      if total <= 5 || current <= 3 then current - 1
      else if current >= total - 2 then current - total + 4
      else 2;
    assert 0 <= k < |w| && w[k] == current;
  }

  /** The Previous button: `Math.max(prev - 1, 1)`. */
  function Previous(page: int): (p: int)
    ensures p >= 1
    ensures page > 1 ==> p == page - 1
    ensures page <= 1 ==> p == 1
  {
    if page - 1 > 1 then page - 1 else 1
  }

  /** The Next button: `Math.min(prev + 1, totalPages)`. */
  function Next(page: int, total: int): (p: int)
    ensures p <= total
    ensures page < total ==> p == page + 1
    ensures page >= total ==> p == total
  {
    if page + 1 < total then page + 1 else total
  }

  /** Stepping with Previous and Next never leaves 1..total. */
  lemma StepsStayInRange(page: int, total: int)
    requires 1 <= page <= total
    ensures 1 <= Previous(page) <= total && 1 <= Next(page, total) <= total
  {
  }

  /** The three numbers of the "Showing x to y of z results" line, for the
      current page and `n` listed books. */
  function RangeStart(page: int): int {
    (page - 1) * ItemsPerPage + 1
  }

  function RangeTotal(page: int, n: nat): int {
    n + (page - 1) * ItemsPerPage
  }

  function RangeEnd(page: int, n: nat): (e: int)
    ensures e <= RangeTotal(page, n) && e <= page * ItemsPerPage
  {
    var a := page * ItemsPerPage;
    var b := RangeTotal(page, n);
    if a < b then a else b
  }

  /** With at least one book the line names a non-empty range covering
      `min(n, 10)` books; with none, its end falls below its start. */
  lemma RangeCoversListed(page: int, n: nat)
    ensures n >= 1 ==> RangeStart(page) <= RangeEnd(page, n) <= RangeTotal(page, n)
    ensures RangeEnd(page, n) - RangeStart(page) + 1 == if n < ItemsPerPage then n else ItemsPerPage
  {
  }

  /** Which request a fetch sends. */
  datatype Fetch = Search(keyword: string) | AdminList

  /** A non-blank term searches for its trimmed form; otherwise the admin list is fetched. */
  function FetchFor(searchTerm: string): (f: Fetch)
    ensures f.Search? <==> !Blank(searchTerm)
    ensures f.Search? ==> f.keyword == Trim(searchTerm) && f.keyword != ""
  {
    TrimEmptyIffBlank(searchTerm);
    if Trim(searchTerm) != "" then Search(Trim(searchTerm)) else AdminList
  }

  /** The page's state. `totalPages` is never updated, so it stays 1 and the
      pagination block (drawn only when `totalPages > 1`) never appears. */
  class ManageBooksPage {
    var books: Value
    var searchTerm: string
    var currentPage: int
    var totalPages: int

    predicate Valid()
      reads this
    {
      totalPages == 1 && currentPage >= 1
    }

    predicate PaginationShown()
      reads this
    {
      totalPages > 1
    }

    constructor ()
      ensures Valid() && books == Arr([]) && searchTerm == "" && currentPage == 1
      ensures !PaginationShown()
    {
      books := Arr([]);
      searchTerm := "";
      currentPage := 1;
      totalPages := 1;
    }

    /** Typing into the search box. */
    method SetSearchTerm(term: string)
      requires Valid()
      modifies this
      ensures Valid() && !PaginationShown()
      ensures searchTerm == term && currentPage == old(currentPage) && books == old(books)
    {
      searchTerm := term;
    }

    /** Submitting a search goes back to the first page. */
    method HandleSearch() returns (f: Fetch)
      requires Valid()
      modifies this
      ensures Valid() && !PaginationShown()
      ensures currentPage == 1 && searchTerm == old(searchTerm) && books == old(books)
      ensures f == FetchFor(searchTerm)
    {
      currentPage := 1;
      f := FetchFor(searchTerm);
    }

    method GoPrevious()
      requires Valid()
      modifies this
      ensures Valid() && currentPage == Previous(old(currentPage))
      ensures searchTerm == old(searchTerm) && books == old(books)
    {
      currentPage := Previous(currentPage);
    }

    method GoNext()
      requires Valid()
      modifies this
      ensures Valid() && currentPage == Next(old(currentPage), totalPages)
      ensures searchTerm == old(searchTerm) && books == old(books)
    {
      currentPage := Next(currentPage, totalPages);
    }

    /** The fetched reply: `response.data.books || []`, or `[]` when the request failed. */
    method ReceiveBooks(data: Option<Value>, failed: bool)
      requires Valid()
      modifies this
      ensures Valid() && searchTerm == old(searchTerm) && currentPage == old(currentPage)
      ensures failed ==> books == Arr([])
      ensures !failed && IsTruthy(Get(data, "books")) ==> books == data.value.fields["books"]
      ensures !failed && !IsTruthy(Get(data, "books")) ==> books == Arr([])
    {
      if failed {
        books := Arr([]);
      } else {
        books := Or(Get(data, "books"), Some(Arr([]))).value;
      }
    }
  }
}
