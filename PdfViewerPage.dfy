/** The full-page PDF reader: the page number is clamped on every change to
    the document's page count, which is null until the document has loaded. */
module PdfViewerPage {
  import opened Common
  import opened Json

  /** `numPages || 1` */
  function CountOrOne(numPages: Option<nat>): (c: nat)
    ensures c >= 1
    ensures numPages.Some? && numPages.value >= 1 ==> c == numPages.value
  {
    if numPages.Some? && numPages.value != 0 then numPages.value else 1
  }

  /** `changePage(offset)`: `Math.min(Math.max(p + offset, 1), numPages || 1)`. */
  function ChangedPage(p: int, offset: int, numPages: Option<nat>): (q: int)
    ensures 1 <= q <= CountOrOne(numPages)
    ensures 1 <= p + offset <= CountOrOne(numPages) ==> q == p + offset
  {
    var raised := if p + offset > 1 then p + offset else 1;
    if raised < CountOrOne(numPages) then raised else CountOrOne(numPages)
  }

  /** The page after a sequence of `changePage` calls. */
  function AfterChanges(p: int, offsets: seq<int>, numPages: Option<nat>): int
    decreases |offsets|
  {
    if offsets == [] then p else AfterChanges(ChangedPage(p, offsets[0], numPages), offsets[1..], numPages)
  }

  /** Once the page count `n` is known, a page within 1..n stays within 1..n
      whatever sequence of changes follows, and any page at all is brought
      into 1..n by the first change. */
  lemma {:induction false} ChangesStayInRange(p: int, offsets: seq<int>, n: nat)
    requires n >= 1
    requires 1 <= p <= n || offsets != []
    ensures 1 <= AfterChanges(p, offsets, Some(n)) <= n
    decreases |offsets|
  {
    if offsets != [] {
      ChangesStayInRange(ChangedPage(p, offsets[0], Some(n)), offsets[1..], n);
    }
  }

  /** `pageNumber <= 1` */
  predicate PreviousDisabled(p: int) {
    p <= 1
  }

  /** `pageNumber >= numPages`, where a null count compares as 0. */
  predicate NextDisabled(p: int, numPages: Option<nat>) {
    p >= (if numPages.Some? then numPages.value else 0)
  }

  /** Next stays disabled while the count is unknown; an enabled button moves
      exactly one page. */
  lemma ButtonsMoveOnePage(p: int, numPages: Option<nat>)
    requires p >= 1
    ensures numPages.None? ==> NextDisabled(p, numPages)
    ensures !PreviousDisabled(p) && p <= CountOrOne(numPages) ==> ChangedPage(p, -1, numPages) == p - 1
    ensures !NextDisabled(p, numPages) ==> ChangedPage(p, 1, numPages) == p + 1
  {
  }

  /** What the page shows. */
  datatype Screen = NoPdfSelected | PreparingViewer | Reader

  /** No file in the navigation state shows "No PDF Selected"; otherwise the
      reader appears once the PDF worker is ready. */
  function ScreenFor(locationState: Option<Value>, workerReady: bool): (s: Screen)
    ensures s == NoPdfSelected <==> !IsTruthy(Get(Some(Obj(Fields(Or(locationState, Some(Obj(map[])))))), "file"))
    ensures s == Reader ==> workerReady
  {
    var state := Some(Obj(Fields(Or(locationState, Some(Obj(map[]))))));
    if !IsTruthy(Get(state, "file")) then NoPdfSelected
    else if !workerReady then PreparingViewer
    else Reader
  }

  class Viewer {
    var numPages: Option<nat>
    var pageNumber: int

    constructor ()
      ensures numPages == None && pageNumber == 1
    {
      numPages := None;
      pageNumber := 1;
    }

    method OnDocumentLoadSuccess(n: nat)
      modifies this
      ensures numPages == Some(n) && pageNumber == old(pageNumber)
    {
      numPages := Some(n);
    }

    method ChangePage(offset: int)
      modifies this
      ensures pageNumber == ChangedPage(old(pageNumber), offset, numPages)
      ensures numPages == old(numPages)
    {
      pageNumber := ChangedPage(pageNumber, offset, numPages);
    }
  }
}
