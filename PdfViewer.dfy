/** The embedded PDF viewer: Previous and Next buttons over a page number
    that starts at 1; the page count is null until the document has loaded. */
module PdfViewer {
  import opened Common

  /** `numPages || d` */
  function CountOr(numPages: Option<nat>, d: int): (c: int)
    ensures numPages.Some? && numPages.value != 0 ==> c == numPages.value
    ensures (numPages.None? || numPages.value == 0) ==> c == d
  {
    if numPages.Some? && numPages.value != 0 then numPages.value else d
  }

  /** Previous: `Math.max(prev - 1, 1)`. */
  function Previous(p: int): (q: int)
    ensures q >= 1
    ensures p >= 2 ==> q == p - 1
  {
    if p - 1 > 1 then p - 1 else 1
  }

  /** Next: `Math.min(prev + 1, numPages || prev)`. */
  function Next(p: int, numPages: Option<nat>): (q: int)
    ensures numPages.None? ==> q == p
    ensures numPages.Some? && numPages.value != 0 ==> q <= numPages.value
    ensures numPages.Some? && 0 <= p < numPages.value ==> q == p + 1
  {
    var limit := CountOr(numPages, p);
    if p + 1 < limit then p + 1 else limit
  }

  predicate PreviousDisabled(p: int) {
    p <= 1
  }

  /** `pageNumber >= (numPages || 1)` */
  predicate NextDisabled(p: int, numPages: Option<nat>) {
    p >= CountOr(numPages, 1)
  }

  /** Starting from page 1, the page never drops below 1 and, once the
      count `n` is known, never passes `n`; an enabled button moves exactly
      one page. */
  lemma ButtonsKeepPageInRange(p: int, n: nat)
    requires 1 <= p <= n
    ensures 1 <= Previous(p) <= n && 1 <= Next(p, Some(n)) <= n
    ensures !PreviousDisabled(p) ==> Previous(p) == p - 1
    ensures !NextDisabled(p, Some(n)) ==> Next(p, Some(n)) == p + 1
  {
  }

  /** While the count is unknown, Next is disabled from page 1 on and would
      leave the page where it is. */
  lemma UnknownCountHoldsPage(p: int)
    requires p >= 1
    ensures NextDisabled(p, None) && Next(p, None) == p
  {
  }

  class Viewer {
    var numPages: Option<nat>
    var pageNumber: int

    constructor ()
      ensures numPages == None && pageNumber == 1
    {
      numPages := None;
      pageNumber := 1;
    }

    method OnDocumentLoadSuccess(n: nat)
      modifies this
      ensures numPages == Some(n) && pageNumber == old(pageNumber)
    {
      numPages := Some(n);
    }

    method GoPrevious()
      modifies this
      ensures pageNumber == Previous(old(pageNumber)) && numPages == old(numPages)
    {
      pageNumber := Previous(pageNumber);
    }

    method GoNext()
      modifies this
      ensures pageNumber == Next(old(pageNumber), numPages) && numPages == old(numPages)
    {
      pageNumber := Next(pageNumber, numPages);
    }
  }
}
