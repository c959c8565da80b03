/** The book tile: the defaults that make any record displayable, the
    purchase menu that leads to the payment page, and the "read now" link
    that opens the stored PDF in the in-app viewer. */
module BookCard {
  import opened Common
  import opened Json
  import BookController
  import PdfViewerPage
  import RatingStars

  /** `book?.bookId || book`: a borrowed-book entry carries the book under `bookId`. */
  function BookData(book: Option<Value>): (d: Option<Value>)
    ensures IsTruthy(Get(book, "bookId")) ==> d == Get(book, "bookId")
    ensures !IsTruthy(Get(book, "bookId")) ==> d == book
  {
    Or(Get(book, "bookId"), book)
  }

  /** The normalised record the tile renders. */
  datatype SafeBook = SafeBook(
    id: Value, title: Value, author: Value, category: Value, coverUrl: Value,
    rating: real, bookPrice: real, bookUrl: Value)

  const Placeholder: string := "/placeholder-book-cover.jpg"

  /** `typeof x === 'number' ? x : 0`; NaN is a number and is kept. */
  function NumberOr0(v: Option<Value>): (x: Option<real>)
    ensures v.Some? && v.value.Num? ==> x == Some(v.value.x)
    ensures v.Some? && v.value.NaN? ==> x.None?
    ensures !IsNumber(v) ==> x == Some(0.0)
  {
    if v.Some? && v.value.Num? then Some(v.value.x)
    else if v.Some? && v.value.NaN? then None
    else Some(0.0)
  }

  /** A record whose `rating` and `bookPrice`, when numbers, are not NaN
      (the schema stores both as finite numbers). */
  predicate NoNaN(d: Option<Value>) {
    Get(d, "rating") != Some(NaN) && Get(d, "bookPrice") != Some(NaN)
  }

  /** `safeBook`: each text field is the record's own when truthy, else its
      placeholder; the cover prefers `coverImage` over `coverUrl`; rating and
      price are kept only when numbers. */
  function Safe(book: Option<Value>): (s: SafeBook)
    requires NoNaN(BookData(book))
    ensures var d := BookData(book);
      s.id == Or(Get(d, "_id"), Some(Str("unknown"))).value &&
      s.title == Or(Get(d, "title"), Some(Str("Unknown Title"))).value &&
      s.author == Or(Get(d, "author"), Some(Str("Unknown Author"))).value &&
      s.category == Or(Get(d, "category"), Some(Str("Uncategorized"))).value &&
      s.coverUrl == Or(Get(d, "coverImage"), Or(Get(d, "coverUrl"), Some(Str(Placeholder)))).value &&
      Some(s.rating) == NumberOr0(Get(d, "rating")) &&
      Some(s.bookPrice) == NumberOr0(Get(d, "bookPrice")) &&
      s.bookUrl == Or(Get(d, "bookUrl"), Some(Str("Nothing"))).value
  {
    var d := BookData(book);
    SafeBook(
      StrOr(Get(d, "_id"), "unknown"),
      StrOr(Get(d, "title"), "Unknown Title"),
      StrOr(Get(d, "author"), "Unknown Author"),
      StrOr(Get(d, "category"), "Uncategorized"),
      Or(Get(d, "coverImage"), Or(Get(d, "coverUrl"), Some(Str(Placeholder)))).value,
      NumberOr0(Get(d, "rating")).value,
      NumberOr0(Get(d, "bookPrice")).value,
      StrOr(Get(d, "bookUrl"), "Nothing"))
  }

  /** Every text field of the normalised record is truthy, so the tile never
      shows an empty title and always has a PDF address to follow. */
  lemma SafeFieldsTruthy(book: Option<Value>)
    requires NoNaN(BookData(book))
    ensures var s := Safe(book);
      IsTruthy(Some(s.id)) && IsTruthy(Some(s.title)) && IsTruthy(Some(s.author)) &&
      IsTruthy(Some(s.category)) && IsTruthy(Some(s.coverUrl)) && IsTruthy(Some(s.bookUrl))
  {
  }

  /** The rating handed to the star widget is always a number, so the stars are always drawn. */
  lemma StarsAlwaysDrawn(book: Option<Value>)
    requires NoNaN(BookData(book))
    ensures RatingStars.Render(Some(Num(Safe(book).rating))).Stars?
  {
  }

  /** The state handed to the payment page. */
  datatype Payment = Payment(book: SafeBook, paymentType: string)

  /** `handlePurchase`: a record without a real id is refused; otherwise the
      tile goes to the payment page with the record and the chosen access type. */
  function Purchase(s: SafeBook, paymentType: string): (r: Option<Payment>)
    ensures r.None? <==> !IsTruthy(Some(s.id)) || s.id == Str("unknown")
    ensures r.Some? ==> r.value.book == s && r.value.paymentType == paymentType
  {
    if !IsTruthy(Some(s.id)) || s.id == Str("unknown") then None
    else Some(Payment(s, paymentType))
  }

  /** A record with no `_id` can never reach the payment page. */
  lemma MissingIdNeverPurchased(book: Option<Value>, paymentType: string)
    requires NoNaN(BookData(book)) && !IsTruthy(Get(BookData(book), "_id"))
    ensures Purchase(Safe(book), paymentType).None?
  {
  }

  const RawSegment: string := "/raw/upload/"
  const ImageSegment: string := "/image/upload/"

  /** The address the viewer is given: the first "/raw/upload/" becomes
      "/image/upload/", and an address without it is kept. */
  function ViewerUrl(url: string): (r: string)
    ensures !Contains(url, RawSegment) ==> r == url
    ensures Contains(url, RawSegment) ==>
      exists i :: OccursAt(url, RawSegment, i) && (forall j :: 0 <= j < i ==> !OccursAt(url, RawSegment, j)) &&
                  r == url[..i] + ImageSegment + url[i + |RawSegment|..]
  {
    if Contains(url, RawSegment) then ReplaceFirst(url, RawSegment, ImageSegment) else url
  }

  /** The rewrite never shortens an address, so a non-empty one stays non-empty. */
  lemma ViewerUrlKeepsLength(url: string)
    ensures |ViewerUrl(url)| >= |url|
  {
    if Contains(url, RawSegment) {
      var i :| OccursAt(url, RawSegment, i) && ViewerUrl(url) == url[..i] + ImageSegment + url[i + |RawSegment|..];
    }
  }

  /** Replacing the first occurrence of a pattern that first occurs right after `p`. */
  lemma ReplaceAfter(p: string, pat: string, rest: string, replacement: string)
    requires pat != "" && forall j :: 0 <= j < |p| ==> !OccursAt(p + pat + rest, pat, j)
    ensures ReplaceFirst(p + pat + rest, pat, replacement) == p + replacement + rest
  {
    var s := p + pat + rest;
    assert OccursAt(s, pat, |p|) by {
      assert s[|p|..|p| + |pat|] == pat;
    }
    assert IndexOf(s, pat) == |p|;
    assert s[..|p|] == p && s[|p| + |pat|..] == rest;
  }

  /** One differing character rules out an occurrence. */
  lemma Mismatch(s: string, j: int, m: int)
    requires 0 <= j && j + |RawSegment| <= |s| && 0 <= m < |RawSegment| && s[j + m] != RawSegment[m]
    ensures !OccursAt(s, RawSegment, j)
  {
    assert s[j..j + |RawSegment|][m] == s[j + m];
  }

  /** The host's slashes are at 6, 7 and 26, and its tenth character is 'e'. */
  lemma HostSlashes(k: int)
    requires 0 <= k < |BookController.CloudHost|
    ensures BookController.CloudHost[k] == '/' <==> k == 6 || k == 7 || k == 26
    ensures BookController.CloudHost[9] == 'e' && |BookController.CloudHost| == 27
  {
  }

  /** No occurrence of "/raw/upload/" starts inside the host and cloud name
      of a stored PDF address. */
  lemma NoSegmentBeforeCloudPath(cloudName: string, rest: string, j: int)
    requires forall k :: 0 <= k < |cloudName| ==> cloudName[k] != '/'
    requires 0 <= j < |BookController.CloudHost + cloudName|
    ensures !OccursAt(BookController.CloudHost + cloudName + RawSegment + rest, RawSegment, j)
  {
    var h := BookController.CloudHost;
    var u := cloudName + RawSegment + rest;
    var s := h + u;
    assert s == BookController.CloudHost + cloudName + RawSegment + rest;
    if j + |RawSegment| <= |s| {
      if j >= |h| {
        assert s[j] == u[j - |h|] == cloudName[j - |h|];
        Mismatch(s, j, 0);
      } else if j == 26 {
        NoSegmentAtHostEnd(cloudName, rest);
      } else {
        NoSegmentInHost(cloudName, rest, j);
      }
    }
  }

  /** Inside the host, before its last slash, the segment cannot start. */
  lemma NoSegmentInHost(cloudName: string, rest: string, j: int)
    requires 0 <= j < 26
    ensures !OccursAt(BookController.CloudHost + cloudName + RawSegment + rest, RawSegment, j)
  {
    var h := BookController.CloudHost;
    var s := h + (cloudName + RawSegment + rest);
    assert s == BookController.CloudHost + cloudName + RawSegment + rest;
    HostSlashes(j);
    if j + |RawSegment| <= |s| {
      if j == 6 {
        HostSlashes(7);
        assert s[7] == h[7];
        Mismatch(s, j, 1);
      } else if j == 7 {
        assert s[9] == h[9];
        Mismatch(s, j, 2);
      } else {
        assert s[j] == h[j];
        Mismatch(s, j, 0);
      }
    }
  }

  /** The host's last slash would need the cloud name to read "raw" and then a slash. */
  lemma NoSegmentAtHostEnd(cloudName: string, rest: string)
    requires forall k :: 0 <= k < |cloudName| ==> cloudName[k] != '/'
    ensures !OccursAt(BookController.CloudHost + cloudName + RawSegment + rest, RawSegment, 26)
  {
    var u := cloudName + RawSegment + rest;
    var s := BookController.CloudHost + u;
    assert s == BookController.CloudHost + cloudName + RawSegment + rest;
    HostSlashes(0);
    var c := |cloudName|;
    if 26 + |RawSegment| <= |s| {
      if c >= 4 {
        assert s[30] == u[3] == cloudName[3];
        Mismatch(s, 26, 4);
      } else if c == 3 {
        assert s[31] == u[4] == RawSegment[1];
        Mismatch(s, 26, 5);
      } else {
        assert s[27 + c] == u[c] == RawSegment[0];
        Mismatch(s, 26, 1 + c);
      }
    }
  }

  /** An address whose first "/raw/upload/" follows `p` is rewritten there. */
  lemma ViewerUrlAfter(p: string, rest: string)
    requires forall j :: 0 <= j < |p| ==> !OccursAt(p + RawSegment + rest, RawSegment, j)
    ensures ViewerUrl(p + RawSegment + rest) == p + ImageSegment + rest
  {
    var url := p + RawSegment + rest;
    assert OccursAt(url, RawSegment, |p|) by {
      assert url[|p|..|p| + |RawSegment|] == RawSegment;
    }
    ReplaceAfter(p, RawSegment, rest, ImageSegment);
  }

  /** The address `addBook` stores for a PDF opens through the image
      delivery path: the rewrite swaps exactly its "/raw/upload/" segment. */
  lemma StoredPdfOpensAsImage(cloudName: string, version: nat, publicId: string)
    requires forall k :: 0 <= k < |cloudName| ==> cloudName[k] != '/'
    ensures ViewerUrl(BookController.RawPdfUrl(cloudName, version, publicId)) ==
      BookController.CloudHost + cloudName + "/image/upload/v" + BookController.Decimal(version) + "/" + publicId + ".pdf"
  {
    var p := BookController.CloudHost + cloudName;
    var rest := "v" + BookController.Decimal(version) + "/" + publicId + ".pdf";
    forall j | 0 <= j < |p| ensures !OccursAt(p + RawSegment + rest, RawSegment, j) {
      NoSegmentBeforeCloudPath(cloudName, rest, j);
    }
    ViewerUrlAfter(p, rest);
    Regroup(p, BookController.Decimal(version), publicId);
  }

  /** The stored address and its rewrite, regrouped around the segment. */
  lemma Regroup(p: string, d: string, q: string)
    ensures p + "/raw/upload/v" + d + "/" + q + ".pdf" == p + RawSegment + ("v" + d + "/" + q + ".pdf")
    ensures p + "/image/upload/v" + d + "/" + q + ".pdf" == p + ImageSegment + ("v" + d + "/" + q + ".pdf")
  {
    assert "/raw/upload/v" == RawSegment + "v";
    assert "/image/upload/v" == ImageSegment + "v";
  }

  /** The navigation "read now" performs. */
  datatype Opened = OpenViewer(file: string, fileName: Value) | NoPdf

  /** `handleOpenPDF` for a text address. */
  function OpenPdf(url: string, title: Value): (r: Opened)
    ensures r == NoPdf <==> url == ""
    ensures r.OpenViewer? ==> r.file == ViewerUrl(url) && r.fileName == Or(Some(title), Some(Str("document.pdf"))).value
  {
    if url == "" then NoPdf
    else OpenViewer(ViewerUrl(url), Or(Some(title), Some(Str("document.pdf"))).value)
  }

  /** "read now" always opens the viewer, and the viewer page then has a file
      to show: the "No PDF URL available" branch is never reached. */
  lemma ReadNowReachesViewer(book: Option<Value>)
    requires NoNaN(BookData(book)) && Safe(book).bookUrl.Str?
    ensures OpenPdf(Safe(book).bookUrl.s, Safe(book).title).OpenViewer?
    ensures var o := OpenPdf(Safe(book).bookUrl.s, Safe(book).title);
      PdfViewerPage.ScreenFor(Some(Obj(map["file" := Str(o.file), "fileName" := o.fileName])), true) ==
        PdfViewerPage.Reader
  {
    SafeFieldsTruthy(book);
    ViewerUrlKeepsLength(Safe(book).bookUrl.s);
  }

  /** The tile's own state: whether the purchase menu is open. */
  class Tile {
    var isDropdownOpen: bool

    constructor ()
      ensures !isDropdownOpen
    {
      isDropdownOpen := false;
    }

    method SetDropdownOpen(open: bool)
      modifies this
      ensures isDropdownOpen == open
    {
      isDropdownOpen := open;
    }

    /** A purchase that goes to the payment page closes the menu; a refused one leaves it. */
    method HandlePurchase(s: SafeBook, paymentType: string) returns (navigation: Option<Payment>)
      modifies this
      ensures navigation == Purchase(s, paymentType)
      ensures isDropdownOpen == (if navigation.Some? then false else old(isDropdownOpen))
    {
      if !IsTruthy(Some(s.id)) || s.id == Str("unknown") {
        return None;
      }
      navigation := Some(Payment(s, paymentType));
      isDropdownOpen := false;
    }
  }
}
