/** The book handlers: adding a book with its uploaded assets, the three
    read-only queries, the "truthy fields overwrite" update and the
    cascading delete. */
module BookController {
  import opened Common
  import opened UserModel
  import opened BookModel
  import opened BorrowingModel
  import opened Store

  /** The outcome of one cloud upload, an opaque foreign call: no file was
      sent, the upload succeeded with the service's reply, or it failed. */
  datatype Upload = NoFile | Uploaded(secureUrl: string, publicId: string, version: nat) | UploadFailed(message: string)

  predicate IsAdmin(db: Db, userId: Id) {
    userId in db.users && db.users[userId].role == Admin
  }

  /** Decimal rendering of a natural number, as a template literal prints it. */
  function Decimal(n: nat): (s: string)
    ensures s != [] && forall i :: 0 <= i < |s| ==> '0' <= s[i] <= '9'
  {
    var d := ['0' + (n % 10) as char];
    if n < 10 then d else Decimal(n / 10) + d
  }

  const CloudHost: string := "https://res.cloudinary.com/"

  /** The address a PDF is stored under: the raw-resource delivery path of the
      cloud account, built by hand from the upload's version and public id. */
  function RawPdfUrl(cloudName: string, version: nat, publicId: string): string {
    CloudHost + cloudName + "/raw/upload/v" + Decimal(version) + "/" + publicId + ".pdf"
  }

  /** The text fields of an `addBook` body; a missing field is `None`. The
      price arrives as a number. */
  datatype NewBookFields = NewBookFields(
    title: Option<string>,
    author: Option<string>,
    category: Option<string>,
    isbn: Option<string>,
    description: Option<string>,
    bookPrice: Option<real>)

  /** The handler's presence test: every field truthy, so a price of 0 fails. */
  predicate AllPresent(f: NewBookFields) {
    Truthy(f.title) && Truthy(f.author) && Truthy(f.category) && Truthy(f.isbn) &&
    Truthy(f.description) && f.bookPrice.Some? && f.bookPrice.value != 0.0
  }

  /** Where an upload leaves an asset field of the new book. */
  function CoverUrl(cover: Upload): (u: Option<string>)
    requires !cover.UploadFailed?
    ensures u.Some? <==> cover.Uploaded?
  {
    if cover.Uploaded? then Some(cover.secureUrl) else None
  }

  function PdfUrl(pdf: Upload, cloudName: string): (u: Option<string>)
    requires !pdf.UploadFailed?
    ensures u.Some? <==> pdf.Uploaded?
  {
    if pdf.Uploaded? then Some(RawPdfUrl(cloudName, pdf.version, pdf.publicId)) else None
  }

  /** The book `addBook` saves once all checks and uploads have passed. */
  function BookFrom(f: NewBookFields, userId: Id, cover: Upload, pdf: Upload, cloudName: string, now: Time): Book
    requires AllPresent(f) && !cover.UploadFailed? && !pdf.UploadFailed?
  {
    NewBook(f.title.value, userId, f.bookPrice.value, f.author.value, f.category.value, f.isbn.value,
            f.description.value, CoverUrl(cover), PdfUrl(pdf, cloudName), now)
  }

  /** `addBook` by the authenticated user `userId`. Uploads run before the save;
      a failed upload is reported with its own message (the cover's when both
      fail). A clash on the ISBN index is the only way the save can fail. */
  function AddBook(db: Db, userId: Id, f: NewBookFields, cover: Upload, pdf: Upload, cloudName: string, now: Time): (h: Handled)
    requires db.Valid()
    ensures h.db.Valid()
    ensures !h.res.success ==> h.db == db
    ensures userId !in db.users ==> h.res == Fail(404, UserNotFound)
    ensures userId in db.users && !IsAdmin(db, userId) ==>
      h.res == Fail(403, NoAddPermission)
    ensures IsAdmin(db, userId) && !AllPresent(f) ==> h.res == Fail(400, FieldsRequired)
    ensures IsAdmin(db, userId) && AllPresent(f) && cover.UploadFailed? ==>
      h.res == Fail(500, AddBookFailed(cover.message))
    ensures IsAdmin(db, userId) && AllPresent(f) && !cover.UploadFailed? && pdf.UploadFailed? ==>
      h.res == Fail(500, AddBookFailed(pdf.message))
    ensures IsAdmin(db, userId) && AllPresent(f) && !cover.UploadFailed? && !pdf.UploadFailed? &&
            IsbnTaken(db.books, db.nextId, f.isbn) ==>
      h.res == Fail(400, IsbnExists)
    ensures h.res.success <==>
      IsAdmin(db, userId) && AllPresent(f) && !cover.UploadFailed? && !pdf.UploadFailed? &&
      !IsbnTaken(db.books, db.nextId, f.isbn)
    ensures h.res.success ==>
      h.res == Ok(201, BookAdded) && db.nextId !in db.books &&
      h.db == db.(books := db.books[db.nextId := BookFrom(f, userId, cover, pdf, cloudName, now)],
                  nextId := db.nextId + 1)
  {
    if userId !in db.users then Handled(db, Fail(404, UserNotFound))
    else if db.users[userId].role != Admin then
      Handled(db, Fail(403, NoAddPermission))
    else if !AllPresent(f) then Handled(db, Fail(400, FieldsRequired))
    else if cover.UploadFailed? then Handled(db, Fail(500, AddBookFailed(cover.message)))
    else if pdf.UploadFailed? then Handled(db, Fail(500, AddBookFailed(pdf.message)))
    else if IsbnTaken(db.books, db.nextId, f.isbn) then
      Handled(db, Fail(400, IsbnExists))
    else
      InsertBookValid(db, BookFrom(f, userId, cover, pdf, cloudName, now));
      Handled(db.(books := db.books[db.nextId := BookFrom(f, userId, cover, pdf, cloudName, now)],
                  nextId := db.nextId + 1),
              Ok(201, BookAdded))
  }

  /** `addBook` as the handler runs it: look the user up, check the body,
      wait for the uploads, then save the new record. */
  method AddBookTo(lib: Library, userId: Id, f: NewBookFields, cover: Upload, pdf: Upload, cloudName: string, now: Time)
    returns (res: Response)
    requires lib.Valid()
    modifies lib
    ensures Handled(lib.Snapshot(), res) == AddBook(old(lib.Snapshot()), userId, f, cover, pdf, cloudName, now)
    ensures lib.Valid()
  {
    if userId !in lib.users {
      return Fail(404, UserNotFound);
    }
    if lib.users[userId].role != Admin {
      return Fail(403, NoAddPermission);
    }
    if !AllPresent(f) {
      return Fail(400, FieldsRequired);
    }
    if cover.UploadFailed? {
      return Fail(500, AddBookFailed(cover.message));
    }
    if pdf.UploadFailed? {
      return Fail(500, AddBookFailed(pdf.message));
    }
    var coverUrl := CoverUrl(cover);
    var bookUrl := PdfUrl(pdf, cloudName);
    if IsbnTaken(lib.books, lib.nextId, f.isbn) {
      return Fail(400, IsbnExists);
    }
    var book := NewBook(f.title.value, userId, f.bookPrice.value, f.author.value, f.category.value,
                        f.isbn.value, f.description.value, coverUrl, bookUrl, now);
    assert book == BookFrom(f, userId, cover, pdf, cloudName, now);
    InsertBookValid(lib.Snapshot(), book);
    lib.books, lib.nextId := lib.books[lib.nextId := book], lib.nextId + 1;
    return Ok(201, BookAdded);
  }

  /** A book added without files carries no cover and no PDF, and belongs to
      the admin who added it. */
  lemma AddedWithoutFiles(db: Db, userId: Id, f: NewBookFields, cloudName: string, now: Time)
    requires db.Valid()
    requires AddBook(db, userId, f, NoFile, NoFile, cloudName, now).res.success
    ensures var b := AddBook(db, userId, f, NoFile, NoFile, cloudName, now).db.books[db.nextId];
            b.coverUrl.None? && b.bookUrl.None? && b.adminId == userId && b.borrowedBy.None?
  {
  }

  /** `getAllBooks`: every book, in insertion order, to an authenticated caller. */
  function GetAllBooks(db: Db, requester: Option<Id>): (l: Listing)
    requires db.Valid()
    ensures requester.None? ==> l == Listing(Fail(400, NotAuthenticated), [])
    ensures requester.Some? ==>
      l.res.success && l.res.status == 200 && StrictlyAscending(l.ids) &&
      (forall k :: k in l.ids <==> k in db.books) &&
      (l.res.message == NoBooksAvailable <==> db.books == map[])
  {
    if requester.None? then Listing(Fail(400, NotAuthenticated), [])
    else
      var ids := Ascending(db.books.Keys, db.nextId);
      if ids == [] then
        assert forall k :: k !in db.books by {
          forall k | k in db.books ensures k in ids { }
        }
        Listing(Ok(200, NoBooksAvailable), [])
      else
        assert ids[0] in db.books;
        Listing(Ok(200, AllBooks), ids)
  }

  /** The reply of `getBookById`. */
  datatype Fetched = Fetched(res: Response, book: Option<Book>)

  function GetBookById(db: Db, bookId: Id): (r: Fetched)
    ensures r.book.Some? <==> bookId in db.books
    ensures r.book.Some? ==> r.book.value == db.books[bookId] && r.res == Ok(200, BookRetrieved)
    ensures r.book.None? ==> r.res == Fail(404, BookNotFound)
  {
    if bookId in db.books then Fetched(Ok(200, BookRetrieved), Some(db.books[bookId]))
    else Fetched(Fail(404, BookNotFound), None)
  }

  /** The text fields an `updateBook` body may carry; the price is not read. */
  datatype BookEdits = BookEdits(
    title: Option<string>,
    author: Option<string>,
    category: Option<string>,
    isbn: Option<string>,
    description: Option<string>)

  /** `x || current` on an optional string field. */
  function Keep(v: Option<string>, current: Option<string>): (r: Option<string>)
    ensures Truthy(v) ==> r == v
    ensures !Truthy(v) ==> r == current
  {
    if Truthy(v) then v else current
  }

  /** The fields of the stored book after the handler's assignments. The cover
      URL it assigns goes to a path the schema does not declare, so the stored
      `coverUrl` is left as it was. */
  function Edited(b: Book, e: BookEdits, pdf: Upload): (r: Book)
    requires !pdf.UploadFailed?
    ensures r.title == OrElse(e.title, b.title) && r.author == OrElse(e.author, b.author)
    ensures r.category == OrElse(e.category, b.category)
    ensures r.isbn == Keep(e.isbn, b.isbn) && r.description == Keep(e.description, b.description)
    ensures r.bookUrl == (if pdf.Uploaded? then Some(pdf.secureUrl) else b.bookUrl)
    ensures r.bookPrice == b.bookPrice && r.coverUrl == b.coverUrl && r.adminId == b.adminId
    ensures r.borrowedBy == b.borrowedBy && r.createdAt == b.createdAt && r.updatedAt == b.updatedAt
  {
    b.(title := OrElse(e.title, b.title), author := OrElse(e.author, b.author),
       category := OrElse(e.category, b.category), isbn := Keep(e.isbn, b.isbn),
       description := Keep(e.description, b.description),
       bookUrl := if pdf.Uploaded? then Some(pdf.secureUrl) else b.bookUrl)
  }

  /** A save stamps `updatedAt` only when some field actually changed. */
  function Saved(before: Book, after: Book, now: Time): Book {
    if after == before then before else after.(updatedAt := now)
  }

  /** `updateBook` by `userId` on `bookId`. The cover is uploaded first and the
      PDF second; either failure ends the request. A new ISBN that clashes
      with another book's makes the save fail, reported as 500. */
  function UpdateBook(db: Db, userId: Id, bookId: Id, e: BookEdits, cover: Upload, pdf: Upload, now: Time): (h: Handled)
    requires db.Valid()
    ensures h.db.Valid()
    ensures !h.res.success ==> h.db == db
    ensures userId !in db.users ==> h.res == Fail(404, UserNotFound)
    ensures userId in db.users && !IsAdmin(db, userId) ==>
      h.res == Fail(403, NoUpdatePermission)
    ensures IsAdmin(db, userId) && bookId !in db.books ==> h.res == Fail(404, BookNotFound)
    ensures IsAdmin(db, userId) && bookId in db.books && cover.UploadFailed? ==>
      h.res == Fail(500, CoverUploadFailed)
    ensures IsAdmin(db, userId) && bookId in db.books && !cover.UploadFailed? && pdf.UploadFailed? ==>
      h.res == Fail(500, PdfUploadFailed)
    ensures h.res.success <==>
      IsAdmin(db, userId) && bookId in db.books && !cover.UploadFailed? && !pdf.UploadFailed? &&
      !IsbnTaken(db.books, bookId, Edited(db.books[bookId], e, pdf).isbn)
    ensures h.res.success ==>
      h.res == Ok(200, BookUpdated) &&
      h.db == db.(books := db.books[bookId := Saved(db.books[bookId], Edited(db.books[bookId], e, pdf), now)])
  {
    if userId !in db.users then Handled(db, Fail(404, UserNotFound))
    else if db.users[userId].role != Admin then
      Handled(db, Fail(403, NoUpdatePermission))
    else if bookId !in db.books then Handled(db, Fail(404, BookNotFound))
    else if cover.UploadFailed? then Handled(db, Fail(500, CoverUploadFailed))
    else if pdf.UploadFailed? then Handled(db, Fail(500, PdfUploadFailed))
    else
      var b := db.books[bookId];
      var b' := Edited(b, e, pdf);
      if IsbnTaken(db.books, bookId, b'.isbn) then Handled(db, Fail(500, UpdateBookFailed))
      else
        PutBookValid(db, bookId, Saved(b, b', now));
        var db' := db.(books := db.books[bookId := Saved(b, b', now)]);
        Handled(db', Ok(200, BookUpdated))
  }

  /** `updateBook` as the handler runs it: load, upload, assign field by
      field, save. */
  method UpdateBookIn(lib: Library, userId: Id, bookId: Id, e: BookEdits, cover: Upload, pdf: Upload, now: Time)
    returns (res: Response)
    requires lib.Valid()
    modifies lib
    ensures Handled(lib.Snapshot(), res) == UpdateBook(old(lib.Snapshot()), userId, bookId, e, cover, pdf, now)
    ensures lib.Valid()
  {
    if userId !in lib.users {
      return Fail(404, UserNotFound);
    }
    if lib.users[userId].role != Admin {
      return Fail(403, NoUpdatePermission);
    }
    if bookId !in lib.books {
      return Fail(404, BookNotFound);
    }
    var book := lib.books[bookId];
    if cover.UploadFailed? {
      return Fail(500, CoverUploadFailed);
    }
    if pdf.UploadFailed? {
      return Fail(500, PdfUploadFailed);
    }
    var edited := Edited(book, e, pdf);
    if IsbnTaken(lib.books, bookId, edited.isbn) {
      return Fail(500, UpdateBookFailed);
    }
    if edited != book {
      edited := edited.(updatedAt := now);
    }
    assert edited == Saved(book, Edited(book, e, pdf), now);
    PutBookValid(lib.Snapshot(), bookId, edited);
    lib.books := lib.books[bookId := edited];
    res := Ok(200, BookUpdated);
  }

  /** An update that carries no field and no file is answered with success and
      changes nothing, whatever the time. */
  lemma EmptyUpdateChangesNothing(db: Db, userId: Id, bookId: Id, now: Time)
    requires db.Valid() && IsAdmin(db, userId) && bookId in db.books
    ensures UpdateBook(db, userId, bookId, BookEdits(None, None, None, None, None), NoFile, NoFile, now)
            == Handled(db, Ok(200, BookUpdated))
  {
    var b := db.books[bookId];
    var b' := Edited(b, BookEdits(None, None, None, None, None), NoFile);
    assert b' == b;
    forall k | k in db.books && k != bookId
      ensures db.books[k].isbn != b.isbn
    {
      IsbnsDiffer(db.books, k, bookId);
    }
    assert db.books[bookId := b] == db.books;
  }

  /** `deleteBook` as one transaction: the book goes, its id is pulled from
      every user's list (those users' `updatedAt` is stamped), and its
      borrowing records are deleted. Any refusal aborts with no change. */
  function DeleteBook(db: Db, userId: Id, bookId: Id, now: Time): (h: Handled)
    requires db.Valid()
    ensures h.db.Valid()
    ensures !h.res.success ==> h.db == db
    ensures userId !in db.users ==> h.res == Fail(404, UserNotFound)
    ensures userId in db.users && !IsAdmin(db, userId) ==>
      h.res == Fail(403, NoDeletePermission)
    ensures IsAdmin(db, userId) && bookId !in db.books ==> h.res == Fail(404, BookNotFound)
    ensures h.res.success <==> IsAdmin(db, userId) && bookId in db.books
    ensures h.res.success ==>
      h.res == Ok(200, BookDeleted) && h.db == WithoutBook(db, bookId, now)
  {
    if userId !in db.users then Handled(db, Fail(404, UserNotFound))
    else if db.users[userId].role != Admin then
      Handled(db, Fail(403, NoDeletePermission))
    else if bookId !in db.books then Handled(db, Fail(404, BookNotFound))
    else Handled(WithoutBook(db, bookId, now), Ok(200, BookDeleted))
  }

  /** The store after the cascade: the book gone, its id pulled from every
      user's list, its borrowing records deleted; nothing else changes. */
  function WithoutBook(db: Db, bookId: Id, now: Time): (d: Db)
    requires db.Valid()
    ensures d.Valid()
    ensures d.books == db.books - {bookId}
    ensures d.users.Keys == db.users.Keys
    ensures forall u :: u in d.users ==> bookId !in d.users[u].borrowedBooks
    ensures forall u, y :: u in d.users && y != bookId ==>
      (y in d.users[u].borrowedBooks <==> y in db.users[u].borrowedBooks)
    ensures forall k :: k in d.borrowings <==> k in db.borrowings && db.borrowings[k].bookId != bookId
    ensures forall k :: k in d.borrowings ==> d.borrowings[k] == db.borrowings[k]
    ensures d.reviews == db.reviews && d.nextId == db.nextId
  {
    var d := db.(books := db.books - {bookId},
                 users := PullEverywhere(db.users, bookId, now),
                 borrowings := map k | k in db.borrowings && db.borrowings[k].bookId != bookId :: db.borrowings[k]);
    SameEmailsKeepUnique(db.users, d.users);
    FewerBooksKeepUnique(db.books, d.books);
    d
  }

  /** `updateMany({ borrowedBooks: id }, { $pull: { borrowedBooks: id } })`. */
  function PullEverywhere(users: map<Id, User>, bookId: Id, now: Time): (r: map<Id, User>)
    ensures r.Keys == users.Keys
    ensures forall u :: u in r ==> bookId !in r[u].borrowedBooks
    ensures forall u :: u in r && bookId !in users[u].borrowedBooks ==> r[u] == users[u]
    ensures forall u :: u in r ==>
      r[u] == users[u].(borrowedBooks := r[u].borrowedBooks, updatedAt := r[u].updatedAt)
    ensures forall u, y :: u in r && y != bookId ==> (y in r[u].borrowedBooks <==> y in users[u].borrowedBooks)
  {
    map u | u in users ::
      if bookId in users[u].borrowedBooks
      then users[u].(borrowedBooks := Without(users[u].borrowedBooks, bookId), updatedAt := now)
      else users[u]
  }

  /** `deleteBook` as the handler's sequence of writes inside the transaction. */
  method DeleteBookFrom(lib: Library, userId: Id, bookId: Id, now: Time) returns (res: Response)
    requires lib.Valid()
    modifies lib
    ensures Handled(lib.Snapshot(), res) == DeleteBook(old(lib.Snapshot()), userId, bookId, now)
    ensures lib.Valid()
  {
    if userId !in lib.users {
      return Fail(404, UserNotFound);
    }
    if lib.users[userId].role != Admin {
      return Fail(403, NoDeletePermission);
    }
    if bookId !in lib.books {
      return Fail(404, BookNotFound);
    }
    ghost var d := WithoutBook(lib.Snapshot(), bookId, now);
    var books := lib.books - {bookId};
    var users := PullEverywhere(lib.users, bookId, now);
    var borrowings := map k | k in lib.borrowings && lib.borrowings[k].bookId != bookId :: lib.borrowings[k];
    assert d == Db(users, books, borrowings, lib.reviews, lib.nextId);
    lib.books := books;
    lib.users := users;
    lib.borrowings := borrowings;
    assert lib.Snapshot() == d;
    return Ok(200, BookDeleted);
  }

  /** The cascade leaves no dangling borrowing: every remaining record still
      names a stored user and book and stays on its user's list. */
  lemma DeleteBookKeepsLinked(db: Db, userId: Id, bookId: Id, now: Time)
    requires db.Valid() && Linked(db)
    ensures Linked(DeleteBook(db, userId, bookId, now).db)
  {
    var h := DeleteBook(db, userId, bookId, now);
    if h.res.success {
      forall k | k in h.db.borrowings
        ensures h.db.borrowings[k].userId in h.db.users && h.db.borrowings[k].bookId in h.db.books
        ensures h.db.borrowings[k].bookId in h.db.users[h.db.borrowings[k].userId].borrowedBooks
      {
        var r := db.borrowings[k];
        assert h.db.borrowings[k] == r && r.bookId != bookId;
        assert r.bookId in db.users[r.userId].borrowedBooks;
      }
    }
  }

  /** What `searchBook` matches: title, author, category or ISBN contains the
      keyword, ignoring case. */
  predicate Matches(b: Book, keyword: string) {
    ContainsIgnoreCase(b.title, keyword) || ContainsIgnoreCase(b.author, keyword) ||
    ContainsIgnoreCase(b.category, keyword) || (b.isbn.Some? && ContainsIgnoreCase(b.isbn.value, keyword))
  }

  function MatchingIds(db: Db, keyword: string): set<Id> {
    set k | k in db.books && Matches(db.books[k], keyword)
  }

  /** `searchBook`: an empty result is reported with success false but 200. */
  function SearchBook(db: Db, keyword: Option<string>): (l: Listing)
    requires db.Valid()
    ensures !Truthy(keyword) ==> l == Listing(Fail(400, KeywordRequired), [])
    ensures Truthy(keyword) ==>
      l.res.status == 200 && StrictlyAscending(l.ids) &&
      (forall k :: k in l.ids <==> k in db.books && Matches(db.books[k], keyword.value)) &&
      (l.res.success <==> l.ids != []) &&
      (l.ids == [] ==> l.res.message == NoBooksFound)
  {
    if !Truthy(keyword) then Listing(Fail(400, KeywordRequired), [])
    else
      var ids := Ascending(MatchingIds(db, keyword.value), db.nextId);
      if ids == [] then Listing(Fail(200, NoBooksFound), [])
      else Listing(Ok(200, SearchResults), ids)
  }

  lemma LowerCharIdempotent(c: char)
    ensures LowerChar(LowerChar(c)) == LowerChar(c)
  {
  }

  lemma {:induction false} ToLowerIdempotent(s: string)
    ensures ToLower(ToLower(s)) == ToLower(s)
  {
    var t := ToLower(s);
    var u := ToLower(t);
    assert |u| == |t| == |s|;
    forall i | 0 <= i < |s| ensures u[i] == t[i] {
      assert t[i] == LowerChar(s[i]);
      assert u[i] == LowerChar(t[i]);
      LowerCharIdempotent(s[i]);
    }
  }

  /** Lower-casing the keyword first does not change what a search finds. */
  lemma SearchIgnoresKeywordCase(db: Db, keyword: string)
    requires db.Valid()
    ensures SearchBook(db, Some(ToLower(keyword))) == SearchBook(db, Some(keyword))
  {
    ToLowerIdempotent(keyword);
    assert |ToLower(keyword)| == |keyword|;
    forall b: Book ensures Matches(b, ToLower(keyword)) == Matches(b, keyword) {
      assert ToLower(ToLower(keyword)) == ToLower(keyword);
    }
    assert MatchingIds(db, ToLower(keyword)) == MatchingIds(db, keyword);
  }

  /** Searching for a stored book's exact title finds that book. */
  lemma SearchFindsExactTitle(db: Db, bookId: Id)
    requires db.Valid() && bookId in db.books
    ensures bookId in SearchBook(db, Some(db.books[bookId].title)).ids
  {
    var b := db.books[bookId];
    var t := ToLower(b.title);
    assert t[0..|t|] == t;
    assert OccursAt(t, t, 0);
    assert Matches(b, b.title);
    var ids := Ascending(MatchingIds(db, b.title), db.nextId);
    assert bookId in ids;
    assert ids != [];
    assert SearchBook(db, Some(b.title)).ids == ids;
  }
}
