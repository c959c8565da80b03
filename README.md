# E-Library core, modelled in Dafny

E-Library is a digital library. Members borrow or buy books, review them and read the
PDFs in the browser; administrators add, edit and delete books and see a dashboard. This
project models the logic under the glue of both halves.

Backend (the Express request handlers over a document database):
- The database is the datatype `Store.Db`: four maps from ids to `User`, `Book`,
  `Borrowing` and `Review` records, plus the next id to hand out.
  - `Store.Library` holds the same collections as mutable fields.
  - `Db.Valid()` states what the schemas guarantee of every stored record: required
    fields, the role and access-type enums, ratings from 1 to 5 (not necessarily whole), unique e-mail and unique ISBN.
- Each handler has two forms.
  - A function on `Db` returns the new database together with the reply
    `(status, success, message)`; its contract lists every reply.
  - Reply messages are the constructors of `Store.Message`; `Store.Text` spells
    out each one as the handlers write it. Validation messages on the client
    are `BookForm.FieldError`, spelled out by `BookForm.ErrorText`.
  - A method on `Library` performs the handler's writes in its own order and is
    proved to reach the same state and reply.
- The authentication middleware chooses a token and walks its decision tree.

Client (the React pages and the Redux store):
- State updated in place becomes a class with `modifies` clauses: the two Redux
  slices, the sign-up card, the add/edit book pages, the admin list page, the two
  PDF viewers, the route guard, the HTTP session and a book tile.
- The rules those classes apply are pure functions with lemmas:
  - the shared book-form model (`BookForm`, with `Number()` on numerals);
  - validators, payload construction and the browse filter;
  - the pagination window, the page clamps and the rating stars;
  - cookie-token parsing, error classification, book normalisation and the PDF address rewrite.
- JavaScript values are the datatype `Json.Value`, and `Option<Value>` stands for a
  possibly `undefined` property. Truthiness, `||`, `?.` and object spread follow JavaScript.

Foreign services are parameters or opaque values: password hashing and comparison, token
signing and verification, cloud uploads, the clock and the server's replies to the client.

## Model

| member | source | states |
|---|---|---|
| UserModel.ParseRole | Backend/models/user.model.js:20-24 | a role is stored only when it is "admin" or "member", and the stored role prints back as the same string |
| UserModel.DefaultRoleOutsideEnum | Backend/models/user.model.js:20-24 | the declared default role "user" is rejected by the schema's own enum |
| UserModel.NewUser | Backend/models/user.model.js:4-35 | a new user starts with no borrowed books, an empty profile photo and no bio, and carries the given fields and creation time |
| BookModel.NewBook | Backend/models/book.model.js:4-43 | a new book has `borrowedBy` null and the given admin, fields, asset URLs and timestamps |
| BorrowingModel.ParseAccessType | Backend/models/borrowing.model.js:14-18 | an access type is accepted only as "Buy" or "Subscribe" |
| BorrowingModel.NewBorrowing | Backend/models/borrowing.model.js:4-23 | a new borrowing record carries user, book, access type and expiry, with both timestamps at creation |
| BorrowController.AccessExpiry | Backend/controllers/borrow.controller.js:40-45 | an expiry exists only for "Subscribe", and it is exactly ten days after `now` |
| BorrowController.Borrow | Backend/controllers/borrow.controller.js:5-72 | replies in check order: 400 missing field, 404 user, 404 book, 400 already borrowed; success iff every check and the enum pass; on success exactly one record is added under the next id, the borrower's record is the old one with the id appended to `borrowedBooks` and `updatedAt` set to now, and nothing else changes; any failure leaves the store unchanged |
| BorrowController.BorrowBook | Backend/controllers/borrow.controller.js:47-57 | the handler's two writes (save the record, push onto the user's list) reach exactly the state and reply of `Borrow` |
| BorrowController.BorrowKeepsLinked | Backend/controllers/borrow.controller.js:47-57 | after a borrow, every borrowing record still names a stored user and book, and its book is in that user's list |
| BorrowController.BorrowTwiceRefused | Backend/controllers/borrow.controller.js:33-38 | after a successful borrow, the same user borrowing the same book again is refused with 400 and changes nothing |
| BorrowController.BorrowingsOf | Backend/controllers/borrow.controller.js:93 | the listed ids are exactly the requester's borrowing records, in insertion order |
| BorrowController.GetAllBorrowedBooks | Backend/controllers/borrow.controller.js:74-106 | 400 without an identity, 404 for an unknown user, otherwise exactly that user's records |
| BookController.CoverUrl | Backend/controllers/book.controller.js:28-40 | the cover URL is set iff the cover upload succeeded, and then it is the upload's secure URL |
| BookController.PdfUrl | Backend/controllers/book.controller.js:42-65 | the PDF URL is set iff the book upload succeeded, and then it is the raw-resource delivery address |
| BookController.AddBook | Backend/controllers/book.controller.js:8-104 | 404 unknown user and 403 non-admin before 400 "All fields are required" (a price of 0 fails); upload failures give 500; a taken ISBN gives 400; success iff all pass, adding one book owned by the requester |
| BookController.AddBookTo | Backend/controllers/book.controller.js:8-104 | the handler's lookup, uploads and save reach exactly the state and reply of `AddBook` |
| BookController.AddedWithoutFiles | Backend/controllers/book.controller.js:27-29 | a book added without files has no cover and no PDF and belongs to the requester |
| BookController.GetAllBooks | Backend/controllers/book.controller.js:109-139 | 400 without an identity; otherwise every stored book, in insertion order |
| BookController.GetBookById | Backend/controllers/book.controller.js:141-163 | the stored book with 200 iff it exists, else 404 |
| BookController.Keep | Backend/controllers/book.controller.js:232-233 | `x \|\| current`: a truthy new value wins, otherwise the current one stays |
| BookController.Edited | Backend/controllers/book.controller.js:229-235 | title, author, category, ISBN and description change only to truthy new values; the PDF URL changes only on an upload; price, cover URL, owner and timestamps are untouched |
| BookController.UpdateBook | Backend/controllers/book.controller.js:165-252 | 404 user, 403 non-admin, 404 book, 500 per failed upload; success iff all pass; the saved book is `Edited`, stamped only if something changed; the ISBN index is respected |
| BookController.UpdateBookIn | Backend/controllers/book.controller.js:165-252 | the handler's field-by-field assignments reach exactly the state and reply of `UpdateBook` |
| BookController.EmptyUpdateChangesNothing | Backend/controllers/book.controller.js:229-237 | an update with no fields and no files leaves the store as it was |
| BookController.DeleteBook | Backend/controllers/book.controller.js:254-321 | 404 user, 403 non-admin, 404 book, each with no change; on success the book is gone, no user lists it and no borrowing refers to it, as one step |
| BookController.PullEverywhere | Backend/controllers/book.controller.js:294-298 | `$pull` removes the id from every user's list and keeps every other id and every unaffected user |
| BookController.WithoutBook | Backend/controllers/book.controller.js:283-304 | the store after the cascade: the book is gone, no user's list holds it, other list entries stay, exactly the borrowings of other books remain, and the store stays valid |
| BookController.DeleteBookFrom | Backend/controllers/book.controller.js:263-307 | the transaction's writes reach exactly the state and reply of `DeleteBook` |
| BookController.DeleteBookKeepsLinked | Backend/controllers/book.controller.js:283-304 | the cascade leaves every remaining borrowing linked to a stored user and book |
| BookController.SearchBook | Backend/controllers/book.controller.js:323-362 | 400 without a keyword; otherwise exactly the books whose title, author, category or ISBN contains it ignoring case; an empty result is 200 with success false |
| BookController.SearchIgnoresKeywordCase | Backend/controllers/book.controller.js:335-338 | lower-casing the keyword first does not change the result |
| BookController.SearchFindsExactTitle | Backend/controllers/book.controller.js:333-339 | searching for a stored book's title finds that book |
| ReviewController.FindReview | Backend/controllers/review.controller.js:24 | no match iff the user has no review of the book; otherwise the first such review |
| ReviewController.Rewritten | Backend/controllers/review.controller.js:26-28 | only rating and comment are overwritten |
| ReviewController.AddReview | Backend/controllers/review.controller.js:4-54 | 404 user, 404 book, 500 for a rating outside 1..5; success iff all pass; an existing review is rewritten in place, otherwise exactly one review is created |
| ReviewController.AddReviewAsWritten | Backend/controllers/review.controller.js:35-45 | as written, a first review is always answered 200 "Review added successfully", even when the unawaited creation is refused |
| ReviewController.UnawaitedCreateReportsSuccess | Backend/controllers/review.controller.js:35-45 | a first review rated 6 is reported added though none is stored, while the awaited version answers 500 |
| ReviewController.AddReviewTo | Backend/controllers/review.controller.js:4-54 | the handler's lookups and writes reach exactly the state and reply of `AddReview` |
| ReviewController.AddReviewKeepsAtMostOne | Backend/controllers/review.controller.js:24-40 | one request keeps at most one review per (user, book) for every pair |
| ReviewController.AddReviewLeavesOne | Backend/controllers/review.controller.js:24-40 | after an accepted request by a user with at most one review of the book, exactly one review of that pair exists and it holds the request's rating and comment |
| ReviewController.AddReviews | Backend/controllers/review.controller.js:4-54 | a run of requests by one user on one book keeps the store valid |
| ReviewController.AddReviewsLeaveOne | Backend/controllers/review.controller.js:24-40 | after any run ending in an accepted request, exactly one review exists and it holds that request's rating and comment |
| ReviewController.RefusedKeepReview | Backend/controllers/review.controller.js:47-53 | a run of refused requests leaves the store unchanged |
| ReviewController.GetReviews | Backend/controllers/review.controller.js:56-72 | exactly the reviews of the book, in insertion order |
| ReviewController.DeleteReview | Backend/controllers/review.controller.js:74-116 | 404 review, 404 user, 403 unless author or admin; success iff allowed, and then only that review is removed |
| ReviewController.DeleteReviewFrom | Backend/controllers/review.controller.js:74-116 | the handler reaches exactly the state and reply of `DeleteReview` |
| ReviewController.OthersCannotDelete | Backend/controllers/review.controller.js:95-102 | a member who did not write a review never removes it |
| UserController.FindByEmail | Backend/controllers/user.controller.js:22 | the user with that e-mail, unique by the index, or none iff nobody has it |
| UserController.Register | Backend/controllers/user.controller.js:7-51 | 400 missing field, 400 invalid role, 400 taken e-mail (with the return restored); success iff all pass, adding one user with the hashed password |
| UserController.RegisterAsWritten | Backend/controllers/user.controller.js:22-28 | as written, a registration with an unused e-mail behaves as `Register` |
| UserController.TakenEmailRepliesTwice | Backend/controllers/user.controller.js:22-50 | a taken e-mail, as written, makes two replies (400 and then 404 from the catch) and stores nothing; the corrected handler replies 400 once |
| UserController.RegisterIn | Backend/controllers/user.controller.js:7-51 | the corrected handler reaches exactly the state and reply of `Register` |
| UserController.Login | Backend/controllers/user.controller.js:53-127 | in order: 400 missing field, 404 unknown e-mail, 400 wrong password, 403 role mismatch; a token is issued iff login succeeds, for the user's id, valid one hour, with the user minus the password |
| UserController.RegisterThenLogin | Backend/controllers/user.controller.js:7-127 | a user who just registered logs in with the same e-mail, password and role |
| UserController.ProfileEdited | Backend/controllers/user.controller.js:164-175 | only truthy fullname, e-mail, phone, bio or photo overwrite; password, role, list and timestamps are untouched |
| UserController.UpdateProfile | Backend/controllers/user.controller.js:145-198 | a request with a file ends in 500 and touches nothing; 404 unknown user; otherwise the stored user becomes `ProfileEdited` |
| UserController.UpdateProfileIn | Backend/controllers/user.controller.js:145-198 | the handler reaches exactly the state and reply of `UpdateProfile` |
| UserController.EmptyProfileUpdateChangesNothing | Backend/controllers/user.controller.js:164-175 | an update that carries nothing leaves the store unchanged |
| UserController.NumberOfBorrowedBooks | Backend/controllers/user.controller.js:200-224 | the length of the user's list, or 400 for an unknown user |
| UserController.BorrowCountsOne | Backend/controllers/user.controller.js:203-215 | a successful borrow adds exactly one to the borrower's count and leaves every other count alone |
| UserController.AddBorrowedBook | Backend/controllers/user.controller.js:226-269 | 400 missing id, 500 unknown user, 400 already listed; otherwise the id is appended and no borrowing record is made |
| UserController.AddBorrowedBookTo | Backend/controllers/user.controller.js:226-269 | the handler reaches exactly the state and reply of `AddBorrowedBook` |
| UserController.AddBorrowedBookKeepsLinked | Backend/controllers/user.controller.js:240-253 | adding to a list keeps every borrowing linked |
| AdminController.Ratings | Backend/controllers/admin.controller.js:19-28 | at most one rating per review, and each is the rating present on one of the given reviews |
| AdminController.RatingOf | Backend/controllers/admin.controller.js:24-27 | a review contributes nothing exactly when it has no rating, otherwise its own rating |
| AdminController.RatingsSnoc | Backend/controllers/admin.controller.js:24-27 | the ratings averaged are exactly a filter of the reviews: one more review appends its own rating, if any, and nothing else |
| AdminController.SumAppend | Backend/controllers/admin.controller.js:26 | the total of two runs of ratings is the sum of their totals |
| AdminController.RatingSumPick | Backend/controllers/admin.controller.js:26 | the total of the ratings of a set of reviews does not depend on the order they are taken in |
| AdminController.RatingsMatchRated | Backend/controllers/admin.controller.js:24-27 | scanning the reviews below any id sees as many ratings as there are rated reviews there, with the same total |
| AdminController.RatedAverage | Backend/controllers/admin.controller.js:24-28 | scanning every stored review of the set sees exactly its rated reviews: same count, same total |
| AdminController.DashBoard | Backend/controllers/admin.controller.js:5-45 | 403 unless an admin; the upload count is the admin's books, the review count the reviews of those books; the average is "N/A" exactly when there are none, and otherwise the total of the ratings present divided by how many reviews carry one; reviews that all lack a rating make the formatting throw, answered 500 |
| AdminController.AverageWithinStars | Backend/controllers/admin.controller.js:24-28 | a reported average lies between 1 and 5 |
| AdminController.SortNewestFirst | Backend/controllers/admin.controller.js:56-58 | the result is a permutation of its input, ordered newest `createdAt` first |
| AdminController.BooksWrittenByAdmin | Backend/controllers/admin.controller.js:47-72 | 403 for non-admins; otherwise exactly the requester's books, each once, newest first |
| AuthMiddleware.SelectToken | Backend/middleware/isAuthenticated.js:6 | a truthy cookie wins; else the header's second space-separated piece when it starts with "Bearer "; else no token |
| AuthMiddleware.BearerHeaderYieldsToken | Backend/middleware/isAuthenticated.js:6 | "Bearer " followed by a space-free token yields that token |
| AuthMiddleware.Decide | Backend/middleware/isAuthenticated.js:8-44 | no token gives 401 and clears the cookie; expired gives 401 with `isTokenExpired`; every refusal is 401; admission iff the payload carries an id |
| AuthMiddleware.Authenticate | Backend/middleware/isAuthenticated.js:3-53 | on admission `req.id` is the decoded id and `next` is called exactly once; on refusal it is not called |
| AuthSlice.NormalizedUser | Frontend/src/redux/authSlice.js:20-24 | the payload's fields plus `phoneNumber`, taken from the payload, else its profile, else "" |
| AuthSlice.NormalizeIdempotent | Frontend/src/redux/authSlice.js:20-24 | storing an already stored user again changes nothing |
| AuthSlice.AuthState.constructor | Frontend/src/redux/authSlice.js:5-9 | loading false, no user, count 0 |
| AuthSlice.AuthState.SetLoading | Frontend/src/redux/authSlice.js:12-14 | only `loading` changes |
| AuthSlice.AuthState.SetUser | Frontend/src/redux/authSlice.js:15-25 | a falsy payload signs out; otherwise the normalised user is stored; nothing else changes |
| AuthSlice.AuthState.SetNumberOfBorrowedBooks | Frontend/src/redux/authSlice.js:26-28 | only the count changes, to the payload |
| AuthSlice.AuthState.IncrementBorrowedBooks | Frontend/src/redux/authSlice.js:29-31 | the count grows by exactly one and nothing else changes |
| AuthSlice.AuthState.ClearAuth | Frontend/src/redux/authSlice.js:32-36 | back to the initial state |
| BookSlice.BookState.constructor | Frontend/src/redux/bookSlice.js:5-10 | loading false, empty book lists, empty query |
| BookSlice.BookState.SetLoading | Frontend/src/redux/bookSlice.js:13-15 | only `loading` changes |
| BookSlice.BookState.SetBooks | Frontend/src/redux/bookSlice.js:16-18 | only `allBooks` changes |
| BookSlice.BookState.SetPurchasedBooks | Frontend/src/redux/bookSlice.js:19-21 | only `purchasedBooks` changes |
| BookSlice.BookState.SetSearchQuery | Frontend/src/redux/bookSlice.js:22-24 | only `searchQuery` changes |
| MemberProfile.EntryOf | Frontend/src/components/MemberProfile.jsx:111-117 | the record's own id when truthy, else the book data's id; the book data's title when truthy, else "Untitled Book"; and the record's access type |
| MemberProfile.Listed | Frontend/src/components/MemberProfile.jsx:106-132 | a listing never has more entries than records |
| MemberProfile.ListedInOrder | Frontend/src/components/MemberProfile.jsx:106-132 | listing a concatenation lists each part in turn, so input order is kept |
| MemberProfile.ListedMembers | Frontend/src/components/MemberProfile.jsx:107-110 | every qualifying record is listed, and every entry comes from a qualifying record |
| MemberProfile.ListedOne | Frontend/src/components/MemberProfile.jsx:121-124 | one record is listed exactly when its type is borrowed ("Subscribe", "borrowed") or bought ("Buy", "purchased") as asked |
| MemberProfile.PartitionBound | Frontend/src/components/MemberProfile.jsx:106-132 | the two lists never hold more than the records, and records of any other type appear in neither |
| MemberProfile.NumberOfBorrowedBooks | Frontend/src/components/MemberProfile.jsx:134 | the count shown is the borrowed list's length, at most the number of records |
| MemberProfile.Recent | Frontend/src/components/MemberProfile.jsx:352-354 | the first min(5, n) records |
| MemberProfile.DefaultTab | Frontend/src/components/MemberProfile.jsx:253 | "account" iff the user's role is "admin", otherwise "borrowed" |
| ManageBooks.WindowSize | Frontend/src/pages/admin/ManageBooks.jsx:249 | min(5, totalPages) buttons |
| ManageBooks.PageWindow | Frontend/src/pages/admin/ManageBooks.jsx:249-260 | one number per button, by the four cases |
| ManageBooks.WindowAroundCurrent | Frontend/src/pages/admin/ManageBooks.jsx:250-260 | for a current page in range, the numbers are consecutive, lie in 1..total and include the current page |
| ManageBooks.Previous | Frontend/src/pages/admin/ManageBooks.jsx:192 | max(p-1, 1) |
| ManageBooks.Next | Frontend/src/pages/admin/ManageBooks.jsx:203 | min(p+1, totalPages) |
| ManageBooks.StepsStayInRange | Frontend/src/pages/admin/ManageBooks.jsx:192-203 | from a page in 1..total, both buttons stay in 1..total |
| ManageBooks.RangeEnd | Frontend/src/pages/admin/ManageBooks.jsx:219 | the end never passes the total or p·10 |
| ManageBooks.RangeCoversListed | Frontend/src/pages/admin/ManageBooks.jsx:217-221 | with books listed, start ≤ end ≤ total and the range is as long as the page's list (at most 10) |
| ManageBooks.FetchFor | Frontend/src/pages/admin/ManageBooks.jsx:25-38 | a non-blank term searches for its trimmed form; otherwise the admin list is fetched |
| ManageBooks.ManageBooksPage.constructor | Frontend/src/pages/admin/ManageBooks.jsx:10-14 | page 1, empty term and list, and the pagination block hidden since totalPages is 1 |
| ManageBooks.ManageBooksPage.SetSearchTerm | Frontend/src/pages/admin/ManageBooks.jsx:11 | only the term changes |
| ManageBooks.ManageBooksPage.HandleSearch | Frontend/src/pages/admin/ManageBooks.jsx:64-68 | the page resets to 1 and the fetch is `FetchFor(term)` |
| ManageBooks.ManageBooksPage.GoPrevious | Frontend/src/pages/admin/ManageBooks.jsx:192 | the page becomes `Previous(page)` |
| ManageBooks.ManageBooksPage.GoNext | Frontend/src/pages/admin/ManageBooks.jsx:203 | the page becomes `Next(page, totalPages)` |
| ManageBooks.ManageBooksPage.ReceiveBooks | Frontend/src/pages/admin/ManageBooks.jsx:31-45 | the list is `data.books` when truthy, else [], and [] when the request failed |
| PdfViewerPage.CountOrOne | Frontend/src/pages/PDFViewerPage.jsx:44 | `numPages \|\| 1` is at least 1 and is the count once known |
| PdfViewerPage.ChangedPage | Frontend/src/pages/PDFViewerPage.jsx:42-46 | the new page lies in 1..(numPages or 1), and is p+offset whenever that is in range |
| PdfViewerPage.ChangesStayInRange | Frontend/src/pages/PDFViewerPage.jsx:44-45 | with the count known, any run of changes keeps the page in 1..numPages |
| PdfViewerPage.ButtonsMoveOnePage | Frontend/src/pages/PDFViewerPage.jsx:125-136 | Next is disabled while the count is unknown; an enabled button moves exactly one page |
| PdfViewerPage.ScreenFor | Frontend/src/pages/PDFViewerPage.jsx:49-64 | "No PDF Selected" iff the navigation state carries no file |
| PdfViewerPage.Viewer.constructor | Frontend/src/pages/PDFViewerPage.jsx:15-16 | page 1, count unknown |
| PdfViewerPage.Viewer.OnDocumentLoadSuccess | Frontend/src/pages/PDFViewerPage.jsx:38-40 | records the count, keeps the page |
| PdfViewerPage.Viewer.ChangePage | Frontend/src/pages/PDFViewerPage.jsx:42-46 | the page becomes `ChangedPage` |
| PdfViewer.CountOr | Frontend/src/components/PDFViewer.jsx:50-51 | `numPages \|\| d` |
| PdfViewer.Previous | Frontend/src/components/PDFViewer.jsx:40 | never below 1, one less from page 2 on |
| PdfViewer.Next | Frontend/src/components/PDFViewer.jsx:50 | unchanged while the count is unknown; never past a known count; one more below it |
| PdfViewer.ButtonsKeepPageInRange | Frontend/src/components/PDFViewer.jsx:40-51 | with n pages, both buttons stay in 1..n, and enabled buttons move one page |
| PdfViewer.UnknownCountHoldsPage | Frontend/src/components/PDFViewer.jsx:50-51 | while the count is unknown, Next is disabled and would not move |
| PdfViewer.Viewer.constructor | Frontend/src/components/PDFViewer.jsx:9-10 | page 1, count unknown |
| PdfViewer.Viewer.OnDocumentLoadSuccess | Frontend/src/components/PDFViewer.jsx:12-14 | records the count, keeps the page |
| PdfViewer.Viewer.GoPrevious | Frontend/src/components/PDFViewer.jsx:40 | the page becomes `Previous` |
| PdfViewer.Viewer.GoNext | Frontend/src/components/PDFViewer.jsx:50 | the page becomes `Next` |
| RatingStars.Clamp | Frontend/src/components/ratingStars.jsx:12 | min(5, max(0, x)) |
| RatingStars.StarsUpTo | Frontend/src/components/ratingStars.jsx:14-18 | star i is filled iff i < the normalised rating |
| RatingStars.Render | Frontend/src/components/ratingStars.jsx:5-18 | nothing iff the rating is not a number (NaN included); otherwise exactly 5 stars for the clamped rating; a missing rating is 0 |
| RatingStars.WholeRatingFillsThatMany | Frontend/src/components/ratingStars.jsx:18 | a whole rating r in 0..5 fills exactly the first r stars |
| Common.OrElse | Frontend/src/components/BrowseSection.jsx:23-24 | a URL parameter when present and non-empty, otherwise the default ("" for the query, "all" for the category) |
| BrowseSection.FilterBooks | Frontend/src/components/BrowseSection.jsx:49-51 | a filter never lists more books than it is given |
| BrowseSection.FilteredBooks | Frontend/src/components/BrowseSection.jsx:43 | a catalogue that is not an array lists nothing |
| BrowseSection.FilterExactly | Frontend/src/components/BrowseSection.jsx:49-50 | exactly the kept books are listed: title contains the query ignoring case, category "all" or equal ignoring case |
| BrowseSection.FilterKeepsOrder | Frontend/src/components/BrowseSection.jsx:51 | filtering a concatenation filters each part, so input order is kept |
| BrowseSection.EmptyQueryKeepsTitled | Frontend/src/components/BrowseSection.jsx:49 | with no query and "all", a book is kept iff it has a title; an untitled book is never kept |
| BrowseSection.PurchasedIffListed | Frontend/src/components/BrowseSection.jsx:19 | a card is purchased exactly when the user's list holds the book's id |
| ProtectedRoute.Decide | Frontend/src/components/admin/ProtectedRoute.jsx:11-44 | loading iff still loading; no user to /login; non-admin on an admin route to "/"; admin elsewhere to /admin/dashboard; children iff a user and (admin route iff admin) |
| ProtectedRoute.RedirectsAreTheThree | Frontend/src/components/admin/ProtectedRoute.jsx:30-42 | every redirect goes to one of the three targets, and only an admin is sent to the dashboard |
| ProtectedRoute.Guard.constructor | Frontend/src/components/admin/ProtectedRoute.jsx:6 | starts loading |
| ProtectedRoute.Guard.OnUserChange | Frontend/src/components/admin/ProtectedRoute.jsx:13-28 | loading ends once the user is no longer undefined |
| BookForm.KeyOf | Frontend/src/pages/admin/AddBook.jsx:38-41 | the key named by an input's `name`, canonical and printing back as that name |
| BookForm.KeyNamesRoundTrip | Frontend/src/pages/admin/AddBook.jsx:38-41 | names and canonical keys correspond one to one |
| BookForm.Assign | Frontend/src/pages/admin/AddBook.jsx:39-44 | `{...form, [key]: v}`: the key holds v, an existing key keeps its place and a new one goes last |
| BookForm.BlankForm | Frontend/src/pages/admin/EditBook.jsx:14-25 | the starting form: the ten keys, empty texts and zero numbers |
| BookForm.Typed | Frontend/src/pages/admin/AddBook.jsx:41-43 | `Number(value)` for bookPrice, stock and publishedYear, the text itself otherwise |
| BookForm.ToNumber | Frontend/src/pages/admin/AddBook.jsx:42 | `Number()` yields a number or NaN |
| BookForm.PositiveConverts | Frontend/src/pages/admin/AddBook.jsx:42 | a typed whole number is stored as that number |
| BookForm.NegativeConverts | Frontend/src/pages/admin/AddBook.jsx:42 | a typed minus sign and whole number is stored as its negation |
| AddBook.InitialForm | Frontend/src/pages/admin/AddBook.jsx:12-23 | the initial form is well typed, keys in declared order, no cover |
| AddBook.TypingKeepsWellTyped | Frontend/src/pages/admin/AddBook.jsx:37-44 | typing into any input keeps title, author and ISBN text and the price a number |
| BookForm.FieldErrors | Frontend/src/pages/admin/EditBook.jsx:59-64 | one error per failing check (title, author, ISBN, price, stock) and no other key; no error at all iff every check passes |
| AddBook.ValidationErrorsExact | Frontend/src/pages/admin/AddBook.jsx:26-35 | the form passes iff trimmed title, author and ISBN are non-empty and the price is not negative |
| AddBook.NegativePriceRejected | Frontend/src/pages/admin/AddBook.jsx:31-42 | typing "-" and digits into the price makes the form fail on the price |
| AddBook.CollectEntries | Frontend/src/pages/admin/AddBook.jsx:101-105 | the loop appends exactly `Entries` of the keys in order, which `EntriesExact` characterises |
| AddBook.EntriesExact | Frontend/src/pages/admin/AddBook.jsx:101-105 | the appended entries are exactly the non-file keys with their values |
| AddBook.PayloadContents | Frontend/src/pages/admin/AddBook.jsx:98-113 | for a form whose keys are in their one representation, the body carries every key except coverFile and bookFile with its value, no field part is named like a file key, and the files go as "cover" and "book" when chosen |
| AddBook.AddBookPage.constructor | Frontend/src/pages/admin/AddBook.jsx:12-25 | the initial form and no errors |
| AddBook.AddBookPage.ValidateForm | Frontend/src/pages/admin/AddBook.jsx:26-35 | the errors become this run's messages; ok iff there are none |
| AddBook.AddBookPage.HandleChange | Frontend/src/pages/admin/AddBook.jsx:37-53 | the named field gets the typed value; only that field's error is cleared |
| AddBook.WithFile | Frontend/src/pages/admin/AddBook.jsx:55-85 | a JPEG/PNG/WebP cover is stored with its preview URL, a PDF book file with its name; any other choice leaves the form unchanged; the form stays well typed |
| AddBook.AddBookPage.HandleFileChange | Frontend/src/pages/admin/AddBook.jsx:55-85 | the form becomes `WithFile` of the old form and the choice; the errors are untouched |
| AddBook.AddBookPage.HandleSubmit | Frontend/src/pages/admin/AddBook.jsx:87-113 | an invalid form sends nothing; a valid one sends `Payload(form)` |
| EditBook.FieldOr | Frontend/src/pages/admin/EditBook.jsx:33-44 | `book.x \|\| default` |
| EditBook.FetchedForm | Frontend/src/pages/admin/EditBook.jsx:33-44 | the fetched form takes each field from the book or defaults to "", 0 or the current year |
| EditBook.StoredBookPasses | Frontend/src/pages/admin/EditBook.jsx:33-68 | a book with title, author and ISBN filled fetches into a form that passes validation |
| EditBook.TypingKeepsWellTyped | Frontend/src/pages/admin/EditBook.jsx:70-77 | typing keeps the validated fields of their types |
| EditBook.ValidationErrorsExact | Frontend/src/pages/admin/EditBook.jsx:58-68 | the form passes iff trimmed title, author and ISBN are non-empty and price and stock are not negative |
| EditBook.PassedNamesSkipTypeChecks | Frontend/src/pages/admin/EditBook.jsx:96-104 | the names the inputs pass ("coverImage", "pdfUrl") never trigger a type check |
| EditBook.UploadKeepsWellTyped | Frontend/src/pages/admin/EditBook.jsx:116-119 | an uploaded URL never lands on a validated field |
| EditBook.PriceInputMissesBookPrice | Frontend/src/pages/admin/EditBook.jsx:70-77 | the input named "price" stores its text under "price" and never changes bookPrice |
| EditBook.Destination | Frontend/src/pages/admin/EditBook.jsx:139-163 | /login iff 401; /admin/books iff updated or 404; otherwise stay |
| EditBook.EditBookPage.constructor | Frontend/src/pages/admin/EditBook.jsx:14-26 | the blank form, no errors, loading |
| EditBook.EditBookPage.FetchBookDetails | Frontend/src/pages/admin/EditBook.jsx:28-52 | loading ends; with a book the form becomes `FetchedForm`; without one the page leaves |
| EditBook.EditBookPage.ValidateForm | Frontend/src/pages/admin/EditBook.jsx:58-68 | the errors become this run's messages; ok iff there are none |
| EditBook.EditBookPage.HandleChange | Frontend/src/pages/admin/EditBook.jsx:70-86 | the named field gets the typed value; only that field's error is cleared |
| EditBook.EditBookPage.HandleFileChange | Frontend/src/pages/admin/EditBook.jsx:88-126 | a file that passes the type check and gets a reply stores the reply's URL under the field's name; otherwise the form is unchanged |
| EditBook.EditBookPage.HandleSubmit | Frontend/src/pages/admin/EditBook.jsx:128-139 | an invalid form sends nothing; a valid one sends the form as it is |
| Signup.Write | Frontend/src/components/auth/Signup.jsx:43-45 | only the named field changes |
| Signup.Submit | Frontend/src/components/auth/Signup.jsx:54-70 | "All fields are required" iff a field is empty; "Passwords do not match" iff filled but different; otherwise the body carries the five fields without the confirmation |
| Signup.AsRegistration | Frontend/src/components/auth/Signup.jsx:64-70 | the body as the server reads it |
| Signup.SentBodiesAreComplete | Frontend/src/components/auth/Signup.jsx:64-70 | every body sent has all the fields `register` requires |
| Signup.DefaultRoleRefused | Frontend/src/components/auth/Signup.jsx:35 | left at "user", the role is refused by `register` with 400 "Invalid role" and nothing is stored |
| Signup.MemberRoleAccepted | Frontend/src/components/auth/Signup.jsx:208-210 | choosing "member" passes the server's role check |
| Signup.SignupCard.constructor | Frontend/src/components/auth/Signup.jsx:29-40 | empty fields, role "user", step 1 |
| Signup.SignupCard.NextStep | Frontend/src/components/auth/Signup.jsx:102 | step 2, entries unchanged |
| Signup.SignupCard.PreviousStep | Frontend/src/components/auth/Signup.jsx:103 | step 1, entries unchanged |
| Signup.SignupCard.HandleChange | Frontend/src/components/auth/Signup.jsx:43-45 | entries become `Write(entries, i, value)` |
| Signup.SignupCard.HandleRoleChange | Frontend/src/components/auth/Signup.jsx:47-49 | only the role changes |
| Signup.SignupCard.HandleSubmit | Frontend/src/components/auth/Signup.jsx:51-90 | a body is sent iff `Submit` allows it; the step becomes 3 iff it was sent and the server reported success |
| Api.FindFirst | Frontend/src/utils/api.js:19 | the first entry starting with the prefix, or -1 iff none does |
| Api.TokenOf | Frontend/src/utils/api.js:17-20 | no token iff no entry starts with "token="; otherwise the first such entry's piece after its first "=", which holds no "=" |
| Api.CookieTokenRoundTrip | Frontend/src/utils/api.js:17-20 | "token=" followed by a value without "=" or ";" reads back as that value |
| Api.AuthorizationFor | Frontend/src/utils/api.js:23-25 | a header iff the token is non-empty, and then "Bearer " + token |
| Api.HeaderReachesServer | Frontend/src/utils/api.js:23-25 | the header the client builds is read back by the server's middleware as the same token |
| Api.FailureMessage | Frontend/src/utils/api.js:58-74 | ≥500 server error, 404 not found, other non-401 the server's message or "An error occurred", no reply a network error, setup failure "unexpected"; none for 401 |
| Api.RequestConfig.constructor | Frontend/src/utils/api.js:15 | the request configuration as given |
| Api.Session.constructor | Frontend/src/utils/api.js:35 | cookies and path as given, toast not yet shown |
| Api.Session.AddToken | Frontend/src/utils/api.js:14-28 | a bearer header when the cookie holds a non-empty token, the configuration untouched otherwise |
| Api.Session.OnError | Frontend/src/utils/api.js:40-76 | on 401: the token cookie is cleared and, away from /login, the path becomes /login and the toast is shown only the first time; other failures are announced by `FailureMessage` and change nothing |
| Api.WithoutToken | Frontend/src/utils/api.js:45 | the cookie entries minus the token entries |
| Api.ClearedSessionSendsNoToken | Frontend/src/utils/api.js:23-45 | after a 401 has cleared the session, no request carries a token |
| BookCard.BookData | Frontend/src/components/BookCard.jsx:23 | `book.bookId` when truthy, else `book` |
| BookCard.NumberOr0 | Frontend/src/components/BookCard.jsx:31-32 | a number is kept, a non-number becomes 0 |
| BookCard.Safe | Frontend/src/components/BookCard.jsx:25-34 | each field is the book's value when truthy, else its default; the cover prefers coverImage, then coverUrl, then the placeholder |
| BookCard.SafeFieldsTruthy | Frontend/src/components/BookCard.jsx:25-34 | every normalised id, title, author, category, cover and PDF URL is a non-empty value |
| BookCard.StarsAlwaysDrawn | Frontend/src/components/BookCard.jsx:31 | the normalised rating always draws stars |
| BookCard.Purchase | Frontend/src/components/BookCard.jsx:48-63 | no payment iff the id is falsy or "unknown"; otherwise the normalised book with the chosen type |
| BookCard.MissingIdNeverPurchased | Frontend/src/components/BookCard.jsx:26-52 | a book without an id can never be purchased |
| BookCard.ViewerUrl | Frontend/src/components/BookCard.jsx:68-71 | a URL without "/raw/upload/" is unchanged; otherwise its first occurrence becomes "/image/upload/" |
| BookCard.ViewerUrlAfter | Frontend/src/components/BookCard.jsx:68-71 | a URL whose first "/raw/upload/" follows a prefix is rewritten at that point |
| BookCard.StoredPdfOpensAsImage | Frontend/src/components/BookCard.jsx:68-71 | the address `addBook` stores for a PDF opens under "/image/upload/" with the same cloud, version and id |
| BookCard.OpenPdf | Frontend/src/components/BookCard.jsx:64-83 | an empty URL gives the error; otherwise the viewer opens the rewritten URL, named by the title or "document.pdf" |
| BookCard.ReadNowReachesViewer | Frontend/src/components/BookCard.jsx:64-82 | "read now" (line 120) on a tile whose address defaults to "Nothing" (line 33) always opens the viewer with a file to show, so the no-URL branch is unreachable from it |
| BookCard.Tile.constructor | Frontend/src/components/BookCard.jsx:35 | the dropdown starts closed |
| BookCard.Tile.SetDropdownOpen | Frontend/src/components/BookCard.jsx:125 | the dropdown takes the given state |
| BookCard.Tile.HandlePurchase | Frontend/src/components/BookCard.jsx:48-63 | navigates with `Purchase` when it allows it, and then closes the dropdown; otherwise nothing changes |

## Left out

- Database, HTTP and server plumbing: queries, `populate`, sessions and Express routing are replaced by the maps of `Store.Db`. `deleteBook`'s transaction is one atomic step.
- Concurrency: simultaneous requests are not modelled; every handler runs alone.
- Password hashing and comparison, token signing and verification, and cloud uploads are opaque parameters. The JWT format is not modelled.
- `logout` and cookie attributes and lifetimes are not modelled; the backend session cookie appears only as the token the middleware reads.
- BookController.SearchBook: the keyword is matched as a literal substring under ASCII case folding, not as a regular expression with Unicode case folding.
- AdminController.DashBoard: the average is an exact rational; `toFixed` rounding and its string form are not modelled.
- Prices divided and formatted for display, and floating-point rounding in general, are not modelled; numbers are exact reals.
- BorrowController.AccessExpiry: ten days are exactly 10 × 86 400 000 ms; daylight-saving shifts of the local calendar are not modelled.
- BookController.AddBook: when both uploads fail, the reply names the cover's failure; the order in which `Promise.all` settles is not modelled.
- BookController.UpdateBook: the cover is written to `coverImage`, a path the schema does not declare, so the model keeps `coverUrl` unchanged and drops the new cover. Mongoose's handling of the undeclared path is not modelled.
- UserController.UpdateProfile: the handler reads `req.file`, while its route accepts files with `.fields()`. The model takes the presence of a file as a parameter and follows the code, which reassigns a constant and ends in 500.
- Malformed ObjectIds (cast errors) are not modelled; ids are abstract.
- Reviews of a deleted book remain, as in the source; nothing cascades to reviews.
- BookForm.ToNumber: `Number()` is modelled for decimal numerals only (sign, digits, one dot, surrounding whitespace); hexadecimal, exponents and "Infinity" become NaN.
- Multipart stringification of form values, and the server's casting of numeric fields, are not modelled; the payload carries the values as the page holds them.
- BookForm.Form: distinct keys in `keys` are not stated; the order of keys is kept as inserted.
- AddBook.PayloadContents: requires every key in its one representation (`BookForm.CanonicalKeys`), as `KeyOf` and the page's own keys produce them; a form built with an `Other` key spelled like a known one is not covered.
- EditBook.EditBookPage.FetchBookDetails: requires that the fetched title, author and ISBN are strings and price and stock numbers, as the schema guarantees; other types would make the page's `.trim()` throw, which is not modelled.
- EditBook.EditBookPage.HandleFileChange: the upload request's reply is a parameter; the request itself posts a field named "file" to a route that expects "cover" and "book", which is not modelled further.
- EditBook.EditBookPage.FetchBookDetails: the lookup posts to the update route with no body; which reply that gives is left to the parameter.
- The page component's rendering, toasts, console output, animations, timers and navigation calls are not modelled, except where a navigation target is the result of a function (`EditBook.Destination`, `BookCard.Tile.HandlePurchase`, `Api.Session.OnError`).
- Signup.AsRegistration: the server's cast of the typed phone number is a parameter.
- Signup.SignupCard.HandleSubmit: the timer that navigates to /login after step 3 is left out.
- Api.Session.OnError: `document.cookie` is modelled as its "; "-separated entries and navigation as the new pathname. The toast is the method's result. The re-rejected promise is not modelled.
- BookCard.Safe: requires that the fields it reads are not NaN where it checks `typeof … === 'number'`; the image `onError` fallback is presentation.
- BookCard.OpenPdf: takes the PDF URL as a string; a non-string `bookUrl` is not modelled.
- BrowseSection.FilterExactly: a title or category that is not a string is treated as missing.
- BrowseSection.FilterExactly: `toLowerCase` is modelled on ASCII letters only; other letters (accented, Greek, Cyrillic, ...) are compared without case folding.
- BrowseSection.FilterBooks: the same ASCII-only case folding as FilterExactly applies to the title and category comparisons.
- Json.Fields: object spread is modelled only for objects; spreading strings or arrays is not.
- Data-fetch hooks and presentation-only pages are not part of this model.
- The admin `/books` route the list page fetches is not routed on the server; the model takes the reply as given.

## Findings

| source | as written | input that shows it | evidently intended | confidence | as-written member | corrected member |
|---|---|---|---|---|---|---|
| Backend/controllers/user.controller.js:22-28 | a taken e-mail is answered 400 with no `return`, so the handler goes on to hash and save, and its catch answers a second time | a registration whose e-mail belongs to a stored user, with a valid role | answer 400 "Email already exists" once and stop | not executed | UserController.TakenEmailRepliesTwice | UserController.Register |
| Backend/controllers/review.controller.js:35-45 | `Review.create` is not awaited, so the reply reports success before the rating is validated | a first review by a stored user of a stored book with rating 6 | await the creation and answer 500 when the schema refuses the rating | not executed | ReviewController.UnawaitedCreateReportsSuccess | ReviewController.AddReview |
