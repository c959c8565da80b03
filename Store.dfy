/** The four MongoDB collections as maps from id to document, the HTTP
    response every controller sends, and the mutable `Library` object whose
    fields the controllers update in place. */
module Store {
  import opened Common
  import opened UserModel
  import opened BookModel
  import opened BorrowingModel
  import opened ReviewModel

  /** A snapshot of the database. `nextId` is the next id the store will hand
      out; every stored id lies below it. */
  datatype Db = Db(
    users: map<Id, User>,
    books: map<Id, Book>,
    borrowings: map<Id, Borrowing>,
    reviews: map<Id, Review>,
    nextId: Id)
  {
    /** What the schemas and the id allocator guarantee of every stored state. */
    ghost predicate Valid() {
      (forall k :: k in users ==> k < nextId && UserValid(users[k])) &&
      (forall k :: k in books ==> k < nextId && BookValid(books[k])) &&
      (forall k :: k in borrowings ==> k < nextId) &&
      (forall k :: k in reviews ==> k < nextId && ReviewValid(reviews[k])) &&
      EmailsUnique(users) && IsbnUnique(books)
    }
  }

  function EmptyDb(): (db: Db)
    ensures db.Valid() && db.users == map[] && db.books == map[]
  {
    Db(map[], map[], map[], map[], 0)
  }

  /** Storing book `b` under an allocated id keeps the store valid when `b`
      passes the schema and no other book holds its ISBN. */
  lemma PutBookValid(db: Db, id: Id, b: Book)
    requires db.Valid() && id < db.nextId && BookValid(b) && !IsbnTaken(db.books, id, b.isbn)
    ensures db.(books := db.books[id := b]).Valid()
  {
    var books := db.books[id := b];
    forall x, y | SameIsbn(books, x, y)
      ensures x == y
    {
      if x != id && y != id {
        assert SameIsbn(db.books, x, y);
      }
    }
  }

  /** Storing book `b` under the next id and advancing the allocator keeps
      the store valid under the same conditions. */
  lemma InsertBookValid(db: Db, b: Book)
    requires db.Valid() && BookValid(b) && !IsbnTaken(db.books, db.nextId, b.isbn)
    ensures db.(books := db.books[db.nextId := b], nextId := db.nextId + 1).Valid()
  {
    var d := db.(nextId := db.nextId + 1);
    assert d.Valid();
    PutBookValid(d, db.nextId, b);
  }

  /** Storing user `u` under an allocated id keeps the store valid when `u`
      passes the schema and no other user holds its email. */
  lemma PutUserValid(db: Db, id: Id, u: User)
    requires db.Valid() && id < db.nextId && UserValid(u)
    requires forall k :: k in db.users && k != id ==> db.users[k].email != u.email
    ensures db.(users := db.users[id := u]).Valid()
  {
    var users := db.users[id := u];
    forall x, y | SameEmail(users, x, y)
      ensures x == y
    {
      if x != id && y != id {
        assert SameEmail(db.users, x, y);
      }
    }
  }

  /** Replacing the user map by one with the same ids and the same emails,
      every user still passing the schema, keeps the store valid. */
  lemma SameEmailsValid(db: Db, users: map<Id, User>)
    requires db.Valid() && users.Keys == db.users.Keys
    requires forall k :: k in users ==> users[k].email == db.users[k].email && UserValid(users[k])
    ensures db.(users := users).Valid()
  {
    SameEmailsKeepUnique(db.users, users);
  }

  /** Rewriting one user without changing the email keeps the store valid
      when the new record passes the schema. */
  lemma RewriteUserValid(db: Db, id: Id, u: User)
    requires db.Valid() && id in db.users && u.email == db.users[id].email && UserValid(u)
    ensures db.(users := db.users[id := u]).Valid()
  {
    SameEmailsValid(db, db.users[id := u]);
  }

  /** Storing user `u` under the next id and advancing the allocator. */
  lemma InsertUserValid(db: Db, u: User)
    requires db.Valid() && UserValid(u)
    requires forall k :: k in db.users ==> db.users[k].email != u.email
    ensures db.(users := db.users[db.nextId := u], nextId := db.nextId + 1).Valid()
  {
    var d := db.(nextId := db.nextId + 1);
    assert d.Valid();
    PutUserValid(d, db.nextId, u);
  }

  /** Storing review `r` under an allocated id keeps the store valid when its
      rating passes the schema. */
  lemma PutReviewValid(db: Db, id: Id, r: Review)
    requires db.Valid() && id < db.nextId && ReviewValid(r)
    ensures db.(reviews := db.reviews[id := r]).Valid()
  {
  }

  /** Storing review `r` under the next id and advancing the allocator. */
  lemma InsertReviewValid(db: Db, r: Review)
    requires db.Valid() && ReviewValid(r)
    ensures db.(reviews := db.reviews[db.nextId := r], nextId := db.nextId + 1).Valid()
  {
    var d := db.(nextId := db.nextId + 1);
    assert d.Valid();
    PutReviewValid(d, db.nextId, r);
  }

  /** Storing a borrowing record under the next id and advancing the allocator. */
  lemma InsertBorrowingValid(db: Db, r: Borrowing)
    requires db.Valid()
    ensures db.(borrowings := db.borrowings[db.nextId := r], nextId := db.nextId + 1).Valid()
  {
  }

  /** Every borrowing record names a stored user and a stored book, and the
      book is on that user's `borrowedBooks` list. */
  predicate Linked(db: Db) {
    forall k :: k in db.borrowings ==>
      db.borrowings[k].userId in db.users && db.borrowings[k].bookId in db.books &&
      db.borrowings[k].bookId in db.users[db.borrowings[k].userId].borrowedBooks
  }

  /** A listing reply: the response and the ids of the listed documents. */
  datatype Listing = Listing(res: Response, ids: seq<Id>)

  /** The `message` of a reply, one constructor per text the controllers
      send; `Text` spells each one out. */
  datatype Message =
    | AddReviewFailed
    | AddToLibraryFailed
    | AddedToLibrary
    | AllBooks
    | AllBorrowedBooks
    | AlreadyBorrowed
    | AlreadyInLibrary
    | BadCredentials
    | BookAdded
    | BookBorrowed
    | BookDeleted
    | BookIdAndAccessTypeRequired
    | BookIdRequired
    | BookNotFound
    | BookRetrieved
    | BookUpdated
    | BooksFetched
    | BorrowFailed
    | BorrowedCount
    | CountFailed
    | CoverUploadFailed
    | DashboardFailed
    | EmailExists
    | FieldsRequired
    | InvalidRole
    | IsbnExists
    | KeywordRequired
    | NoAddPermission
    | NoBooksAvailable
    | NoBooksFound
    | NoBorrowedBooks
    | NoDeletePermission
    | NoUpdatePermission
    | NotAuthenticated
    | NotAuthorized
    | NotReviewAuthor
    | PdfUploadFailed
    | PhotoUploadFailed
    | ProfileUpdated
    | RegisterFailed
    | ReviewAdded
    | ReviewDeleted
    | ReviewNotFound
    | ReviewUpdated
    | ReviewsFetched
    | SearchResults
    | UnauthorizedAccess
    | UpdateBookFailed
    | UpdateProfileFailed
    | UserIdRequired
    | UserNotFound
    | UserRegistered
    | AddBookFailed(reason: string)
    | WelcomeBack(fullname: string)
    | NoMessage

  function Text(m: Message): string {
    match m
    case AddReviewFailed => "Failed to add review"
    case AddToLibraryFailed => "Failed to add book to library"
    case AddedToLibrary => "Book added to your library"
    case AllBooks => "List of all books"
    case AllBorrowedBooks => "All borrowed books"
    case AlreadyBorrowed => "User has already borrowed this book"
    case AlreadyInLibrary => "Book already borrowed"
    case BadCredentials => "Invalid password or email"
    case BookAdded => "Book added successfully"
    case BookBorrowed => "Book borrowed successfully"
    case BookDeleted => "Book deleted successfully"
    case BookIdAndAccessTypeRequired => "Book ID and access type are required"
    case BookIdRequired => "Book ID is required"
    case BookNotFound => "Book not found"
    case BookRetrieved => "Book retrieved successfully"
    case BookUpdated => "Book updated successfully"
    case BooksFetched => "Books fetched successfully"
    case BorrowFailed => "Failed to borrow book"
    case BorrowedCount => "Number of borrowed books"
    case CountFailed => "Failed to get number of borrowed books"
    case CoverUploadFailed => "Error uploading new cover image"
    case DashboardFailed => "Failed to get dashboard data"
    case EmailExists => "Email already exists"
    case FieldsRequired => "All fields are required"
    case InvalidRole => "Invalid role"
    case IsbnExists => "A book with this ISBN already exists"
    case KeywordRequired => "Search keyword is required"
    case NoAddPermission => "User does not have permission to add books"
    case NoBooksAvailable => "No books available"
    case NoBooksFound => "No books found"
    case NoBorrowedBooks => "No borrowed books found"
    case NoDeletePermission => "User does not have permission to delete books"
    case NoUpdatePermission => "User does not have permission to update books"
    case NotAuthenticated => "Not authanticated"
    case NotAuthorized => "You are not authorized to access this resource"
    case NotReviewAuthor => "Unauthorized to delete this review"
    case PdfUploadFailed => "Error uploading new book PDF"
    case PhotoUploadFailed => "Error uploading profile photo"
    case ProfileUpdated => "Profile updated successfully"
    case RegisterFailed => "Failed to register user"
    case ReviewAdded => "Review added successfully"
    case ReviewDeleted => "Review deleted successfully"
    case ReviewNotFound => "Review not found"
    case ReviewUpdated => "Review updated successfully"
    case ReviewsFetched => "Reviews fetched successfully"
    case SearchResults => "Search results"
    case UnauthorizedAccess => "Unauthorized access"
    case UpdateBookFailed => "Failed to update book"
    case UpdateProfileFailed => "Failed to update profile"
    case UserIdRequired => "User ID is required"
    case UserNotFound => "User not found"
    case UserRegistered => "User registered successfully"
    case AddBookFailed(reason) => "Failed to add book: " + reason
    case WelcomeBack(fullname) => "Welcome back " + fullname
    case NoMessage => ""
  }

  /** The JSON body `{ success, message }` together with its status code. */
  datatype Response = Response(status: int, success: bool, message: Message)

  function Ok(status: int, message: Message): Response {
    Response(status, true, message)
  }

  function Fail(status: int, message: Message): Response {
    Response(status, false, message)
  }

  /** What a controller does to the database and what it answers. */
  datatype Handled = Handled(db: Db, res: Response)

  /** The same four collections held as mutable state. */
  class Library {
    var users: map<Id, User>
    var books: map<Id, Book>
    var borrowings: map<Id, Borrowing>
    var reviews: map<Id, Review>
    var nextId: Id

    function Snapshot(): Db
      reads this
    {
      Db(users, books, borrowings, reviews, nextId)
    }

    ghost predicate Valid()
      reads this
    {
      Snapshot().Valid()
    }

    constructor ()
      ensures Valid() && Snapshot() == EmptyDb()
    {
      users, books, borrowings, reviews, nextId := map[], map[], map[], map[], 0;
    }
  }
}
