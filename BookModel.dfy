/** The Book schema: required fields, the unique ISBN index, the optional
    asset URLs and the `borrowedBy` default. */
module BookModel {
  import opened Common

  datatype Book = Book(
    title: string,
    adminId: Id,
    bookPrice: real,
    borrowedBy: Option<Id>,
    author: string,
    category: string,
    isbn: Option<string>,
    coverUrl: Option<string>,
    description: Option<string>,
    bookUrl: Option<string>,
    createdAt: Time,
    updatedAt: Time)

  /** Required strings must be non-empty; `adminId` and `bookPrice` are
      always present in this representation. */
  predicate BookValid(b: Book) {
    b.title != "" && b.author != "" && b.category != ""
  }

  /** The ISBN index is unique and not sparse: two books never carry the same
      ISBN, and two books both lacking one collide as well. */
  ghost predicate IsbnUnique(books: map<Id, Book>) {
    forall a, b {:trigger SameIsbn(books, a, b)} :: SameIsbn(books, a, b) ==> a == b
  }

  /** Books `a` and `b` are both stored and carry the same ISBN. */
  predicate SameIsbn(books: map<Id, Book>, a: Id, b: Id) {
    a in books && b in books && books[a].isbn == books[b].isbn
  }

  /** Under the index, two different stored books have different ISBNs. */
  lemma IsbnsDiffer(books: map<Id, Book>, a: Id, b: Id)
    requires IsbnUnique(books) && a in books && b in books && a != b
    ensures books[a].isbn != books[b].isbn
  {
    assert !SameIsbn(books, a, b);
  }

  /** Removing books keeps the index. */
  lemma FewerBooksKeepUnique(books: map<Id, Book>, books': map<Id, Book>)
    requires IsbnUnique(books)
    requires forall k :: k in books' ==> k in books && books'[k] == books[k]
    ensures IsbnUnique(books')
  {
    forall a, b | SameIsbn(books', a, b)
      ensures a == b
    {
      assert SameIsbn(books, a, b);
    }
  }

  /** Would inserting or rewriting book `id` with `isbn` break the index? */
  predicate IsbnTaken(books: map<Id, Book>, id: Id, isbn: Option<string>) {
    exists k :: k in books && k != id && books[k].isbn == isbn
  }

  /** A newly created book: `borrowedBy` defaults to null, timestamps at creation. */
  function NewBook(title: string, adminId: Id, bookPrice: real, author: string, category: string,
                   isbn: string, description: string, coverUrl: Option<string>,
                   bookUrl: Option<string>, now: Time): (b: Book)
    ensures b.borrowedBy.None? && b.adminId == adminId && b.isbn == Some(isbn)
    ensures b.title == title && b.author == author && b.category == category
    ensures b.description == Some(description) && b.bookPrice == bookPrice
    ensures b.coverUrl == coverUrl && b.bookUrl == bookUrl
    ensures b.createdAt == now && b.updatedAt == now
  {
    Book(title, adminId, bookPrice, None, author, category, Some(isbn), coverUrl,
         Some(description), bookUrl, now, now)
  }
}
