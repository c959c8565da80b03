/** The browse page: the catalogue filtered by the search text and category
    taken from the URL, each card marked when the user already has the book. */
module BrowseSection {
  import opened Common
  import opened Json

  /** The string stored under `key`, if that is what is stored there. */
  function StringField(book: Value, key: string): Option<string> {
    var v := Get(Some(book), key);
    if v.Some? && v.value.Str? then Some(v.value.s) else None
  }

  /** The filter predicate: the lowercased title contains the lowercased
      query, and the category is "all" or equals the book's ignoring case. */
  predicate Kept(book: Value, query: string, category: string) {
    var title := StringField(book, "title");
    var cat := StringField(book, "category");
    title.Some? && ContainsIgnoreCase(title.value, query) &&
    (category == "all" || (Truthy(cat) && ToLower(cat.value) == ToLower(category)))
  }

  function FilterBooks(books: seq<Value>, query: string, category: string): (r: seq<Value>)
    ensures |r| <= |books|
  {
    if books == [] then []
    else
      var rest := FilterBooks(books[..|books| - 1], query, category);
      var last := books[|books| - 1];
      if Kept(last, query, category) then rest + [last] else rest
  }

  /** `filteredBooks`: a non-array catalogue lists nothing. */
  function FilteredBooks(allBooks: Value, query: string, category: string): (r: seq<Value>)
    ensures !allBooks.Arr? ==> r == []
  {
    if allBooks.Arr? then FilterBooks(allBooks.items, query, category) else []
  }

  /** Exactly the kept books are listed: every kept book appears, and every
      listed book is a kept book of the catalogue. */
  lemma {:induction false} FilterExactly(books: seq<Value>, query: string, category: string)
    ensures forall i :: 0 <= i < |books| && Kept(books[i], query, category) ==>
              books[i] in FilterBooks(books, query, category)
    ensures forall b :: b in FilterBooks(books, query, category) ==>
              b in books && Kept(b, query, category)
  {
    if books != [] {
      var init := books[..|books| - 1];
      FilterExactly(init, query, category);
      assert forall i :: 0 <= i < |init| ==> init[i] == books[i];
    }
  }

  /** The listing keeps input order: filtering a concatenation filters each part. */
  lemma {:induction false} FilterKeepsOrder(books: seq<Value>, more: seq<Value>, query: string, category: string)
    ensures FilterBooks(books + more, query, category) ==
            FilterBooks(books, query, category) + FilterBooks(more, query, category)
    decreases |more|
  {
    if more == [] {
      assert books + more == books;
    } else {
      var init := more[..|more| - 1];
      assert (books + more)[..|books + more| - 1] == books + init;
      assert (books + more)[|books + more| - 1] == more[|more| - 1];
      FilterKeepsOrder(books, init, query, category);
    }
  }

  lemma EmptyOccursAtStart(s: string)
    ensures Contains(s, "")
  {
    assert OccursAt(s, "", 0);
  }

  /** With no search text and category "all", every book with a title is
      listed; a book without a title never is. */
  lemma EmptyQueryKeepsTitled(book: Value)
    ensures Kept(book, "", "all") <==> StringField(book, "title").Some?
    ensures StringField(book, "title").None? ==> forall q, c :: !Kept(book, q, c)
  {
    if StringField(book, "title").Some? {
      EmptyOccursAtStart(ToLower(StringField(book, "title").value));
    }
  }

  /** `user?.borrowedBooks || []` */
  function UserBorrowedBooks(user: Option<Value>): Value {
    Or(Get(user, "borrowedBooks"), Some(Arr([]))).value
  }

  /** `userBorrowedBooks.includes(book._id)` on an array list. */
  predicate IsPurchased(user: Option<Value>, book: Value) {
    var list := UserBorrowedBooks(user);
    var id := Get(Some(book), "_id");
    list.Arr? && id.Some? && id.value in list.items
  }

  /** A card is marked purchased exactly when the user's list holds its id;
      with no signed-in user no card is. */
  lemma PurchasedIffListed(user: Option<Value>, book: Value)
    ensures IsTruthy(Get(user, "borrowedBooks")) && Get(user, "borrowedBooks").value.Arr? ==>
              (IsPurchased(user, book) <==>
                 Get(Some(book), "_id").Some? && Get(Some(book), "_id").value in Get(user, "borrowedBooks").value.items)
    ensures !IsTruthy(Get(user, "borrowedBooks")) ==> !IsPurchased(user, book)
  {
  }
}
