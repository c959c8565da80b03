/** The `book` Redux slice: a loading flag, the catalogue, the search query
    and the signed-in user's purchases. Each reducer replaces one field. */
module BookSlice {
  import opened Json

  class BookState {
    var loading: bool
    var allBooks: Value
    var searchQuery: Value
    var purchasedBooks: Value

    constructor ()
      ensures !loading && allBooks == Arr([]) && searchQuery == Str("") && purchasedBooks == Arr([])
    {
      loading := false;
      allBooks := Arr([]);
      searchQuery := Str("");
      purchasedBooks := Arr([]);
    }

    method SetLoading(payload: bool)
      modifies this
      ensures loading == payload
      ensures allBooks == old(allBooks) && searchQuery == old(searchQuery) && purchasedBooks == old(purchasedBooks)
    {
      loading := payload;
    }

    method SetBooks(payload: Value)
      modifies this
      ensures allBooks == payload
      ensures loading == old(loading) && searchQuery == old(searchQuery) && purchasedBooks == old(purchasedBooks)
    {
      allBooks := payload;
    }

    method SetPurchasedBooks(payload: Value)
      modifies this
      ensures purchasedBooks == payload
      ensures loading == old(loading) && allBooks == old(allBooks) && searchQuery == old(searchQuery)
    {
      purchasedBooks := payload;
    }

    method SetSearchQuery(payload: Value)
      modifies this
      ensures searchQuery == payload
      ensures loading == old(loading) && allBooks == old(allBooks) && purchasedBooks == old(purchasedBooks)
    {
      searchQuery := payload;
    }
  }
}
