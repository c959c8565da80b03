/** The `auth` Redux slice: whether a request is in flight, the signed-in
    user (null when signed out) and the count of borrowed books. Each reducer
    assigns fields of the state draft in place. */
module AuthSlice {
  import opened Common
  import opened Json

  /** The stored user: the payload's fields with `phoneNumber` taken from the
      payload, else from its profile, else the empty string. */
  function NormalizedUser(payload: Value): (u: map<string, Value>)
    ensures u.Keys == Fields(Some(payload)).Keys + {"phoneNumber"}
    ensures forall k :: k in u && k != "phoneNumber" ==> u[k] == Fields(Some(payload))[k]
    ensures IsTruthy(Get(Some(payload), "phoneNumber")) ==>
              u["phoneNumber"] == payload.fields["phoneNumber"]
    ensures !IsTruthy(Get(Some(payload), "phoneNumber")) &&
            IsTruthy(Get(Get(Some(payload), "profile"), "phoneNumber")) ==>
              Some(u["phoneNumber"]) == Get(Get(Some(payload), "profile"), "phoneNumber")
    ensures !IsTruthy(Get(Some(payload), "phoneNumber")) &&
            !IsTruthy(Get(Get(Some(payload), "profile"), "phoneNumber")) ==>
              u["phoneNumber"] == Str("")
  {
    var p := Some(payload);
    var phone := Or(Get(p, "phoneNumber"), Or(Get(Get(p, "profile"), "phoneNumber"), Some(Str(""))));
    Fields(p)["phoneNumber" := phone.value]
  }

  /** Storing an already stored user again changes nothing. */
  lemma NormalizeIdempotent(payload: Value)
    ensures NormalizedUser(Obj(NormalizedUser(payload))) == NormalizedUser(payload)
  {
    var u := NormalizedUser(payload);
    var v := NormalizedUser(Obj(u));
    assert Get(Get(Some(Obj(u)), "profile"), "phoneNumber") == Get(Get(Some(payload), "profile"), "phoneNumber");
    assert v.Keys == u.Keys;
    assert v["phoneNumber"] == u["phoneNumber"];
  }

  class AuthState {
    var loading: bool
    /** `None` is `null`. */
    var user: Option<map<string, Value>>
    var numberOfBorrowedBooks: int

    predicate IsInitial()
      reads this
    {
      !loading && user == None && numberOfBorrowedBooks == 0
    }

    constructor ()
      ensures IsInitial()
    {
      loading := false;
      user := None;
      numberOfBorrowedBooks := 0;
    }

    method SetLoading(payload: bool)
      modifies this
      ensures loading == payload
      ensures user == old(user) && numberOfBorrowedBooks == old(numberOfBorrowedBooks)
    {
      loading := payload;
    }

    /** A falsy payload signs the user out; otherwise the normalised user is stored. */
    method SetUser(payload: Option<Value>)
      modifies this
      ensures !IsTruthy(payload) ==> user == None
      ensures IsTruthy(payload) ==> user == Some(NormalizedUser(payload.value))
      ensures loading == old(loading) && numberOfBorrowedBooks == old(numberOfBorrowedBooks)
    {
      if !IsTruthy(payload) {
        user := None;
        return;
      }
      user := Some(NormalizedUser(payload.value));
    }

    method SetNumberOfBorrowedBooks(payload: int)
      modifies this
      ensures numberOfBorrowedBooks == payload
      ensures loading == old(loading) && user == old(user)
    {
      numberOfBorrowedBooks := payload;
    }

    method IncrementBorrowedBooks()
      modifies this
      ensures numberOfBorrowedBooks == old(numberOfBorrowedBooks) + 1
      ensures loading == old(loading) && user == old(user)
    {
      numberOfBorrowedBooks := numberOfBorrowedBooks + 1;
    }

    /** Back to the initial state, whatever the state was. */
    method ClearAuth()
      modifies this
      ensures IsInitial()
    {
      user := None;
      loading := false;
      numberOfBorrowedBooks := 0;
    }
  }
}
