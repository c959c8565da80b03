/** Borrowing a book (a checked two-write transition on the store) and the
    per-user listing of borrowing records. */
module BorrowController {
  import opened Common
  import opened UserModel
  import opened BookModel
  import opened BorrowingModel
  import opened Store

  const SubscriptionDays: int := 10

  /** A subscription expires ten days after it starts; a purchase never does. */
  function AccessExpiry(accessType: AccessType, now: Time): (e: Option<Time>)
    ensures e.Some? <==> accessType == Subscribe
    ensures e.Some? ==> e.value - now == SubscriptionDays * MsPerDay
  {
    if accessType == Subscribe then Some(now + SubscriptionDays * MsPerDay) else None
  }

  /** Does the request get past every check and the schema validation? */
  predicate BorrowAccepted(db: Db, userId: Id, bookId: Option<Id>, accessType: string) {
    bookId.Some? && accessType != "" && userId in db.users && bookId.value in db.books &&
    bookId.value !in db.users[userId].borrowedBooks && ParseAccessType(accessType).Some?
  }

  /** `borrowBook` for the authenticated user `userId` at time `now`. An access
      type outside the enum passes the handler's checks but fails validation on
      save, which is reported as 500 before anything is written. */
  function Borrow(db: Db, userId: Id, bookId: Option<Id>, accessType: string, now: Time): (h: Handled)
    requires db.Valid()
    ensures h.db.Valid()
    ensures h.res.success <==> BorrowAccepted(db, userId, bookId, accessType)
    ensures !h.res.success ==> h.db == db
    ensures bookId.None? || accessType == "" ==> h.res == Fail(400, BookIdAndAccessTypeRequired)
    ensures bookId.Some? && accessType != "" && userId !in db.users ==> h.res == Fail(404, UserNotFound)
    ensures bookId.Some? && accessType != "" && userId in db.users && bookId.value !in db.books ==>
      h.res == Fail(404, BookNotFound)
    ensures bookId.Some? && accessType != "" && userId in db.users && bookId.value in db.books &&
            bookId.value in db.users[userId].borrowedBooks ==>
      h.res == Fail(400, AlreadyBorrowed)
    ensures h.res.success ==>
      var t := ParseAccessType(accessType).value;
      h.res == Ok(200, BookBorrowed) &&
      db.nextId !in db.borrowings &&
      h.db.borrowings == db.borrowings[db.nextId := NewBorrowing(userId, bookId.value, t, AccessExpiry(t, now), now)] &&
      h.db.users.Keys == db.users.Keys &&
      h.db.users[userId] == db.users[userId].(borrowedBooks := db.users[userId].borrowedBooks + [bookId.value], updatedAt := now) &&
      (forall u :: u in db.users && u != userId ==> h.db.users[u] == db.users[u]) &&
      h.db.books == db.books && h.db.reviews == db.reviews && h.db.nextId == db.nextId + 1
  {
    if bookId.None? || accessType == "" then
      Handled(db, Fail(400, BookIdAndAccessTypeRequired))
    else if userId !in db.users then
      Handled(db, Fail(404, UserNotFound))
    else if bookId.value !in db.books then
      Handled(db, Fail(404, BookNotFound))
    else if bookId.value in db.users[userId].borrowedBooks then
      Handled(db, Fail(400, AlreadyBorrowed))
    else if ParseAccessType(accessType).None? then
      Handled(db, Fail(500, BorrowFailed))
    else
      var t := ParseAccessType(accessType).value;
      var record := NewBorrowing(userId, bookId.value, t, AccessExpiry(t, now), now);
      var user := db.users[userId];
      var user' := user.(borrowedBooks := user.borrowedBooks + [bookId.value], updatedAt := now);
      RewriteUserValid(db, userId, user');
      InsertBorrowingValid(db.(users := db.users[userId := user']), record);
      Handled(db.(borrowings := db.borrowings[db.nextId := record],
                  users := db.users[userId := user'],
                  nextId := db.nextId + 1),
              Ok(200, BookBorrowed))
  }

  /** `borrowBook` as the sequence of writes the handler performs: save the
      record, then append to the user's list and save the user. */
  method BorrowBook(lib: Library, userId: Id, bookId: Option<Id>, accessType: string, now: Time)
    returns (res: Response)
    requires lib.Valid()
    modifies lib
    ensures Handled(lib.Snapshot(), res) == Borrow(old(lib.Snapshot()), userId, bookId, accessType, now)
    ensures lib.Valid()
  {
    if bookId.None? || accessType == "" {
      return Fail(400, BookIdAndAccessTypeRequired);
    }
    if userId !in lib.users {
      return Fail(404, UserNotFound);
    }
    var user := lib.users[userId];
    if bookId.value !in lib.books {
      return Fail(404, BookNotFound);
    }
    if bookId.value in user.borrowedBooks {
      return Fail(400, AlreadyBorrowed);
    }
    var t := ParseAccessType(accessType);
    if t.None? {
      return Fail(500, BorrowFailed);
    }
    var record := NewBorrowing(userId, bookId.value, t.value, AccessExpiry(t.value, now), now);
    lib.borrowings := lib.borrowings[lib.nextId := record];
    lib.nextId := lib.nextId + 1;
    user := user.(borrowedBooks := user.borrowedBooks + [bookId.value], updatedAt := now);
    lib.users := lib.users[userId := user];
    return Ok(200, BookBorrowed);
  }

  /** Borrowing keeps every record linked to its user, its book and the
      user's list. */
  lemma BorrowKeepsLinked(db: Db, userId: Id, bookId: Option<Id>, accessType: string, now: Time)
    requires db.Valid() && Linked(db)
    ensures Linked(Borrow(db, userId, bookId, accessType, now).db)
  {
    var h := Borrow(db, userId, bookId, accessType, now);
    if h.res.success {
      forall k | k in h.db.borrowings
        ensures h.db.borrowings[k].userId in h.db.users && h.db.borrowings[k].bookId in h.db.books
        ensures h.db.borrowings[k].bookId in h.db.users[h.db.borrowings[k].userId].borrowedBooks
      {
        if k != db.nextId {
          var u := db.borrowings[k].userId;
          if u == userId {
            var i :| 0 <= i < |db.users[u].borrowedBooks| && db.users[u].borrowedBooks[i] == db.borrowings[k].bookId;
            assert h.db.users[u].borrowedBooks[i] == db.borrowings[k].bookId;
          }
        } else {
          assert h.db.users[userId].borrowedBooks[|h.db.users[userId].borrowedBooks| - 1] == bookId.value;
        }
      }
    }
  }

  /** Once a borrow has succeeded, the same user borrowing the same book again
      is refused and writes nothing, whatever access type is asked for. */
  lemma BorrowTwiceRefused(db: Db, userId: Id, bookId: Id, accessType: string, again: string, now: Time, later: Time)
    requires db.Valid() && again != ""
    requires Borrow(db, userId, Some(bookId), accessType, now).res.success
    ensures var db' := Borrow(db, userId, Some(bookId), accessType, now).db;
            Borrow(db', userId, Some(bookId), again, later) == Handled(db', Fail(400, AlreadyBorrowed))
  {
    var db' := Borrow(db, userId, Some(bookId), accessType, now).db;
    assert db'.users[userId].borrowedBooks[|db'.users[userId].borrowedBooks| - 1] == bookId;
  }

  /** The ids of the borrowing records of one user, in insertion order. */
  function BorrowingsOf(db: Db, userId: Id): (r: seq<Id>)
    requires db.Valid()
    ensures StrictlyAscending(r)
    ensures forall k :: k in r <==> k in db.borrowings && db.borrowings[k].userId == userId
  {
    Ascending((set k | k in db.borrowings && db.borrowings[k].userId == userId), db.nextId)
  }

  /** `getAllBorrowedBooks` for the identity `requester` set by the middleware. */
  function GetAllBorrowedBooks(db: Db, requester: Option<Id>): (l: Listing)
    requires db.Valid()
    ensures requester.None? ==> l == Listing(Fail(400, UserIdRequired), [])
    ensures requester.Some? && requester.value !in db.users ==> l == Listing(Fail(404, UserNotFound), [])
    ensures l.res.success <==> requester.Some? && requester.value in db.users
    ensures l.res.success ==>
      l.res.status == 200 &&
      (forall k :: k in l.ids <==> k in db.borrowings && db.borrowings[k].userId == requester.value) &&
      (l.res.message == NoBorrowedBooks <==> l.ids == [])
  {
    if requester.None? then Listing(Fail(400, UserIdRequired), [])
    else if requester.value !in db.users then Listing(Fail(404, UserNotFound), [])
    else
      var ids := BorrowingsOf(db, requester.value);
      Listing(Ok(200, if |ids| > 0 then AllBorrowedBooks else NoBorrowedBooks), ids)
  }
}
