/** Reviews: the lookup-then-upsert of `addReview`, the per-book listing and
    the author-or-admin rule of `deleteReview`. */
module ReviewController {
  import opened Common
  import opened UserModel
  import opened BookModel
  import opened ReviewModel
  import opened Store

  /** The reviews one user has written about one book. */
  function ReviewsFor(db: Db, userId: Id, bookId: Id): set<Id> {
    set k | k in db.reviews && db.reviews[k].userId == userId && db.reviews[k].bookId == bookId
  }

  /** `Review.findOne({ userId, bookId })`: the first match in insertion order. */
  function FindReview(db: Db, userId: Id, bookId: Id): (r: Option<Id>)
    requires db.Valid()
    ensures r.None? <==> ReviewsFor(db, userId, bookId) == {}
    ensures r.Some? ==> r.value in ReviewsFor(db, userId, bookId) &&
                        forall k :: k in ReviewsFor(db, userId, bookId) ==> r.value <= k
  {
    var ids := Ascending(ReviewsFor(db, userId, bookId), db.nextId);
    if ids == [] then
      assert forall k :: k !in ReviewsFor(db, userId, bookId) by {
        forall k | k in ReviewsFor(db, userId, bookId) ensures k in ids { }
      }
      None
    else
      assert forall k :: k in ReviewsFor(db, userId, bookId) ==> ids[0] <= k by {
        forall k | k in ReviewsFor(db, userId, bookId) ensures ids[0] <= k {
          assert k in ids;
          var j :| 0 <= j < |ids| && ids[j] == k;
        }
      }
      assert ids[0] in ids;
      Some(ids[0])
  }

  /** Overwrite rating and comment of an existing review; the save stamps
      `updatedAt` only when something changed. */
  function Rewritten(r: Review, rating: Option<real>, comment: Option<string>, now: Time): (r': Review)
    ensures r'.rating == rating && r'.comment == comment
    ensures r'.userId == r.userId && r'.bookId == r.bookId && r'.createdAt == r.createdAt
  {
    var edited := r.(rating := rating, comment := comment);
    if edited == r then r else edited.(updatedAt := now)
  }

  /** `addReview` with the creation awaited: a rating the schema refuses makes
      either save fail with 500 and nothing written. */
  function AddReview(db: Db, userId: Id, bookId: Id, rating: Option<real>, comment: Option<string>, now: Time): (h: Handled)
    requires db.Valid()
    ensures h.db.Valid()
    ensures !h.res.success ==> h.db == db
    ensures userId !in db.users ==> h.res == Fail(404, UserNotFound)
    ensures userId in db.users && bookId !in db.books ==> h.res == Fail(404, BookNotFound)
    ensures userId in db.users && bookId in db.books && !RatingValid(rating) ==>
      h.res == Fail(500, AddReviewFailed)
    ensures h.res.success <==> userId in db.users && bookId in db.books && RatingValid(rating)
    ensures h.res.success && FindReview(db, userId, bookId).Some? ==>
      var k := FindReview(db, userId, bookId).value;
      h.res == Ok(200, ReviewUpdated) &&
      h.db == db.(reviews := db.reviews[k := Rewritten(db.reviews[k], rating, comment, now)])
    ensures h.res.success && FindReview(db, userId, bookId).None? ==>
      h.res == Ok(200, ReviewAdded) && db.nextId !in db.reviews &&
      h.db == db.(reviews := db.reviews[db.nextId := Review(userId, bookId, rating, comment, now, now)],
                  nextId := db.nextId + 1)
  {
    if userId !in db.users then Handled(db, Fail(404, UserNotFound))
    else if bookId !in db.books then Handled(db, Fail(404, BookNotFound))
    else if !RatingValid(rating) then Handled(db, Fail(500, AddReviewFailed))
    else
      match FindReview(db, userId, bookId)
      case Some(k) =>
        PutReviewValid(db, k, Rewritten(db.reviews[k], rating, comment, now));
        Handled(db.(reviews := db.reviews[k := Rewritten(db.reviews[k], rating, comment, now)]),
                Ok(200, ReviewUpdated))
      case None =>
        InsertReviewValid(db, Review(userId, bookId, rating, comment, now, now));
        Handled(db.(reviews := db.reviews[db.nextId := Review(userId, bookId, rating, comment, now, now)],
                    nextId := db.nextId + 1),
                Ok(200, ReviewAdded))
  }

  /** `addReview` as written: the creation is started but not awaited, so the
      reply is a success before validation runs, and a refused rating leaves
      the store untouched behind that success. The update branch awaits its
      save and reports the failure. */
  function AddReviewAsWritten(db: Db, userId: Id, bookId: Id, rating: Option<real>, comment: Option<string>, now: Time): (h: Handled)
    requires db.Valid()
    ensures h.db.Valid()
    ensures userId in db.users && bookId in db.books && FindReview(db, userId, bookId).None? ==>
      h.res == Ok(200, ReviewAdded)
    ensures RatingValid(rating) || FindReview(db, userId, bookId).Some? ==>
      h == AddReview(db, userId, bookId, rating, comment, now)
  {
    if userId in db.users && bookId in db.books && FindReview(db, userId, bookId).None? && !RatingValid(rating)
    then Handled(db, Ok(200, ReviewAdded))
    else AddReview(db, userId, bookId, rating, comment, now)
  }

  /** A first review with rating 6 is answered "Review added successfully"
      although no review is stored; awaiting the creation answers 500. */
  lemma UnawaitedCreateReportsSuccess(db: Db, userId: Id, bookId: Id, comment: Option<string>, now: Time)
    requires db.Valid() && userId in db.users && bookId in db.books
    requires ReviewsFor(db, userId, bookId) == {}
    ensures AddReviewAsWritten(db, userId, bookId, Some(6.0), comment, now) == Handled(db, Ok(200, ReviewAdded))
    ensures ReviewsFor(AddReviewAsWritten(db, userId, bookId, Some(6.0), comment, now).db, userId, bookId) == {}
    ensures AddReview(db, userId, bookId, Some(6.0), comment, now) == Handled(db, Fail(500, AddReviewFailed))
  {
  }

  /** `addReview` as the handler runs it: look up the user, the book and the
      existing review, then either overwrite its two fields and save, or
      create a new review. */
  method AddReviewTo(lib: Library, userId: Id, bookId: Id, rating: Option<real>, comment: Option<string>, now: Time)
    returns (res: Response)
    requires lib.Valid()
    modifies lib
    ensures Handled(lib.Snapshot(), res) == AddReview(old(lib.Snapshot()), userId, bookId, rating, comment, now)
    ensures lib.Valid()
  {
    if userId !in lib.users {
      return Fail(404, UserNotFound);
    }
    if bookId !in lib.books {
      return Fail(404, BookNotFound);
    }
    var existing := FindReview(lib.Snapshot(), userId, bookId);
    if !RatingValid(rating) {
      return Fail(500, AddReviewFailed);
    }
    if existing.Some? {
      var review := lib.reviews[existing.value];
      var edited := review.(rating := rating);
      edited := edited.(comment := comment);
      if edited != review {
        edited := edited.(updatedAt := now);
      }
      assert edited == Rewritten(review, rating, comment, now);
      PutReviewValid(lib.Snapshot(), existing.value, edited);
      lib.reviews := lib.reviews[existing.value := edited];
      return Ok(200, ReviewUpdated);
    }
    var created := Review(userId, bookId, rating, comment, now, now);
    InsertReviewValid(lib.Snapshot(), created);
    lib.reviews, lib.nextId := lib.reviews[lib.nextId := created], lib.nextId + 1;
    return Ok(200, ReviewAdded);
  }

  /** At most one review per (user, book). The schema does not enforce it;
      only the lookup before each creation keeps it. */
  predicate AtMostOne(db: Db, userId: Id, bookId: Id) {
    forall a, c :: a in ReviewsFor(db, userId, bookId) && c in ReviewsFor(db, userId, bookId) ==> a == c
  }

  /** One `addReview` keeps at most one review per (user, book) for every pair. */
  lemma AddReviewKeepsAtMostOne(db: Db, userId: Id, bookId: Id, rating: Option<real>, comment: Option<string>, now: Time,
                                u: Id, b: Id)
    requires db.Valid() && AtMostOne(db, u, b)
    ensures AtMostOne(AddReview(db, userId, bookId, rating, comment, now).db, u, b)
  {
    var h := AddReview(db, userId, bookId, rating, comment, now);
    if h.res.success {
      match FindReview(db, userId, bookId)
      case Some(k) =>
        RewriteKeepsReviewsFor(db, k, Rewritten(db.reviews[k], rating, comment, now), u, b);
      case None =>
        InsertExtendsReviewsFor(db, Review(userId, bookId, rating, comment, now, now), u, b);
    }
  }

  /** After an accepted `addReview` by a user with at most one review of the
      book, exactly one review of that pair exists, holding the call's rating
      and comment. */
  lemma AddReviewLeavesOne(db: Db, userId: Id, bookId: Id, rating: Option<real>, comment: Option<string>, now: Time)
    requires db.Valid() && AtMostOne(db, userId, bookId)
    ensures var h := AddReview(db, userId, bookId, rating, comment, now);
            h.res.success ==>
              exists k :: k in h.db.reviews && ReviewsFor(h.db, userId, bookId) == {k} &&
                          h.db.reviews[k].rating == rating && h.db.reviews[k].comment == comment
  {
    var h := AddReview(db, userId, bookId, rating, comment, now);
    if h.res.success {
      match FindReview(db, userId, bookId)
      case Some(k) =>
        RewriteKeepsReviewsFor(db, k, Rewritten(db.reviews[k], rating, comment, now), userId, bookId);
        assert ReviewsFor(db, userId, bookId) == {k};
      case None =>
        InsertExtendsReviewsFor(db, Review(userId, bookId, rating, comment, now, now), userId, bookId);
    }
  }

  /** Rewriting a review's rating and comment keeps every pair's reviews. */
  lemma RewriteKeepsReviewsFor(db: Db, k: Id, r: Review, u: Id, b: Id)
    requires k in db.reviews && r.userId == db.reviews[k].userId && r.bookId == db.reviews[k].bookId
    ensures ReviewsFor(db.(reviews := db.reviews[k := r]), u, b) == ReviewsFor(db, u, b)
  {
  }

  /** A review inserted under a fresh id joins its own pair's reviews only. */
  lemma InsertExtendsReviewsFor(db: Db, r: Review, u: Id, b: Id)
    requires db.nextId !in db.reviews
    ensures ReviewsFor(db.(reviews := db.reviews[db.nextId := r], nextId := db.nextId + 1), u, b) ==
            ReviewsFor(db, u, b) + (if r.userId == u && r.bookId == b then {db.nextId} else {})
  {
  }

  /** One `addReview` request: the body and the time it arrives. */
  datatype ReviewInput = ReviewInput(rating: Option<real>, comment: Option<string>, now: Time)

  /** A run of `addReview` requests by one user on one book. */
  function AddReviews(db: Db, userId: Id, bookId: Id, inputs: seq<ReviewInput>): (db': Db)
    requires db.Valid()
    ensures db'.Valid()
    decreases |inputs|
  {
    if inputs == [] then db
    else
      var i := inputs[0];
      AddReviews(AddReview(db, userId, bookId, i.rating, i.comment, i.now).db, userId, bookId, inputs[1..])
  }

  /** However many times one user reviews one book, at most one review exists,
      and once the user and book exist it carries the rating and comment of the
      last request whose rating is acceptable. */
  lemma {:induction false} AddReviewsLeaveOne(db: Db, userId: Id, bookId: Id, inputs: seq<ReviewInput>, last: nat)
    requires db.Valid() && AtMostOne(db, userId, bookId)
    requires userId in db.users && bookId in db.books
    requires last < |inputs| && RatingValid(inputs[last].rating)
    requires forall j :: last < j < |inputs| ==> !RatingValid(inputs[j].rating)
    ensures var db' := AddReviews(db, userId, bookId, inputs);
            AtMostOne(db', userId, bookId) &&
            exists k :: ReviewsFor(db', userId, bookId) == {k} && k in db'.reviews &&
                        db'.reviews[k].rating == inputs[last].rating && db'.reviews[k].comment == inputs[last].comment
    decreases |inputs|
  {
    var i := inputs[0];
    var h := AddReview(db, userId, bookId, i.rating, i.comment, i.now);
    AddReviewKeepsAtMostOne(db, userId, bookId, i.rating, i.comment, i.now, userId, bookId);
    AddReviewLeavesOne(db, userId, bookId, i.rating, i.comment, i.now);
    if last == 0 {
      assert h.res.success;
      RefusedKeepReview(h.db, userId, bookId, inputs[1..]);
    } else {
      AddReviewsLeaveOne(h.db, userId, bookId, inputs[1..], last - 1);
    }
  }

  /** Requests whose rating is refused change nothing. */
  lemma {:induction false} RefusedKeepReview(db: Db, userId: Id, bookId: Id, inputs: seq<ReviewInput>)
    requires db.Valid()
    requires forall j :: 0 <= j < |inputs| ==> !RatingValid(inputs[j].rating)
    ensures AddReviews(db, userId, bookId, inputs) == db
    decreases |inputs|
  {
    if inputs != [] {
      RefusedKeepReview(db, userId, bookId, inputs[1..]);
    }
  }

  /** `getReviews`: the reviews of one book, in insertion order. */
  function GetReviews(db: Db, bookId: Id): (l: Listing)
    requires db.Valid()
    ensures l.res == Ok(200, ReviewsFetched)
    ensures StrictlyAscending(l.ids)
    ensures forall k :: k in l.ids <==> k in db.reviews && db.reviews[k].bookId == bookId
  {
    Listing(Ok(200, ReviewsFetched),
            Ascending((set k | k in db.reviews && db.reviews[k].bookId == bookId), db.nextId))
  }

  /** May `userId` delete review `reviewId`? Its author may, and so may any admin. */
  predicate MayDelete(db: Db, userId: Id, reviewId: Id)
    requires reviewId in db.reviews && userId in db.users
  {
    db.reviews[reviewId].userId == userId || db.users[userId].role == Admin
  }

  function DeleteReview(db: Db, userId: Id, reviewId: Id): (h: Handled)
    requires db.Valid()
    ensures h.db.Valid()
    ensures !h.res.success ==> h.db == db
    ensures reviewId !in db.reviews ==> h.res == Fail(404, ReviewNotFound)
    ensures reviewId in db.reviews && userId !in db.users ==> h.res == Fail(404, UserNotFound)
    ensures reviewId in db.reviews && userId in db.users && !MayDelete(db, userId, reviewId) ==>
      h.res == Fail(403, NotReviewAuthor)
    ensures h.res.success <==> reviewId in db.reviews && userId in db.users && MayDelete(db, userId, reviewId)
    ensures h.res.success ==>
      h.res == Ok(200, ReviewDeleted) && h.db == db.(reviews := db.reviews - {reviewId})
  {
    if reviewId !in db.reviews then Handled(db, Fail(404, ReviewNotFound))
    else if userId !in db.users then Handled(db, Fail(404, UserNotFound))
    else if !MayDelete(db, userId, reviewId) then Handled(db, Fail(403, NotReviewAuthor))
    else Handled(db.(reviews := db.reviews - {reviewId}), Ok(200, ReviewDeleted))
  }

  method DeleteReviewFrom(lib: Library, userId: Id, reviewId: Id) returns (res: Response)
    requires lib.Valid()
    modifies lib
    ensures Handled(lib.Snapshot(), res) == DeleteReview(old(lib.Snapshot()), userId, reviewId)
    ensures lib.Valid()
  {
    if reviewId !in lib.reviews {
      return Fail(404, ReviewNotFound);
    }
    var review := lib.reviews[reviewId];
    if userId !in lib.users {
      return Fail(404, UserNotFound);
    }
    if review.userId != userId && lib.users[userId].role != Admin {
      return Fail(403, NotReviewAuthor);
    }
    lib.reviews := lib.reviews - {reviewId};
    return Ok(200, ReviewDeleted);
  }

  /** A member who did not write a review can never remove it. */
  lemma OthersCannotDelete(db: Db, userId: Id, reviewId: Id)
    requires db.Valid() && reviewId in db.reviews && userId in db.users
    requires db.users[userId].role == Member && db.reviews[reviewId].userId != userId
    ensures DeleteReview(db, userId, reviewId).db.reviews == db.reviews
  {
  }
}
