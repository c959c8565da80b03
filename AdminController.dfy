/** The admin dashboard roll-ups and the admin's own book list, newest first.
    Both only read the store. */
module AdminController {
  import opened Common
  import opened UserModel
  import opened BookModel
  import opened ReviewModel
  import opened Store

  predicate IsAdmin(db: Db, userId: Id) {
    userId in db.users && db.users[userId].role == Admin
  }

  /** The books an admin uploaded. */
  function BooksOf(db: Db, adminId: Id): set<Id> {
    set k | k in db.books && db.books[k].adminId == adminId
  }

  /** The reviews of those books. */
  function ReviewsOfBooksOf(db: Db, adminId: Id): set<Id> {
    set k | k in db.reviews && db.reviews[k].bookId in BooksOf(db, adminId)
  }

  /** The rating one review contributes to `$avg`: nothing when it has none. */
  function RatingOf(db: Db, k: Id): (r: seq<real>)
    requires k in db.reviews
    ensures |r| <= 1 && (r == [] <==> db.reviews[k].rating.None?)
    ensures forall x :: x in r ==> db.reviews[k].rating == Some(x)
  {
    match db.reviews[k].rating
    case None => []
    case Some(x) => [x]
  }

  /** The ratings present on the given reviews, in order; `$avg` skips
      reviews without one. */
  function Ratings(db: Db, ids: seq<Id>): (r: seq<real>)
    requires forall i :: 0 <= i < |ids| ==> ids[i] in db.reviews
    ensures |r| <= |ids|
    ensures forall x :: x in r ==> exists i :: 0 <= i < |ids| && db.reviews[ids[i]].rating == Some(x)
  {
    if ids == [] then []
    else
      var rest := Ratings(db, ids[1..]);
      assert forall x :: x in rest ==> exists i :: 0 <= i < |ids| && db.reviews[ids[i]].rating == Some(x) by {
        forall x | x in rest ensures exists i :: 0 <= i < |ids| && db.reviews[ids[i]].rating == Some(x) {
          var j :| 0 <= j < |ids| - 1 && db.reviews[ids[1..][j]].rating == Some(x);
          assert db.reviews[ids[j + 1]].rating == Some(x);
        }
      }
      match db.reviews[ids[0]].rating
      case None => rest
      case Some(x) => [x] + rest
  }

  /** Ratings is exactly a filter: one more review adds its own rating, if
      any, at the end, and nothing else. */
  lemma {:induction false} RatingsSnoc(db: Db, ids: seq<Id>, k: Id)
    requires forall i :: 0 <= i < |ids| ==> ids[i] in db.reviews
    requires k in db.reviews
    ensures forall i :: 0 <= i < |ids + [k]| ==> (ids + [k])[i] in db.reviews
    ensures Ratings(db, ids + [k]) == Ratings(db, ids) + RatingOf(db, k)
  {
    var s := ids + [k];
    assert forall i :: 0 <= i < |s| ==> s[i] in db.reviews by {
      forall i | 0 <= i < |s| ensures s[i] in db.reviews {
        if i < |ids| { assert s[i] == ids[i]; }
      }
    }
    if ids != [] {
      assert s[0] == ids[0] && s[1..] == ids[1..] + [k];
      RatingsSnoc(db, ids[1..], k);
    }
  }

  function Sum(s: seq<real>): real {
    if s == [] then 0.0 else s[0] + Sum(s[1..])
  }

  lemma {:induction false} SumAppend(a: seq<real>, b: seq<real>)
    ensures Sum(a + b) == Sum(a) + Sum(b)
  {
    if a != [] {
      assert (a + b)[0] == a[0] && (a + b)[1..] == a[1..] + b;
      SumAppend(a[1..], b);
    } else {
      assert a + b == b;
    }
  }

  /** A sum of values in 1..5 lies between the count and five times it. */
  lemma {:induction false} SumBounds(s: seq<real>)
    requires forall x :: x in s ==> 1.0 <= x <= 5.0
    ensures |s| as real <= Sum(s) <= 5.0 * |s| as real
  {
    if s != [] {
      assert s[0] in s;
      assert forall x :: x in s[1..] ==> x in s;
      SumBounds(s[1..]);
    }
  }

  /** The rated reviews among `ids`. */
  function Rated(db: Db, ids: set<Id>): set<Id> {
    set k | k in ids && k in db.reviews && db.reviews[k].rating.Some?
  }

  /** The members of `ids` below `n`. */
  function Below(ids: set<Id>, n: nat): set<Id> {
    set k | k in ids && k < n
  }

  /** Some member of a non-empty set. */
  ghost function Pick(ids: set<Id>): (k: Id)
    requires ids != {}
    ensures k in ids
  {
    var k :| k in ids; k
  }

  /** The total of the ratings of a set of rated reviews, taken in no
      particular order. */
  ghost function RatingSum(db: Db, ids: set<Id>): real
    requires forall k :: k in ids ==> k in db.reviews && db.reviews[k].rating.Some?
    decreases ids
  {
    if ids == {} then 0.0
    else
      var k := Pick(ids);
      db.reviews[k].rating.value + RatingSum(db, ids - {k})
  }

  /** The total does not depend on which review is taken first. */
  lemma {:induction false} RatingSumPick(db: Db, ids: set<Id>, x: Id)
    requires forall k :: k in ids ==> k in db.reviews && db.reviews[k].rating.Some?
    requires x in ids
    ensures RatingSum(db, ids) == db.reviews[x].rating.value + RatingSum(db, ids - {x})
    decreases ids
  {
    var k := Pick(ids);
    if k != x {
      RatingSumPick(db, ids - {k}, x);
      RatingSumPick(db, ids - {x}, k);
      assert ids - {k} - {x} == ids - {x} - {k};
    }
  }

  /** One more id moves the bound up by one, adding that review when it is
      one of the rated ones. */
  lemma BelowStep(db: Db, R: set<Id>, n: nat)
    requires n > 0
    ensures (n - 1) !in Below(Rated(db, R), n - 1)
    ensures Below(Rated(db, R), n) ==
      if n - 1 in Rated(db, R) then Below(Rated(db, R), n - 1) + {n - 1} else Below(Rated(db, R), n - 1)
  {
  }

  /** Adding a rated review to a set adds its rating to the total and one to
      the count. */
  lemma RatingSumAdd(db: Db, S: set<Id>, x: Id)
    requires forall k :: k in S ==> k in db.reviews && db.reviews[k].rating.Some?
    requires x in db.reviews && db.reviews[x].rating.Some? && x !in S
    ensures |S + {x}| == |S| + 1
    ensures RatingSum(db, S + {x}) == RatingSum(db, S) + db.reviews[x].rating.value
  {
    RatingSumPick(db, S + {x}, x);
    assert S + {x} - {x} == S;
  }

  /** One step of the scan: a review appended to the scanned ids and, when
      rated, added to the set keeps count and total in step. */
  lemma RatingsStep(db: Db, prefix: seq<Id>, x: Id, S: set<Id>, T: set<Id>)
    requires forall i :: 0 <= i < |prefix| ==> prefix[i] in db.reviews
    requires forall k :: k in S ==> k in db.reviews && db.reviews[k].rating.Some?
    requires x in db.reviews && x !in S
    requires T == if db.reviews[x].rating.Some? then S + {x} else S
    requires |Ratings(db, prefix)| == |S| && Sum(Ratings(db, prefix)) == RatingSum(db, S)
    ensures forall i :: 0 <= i < |prefix + [x]| ==> (prefix + [x])[i] in db.reviews
    ensures |Ratings(db, prefix + [x])| == |T| && Sum(Ratings(db, prefix + [x])) == RatingSum(db, T)
  {
    RatingsSnoc(db, prefix, x);
    SumAppend(Ratings(db, prefix), RatingOf(db, x));
    if db.reviews[x].rating.Some? {
      RatingSumAdd(db, S, x);
    } else {
      assert Ratings(db, prefix) + RatingOf(db, x) == Ratings(db, prefix);
    }
  }

  /** Over the ids below `n`, the ratings `$avg` sees are those of the rated
      reviews: as many of them, with the same total. */
  lemma {:induction false} RatingsMatchRated(db: Db, R: set<Id>, n: nat)
    requires forall k :: k in R ==> k in db.reviews
    ensures forall i :: 0 <= i < |Ascending(R, n)| ==> Ascending(R, n)[i] in db.reviews
    ensures |Ratings(db, Ascending(R, n))| == |Below(Rated(db, R), n)|
    ensures Sum(Ratings(db, Ascending(R, n))) == RatingSum(db, Below(Rated(db, R), n))
  {
    if n == 0 {
      assert Below(Rated(db, R), n) == {};
    } else {
      RatingsMatchRated(db, R, n - 1);
      BelowStep(db, R, n);
      if n - 1 in R {
        RatingsStep(db, Ascending(R, n - 1), n - 1, Below(Rated(db, R), n - 1), Below(Rated(db, R), n));
      }
    }
  }

  /** The dashboard's average: "N/A" when the admin's books have no review. */
  datatype AvgRating = NotAvailable | Average(value: real)

  datatype Dashboard = Dashboard(res: Response, totalUploadedBooks: nat, totalReviews: nat, avgRating: AvgRating)

  /** `dashBoard`. The success reply carries no message (modelled as ""). When
      reviews exist but none has a rating, the average is null and formatting
      it throws, so the handler answers 500. The average is the total of the
      ratings present over how many there are. */
  function DashBoard(db: Db, requester: Id): (d: Dashboard)
    requires db.Valid()
    ensures !IsAdmin(db, requester) ==> d == Dashboard(Fail(403, UnauthorizedAccess), 0, 0, NotAvailable)
    ensures IsAdmin(db, requester) && d.res.success ==>
      d.res == Ok(200, NoMessage) &&
      d.totalUploadedBooks == |BooksOf(db, requester)| &&
      d.totalReviews == |ReviewsOfBooksOf(db, requester)| &&
      (d.avgRating.NotAvailable? <==> ReviewsOfBooksOf(db, requester) == {})
    ensures IsAdmin(db, requester) && !d.res.success ==>
      d.res == Fail(500, DashboardFailed) && ReviewsOfBooksOf(db, requester) != {} &&
      forall k :: k in ReviewsOfBooksOf(db, requester) ==> db.reviews[k].rating.None?
    ensures d.avgRating.Average? ==>
      Rated(db, ReviewsOfBooksOf(db, requester)) != {} &&
      d.avgRating.value == RatingSum(db, Rated(db, ReviewsOfBooksOf(db, requester))) / |Rated(db, ReviewsOfBooksOf(db, requester))| as real
  {
    if !IsAdmin(db, requester) then Dashboard(Fail(403, UnauthorizedAccess), 0, 0, NotAvailable)
    else
      var reviewed := ReviewsOfBooksOf(db, requester);
      var uploaded := |BooksOf(db, requester)|;
      if reviewed == {} then Dashboard(Ok(200, NoMessage), uploaded, 0, NotAvailable)
      else
        var ids := Ascending(reviewed, db.nextId);
        assert forall i :: 0 <= i < |ids| ==> ids[i] in ids;
        var ratings := Ratings(db, ids);
        if ratings == [] then
          assert forall k :: k in reviewed ==> db.reviews[k].rating.None? by {
            forall k | k in reviewed ensures db.reviews[k].rating.None? {
              assert k in ids;
              var i :| 0 <= i < |ids| && ids[i] == k;
              RatedAppears(db, ids, i);
            }
          }
          Dashboard(Fail(500, DashboardFailed), 0, 0, NotAvailable)
        else
          RatedAverage(db, reviewed);
          Dashboard(Ok(200, NoMessage), uploaded, |reviewed|, Average(Sum(ratings) / |ratings| as real))
  }

  /** For reviews in the store, the scan in id order sees every rated one. */
  lemma RatedAverage(db: Db, R: set<Id>)
    requires db.Valid() && forall k :: k in R ==> k in db.reviews
    ensures forall i :: 0 <= i < |Ascending(R, db.nextId)| ==> Ascending(R, db.nextId)[i] in db.reviews
    ensures |Ratings(db, Ascending(R, db.nextId))| == |Rated(db, R)|
    ensures Sum(Ratings(db, Ascending(R, db.nextId))) == RatingSum(db, Rated(db, R))
  {
    RatingsMatchRated(db, R, db.nextId);
    assert Below(Rated(db, R), db.nextId) == Rated(db, R);
  }

  /** A rated review among the ids contributes a rating. */
  lemma {:induction false} RatedAppears(db: Db, ids: seq<Id>, i: nat)
    requires forall j :: 0 <= j < |ids| ==> ids[j] in db.reviews
    requires i < |ids|
    ensures db.reviews[ids[i]].rating.Some? ==> db.reviews[ids[i]].rating.value in Ratings(db, ids)
  {
    if i > 0 {
      RatedAppears(db, ids[1..], i - 1);
    }
  }

  lemma ProductSign(a: real, n: real)
    requires 0.0 < n
    ensures a * n >= 0.0 ==> a >= 0.0
  {
  }

  lemma MeanBounds(total: real, n: real)
    requires 0.0 < n && n <= total <= 5.0 * n
    ensures 1.0 <= total / n <= 5.0
  {
    var q := total / n;
    assert q * n == total;
    assert (q - 1.0) * n == total - n;
    assert (5.0 - q) * n == 5.0 * n - total;
    ProductSign(q - 1.0, n);
    ProductSign(5.0 - q, n);
  }

  /** Every reported average lies between 1 and 5, since stored ratings do. */
  lemma AverageWithinStars(db: Db, requester: Id)
    requires db.Valid()
    ensures DashBoard(db, requester).avgRating.Average? ==>
      1.0 <= DashBoard(db, requester).avgRating.value <= 5.0
  {
    var d := DashBoard(db, requester);
    if d.avgRating.Average? {
      var ids := Ascending(ReviewsOfBooksOf(db, requester), db.nextId);
      assert forall i :: 0 <= i < |ids| ==> ids[i] in ids;
      var ratings := Ratings(db, ids);
      assert d.avgRating.value == Sum(ratings) / |ratings| as real;
      forall x | x in ratings ensures 1.0 <= x <= 5.0 {
        var i :| 0 <= i < |ids| && db.reviews[ids[i]].rating == Some(x);
        assert ReviewValid(db.reviews[ids[i]]);
      }
      SumBounds(ratings);
      MeanBounds(Sum(ratings), |ratings| as real);
    }
  }

  /** Is `s` ordered newest first by the books' creation time? */
  predicate NewestFirst(books: map<Id, Book>, s: seq<Id>)
    requires forall i :: 0 <= i < |s| ==> s[i] in books
  {
    forall i, j :: 0 <= i < j < |s| ==> books[s[i]].createdAt >= books[s[j]].createdAt
  }

  /** Place `id` after every book at least as new. */
  function InsertNewest(books: map<Id, Book>, id: Id, s: seq<Id>): (r: seq<Id>)
    requires id in books && forall i :: 0 <= i < |s| ==> s[i] in books
    requires NewestFirst(books, s)
    ensures |r| == |s| + 1 && (r[0] == id || (s != [] && r[0] == s[0]))
    ensures forall i :: 0 <= i < |r| ==> r[i] in books
    ensures multiset(r) == multiset(s) + multiset{id}
    ensures NewestFirst(books, r)
  {
    if s == [] || books[id].createdAt > books[s[0]].createdAt then
      PrependKeepsNewestFirst(books, id, s);
      [id] + s
    else
      TailNewestFirst(books, s);
      var rest := InsertNewest(books, id, s[1..]);
      KeepHead(books, id, s, rest);
      [s[0]] + rest
  }

  lemma TailNewestFirst(books: map<Id, Book>, s: seq<Id>)
    requires s != [] && forall i :: 0 <= i < |s| ==> s[i] in books
    requires NewestFirst(books, s)
    ensures forall i :: 0 <= i < |s[1..]| ==> s[1..][i] in books
    ensures NewestFirst(books, s[1..])
  {
    forall i, j | 0 <= i < j < |s| - 1 ensures books[s[1..][i]].createdAt >= books[s[1..][j]].createdAt {
      assert s[1..][i] == s[i + 1] && s[1..][j] == s[j + 1];
    }
  }

  /** When `id` is not newer than the head, the head stays in front of the
      insertion into the tail. */
  lemma KeepHead(books: map<Id, Book>, id: Id, s: seq<Id>, rest: seq<Id>)
    requires id in books && s != [] && forall i :: 0 <= i < |s| ==> s[i] in books
    requires NewestFirst(books, s) && books[id].createdAt <= books[s[0]].createdAt
    requires |rest| == |s| && (rest[0] == id || (|s| > 1 && rest[0] == s[1]))
    requires forall i :: 0 <= i < |rest| ==> rest[i] in books
    requires multiset(rest) == multiset(s[1..]) + multiset{id}
    requires NewestFirst(books, rest)
    ensures forall i :: 0 <= i < |[s[0]] + rest| ==> ([s[0]] + rest)[i] in books
    ensures multiset([s[0]] + rest) == multiset(s) + multiset{id}
    ensures NewestFirst(books, [s[0]] + rest)
  {
    assert multiset(s) == multiset{s[0]} + multiset(s[1..]) by { assert s == [s[0]] + s[1..]; }
    PrependKeepsNewestFirst(books, s[0], rest);
  }

  /** A book at least as new as the head of a newest-first order can go in front. */
  lemma PrependKeepsNewestFirst(books: map<Id, Book>, id: Id, s: seq<Id>)
    requires id in books && forall i :: 0 <= i < |s| ==> s[i] in books
    requires NewestFirst(books, s) && (s != [] ==> books[id].createdAt >= books[s[0]].createdAt)
    ensures NewestFirst(books, [id] + s)
  {
    var r := [id] + s;
    forall i, j | 0 <= i < j < |r| ensures books[r[i]].createdAt >= books[r[j]].createdAt {
      if i == 0 {
        assert r[j] == s[j - 1] && books[s[0]].createdAt >= books[s[j - 1]].createdAt;
      } else {
        assert r[i] == s[i - 1] && r[j] == s[j - 1];
      }
    }
  }

  /** Insertion sort by creation time, newest first; among books created at
      the same instant the earlier insertion comes first. */
  function SortNewestFirst(books: map<Id, Book>, s: seq<Id>): (r: seq<Id>)
    requires forall i :: 0 <= i < |s| ==> s[i] in books
    ensures forall i :: 0 <= i < |r| ==> r[i] in books
    ensures multiset(r) == multiset(s)
    ensures NewestFirst(books, r)
    decreases |s|
  {
    if s == [] then []
    else
      var init := SortNewestFirst(books, s[..|s| - 1]);
      assert s == s[..|s| - 1] + [s[|s| - 1]];
      InsertNewest(books, s[|s| - 1], init)
  }

  /** `getAllBooksWrittenByAdmin`: the requester's own books, newest first. */
  function BooksWrittenByAdmin(db: Db, requester: Id): (l: Listing)
    requires db.Valid()
    ensures !IsAdmin(db, requester) ==> l == Listing(Fail(403, UnauthorizedAccess), [])
    ensures IsAdmin(db, requester) ==>
      l.res == Ok(200, BooksFetched) &&
      (forall i :: 0 <= i < |l.ids| ==> l.ids[i] in db.books) &&
      (forall k :: k in l.ids <==> k in BooksOf(db, requester)) &&
      NewestFirst(db.books, l.ids) &&
      (forall i, j :: 0 <= i < j < |l.ids| ==> l.ids[i] != l.ids[j])
  {
    if !IsAdmin(db, requester) then Listing(Fail(403, UnauthorizedAccess), [])
    else
      var own := Ascending(BooksOf(db, requester), db.nextId);
      assert forall i :: 0 <= i < |own| ==> own[i] in own;
      var sorted := SortNewestFirst(db.books, own);
      assert forall k :: k in sorted <==> k in own by {
        forall k ensures k in sorted <==> k in own {
          assert k in sorted <==> k in multiset(sorted);
          assert k in own <==> k in multiset(own);
        }
      }
      DistinctAfterSort(own, sorted);
      Listing(Ok(200, BooksFetched), sorted)
  }

  /** A permutation of a sequence without repeats has none either. */
  lemma DistinctAfterSort(s: seq<Id>, r: seq<Id>)
    requires StrictlyAscending(s) && multiset(r) == multiset(s)
    ensures forall i, j :: 0 <= i < j < |r| ==> r[i] != r[j]
  {
    forall i, j | 0 <= i < j < |r| ensures r[i] != r[j] {
      CountAtMostOne(s, r[i]);
      RepeatCountsTwice(r, i, j);
    }
  }

  lemma RepeatCountsTwice(r: seq<Id>, i: nat, j: nat)
    requires i < j < |r|
    ensures r[i] == r[j] ==> multiset(r)[r[i]] >= 2
  {
    assert r == r[..i] + [r[i]] + r[i + 1..j] + [r[j]] + r[j + 1..];
  }

  lemma {:induction false} CountAtMostOne(s: seq<Id>, x: Id)
    requires StrictlyAscending(s)
    ensures multiset(s)[x] <= 1
  {
    if s != [] {
      assert s == [s[0]] + s[1..];
      CountAtMostOne(s[1..], x);
      if s[0] == x {
        assert x !in s[1..];
      }
    }
  }
}
