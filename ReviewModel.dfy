/** The Review schema: a rating that, when present, is a number (not necessarily whole) from 1 to 5, and an
    optional comment. The schema itself puts no uniqueness on (user, book). */
module ReviewModel {
  import opened Common

  datatype Review = Review(
    userId: Id,
    bookId: Id,
    rating: Option<real>,
    comment: Option<string>,
    createdAt: Time,
    updatedAt: Time)

  predicate RatingValid(rating: Option<real>) {
    rating.None? || 1.0 <= rating.value <= 5.0
  }

  predicate ReviewValid(r: Review) {
    RatingValid(r.rating)
  }
}
