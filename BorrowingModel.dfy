/** The Borrowing schema: the access-type enum and the null expiry default. */
module BorrowingModel {
  import opened Common

  datatype AccessType = Buy | Subscribe

  /** Enum validation of an access type string. */
  function ParseAccessType(s: string): (r: Option<AccessType>)
    ensures r.Some? <==> s == "Buy" || s == "Subscribe"
    ensures r == Some(Subscribe) <==> s == "Subscribe"
  {
    if s == "Buy" then Some(Buy) else if s == "Subscribe" then Some(Subscribe) else None
  }

  datatype Borrowing = Borrowing(
    userId: Id,
    bookId: Id,
    accessType: AccessType,
    accessExpiry: Option<Time>,
    createdAt: Time,
    updatedAt: Time)

  /** A newly created borrowing record with both timestamps at creation time. */
  function NewBorrowing(userId: Id, bookId: Id, accessType: AccessType, accessExpiry: Option<Time>,
                        now: Time): (b: Borrowing)
    ensures b.userId == userId && b.bookId == bookId && b.accessType == accessType
    ensures b.accessExpiry == accessExpiry && b.createdAt == now && b.updatedAt == now
  {
    Borrowing(userId, bookId, accessType, accessExpiry, now, now)
  }
}
