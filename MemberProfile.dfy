/** The member profile popover: the user's purchase records split into books
    borrowed on subscription and books bought, the borrowed count, the five
    most recent records and the tab shown first. */
module MemberProfile {
  import opened Common
  import opened Json

  /** One purchase record, as an object (its `bookId` may be populated). */
  type Purchase = map<string, Value>

  /** `book.accessType || book.bookId?.accessType` */
  function AccessTypeOf(rec: Purchase): Option<Value> {
    Or(Get(Some(Obj(rec)), "accessType"), Get(Get(Some(Obj(rec)), "bookId"), "accessType"))
  }

  predicate IsBorrowed(rec: Purchase) {
    AccessTypeOf(rec) == Some(Str("Subscribe")) || AccessTypeOf(rec) == Some(Str("borrowed"))
  }

  predicate IsBought(rec: Purchase) {
    AccessTypeOf(rec) == Some(Str("Buy")) || AccessTypeOf(rec) == Some(Str("purchased"))
  }

  /** A listed entry: `{ _id, title, accessType }` with undefined as `None`. */
  datatype Entry = Entry(id: Option<Value>, title: Value, accessType: Option<Value>)

  /** The book's own data: the populated `bookId` when truthy, else the record. */
  function BookData(rec: Purchase): Value {
    if IsTruthy(Get(Some(Obj(rec)), "bookId")) then rec["bookId"] else Obj(rec)
  }

  function EntryOf(rec: Purchase): (e: Entry)
    ensures IsTruthy(Get(Some(Obj(rec)), "_id")) ==> e.id == Some(rec["_id"])
    ensures !IsTruthy(Get(Some(Obj(rec)), "_id")) ==> e.id == Get(Some(BookData(rec)), "_id")
    ensures IsTruthy(Get(Some(BookData(rec)), "title")) ==> e.title == Get(Some(BookData(rec)), "title").value
    ensures !IsTruthy(Get(Some(BookData(rec)), "title")) ==> e.title == Str("Untitled Book")
    ensures e.accessType == AccessTypeOf(rec)
  {
    var data := Some(BookData(rec));
    Entry(Or(Get(Some(Obj(rec)), "_id"), Get(data, "_id")),
          StrOr(Get(data, "title"), "Untitled Book"),
          AccessTypeOf(rec))
  }

  /** `purchasedBooks.filter(keep).map(EntryOf)` for the two filters. */
  function Listed(records: seq<Purchase>, borrowed: bool): (r: seq<Entry>)
    ensures |r| <= |records|
  {
    if records == [] then []
    else
      var rest := Listed(records[..|records| - 1], borrowed);
      var last := records[|records| - 1];
      if Qualifies(last, borrowed) then rest + [EntryOf(last)] else rest
  }

  function BorrowedBooks(records: seq<Purchase>): seq<Entry> {
    Listed(records, true)
  }

  function BoughtBooks(records: seq<Purchase>): seq<Entry> {
    Listed(records, false)
  }

  /** The count shown on the popover. */
  function NumberOfBorrowedBooks(records: seq<Purchase>): (n: nat)
    ensures n <= |records|
  {
    |BorrowedBooks(records)|
  }

  /** The entries are those of the kept records, in input order. */
  lemma {:induction false} ListedInOrder(records: seq<Purchase>, borrowed: bool, more: seq<Purchase>)
    ensures Listed(records + more, borrowed) == Listed(records, borrowed) + Listed(more, borrowed)
    decreases |more|
  {
    if more == [] {
      assert records + more == records;
    } else {
      var init := more[..|more| - 1];
      assert (records + more)[..|records + more| - 1] == records + init;
      assert (records + more)[|records + more| - 1] == more[|more| - 1];
      ListedInOrder(records, borrowed, init);
    }
  }

  predicate Qualifies(rec: Purchase, borrowed: bool) {
    if borrowed then IsBorrowed(rec) else IsBought(rec)
  }

  /** Every qualifying record is listed, and every listed entry comes from a
      qualifying record. */
  lemma {:induction false} ListedMembers(records: seq<Purchase>, borrowed: bool)
    ensures forall i :: 0 <= i < |records| && Qualifies(records[i], borrowed) ==>
              EntryOf(records[i]) in Listed(records, borrowed)
    ensures forall e :: e in Listed(records, borrowed) ==>
              exists i :: 0 <= i < |records| && Qualifies(records[i], borrowed) && e == EntryOf(records[i])
  {
    if records != [] {
      var init := records[..|records| - 1];
      ListedMembers(init, borrowed);
      assert forall i :: 0 <= i < |init| ==> init[i] == records[i];
    }
  }

  /** A single record is listed exactly when its access type qualifies. */
  lemma ListedOne(rec: Purchase, borrowed: bool)
    ensures Listed([rec], borrowed) ==
      (if Qualifies(rec, borrowed) then [EntryOf(rec)] else [])
  {
    assert [rec][..0] == [];
  }

  /** No record is both borrowed and bought, so together the two lists never
      hold more entries than there are records; records of any other type
      appear in neither. */
  lemma {:induction false} PartitionBound(records: seq<Purchase>)
    ensures |BorrowedBooks(records)| + |BoughtBooks(records)| <= |records|
    ensures (forall i :: 0 <= i < |records| ==> !IsBorrowed(records[i]) && !IsBought(records[i])) ==>
              BorrowedBooks(records) == [] && BoughtBooks(records) == []
  {
    if records != [] {
      var init := records[..|records| - 1];
      PartitionBound(init);
      var last := records[|records| - 1];
      assert !(IsBorrowed(last) && IsBought(last));
      assert forall i :: 0 <= i < |init| ==> init[i] == records[i];
    }
  }

  /** The "Reading" tab: at most the first five records. */
  function Recent(records: seq<Purchase>): (r: seq<Purchase>)
    ensures |r| == if |records| < 5 then |records| else 5
    ensures r <= records
  {
    if |records| <= 5 then records else records[..5]
  }

  /** `isAdmin ? 'account' : 'borrowed'` */
  function DefaultTab(user: Option<Value>): (tab: string)
    ensures tab == "account" <==> Get(user, "role") == Some(Str("admin"))
    ensures tab == "account" || tab == "borrowed"
  {
    if Get(user, "role") == Some(Str("admin")) then "account" else "borrowed"
  }
}
