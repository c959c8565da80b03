/** The admin "Edit Book" page: the form loaded from the stored book, its
    validator, the input and file handlers, and the update request. */
module EditBook {
  import opened Common
  import opened Json
  import opened BookForm

  /** What every reachable form satisfies: the fields the validator reads
      hold text, and the price and stock hold numbers. */
  ghost predicate WellTyped(f: Form) {
    f.Valid() && HoldsText(f, Title) && HoldsText(f, Author) && HoldsText(f, Isbn) &&
    HoldsNumber(f, BookPrice) && HoldsNumber(f, Stock)
  }

  /** What the stored book's schema guarantees of the fields read back:
      text fields are strings and numeric fields numbers whenever present. */
  predicate StoredBook(book: Value) {
    var b := Some(book);
    (IsTruthy(Get(b, "title")) ==> Get(b, "title").value.Str?) &&
    (IsTruthy(Get(b, "author")) ==> Get(b, "author").value.Str?) &&
    (IsTruthy(Get(b, "isbn")) ==> Get(b, "isbn").value.Str?) &&
    (IsTruthy(Get(b, "bookPrice")) ==> Get(b, "bookPrice").value.Num?) &&
    (IsTruthy(Get(b, "stock")) ==> Get(b, "stock").value.Num?)
  }

  const FetchedKeys: seq<Key> :=
    [Title, Author, Isbn, Description, PublishedYear, Category, BookPrice, Stock, CoverUrl, BookUrl]

  /** `book.name || d` for a field of the fetched book. */
  function FieldOr(book: Value, name: string, d: Value): (f: Field)
    ensures f.Plain?
    ensures IsTruthy(Get(Some(book), name)) ==> f.v == book.fields[name]
    ensures !IsTruthy(Get(Some(book), name)) ==> f.v == d
  {
    Plain(Or(Get(Some(book), name), Some(d)).value)
  }

  function FetchedValues(book: Value, currentYear: int): map<Key, Field> {
    map[Title := FieldOr(book, "title", Str("")),
        Author := FieldOr(book, "author", Str("")),
        Isbn := FieldOr(book, "isbn", Str("")),
        Description := FieldOr(book, "description", Str("")),
        PublishedYear := FieldOr(book, "publishedYear", Num(currentYear as real)),
        Category := FieldOr(book, "category", Str("")),
        BookPrice := FieldOr(book, "bookPrice", Num(0.0)),
        Stock := FieldOr(book, "stock", Num(0.0)),
        CoverUrl := FieldOr(book, "coverUrl", Str("")),
        BookUrl := FieldOr(book, "bookUrl", Str(""))]
  }

  lemma FetchedFormValid(book: Value, currentYear: int)
    ensures Form(FetchedKeys, FetchedValues(book, currentYear)).Valid()
  {
  }

  /** Each field the form reads back is the book's field under the same name, or its default. */
  lemma FetchedLookups(book: Value, currentYear: int)
    ensures FetchedValues(book, currentYear)[Title] == FieldOr(book, "title", Str(""))
    ensures FetchedValues(book, currentYear)[Author] == FieldOr(book, "author", Str(""))
    ensures FetchedValues(book, currentYear)[Isbn] == FieldOr(book, "isbn", Str(""))
    ensures FetchedValues(book, currentYear)[BookPrice] == FieldOr(book, "bookPrice", Num(0.0))
    ensures FetchedValues(book, currentYear)[Stock] == FieldOr(book, "stock", Num(0.0))
    ensures FetchedValues(book, currentYear)[PublishedYear] == FieldOr(book, "publishedYear", Num(currentYear as real))
  {
  }

  /** A stored book loads into a well-typed form. */
  lemma FetchedTyped(book: Value, currentYear: int)
    requires StoredBook(book)
    ensures WellTyped(Form(FetchedKeys, FetchedValues(book, currentYear)))
  {
    FetchedFormValid(book, currentYear);
    FetchedLookups(book, currentYear);
  }

  /** The form rebuilt from the stored book: each field is the book's value
      when truthy, else "" (0 for price and stock, the current year for
      `publishedYear`); its text and number fields keep their types. */
  function FetchedForm(book: Value, currentYear: int): (f: Form)
    requires StoredBook(book)
    ensures WellTyped(f) && f.keys == FetchedKeys
    ensures f.values[Title] == FieldOr(book, "title", Str("")) && f.values[Author] == FieldOr(book, "author", Str(""))
    ensures f.values[Isbn] == FieldOr(book, "isbn", Str("")) && f.values[BookPrice] == FieldOr(book, "bookPrice", Num(0.0))
    ensures f.values[Stock] == FieldOr(book, "stock", Num(0.0))
    ensures f.values[PublishedYear] == FieldOr(book, "publishedYear", Num(currentYear as real))
  {
    FetchedLookups(book, currentYear);
    FetchedTyped(book, currentYear);
    Form(FetchedKeys, FetchedValues(book, currentYear))
  }

  /** Typing into any input keeps the validated fields of their types: text
      stays text and the numeric inputs hold numbers. */
  lemma TypingKeepsWellTyped(f: Form, key: Key, value: string)
    requires WellTyped(f)
    ensures WellTyped(Assign(f, key, Typed(key, value)))
  {
    var t := Typed(key, value);
    var r := Assign(f, key, t);
    assert r.values == f.values[key := t];
    if key == Title || key == Author || key == Isbn {
      assert t == Plain(Str(value));
    } else if key == BookPrice || key == Stock {
      assert t.Plain? && (t.v.Num? || t.v.NaN?);
    }
  }

  /** `validateForm`'s `newErrors`, filled field by field. */
  function ValidationErrors(f: Form): map<Key, FieldError>
    requires WellTyped(f)
  {
    FieldErrors(BlankField(f, Title), BlankField(f, Author), BlankField(f, Isbn),
                NegativeField(f, BookPrice), NegativeField(f, Stock))
  }

  /** The form passes exactly when title, author and ISBN are not blank and
      neither price nor stock is negative. */
  lemma ValidationErrorsExact(f: Form)
    requires WellTyped(f)
    ensures ValidationErrors(f) == map[] <==>
      !Blank(f.values[Title].v.s) && !Blank(f.values[Author].v.s) && !Blank(f.values[Isbn].v.s) &&
      !NegativeField(f, BookPrice) && !NegativeField(f, Stock)
  {
    TrimEmptyIffBlank(f.values[Title].v.s);
    TrimEmptyIffBlank(f.values[Author].v.s);
    TrimEmptyIffBlank(f.values[Isbn].v.s);
  }

  /** The field is present and holds text that is not all whitespace. */
  predicate FilledText(v: Option<Value>) {
    v.Some? && v.value.Str? && !Blank(v.value.s)
  }

  /** The field, when truthy, is a number that is not negative. */
  predicate NonNegative(v: Option<Value>) {
    IsTruthy(v) ==> v.value.Num? && v.value.x >= 0.0
  }

  /** A stored book with a title, author and ISBN and no negative price or
      stock loads into a form that passes validation. */
  lemma StoredBookPasses(book: Value, currentYear: int)
    requires StoredBook(book)
    requires FilledText(Get(Some(book), "title")) && FilledText(Get(Some(book), "author"))
    requires FilledText(Get(Some(book), "isbn"))
    requires NonNegative(Get(Some(book), "bookPrice")) && NonNegative(Get(Some(book), "stock"))
    ensures ValidationErrors(FetchedForm(book, currentYear)) == map[]
  {
    var f := FetchedForm(book, currentYear);
    FilledIsNotBlank(book, "title");
    FilledIsNotBlank(book, "author");
    FilledIsNotBlank(book, "isbn");
    assert !NegativeField(f, BookPrice) && !NegativeField(f, Stock);
    ValidationErrorsExact(f);
  }

  lemma FilledIsNotBlank(book: Value, name: string)
    requires FilledText(Get(Some(book), name))
    ensures FieldOr(book, name, Str("")).v.Str? && !Blank(FieldOr(book, name, Str("")).v.s)
  {
    assert Get(Some(book), name).value.s != "";
  }

  predicate IsImage(mime: string) {
    mime == "image/jpeg" || mime == "image/png" || mime == "image/webp"
  }

  predicate IsPdf(mime: string) {
    mime == "application/pdf"
  }

  /** The reply to the upload request: a failure, or `response.data.url`
      (`None` when the reply carries no `url`). */
  datatype UploadReply = UploadFailed | Replied(url: Option<Value>)

  /** The field names the page passes to `handleFileChange` ("coverImage" and
      "pdfUrl"), and the two names its type checks test. */
  predicate FileFieldName(field: string) {
    field == "coverImage" || field == "pdfUrl" || field == "coverUrl" || field == "bookUrl"
  }

  /** Whether the type check for `field` turns the file away. */
  predicate TypeRejected(field: string, mime: string) {
    (field == "coverUrl" && !IsImage(mime)) || (field == "bookUrl" && !IsPdf(mime))
  }

  /** The names the file inputs pass are never type-checked: any file is sent. */
  lemma PassedNamesSkipTypeChecks(mime: string)
    ensures !TypeRejected("coverImage", mime) && !TypeRejected("pdfUrl", mime)
    ensures KeyOf("coverImage") !in {CoverUrl, BookUrl} && KeyOf("pdfUrl") !in {CoverUrl, BookUrl}
  {
  }

  /** Storing an upload's address never touches a validated field. */
  lemma UploadKeepsWellTyped(f: Form, field: string, v: Field)
    requires WellTyped(f) && FileFieldName(field)
    ensures KeyOf(field) !in {Title, Author, Isbn, BookPrice, Stock}
    ensures WellTyped(Assign(f, KeyOf(field), v))
  {
    var r := Assign(f, KeyOf(field), v);
    assert r.values[Title] == f.values[Title] && r.values[Author] == f.values[Author];
    assert r.values[Isbn] == f.values[Isbn] && r.values[BookPrice] == f.values[BookPrice];
    assert r.values[Stock] == f.values[Stock];
  }

  /** The price input is named "price": what is typed is stored as text
      under "price" and the validated `bookPrice` never changes. */
  lemma PriceInputMissesBookPrice(f: Form, value: string)
    requires WellTyped(f)
    ensures Assign(f, KeyOf("price"), Typed(KeyOf("price"), value)).values[BookPrice] == f.values[BookPrice]
    ensures Assign(f, KeyOf("price"), Typed(KeyOf("price"), value)).values[Other("price")] == Plain(Str(value))
  {
    var k := KeyOf("price");
    assert k == Other("price") by {
      assert KeyName(k) == "price" && Canonical(k);
    }
    assert Typed(k, value) == Plain(Str(value));
  }

  /** How the update request ended: success, or a failure with the reply's
      HTTP status (`None` when no reply came). */
  datatype Outcome = Updated | Failed(status: Option<int>)

  /** Where the page goes after the update request, if anywhere. */
  function Destination(o: Outcome): (r: Option<string>)
    ensures r == Some("/login") <==> o == Failed(Some(401))
    ensures r == Some("/admin/books") <==> o.Updated? || o == Failed(Some(404))
    ensures r.None? <==> o.Failed? && o.status != Some(401) && o.status != Some(404)
  {
    match o
    case Updated => Some("/admin/books")
    case Failed(status) =>
      if status == Some(401) then Some("/login")
      else if status == Some(404) then Some("/admin/books")
      else None
  }

  class EditBookPage {
    var form: Form
    var errors: map<Key, Option<FieldError>>
    var isLoading: bool

    ghost predicate Valid()
      reads this
    {
      WellTyped(form)
    }

    constructor (currentYear: int)
      ensures Valid() && form == BlankForm(currentYear) && errors == map[] && isLoading
    {
      form := BlankForm(currentYear);
      errors := map[];
      isLoading := true;
    }

    /** `fetchBookDetails`: the stored book replaces the form, or, when the
        request fails, the page leaves for the book list. */
    method FetchBookDetails(book: Option<Value>, currentYear: int) returns (leave: bool)
      requires Valid()
      requires book.Some? ==> StoredBook(book.value)
      modifies this
      ensures Valid() && !isLoading && errors == old(errors)
      ensures leave <==> book.None?
      ensures book.Some? ==> form == FetchedForm(book.value, currentYear)
      ensures book.None? ==> form == old(form)
    {
      isLoading := false;
      if book.None? {
        return true;
      }
      var fetched := FetchedForm(book.value, currentYear);
      assert WellTyped(fetched);
      form := fetched;
      leave := false;
    }

    method ValidateForm() returns (ok: bool)
      requires Valid()
      modifies this
      ensures Valid() && form == old(form) && isLoading == old(isLoading)
      ensures errors == Shown(ValidationErrors(form))
      ensures ok <==> ValidationErrors(form) == map[]
    {
      var found: map<Key, FieldError> := map[];
      if BlankField(form, Title) {
        found := found[Title := TitleRequired];
      }
      if BlankField(form, Author) {
        found := found[Author := AuthorRequired];
      }
      if BlankField(form, Isbn) {
        found := found[Isbn := IsbnRequired];
      }
      if NegativeField(form, BookPrice) {
        found := found[BookPrice := PriceNegative];
      }
      if NegativeField(form, Stock) {
        found := found[Stock := StockNegative];
      }
      errors := Shown(found);
      ok := |found| == 0;
    }

    /** `handleChange`: as on the "Add Book" page. */
    method HandleChange(name: string, value: string)
      requires Valid()
      modifies this
      ensures Valid() && isLoading == old(isLoading)
      ensures form == Assign(old(form), KeyOf(name), Typed(KeyOf(name), value))
      ensures KeyOf(name) in old(errors) && old(errors)[KeyOf(name)].Some? ==> errors == old(errors)[KeyOf(name) := None]
      ensures !(KeyOf(name) in old(errors) && old(errors)[KeyOf(name)].Some?) ==> errors == old(errors)
    {
      var key := KeyOf(name);
      var typed := Assign(form, key, Typed(key, value));
      TypingKeepsWellTyped(form, key, value);
      form := typed;
      if key in errors && errors[key].Some? {
        errors := errors[key := None];
      }
    }

    /** `handleFileChange`: a file that passes the type check (if any applies)
        is uploaded, and on success the reply's `url` is stored under `field`. */
    method HandleFileChange(field: string, file: Option<File>, reply: UploadReply)
      requires Valid() && FileFieldName(field)
      modifies this
      ensures Valid() && errors == old(errors) && isLoading == old(isLoading)
      ensures file.Some? && !TypeRejected(field, file.value.mime) && reply.Replied? ==>
                form == Assign(old(form), KeyOf(field), if reply.url.Some? then Plain(reply.url.value) else Absent)
      ensures file.None? || TypeRejected(field, file.value.mime) || reply.UploadFailed? ==> form == old(form)
    {
      if file.None? {
        return;
      }
      if field == "coverUrl" && !IsImage(file.value.mime) {
        return;
      }
      if field == "bookUrl" && !IsPdf(file.value.mime) {
        return;
      }
      if reply.UploadFailed? {
        return;
      }
      var key := KeyOf(field);
      var stored := Assign(form, key, if reply.url.Some? then Plain(reply.url.value) else Absent);
      UploadKeepsWellTyped(form, field, if reply.url.Some? then Plain(reply.url.value) else Absent);
      form := stored;
    }

    /** `handleSubmit`: an invalid form sends nothing; a valid one is posted as it stands. */
    method HandleSubmit() returns (request: Option<Form>)
      requires Valid()
      modifies this
      ensures Valid() && form == old(form)
      ensures request.None? <==> ValidationErrors(form) != map[]
      ensures request.Some? ==> request.value == form
    {
      var ok := ValidateForm();
      if !ok {
        return None;
      }
      request := Some(form);
    }
  }
}
