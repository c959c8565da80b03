/** The form state shared by the admin "Add Book" and "Edit Book" pages: an
    object whose keys keep their insertion order (so the order in which a
    form is sent is modelled), `Number()` on the text typed into numeric
    inputs, and the per-field checks the validators run. */
module BookForm {
  import opened Common
  import opened Json

  /** A file chosen in a file input: its name and MIME type. */
  datatype File = File(name: string, mime: string)

  /** A form value: a JavaScript value, a chosen file, or `undefined`. */
  datatype Field = Plain(v: Value) | Upload(file: File) | Absent

  predicate FieldTruthy(f: Field) {
    match f
    case Plain(v) => IsTruthy(Some(v))
    case Upload(_) => true
    case Absent => false
  }

  /** The keys the pages give a meaning to, and any other key by its name. */
  datatype Key =
    | Title | Author | Isbn | Description | Category | BookPrice | Stock | PublishedYear
    | CoverUrl | BookUrl | CoverFile | BookFile
    | Other(name: string)

  function KeyName(k: Key): string {
    match k
    case Title => "title"
    case Author => "author"
    case Isbn => "isbn"
    case Description => "description"
    case Category => "category"
    case BookPrice => "bookPrice"
    case Stock => "stock"
    case PublishedYear => "publishedYear"
    case CoverUrl => "coverUrl"
    case BookUrl => "bookUrl"
    case CoverFile => "coverFile"
    case BookFile => "bookFile"
    case Other(name) => name
  }

  predicate KnownName(name: string) {
    name in {"title", "author", "isbn", "description", "category", "bookPrice", "stock",
             "publishedYear", "coverUrl", "bookUrl", "coverFile", "bookFile"}
  }

  /** Each key has one representation: an `Other` key never carries a known name. */
  predicate Canonical(k: Key) {
    k.Other? ==> !KnownName(k.name)
  }

  /** Every key of a form in its one representation, as `KeyOf` and the
      pages' own keys give them. */
  predicate CanonicalKeys(values: map<Key, Field>) {
    forall k :: k in values ==> Canonical(k)
  }

  /** The key an input's `name` attribute denotes. */
  function KeyOf(name: string): (k: Key)
    ensures KeyName(k) == name && Canonical(k)
  {
    if name == "title" then Title
    else if name == "author" then Author
    else if name == "isbn" then Isbn
    else if name == "description" then Description
    else if name == "category" then Category
    else if name == "bookPrice" then BookPrice
    else if name == "stock" then Stock
    else if name == "publishedYear" then PublishedYear
    else if name == "coverUrl" then CoverUrl
    else if name == "bookUrl" then BookUrl
    else if name == "coverFile" then CoverFile
    else if name == "bookFile" then BookFile
    else Other(name)
  }

  /** Names and canonical keys correspond one to one. */
  lemma KeyNamesRoundTrip(k: Key)
    requires Canonical(k)
    ensures KeyOf(KeyName(k)) == k
  {
  }

  /** A JavaScript object used as form state: its keys in insertion order and
      the value under each key. */
  datatype Form = Form(keys: seq<Key>, values: map<Key, Field>)
  {
    ghost predicate Valid() {
      forall k :: k in values <==> k in keys
    }
  }

  /** `{ ...form, [key]: v }`: an existing key keeps its place, a new one goes last. */
  function Assign(form: Form, key: Key, v: Field): (r: Form)
    requires form.Valid()
    ensures r.Valid()
    ensures r.values == form.values[key := v]
    ensures key in form.values ==> r.keys == form.keys
    ensures key !in form.values ==> r.keys == form.keys + [key]
  {
    if key in form.values then Form(form.keys, form.values[key := v])
    else Form(form.keys + [key], form.values[key := v])
  }

  const InitialKeys: seq<Key> :=
    [Title, Author, Isbn, Description, Category, BookPrice, Stock, PublishedYear, CoverUrl, BookUrl]

  function InitialValues(currentYear: int): map<Key, Field> {
    map[Title := Plain(Str("")), Author := Plain(Str("")), Isbn := Plain(Str("")),
        Description := Plain(Str("")), Category := Plain(Str("")),
        BookPrice := Plain(Num(0.0)), Stock := Plain(Num(0.0)),
        PublishedYear := Plain(Num(currentYear as real)),
        CoverUrl := Plain(Str("")), BookUrl := Plain(Str(""))]
  }

  lemma BlankFormValid(currentYear: int)
    ensures Form(InitialKeys, InitialValues(currentYear)).Valid()
  {
  }

  lemma BlankFormTyped(currentYear: int)
    ensures InitialValues(currentYear)[Title] == Plain(Str(""))
    ensures InitialValues(currentYear)[Author] == Plain(Str(""))
    ensures InitialValues(currentYear)[Isbn] == Plain(Str(""))
    ensures InitialValues(currentYear)[BookPrice] == Plain(Num(0.0))
    ensures InitialValues(currentYear)[Stock] == Plain(Num(0.0))
    ensures InitialValues(currentYear)[CoverUrl] == Plain(Str(""))
  {
  }

  /** The form both pages start from; `publishedYear` is the current year. */
  function BlankForm(currentYear: int): (f: Form)
    ensures f.Valid() && f.keys == InitialKeys
    ensures f.values[Title] == Plain(Str("")) && f.values[Author] == Plain(Str("")) &&
            f.values[Isbn] == Plain(Str("")) && f.values[BookPrice] == Plain(Num(0.0)) &&
            f.values[Stock] == Plain(Num(0.0)) && f.values[CoverUrl] == Plain(Str(""))
  {
    BlankFormValid(currentYear);
    BlankFormTyped(currentYear);
    Form(InitialKeys, InitialValues(currentYear))
  }

  predicate HoldsText(form: Form, key: Key) {
    key in form.values && form.values[key].Plain? && form.values[key].v.Str?
  }

  predicate HoldsNumber(form: Form, key: Key) {
    key in form.values && form.values[key].Plain? && (form.values[key].v.Num? || form.values[key].v.NaN?)
  }

  /** The messages the validators show under a field. */
  datatype FieldError = TitleRequired | AuthorRequired | IsbnRequired | PriceNegative | StockNegative

  function ErrorText(e: FieldError): string {
    match e
    case TitleRequired => "Title is required"
    case AuthorRequired => "Author is required"
    case IsbnRequired => "ISBN is required"
    case PriceNegative => "Price cannot be negative"
    case StockNegative => "Stock cannot be negative"
  }

  /** `if (failed) newErrors[k] = error`: the validators' step for one field. */
  function Flagged(e: map<Key, FieldError>, failed: bool, k: Key, error: FieldError): (r: map<Key, FieldError>)
    ensures forall j :: j in r <==> j in e || (failed && j == k)
  {
    if failed then e[k := error] else e
  }

  /** The validators' `newErrors`, given which of the five checks fail, filled
      in the pages' order: one message per failing field and no other key. */
  function FieldErrors(title: bool, author: bool, isbn: bool, price: bool, stock: bool): (e: map<Key, FieldError>)
    ensures e.Keys <= {Title, Author, Isbn, BookPrice, Stock}
    ensures Title in e <==> title
    ensures Author in e <==> author
    ensures Isbn in e <==> isbn
    ensures BookPrice in e <==> price
    ensures Stock in e <==> stock
    ensures e == map[] <==> !title && !author && !isbn && !price && !stock
  {
    var e := Flagged(map[], title, Title, TitleRequired);
    var e := Flagged(e, author, Author, AuthorRequired);
    var e := Flagged(e, isbn, Isbn, IsbnRequired);
    var e := Flagged(e, price, BookPrice, PriceNegative);
    var e := Flagged(e, stock, Stock, StockNegative);
    assert title ==> Title in e;
    e
  }

  /** The errors object as a page holds it; `None` is a message cleared back
      to `undefined`. */
  function Shown(e: map<Key, FieldError>): (r: map<Key, Option<FieldError>>)
    ensures r.Keys == e.Keys && forall k :: k in e ==> r[k] == Some(e[k])
  {
    map k | k in e :: Some(e[k])
  }

  /** `!form[key].trim()` */
  predicate BlankField(form: Form, key: Key)
    requires HoldsText(form, key)
  {
    Trim(form.values[key].v.s) == ""
  }

  /** `form[key] < 0`; NaN compares false. */
  predicate NegativeField(form: Form, key: Key)
    requires HoldsNumber(form, key)
  {
    form.values[key].v.Num? && form.values[key].v.x < 0.0
  }

  /** The inputs whose text is passed through `Number()`. */
  predicate NumericInput(k: Key) {
    k == BookPrice || k == Stock || k == PublishedYear
  }

  /** `handleChange`'s new value for an input: `Number(value)` for the three
      numeric keys, the text itself otherwise. */
  function Typed(k: Key, value: string): (f: Field)
    ensures f.Plain?
    ensures NumericInput(k) ==> f.v.Num? || f.v.NaN?
    ensures !NumericInput(k) ==> f.v == Str(value)
  {
    Plain(if NumericInput(k) then ToNumber(value) else Str(value))
  }

  predicate IsDigit(c: char) {
    '0' <= c <= '9'
  }

  predicate AllDigits(s: string) {
    forall i :: 0 <= i < |s| ==> IsDigit(s[i])
  }

  function DigitsValue(s: string): nat
    requires AllDigits(s)
  {
    if s == [] then 0 else 10 * DigitsValue(s[..|s| - 1]) + (s[|s| - 1] as int - '0' as int)
  }

  function Pow10(n: nat): (p: nat)
    ensures p >= 1
  {
    if n == 0 then 1 else 10 * Pow10(n - 1)
  }

  /** An unsigned decimal numeral `ddd`, `ddd.ddd`, `ddd.` or `.ddd`. */
  function UnsignedDecimal(s: string): Option<real> {
    var dot := IndexOf(s, ".");
    if dot == -1 then
      if s != "" && AllDigits(s) then Some(DigitsValue(s) as real) else None
    else
      var whole := s[..dot];
      var frac := s[dot + 1..];
      if (whole != "" || frac != "") && AllDigits(whole) && AllDigits(frac) then
        Some(DigitsValue(whole) as real + DigitsValue(frac) as real / Pow10(|frac|) as real)
      else None
  }

  /** `Number(text)` for decimal numerals: surrounding whitespace is ignored,
      the empty string is 0, and anything that is not a numeral is NaN. */
  function ToNumber(text: string): (r: Value)
    ensures r.Num? || r.NaN?
  {
    var t := Trim(text);
    if t == "" then Num(0.0)
    else
      var negative := t[0] == '-';
      var body := if t[0] == '-' || t[0] == '+' then t[1..] else t;
      match UnsignedDecimal(body)
      case Some(x) => Num(if negative then -x else x)
      case None => NaN
  }

  lemma NoSpaceAtEndsTrims(s: string)
    requires s != "" && !IsSpace(s[0]) && !IsSpace(s[|s| - 1])
    ensures Trim(s) == s
  {
    assert s[Leading(s)..] == s;
  }

  lemma DigitsHaveNoDot(s: string)
    requires AllDigits(s)
    ensures IndexOf(s, ".") == -1
  {
    forall i | 0 <= i <= |s|
      ensures !OccursAt(s, ".", i)
    {
      if i + 1 <= |s| {
        assert s[i..i + 1][0] == s[i];
      }
    }
  }

  lemma DigitsParse(s: string)
    requires s != "" && AllDigits(s)
    ensures UnsignedDecimal(s) == Some(DigitsValue(s) as real)
  {
    DigitsHaveNoDot(s);
  }

  /** Typing a whole number into a numeric input stores that number. */
  lemma PositiveConverts(s: string)
    requires s != "" && AllDigits(s)
    ensures ToNumber(s) == Num(DigitsValue(s) as real)
  {
    assert IsDigit(s[0]) && IsDigit(s[|s| - 1]);
    NoSpaceAtEndsTrims(s);
    DigitsParse(s);
  }

  /** A minus sign in front of a whole number stores its negation. */
  lemma NegativeConverts(s: string)
    requires s != "" && AllDigits(s)
    ensures ToNumber("-" + s) == Num(-(DigitsValue(s) as real))
  {
    DigitsParse(s);
    SignedTrimmed(s);
    SignedBody(s, DigitsValue(s) as real);
  }

  /** A minus sign followed by digits has no surrounding whitespace. */
  lemma SignedTrimmed(s: string)
    requires s != "" && AllDigits(s)
    ensures Trim("-" + s) == "-" + s
  {
    var m := "-" + s;
    assert m[|m| - 1] == s[|s| - 1] && IsDigit(s[|s| - 1]);
    NoSpaceAtEndsTrims(m);
  }

  /** `Number()` of a minus sign followed by an unsigned numeral, with no
      surrounding whitespace. */
  lemma SignedBody(s: string, x: real)
    requires Trim("-" + s) == "-" + s && UnsignedDecimal(s) == Some(x)
    ensures ToNumber("-" + s) == Num(-x)
  {
    var t := "-" + s;
    assert t[0] == '-' && t[1..] == s;
  }
}
