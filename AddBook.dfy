/** The admin "Add Book" page: the form state, its validator, the input and
    file handlers, and the multipart request the submit button sends. */
module AddBook {
  import opened Common
  import opened Json
  import opened BookForm

  /** The blank form; `publishedYear` starts at the current year. */
  function InitialForm(currentYear: int): (f: Form)
    ensures WellTyped(f) && CoverUrl in f.values && !FieldTruthy(f.values[CoverUrl])
    ensures f.keys == InitialKeys
  {
    BlankFormWellTyped(currentYear);
    BlankForm(currentYear)
  }

  lemma BlankFormWellTyped(currentYear: int)
    ensures WellTyped(BlankForm(currentYear))
  {
    var f := BlankForm(currentYear);
    assert f.values[Title] == Plain(Str(""));
  }

  /** What every reachable form satisfies: the fields the validator reads
      hold text, and the price holds a number. */
  ghost predicate WellTyped(f: Form) {
    f.Valid() && HoldsText(f, Title) && HoldsText(f, Author) && HoldsText(f, Isbn) &&
    HoldsNumber(f, BookPrice)
  }

  /** Typing into any input keeps the validated fields of their types: text
      stays text and the numeric inputs hold numbers. */
  lemma TypingKeepsWellTyped(f: Form, key: Key, value: string)
    requires WellTyped(f)
    ensures WellTyped(Assign(f, key, Typed(key, value)))
  {
    var t := Typed(key, value);
    var r := Assign(f, key, t);
    assert r.values == f.values[key := t];
    if key == Title || key == Author || key == Isbn {
      assert t == Plain(Str(value));
    } else if key == BookPrice {
      assert t.Plain? && (t.v.Num? || t.v.NaN?);
    }
  }

  /** Setting a key the validator does not read keeps the form well typed. */
  lemma AttachKeepsWellTyped(f: Form, key: Key, v: Field)
    requires WellTyped(f)
    requires key != Title && key != Author && key != Isbn && key != BookPrice
    ensures WellTyped(Assign(f, key, v))
  {
    assert Assign(f, key, v).values == f.values[key := v];
  }

  /** The form after a file is chosen: a JPEG, PNG or WebP cover is stored
      with its preview URL, a PDF book file with its name; any other choice
      leaves the form as it was. */
  function WithFile(f: Form, field: string, file: Option<File>, previewUrl: string): (r: Form)
    requires WellTyped(f)
    ensures WellTyped(r)
    ensures file.Some? && field == "coverUrl" && IsImage(file.value.mime) ==>
              r == Assign(Assign(f, CoverUrl, Plain(Str(previewUrl))), CoverFile, Upload(file.value))
    ensures file.Some? && field == "bookUrl" && IsPdf(file.value.mime) ==>
              r == Assign(Assign(f, BookFile, Upload(file.value)), BookUrl, Plain(Str(file.value.name)))
    ensures (!(file.Some? && field == "coverUrl" && IsImage(file.value.mime)) &&
             !(file.Some? && field == "bookUrl" && IsPdf(file.value.mime))) ==> r == f
  {
    if file.Some? && field == "coverUrl" && IsImage(file.value.mime) then
      var withPreview := Assign(f, CoverUrl, Plain(Str(previewUrl)));
      AttachKeepsWellTyped(f, CoverUrl, Plain(Str(previewUrl)));
      AttachKeepsWellTyped(withPreview, CoverFile, Upload(file.value));
      Assign(withPreview, CoverFile, Upload(file.value))
    else if file.Some? && field == "bookUrl" && IsPdf(file.value.mime) then
      var withFile := Assign(f, BookFile, Upload(file.value));
      AttachKeepsWellTyped(f, BookFile, Upload(file.value));
      AttachKeepsWellTyped(withFile, BookUrl, Plain(Str(file.value.name)));
      Assign(withFile, BookUrl, Plain(Str(file.value.name)))
    else f
  }

  /** `validateForm`'s `newErrors`, filled field by field: one message per failing field. */
  function ValidationErrors(f: Form): map<Key, FieldError>
    requires WellTyped(f)
  {
    FieldErrors(BlankField(f, Title), BlankField(f, Author), BlankField(f, Isbn),
                NegativeField(f, BookPrice), false)
  }

  /** The form passes exactly when title, author and ISBN are not blank and
      the price is not negative; each failing field, and only those, has a message. */
  lemma ValidationErrorsExact(f: Form)
    requires WellTyped(f)
    ensures ValidationErrors(f) == map[] <==>
      !Blank(f.values[Title].v.s) && !Blank(f.values[Author].v.s) && !Blank(f.values[Isbn].v.s) &&
      !NegativeField(f, BookPrice)
    ensures ValidationErrors(f).Keys <= {Title, Author, Isbn, BookPrice}
    ensures Title in ValidationErrors(f) <==> Blank(f.values[Title].v.s)
    ensures Author in ValidationErrors(f) <==> Blank(f.values[Author].v.s)
    ensures Isbn in ValidationErrors(f) <==> Blank(f.values[Isbn].v.s)
    ensures BookPrice in ValidationErrors(f) <==> NegativeField(f, BookPrice)
  {
    TrimEmptyIffBlank(f.values[Title].v.s);
    TrimEmptyIffBlank(f.values[Author].v.s);
    TrimEmptyIffBlank(f.values[Isbn].v.s);
  }

  /** Typing a minus sign before a whole price makes the form fail on the price. */
  lemma NegativePriceRejected(f: Form, digits: string)
    requires WellTyped(f) && digits != "" && AllDigits(digits) && DigitsValue(digits) > 0
    ensures WellTyped(Assign(f, BookPrice, Plain(ToNumber("-" + digits))))
    ensures BookPrice in ValidationErrors(Assign(f, BookPrice, Plain(ToNumber("-" + digits))))
  {
    NegativeConverts(digits);
  }

  predicate IsImage(mime: string) {
    mime == "image/jpeg" || mime == "image/png" || mime == "image/webp"
  }

  predicate IsPdf(mime: string) {
    mime == "application/pdf"
  }

  /** One entry of the multipart body. */
  datatype Part = Part(name: string, value: Field)

  predicate IsFileKey(k: Key) {
    k == CoverFile || k == BookFile
  }

  /** The entries appended for the form keys, skipping the two file keys. */
  function Entries(keys: seq<Key>, values: map<Key, Field>): seq<Part>
    requires forall i :: 0 <= i < |keys| ==> keys[i] in values
  {
    if keys == [] then []
    else
      var k := keys[|keys| - 1];
      Entries(keys[..|keys| - 1], values) + (if IsFileKey(k) then [] else [Part(KeyName(k), values[k])])
  }

  /** `Object.keys(form).forEach(...)`: the fields appended in key order, the
      two file keys skipped. */
  method CollectEntries(keys: seq<Key>, values: map<Key, Field>) returns (parts: seq<Part>)
    requires forall i :: 0 <= i < |keys| ==> keys[i] in values
    ensures parts == Entries(keys, values)
  {
    parts := [];
    for i := 0 to |keys|
      invariant parts == Entries(keys[..i], values)
    {
      var key := keys[i];
      assert keys[..i + 1][..i] == keys[..i];
      if key != CoverFile && key != BookFile {
        parts := parts + [Part(KeyName(key), values[key])];
      }
    }
    assert keys[..|keys|] == keys;
  }

  /** Every entry is a non-file key with its value, and every non-file key
      has its entry. */
  lemma {:induction false} EntriesExact(keys: seq<Key>, values: map<Key, Field>)
    requires forall i :: 0 <= i < |keys| ==> keys[i] in values
    ensures forall p :: p in Entries(keys, values) ==>
              exists i :: 0 <= i < |keys| && !IsFileKey(keys[i]) && p == Part(KeyName(keys[i]), values[keys[i]])
    ensures forall i :: 0 <= i < |keys| && !IsFileKey(keys[i]) ==> Part(KeyName(keys[i]), values[keys[i]]) in Entries(keys, values)
  {
    if keys != [] {
      var init := keys[..|keys| - 1];
      EntriesExact(init, values);
      assert forall i :: 0 <= i < |init| ==> init[i] == keys[i];
    }
  }

  /** The file parts appended after the fields, when the files were chosen. */
  function FileParts(f: Form): seq<Part> {
    (if CoverFile in f.values && FieldTruthy(f.values[CoverFile]) then [Part("cover", f.values[CoverFile])] else []) +
    (if BookFile in f.values && FieldTruthy(f.values[BookFile]) then [Part("book", f.values[BookFile])] else [])
  }

  /** The request body `handleSubmit` builds from the form. */
  function Payload(f: Form): seq<Part>
    requires f.Valid()
  {
    assert forall i :: 0 <= i < |f.keys| ==> f.keys[i] in f.values;
    Entries(f.keys, f.values) + FileParts(f)
  }

  /** A canonical key other than the two file keys is not named like one. */
  lemma NotFileName(k: Key)
    requires Canonical(k) && !IsFileKey(k)
    ensures KeyName(k) != "coverFile" && KeyName(k) != "bookFile"
  {
  }

  /** The body carries every form key except the two file keys, with its
      value, and then the chosen files under "cover" and "book". */
  lemma PayloadContents(f: Form)
    requires f.Valid() && CanonicalKeys(f.values)
    ensures forall k :: k in f.values && !IsFileKey(k) ==> Part(KeyName(k), f.values[k]) in Payload(f)
    ensures forall p :: p in Payload(f) ==> p.name != "coverFile" && p.name != "bookFile"
    ensures CoverFile in f.values && FieldTruthy(f.values[CoverFile]) ==>
              Part("cover", f.values[CoverFile]) in Payload(f)
    ensures BookFile in f.values && FieldTruthy(f.values[BookFile]) ==>
              Part("book", f.values[BookFile]) in Payload(f)
  {
    assert forall i :: 0 <= i < |f.keys| ==> f.keys[i] in f.values;
    EntriesExact(f.keys, f.values);
    forall k | k in f.values && !IsFileKey(k)
      ensures Part(KeyName(k), f.values[k]) in Payload(f)
    {
      assert k in f.keys;
      var i :| 0 <= i < |f.keys| && f.keys[i] == k;
    }
    forall p | p in Payload(f)
      ensures p.name != "coverFile" && p.name != "bookFile"
    {
      if p in Entries(f.keys, f.values) {
        var i :| 0 <= i < |f.keys| && !IsFileKey(f.keys[i]) && p == Part(KeyName(f.keys[i]), f.values[f.keys[i]]);
        NotFileName(f.keys[i]);
      }
    }
  }

  class AddBookPage {
    var form: Form
    /** `None` marks a message cleared back to `undefined`. */
    var errors: map<Key, Option<FieldError>>

    ghost predicate Valid()
      reads this
    {
      WellTyped(form)
    }

    constructor (currentYear: int)
      ensures Valid() && form == InitialForm(currentYear) && errors == map[]
    {
      form := InitialForm(currentYear);
      errors := map[];
    }

    /** `validateForm`: the errors are replaced by this run's messages. */
    method ValidateForm() returns (ok: bool)
      requires Valid()
      modifies this
      ensures Valid() && form == old(form)
      ensures errors == Shown(ValidationErrors(form))
      ensures ok <==> ValidationErrors(form) == map[]
    {
      var found: map<Key, FieldError> := map[];
      if BlankField(form, Title) {
        found := found[Title := TitleRequired];
      }
      if BlankField(form, Author) {
        found := found[Author := AuthorRequired];
      }
      if BlankField(form, Isbn) {
        found := found[Isbn := IsbnRequired];
      }
      if NegativeField(form, BookPrice) {
        found := found[BookPrice := PriceNegative];
      }
      errors := Shown(found);
      ok := |found| == 0;
    }

    /** `handleChange`: the named field gets the typed text, converted by
        `Number()` for the numeric inputs; a shown error on that field is cleared. */
    method HandleChange(name: string, value: string)
      requires Valid()
      modifies this
      ensures Valid()
      ensures form == Assign(old(form), KeyOf(name), Typed(KeyOf(name), value))
      ensures KeyOf(name) in old(errors) && old(errors)[KeyOf(name)].Some? ==> errors == old(errors)[KeyOf(name) := None]
      ensures !(KeyOf(name) in old(errors) && old(errors)[KeyOf(name)].Some?) ==> errors == old(errors)
    {
      var key := KeyOf(name);
      var typed := Assign(form, key, Typed(key, value));
      TypingKeepsWellTyped(form, key, value);
      form := typed;
      if key in errors && errors[key].Some? {
        errors := errors[key := None];
      }
    }

    /** `handleFileChange`: a cover must be JPEG, PNG or WebP and a book file a
        PDF; anything else leaves the form as it was. */
    method HandleFileChange(field: string, file: Option<File>, previewUrl: string)
      requires Valid()
      modifies this
      ensures Valid() && errors == old(errors)
      ensures form == WithFile(old(form), field, file, previewUrl)
    {
      if file.None? {
        return;
      }
      if field == "coverUrl" {
        if !IsImage(file.value.mime) {
          return;
        }
      } else if field == "bookUrl" {
        if !IsPdf(file.value.mime) {
          return;
        }
      }
      form := WithFile(form, field, file, previewUrl);
    }

    /** `handleSubmit`: an invalid form sends nothing; a valid one sends the
        fields in key order followed by the chosen files. */
    method HandleSubmit() returns (request: Option<seq<Part>>)
      requires Valid()
      modifies this
      ensures Valid() && form == old(form)
      ensures request.None? <==> ValidationErrors(form) != map[]
      ensures request.Some? ==> request.value == Payload(form)
    {
      var ok := ValidateForm();
      if !ok {
        return None;
      }
      assert forall i :: 0 <= i < |form.keys| ==> form.keys[i] in form.values;
      var parts := CollectEntries(form.keys, form.values);
      var files: seq<Part> := [];
      if CoverFile in form.values && FieldTruthy(form.values[CoverFile]) {
        files := files + [Part("cover", form.values[CoverFile])];
      }
      if BookFile in form.values && FieldTruthy(form.values[BookFile]) {
        files := files + [Part("book", form.values[BookFile])];
      }
      assert files == FileParts(form);
      request := Some(parts + files);
    }
  }
}
