/**
 * The Book schema: field rules (required, trimmed, ISBN pattern, non-negative copy counts),
 * defaults, and the pre-save hook that clamps the available copies to the total.
 */
module BookModel {
  import opened Wrappers
  import opened Query

  type BookId = nat

  /** A stored book document. Dates are integer milliseconds. */
  datatype Book = Book(
    id: BookId,
    title: string,
    author: string,
    isbn: string,
    publicationDate: int,
    genre: string,
    totalCopies: int,
    availableCopies: int,
    description: Option<string>,
    isActive: bool,
    createdAt: int)

  /** The fields a create request supplies; `None` is an absent (undefined) field. */
  datatype BookFields = BookFields(
    title: Option<string>,
    author: Option<string>,
    isbn: Option<string>,
    publicationDate: Option<int>,
    genre: Option<string>,
    totalCopies: Option<int>,
    availableCopies: Option<int>,
    description: Option<string>)

  /** The schema's paths that carry a validator. */
  datatype Field = Title | Author | Isbn | PublicationDate | Genre | TotalCopies | AvailableCopies

  /**
   * The characters `String.prototype.trim` removes: ECMAScript white space (tab, vertical tab,
   * form feed, space, no-break space, the Unicode space separators, the byte order mark) and the
   * line terminators (line feed, carriage return, line and paragraph separators).
   */
  predicate IsWhitespace(c: char)
  {
    || '\t' <= c <= '\r'
    || c == ' ' || c == '\U{00A0}' || c == '\U{1680}'
    || '\U{2000}' <= c <= '\U{200A}'
    || c == '\U{2028}' || c == '\U{2029}' || c == '\U{202F}' || c == '\U{205F}'
    || c == '\U{3000}' || c == '\U{FEFF}'
  }

  /** The ASCII digits matched by `\d`. */
  predicate IsDigit(c: char)
  {
    '0' <= c <= '9'
  }

  /** The string without its leading white space. */
  function TrimStart(s: string): (r: string)
    ensures |r| <= |s| && r == s[|s| - |r|..]
    ensures r == [] || !IsWhitespace(r[0])
  {
    if s != [] && IsWhitespace(s[0]) then TrimStart(s[1..]) else s
  }

  /** TrimStart cuts off nothing but white space. */
  lemma {:induction false} TrimStartCutsWhitespace(s: string, i: nat)
    requires i < |s| - |TrimStart(s)|
    ensures IsWhitespace(s[i])
  {
    if i > 0 {
      TrimStartCutsWhitespace(s[1..], i - 1);
    }
  }

  /** The string without its trailing white space. */
  function TrimEnd(s: string): (r: string)
    ensures |r| <= |s| && r == s[..|r|]
    ensures r == [] || !IsWhitespace(r[|r| - 1])
  {
    if s != [] && IsWhitespace(s[|s| - 1]) then TrimEnd(s[..|s| - 1]) else s
  }

  /** TrimEnd cuts off nothing but white space. */
  lemma {:induction false} TrimEndCutsWhitespace(s: string, i: nat)
    requires |TrimEnd(s)| <= i < |s|
    ensures IsWhitespace(s[i])
  {
    if i < |s| - 1 {
      TrimEndCutsWhitespace(s[..|s| - 1], i);
    }
  }

  /** `String.prototype.trim`: the schema's `trim: true` setter applies it before validation. */
  function Trim(s: string): (r: string)
  {
    TrimEnd(TrimStart(s))
  }

  /** A string with no white space at either end is its own trim. */
  lemma TrimUnpadded(s: string)
    requires s == [] || (!IsWhitespace(s[0]) && !IsWhitespace(s[|s| - 1]))
    ensures Trim(s) == s
  {
  }

  /** Trimming leaves no white space at either end, so trimming twice is trimming once. */
  lemma TrimIdempotent(s: string)
    ensures var r := Trim(s); r == [] || (!IsWhitespace(r[0]) && !IsWhitespace(r[|r| - 1]))
    ensures Trim(Trim(s)) == Trim(s)
  {
    var t := TrimStart(s);
    var r := TrimEnd(t);
    if r != [] {
      assert r[0] == t[0];
      TrimUnpadded(r);
    }
  }

  /** The ISBN pattern `/^(?:\d{10}|\d{13})$/`: exactly 10 or exactly 13 ASCII digits. */
  predicate IsbnPattern(t: string)
  {
    (|t| == 10 || |t| == 13) && forall i :: 0 <= i < |t| ==> IsDigit(t[i])
  }

  /** The ISBN validator on an assigned value: the trim setter runs first, then the pattern. */
  predicate ValidIsbn(raw: string)
  {
    IsbnPattern(Trim(raw))
  }

  /** Surrounding white space never decides whether an ISBN is accepted. */
  lemma IsbnIgnoresPadding(raw: string)
    ensures ValidIsbn(raw) <==> ValidIsbn(Trim(raw))
  {
    TrimIdempotent(raw);
  }

  /** Ten or thirteen digits are accepted, bare or with one space on each side. */
  lemma IsbnDigitsAccepted(s: string)
    requires |s| == 10 || |s| == 13
    requires forall i :: 0 <= i < |s| ==> IsDigit(s[i])
    ensures ValidIsbn(s) && ValidIsbn(" " + s + " ")
  {
    assert !IsWhitespace(s[0]) && !IsWhitespace(s[|s| - 1]);
    TrimUnpadded(s);
    TrimOneSpaceEachSide(s);
  }

  /** One space on each side of an unpadded string is exactly what trimming removes. */
  lemma TrimOneSpaceEachSide(s: string)
    requires s != [] && !IsWhitespace(s[0]) && !IsWhitespace(s[|s| - 1])
    ensures Trim(" " + s + " ") == s
  {
    var x := s + " ";
    assert (" " + s + " ")[1..] == x;
    assert TrimStart(" " + s + " ") == x by {
      assert TrimStart(x) == x;
    }
    assert x[..|x| - 1] == s;
    assert TrimEnd(x) == TrimEnd(s);
  }

  /** An ISBN-10 whose check digit is `X` (a valid ISBN in the standard) is refused: the pattern allows digits only. */
  lemma IsbnCheckDigitXRefused(s: string)
    requires s != [] && s[|s| - 1] == 'X'
    ensures !ValidIsbn(s)
  {
    var t := TrimStart(s);
    assert !IsWhitespace('X');
    if t == [] {
      TrimStartCutsWhitespace(s, |s| - 1);
    }
    assert t[|t| - 1] == 'X';
    assert TrimEnd(t) == t;
    assert !IsDigit(Trim(s)[|Trim(s)| - 1]);
  }

  /** A hyphen anywhere between the digits makes the ISBN invalid. */
  lemma IsbnHyphenRefused(a: string, b: string)
    requires forall i :: 0 <= i < |a| ==> IsDigit(a[i])
    requires forall i :: 0 <= i < |b| ==> IsDigit(b[i])
    ensures !ValidIsbn(a + "-" + b)
  {
    var s := a + "-" + b;
    assert s[|a|] == '-';
    forall i | 0 <= i < |s| ensures !IsWhitespace(s[i]) {
      if i < |a| { assert s[i] == a[i]; }
      else if i > |a| { assert s[i] == b[i - |a| - 1]; }
    }
    TrimUnpadded(s);
    assert !IsDigit(Trim(s)[|a|]);
  }

  /** Mongoose's `required` check for a string path: present and non-empty once trimmed. */
  predicate RequiredString(v: Option<string>)
  {
    v.Some? && Trim(v.value) != ""
  }

  /** A required, non-negative number (`required` plus `min: 0`). */
  predicate RequiredCount(v: Option<int>)
  {
    v.Some? && v.value >= 0
  }

  /** The paths whose validator fails for a create request. */
  function FieldErrors(f: BookFields): (errs: set<Field>)
    ensures errs == {} <==>
      RequiredString(f.title) && RequiredString(f.author) && RequiredString(f.genre)
      && f.isbn.Some? && ValidIsbn(f.isbn.value)
      && f.publicationDate.Some? && RequiredCount(f.totalCopies) && RequiredCount(f.availableCopies)
  {
    (if RequiredString(f.title) then {} else {Title})
    + (if RequiredString(f.author) then {} else {Author})
    + (if f.isbn.Some? && ValidIsbn(f.isbn.value) then {} else {Isbn})
    + (if f.publicationDate.Some? then {} else {PublicationDate})
    + (if RequiredString(f.genre) then {} else {Genre})
    + (if RequiredCount(f.totalCopies) then {} else {TotalCopies})
    + (if RequiredCount(f.availableCopies) then {} else {AvailableCopies})
  }

  /** The pre-save hook: lower `availableCopies` to `totalCopies` when it exceeds it. */
  function Clamp(b: Book): (r: Book)
    ensures r.availableCopies <= b.availableCopies
    ensures r.availableCopies <= r.totalCopies
    ensures r.availableCopies == b.availableCopies || r.availableCopies == b.totalCopies
    ensures r.availableCopies == Min(b.availableCopies, b.totalCopies)
    ensures r == b.(availableCopies := r.availableCopies)
  {
    if b.availableCopies > b.totalCopies then b.(availableCopies := b.totalCopies) else b
  }

  /** The clamp changes nothing on a book that already satisfies it, so applying it twice is applying it once. */
  lemma ClampIdempotent(b: Book)
    ensures b.availableCopies <= b.totalCopies ==> Clamp(b) == b
    ensures Clamp(Clamp(b)) == Clamp(b)
  {
  }

  /**
   * The paths whose validator fails for a stored document (what `save()` checks). The setters ran
   * when the values were assigned, so the validators see the stored strings as they are.
   */
  function StoredErrors(b: Book): (errs: set<Field>)
    ensures errs == {} <==> SchemaValid(b)
  {
    (if b.title != "" then {} else {Title})
    + (if b.author != "" then {} else {Author})
    + (if IsbnPattern(b.isbn) then {} else {Isbn})
    + (if b.genre != "" then {} else {Genre})
    + (if b.totalCopies >= 0 then {} else {TotalCopies})
    + (if b.availableCopies >= 0 then {} else {AvailableCopies})
  }

  /** A stored book that passes every validator of the schema. */
  predicate SchemaValid(b: Book)
  {
    && b.title != "" && b.author != "" && b.genre != ""
    && IsbnPattern(b.isbn)
    && b.totalCopies >= 0 && b.availableCopies >= 0
  }

  /** A schema-valid book whose available copies also lie within its total. */
  predicate WellFormed(b: Book)
  {
    SchemaValid(b) && b.availableCopies <= b.totalCopies
  }

  /** `book.save()`: validate the document, then run the pre-save clamp. */
  function Save(b: Book): (r: Result<Book, set<Field>>)
    ensures r.Err? <==> !SchemaValid(b)
    ensures r.Ok? ==> r.value == Clamp(b) && WellFormed(r.value)
  {
    var errs := StoredErrors(b);
    if errs != {} then Err(errs) else Ok(Clamp(b))
  }

  /** `Book.create`: apply the trim setters, validate, default `isActive` to true, then run the pre-save hook. */
  function Create(f: BookFields, id: BookId, now: int): (r: Result<Book, set<Field>>)
    ensures r.Err? <==> FieldErrors(f) != {}
    ensures r.Err? ==> r.error == FieldErrors(f)
    ensures r.Ok? ==> r.value.id == id && r.value.isActive && r.value.createdAt == now
    ensures r.Ok? ==> r.value.title == Trim(f.title.value) && r.value.author == Trim(f.author.value)
    ensures r.Ok? ==> r.value.genre == Trim(f.genre.value) && r.value.isbn == Trim(f.isbn.value)
    ensures r.Ok? ==> r.value.totalCopies == f.totalCopies.value && r.value.publicationDate == f.publicationDate.value
    ensures r.Ok? ==> r.value.description == (if f.description.Some? then Some(Trim(f.description.value)) else None)
    ensures r.Ok? ==> r.value.availableCopies == Min(f.availableCopies.value, f.totalCopies.value)
  {
    var errs := FieldErrors(f);
    if errs != {} then Err(errs)
    else
      Ok(Clamp(Book(id, Trim(f.title.value), Trim(f.author.value), Trim(f.isbn.value),
        f.publicationDate.value, Trim(f.genre.value), f.totalCopies.value,
        f.availableCopies.value, if f.description.Some? then Some(Trim(f.description.value)) else None,
        true, now)))
  }

  /** The text fields of a created book are already trimmed and still pass their validators. */
  lemma CreatedStringsValid(f: BookFields, id: BookId, now: int)
    requires Create(f, id, now).Ok?
    ensures var b := Create(f, id, now).value;
      && Trim(b.title) == b.title && Trim(b.author) == b.author
      && Trim(b.genre) == b.genre && Trim(b.isbn) == b.isbn
      && b.title != "" && b.author != "" && b.genre != "" && ValidIsbn(b.isbn) && IsbnPattern(b.isbn)
  {
    TrimIdempotent(f.title.value);
    TrimIdempotent(f.author.value);
    TrimIdempotent(f.genre.value);
    TrimIdempotent(f.isbn.value);
    IsbnIgnoresPadding(f.isbn.value);
  }

  /** Creation keeps the available copies between zero and the total, and leaves them alone when they already fit. */
  lemma CreatedCountsValid(f: BookFields, id: BookId, now: int)
    requires Create(f, id, now).Ok?
    ensures 0 <= Create(f, id, now).value.availableCopies <= Create(f, id, now).value.totalCopies
    ensures f.availableCopies.value <= f.totalCopies.value ==>
      Create(f, id, now).value.availableCopies == f.availableCopies.value
  {
  }

  /** A book that passes creation is well formed. */
  lemma CreatedIsWellFormed(f: BookFields, id: BookId, now: int)
    requires Create(f, id, now).Ok?
    ensures WellFormed(Create(f, id, now).value)
  {
    CreatedStringsValid(f, id, now);
    CreatedCountsValid(f, id, now);
  }
}
