/**
 * Catalog operations of the book controller: add, update, soft delete, list and get.
 * The book collection is a `BookStore` whose methods update it in place.
 */
module Catalog {
  import opened Wrappers
  import opened Query
  import opened BookModel

  /** Why a catalog operation rejects. */
  datatype CatalogError =
    | NotFound
    | Invalid(fields: set<Field>)
    | DuplicateIsbn

  /** A partial update: `None` is a key the request body does not hold. */
  datatype BookUpdate = BookUpdate(
    title: Option<string>,
    author: Option<string>,
    isbn: Option<string>,
    publicationDate: Option<int>,
    genre: Option<string>,
    totalCopies: Option<int>,
    availableCopies: Option<int>,
    description: Option<string>,
    isActive: Option<bool>)

  /** The create request with `availableCopies` taken from `totalCopies`, whatever the caller sent. */
  function AddBookFields(f: BookFields): (g: BookFields)
    ensures g.availableCopies == f.totalCopies
    ensures g == f.(availableCopies := f.totalCopies)
  {
    f.(availableCopies := f.totalCopies)
  }

  /** A book added through the catalog starts with every copy available. */
  lemma AddedBookFullyAvailable(f: BookFields, id: BookId, now: int)
    requires Create(AddBookFields(f), id, now).Ok?
    ensures var b := Create(AddBookFields(f), id, now).value;
      b.availableCopies == b.totalCopies == f.totalCopies.value && b.isActive
  {
  }

  /** The update with any `availableCopies` key deleted. */
  function StripAvailable(u: BookUpdate): (v: BookUpdate)
    ensures v.availableCopies.None?
    ensures v == u.(availableCopies := None)
  {
    u.(availableCopies := None)
  }

  /** The paths of an update whose validator fails (validators run only on the paths the update sets). */
  function UpdateErrors(u: BookUpdate): (errs: set<Field>)
    ensures errs == {} <==>
      (u.title.Some? ==> Trim(u.title.value) != "") && (u.author.Some? ==> Trim(u.author.value) != "")
      && (u.genre.Some? ==> Trim(u.genre.value) != "") && (u.isbn.Some? ==> ValidIsbn(u.isbn.value))
      && (u.totalCopies.Some? ==> u.totalCopies.value >= 0)
      && (u.availableCopies.Some? ==> u.availableCopies.value >= 0)
  {
    (if u.title.Some? && Trim(u.title.value) == "" then {Title} else {})
    + (if u.author.Some? && Trim(u.author.value) == "" then {Author} else {})
    + (if u.isbn.Some? && !ValidIsbn(u.isbn.value) then {Isbn} else {})
    + (if u.genre.Some? && Trim(u.genre.value) == "" then {Genre} else {})
    + (if u.totalCopies.Some? && u.totalCopies.value < 0 then {TotalCopies} else {})
    + (if u.availableCopies.Some? && u.availableCopies.value < 0 then {AvailableCopies} else {})
  }

  function TrimOpt(v: Option<string>): Option<string>
  {
    if v.Some? then Some(Trim(v.value)) else None
  }

  /** The value a path holds after an update: the update's value if it sets the path, the old one otherwise. */
  function Overwrite<T>(v: Option<T>, keep: T): T
  {
    if v.Some? then v.value else keep
  }

  /** `findByIdAndUpdate`: overwrite the paths the update sets (through the trim setters), with no pre-save clamp. */
  function ApplyUpdate(b: Book, u: BookUpdate): (r: Book)
    ensures r.id == b.id && r.createdAt == b.createdAt
    ensures r.title == (if u.title.Some? then Trim(u.title.value) else b.title)
    ensures r.author == (if u.author.Some? then Trim(u.author.value) else b.author)
    ensures r.isbn == (if u.isbn.Some? then Trim(u.isbn.value) else b.isbn)
    ensures r.genre == (if u.genre.Some? then Trim(u.genre.value) else b.genre)
    ensures r.publicationDate == (if u.publicationDate.Some? then u.publicationDate.value else b.publicationDate)
    ensures r.description == (if u.description.Some? then TrimOpt(u.description) else b.description)
    ensures r.totalCopies == (if u.totalCopies.Some? then u.totalCopies.value else b.totalCopies)
    ensures r.availableCopies == (if u.availableCopies.Some? then u.availableCopies.value else b.availableCopies)
    ensures r.isActive == (if u.isActive.Some? then u.isActive.value else b.isActive)
    ensures u == BookUpdate(None, None, None, None, None, None, None, None, None) ==> r == b
  {
    Book(b.id,
      Overwrite(TrimOpt(u.title), b.title),
      Overwrite(TrimOpt(u.author), b.author),
      Overwrite(TrimOpt(u.isbn), b.isbn),
      Overwrite(u.publicationDate, b.publicationDate),
      Overwrite(TrimOpt(u.genre), b.genre),
      Overwrite(u.totalCopies, b.totalCopies),
      Overwrite(u.availableCopies, b.availableCopies),
      if u.description.Some? then TrimOpt(u.description) else b.description,
      Overwrite(u.isActive, b.isActive),
      b.createdAt)
  }

  /** An update that passed validation keeps a schema-valid book schema-valid. */
  lemma ApplyUpdateValid(b: Book, u: BookUpdate)
    requires SchemaValid(b) && UpdateErrors(u) == {}
    ensures SchemaValid(ApplyUpdate(b, u))
  {
    if u.isbn.Some? { IsbnIgnoresPadding(u.isbn.value); }
    if u.title.Some? { TrimIdempotent(u.title.value); }
    if u.author.Some? { TrimIdempotent(u.author.value); }
    if u.genre.Some? { TrimIdempotent(u.genre.value); }
  }

  /** A catalog update never changes the available copies, whatever the request held. */
  lemma UpdateKeepsAvailable(b: Book, u: BookUpdate)
    ensures ApplyUpdate(b, StripAvailable(u)).availableCopies == b.availableCopies
  {
  }

  /** Lowering the total copies by an update is not clamped: the available copies can end up above the total. */
  lemma UpdateCanExceedTotal(b: Book)
    requires b.availableCopies == b.totalCopies == 3
    ensures var u := BookUpdate(None, None, None, None, None, Some(1), None, None, None);
      UpdateErrors(StripAvailable(u)) == {} && ApplyUpdate(b, StripAvailable(u)).availableCopies > ApplyUpdate(b, StripAvailable(u)).totalCopies
  {
  }

  /** Some stored book other than `except` already holds this ISBN (the unique index). */
  predicate IsbnTaken(books: seq<Book>, isbn: string, except: int)
  {
    exists i :: 0 <= i < |books| && i != except && books[i].isbn == isbn
  }

  /** The ISBNs of distinct books differ. */
  ghost predicate UniqueIsbns(books: seq<Book>)
  {
    forall i, j :: 0 <= i < j < |books| ==> books[i].isbn != books[j].isbn
  }

  /** Every book is identified by its position, so ids are unique and new ids are fresh. */
  ghost predicate Indexed(books: seq<Book>)
  {
    forall i :: 0 <= i < |books| ==> books[i].id == i
  }

  /** `findOne({ _id: id, isActive: true })`. */
  function FindActive(books: seq<Book>, id: int): (r: Option<Book>)
    ensures r.Some? ==> r.value in books && r.value.id == id && r.value.isActive
    ensures r.None? ==> forall i :: 0 <= i < |books| ==> !(books[i].id == id && books[i].isActive)
  {
    if books == [] then None
    else if books[0].id == id && books[0].isActive then Some(books[0])
    else FindActive(books[1..], id)
  }

  /** In an indexed collection the lookup is the book at that position, when it is active. */
  lemma FindActiveIndexed(books: seq<Book>, id: int)
    requires Indexed(books)
    ensures FindActive(books, id) == if 0 <= id < |books| && books[id].isActive then Some(books[id]) else None
  {
    if 0 <= id < |books| && books[id].isActive {
      var r := FindActive(books, id);
      if r.Some? {
        var k :| 0 <= k < |books| && books[k] == r.value;
      }
    }
  }

  /** `getBook`: only an active book is found. */
  function GetBook(books: seq<Book>, id: int): (r: Result<Book, CatalogError>)
    ensures r.Ok? <==> exists i :: 0 <= i < |books| && books[i].id == id && books[i].isActive
    ensures r.Ok? ==> r.value in books && r.value.id == id && r.value.isActive
    ensures r.Err? ==> r.error == NotFound
  {
    var b := FindActive(books, id);
    if b.Some? then Ok(b.value) else Err(NotFound)
  }

  /** The filters of `listBooks`; a filter given as the empty string is no filter. */
  datatype BookFilter = BookFilter(genre: Option<string>, author: Option<string>, search: Option<string>)

  /** The query string of `listBooks`. */
  datatype BookQuery = BookQuery(page: int, limit: int, filter: BookFilter)

  /** JavaScript truthiness of an optional string parameter. */
  predicate Given(v: Option<string>)
  {
    v.Some? && v.value != ""
  }

  /**
   * The listing filter: active books, the exact genre when given, and the case-insensitive
   * author and search patterns when given (`matches(pattern, text)` is the regular-expression test).
   */
  predicate Listed(b: Book, q: BookFilter, matches: (string, string) -> bool)
  {
    && b.isActive
    && (Given(q.genre) ==> b.genre == q.genre.value)
    && (Given(q.author) ==> matches(q.author.value, b.author))
    && (Given(q.search) ==> matches(q.search.value, b.title) || matches(q.search.value, b.author))
  }

  function CreatedAt(b: Book): int
  {
    b.createdAt
  }

  /** Every book the listing matches, newest first. */
  function ListOrder(books: seq<Book>, q: BookFilter, matches: (string, string) -> bool): (r: seq<Book>)
    ensures SortedDesc(r, CreatedAt)
    ensures forall i :: 0 <= i < |r| ==> r[i] in books && Listed(r[i], q, matches)
    ensures forall i :: 0 <= i < |books| && Listed(books[i], q, matches) ==> books[i] in r
    ensures forall x :: multiset(r)[x] == if Listed(x, q, matches) then multiset(books)[x] else 0
  {
    var m := Filter(books, b => Listed(b, q, matches));
    var r := SortDesc(m, CreatedAt);
    forall x ensures multiset(r)[x] == if Listed(x, q, matches) then multiset(books)[x] else 0 {
      FilterMultiset(books, b => Listed(b, q, matches), x);
    }
    forall i | 0 <= i < |r| ensures r[i] in books && Listed(r[i], q, matches) {
      assert r[i] in multiset(r);
    }
    forall i | 0 <= i < |books| && Listed(books[i], q, matches) ensures books[i] in r {
      assert books[i] in multiset(books);
    }
    r
  }

  /** One page of the listing with its pagination block. */
  datatype BookPage = BookPage(books: seq<Book>, pagination: Pagination)

  /** `listBooks`: filter, order by newest first, skip `(page - 1) * limit`, keep at most `limit`. */
  function ListBooks(books: seq<Book>, q: BookQuery, matches: (string, string) -> bool): (r: BookPage)
    requires q.page >= 1 && q.limit >= 1
    ensures |r.books| <= q.limit
    ensures forall i :: 0 <= i < |r.books| ==> r.books[i] in books && Listed(r.books[i], q.filter, matches)
    ensures SortedDesc(r.books, CreatedAt)
    ensures r.pagination == Paginate(|ListOrder(books, q.filter, matches)|, q.page, q.limit)
    ensures r.books == PageOf(ListOrder(books, q.filter, matches), q.page, q.limit)
  {
    var all := ListOrder(books, q.filter, matches);
    var page := PageOf(all, q.page, q.limit);
    PageSorted(all, q.page, q.limit, CreatedAt);
    BookPage(page, Paginate(|all|, q.page, q.limit))
  }

  /** Every listed book appears on some page within the reported page count. */
  lemma EveryMatchOnSomePage(books: seq<Book>, q: BookQuery, matches: (string, string) -> bool, i: nat)
    requires q.limit >= 1 && i < |books| && Listed(books[i], q.filter, matches)
    ensures exists p :: (1 <= p <= Paginate(|ListOrder(books, q.filter, matches)|, 1, q.limit).totalPages
      && books[i] in ListBooks(books, q.(page := p), matches).books)
  {
    var all := ListOrder(books, q.filter, matches);
    var k :| 0 <= k < |all| && all[k] == books[i];
    var p := k / q.limit + 1;
    var q' := q.(page := p);
    RowOnPage(all, k, q.limit);
    PageNonEmptyIff(all, p, q.limit);
    var page := PageOf(all, p, q.limit);
    assert page[k % q.limit] == books[i];
    assert books[i] in ListBooks(books, q', matches).books by {
      assert ListBooks(books, q', matches).books == page;
    }
    assert 1 <= p <= Paginate(|all|, 1, q.limit).totalPages by {
      assert Paginate(|all|, p, q.limit).totalPages == Paginate(|all|, 1, q.limit).totalPages;
    }
  }

  /** Every book passes the schema's validators. */
  ghost predicate AllSchemaValid(books: seq<Book>)
  {
    forall i {:trigger SchemaValid(books[i])} :: 0 <= i < |books| ==> SchemaValid(books[i])
  }

  /** What the collection keeps: books indexed by id, all schema-valid, with unique ISBNs. */
  ghost predicate Stored(books: seq<Book>)
  {
    Indexed(books) && UniqueIsbns(books) && AllSchemaValid(books)
  }

  /** Inserting a schema-valid book with the next id and an ISBN no stored book holds keeps the collection stored. */
  lemma AppendKeepsStored(books: seq<Book>, b: Book)
    requires Stored(books) && b.id == |books| && SchemaValid(b) && !IsbnTaken(books, b.isbn, -1)
    ensures Stored(books + [b])
  {
    var s := books + [b];
    forall i | 0 <= i < |s| ensures s[i].id == i && SchemaValid(s[i]) {
      if i < |books| { assert s[i] == books[i]; }
    }
    forall i, j | 0 <= i < j < |s| ensures s[i].isbn != s[j].isbn {
      assert s[i] == books[i];
      if j == |books| {
        assert books[i].isbn != b.isbn;
      } else {
        assert s[j] == books[j];
      }
    }
  }

  /** Overwriting a book by a schema-valid one with the same id and an ISBN no other book holds keeps the collection stored. */
  lemma ReplaceKeepsStored(books: seq<Book>, id: nat, b: Book)
    requires Stored(books) && id < |books| && b.id == id && SchemaValid(b) && !IsbnTaken(books, b.isbn, id)
    ensures Stored(books[id := b])
  {
    var s := books[id := b];
    forall i, j | 0 <= i < j < |s| ensures s[i].isbn != s[j].isbn {
      if i == id {
        assert !(j != id && books[j].isbn == b.isbn);
      } else if j == id {
        assert !(i != id && books[i].isbn == b.isbn);
      }
    }
  }

  /** A book of a collection with unique ISBNs holds an ISBN no other book holds. */
  lemma OwnIsbnNotTaken(books: seq<Book>, id: nat)
    requires UniqueIsbns(books) && id < |books|
    ensures !IsbnTaken(books, books[id].isbn, id)
  {
    forall i | 0 <= i < |books| && i != id ensures books[i].isbn != books[id].isbn {
      if i < id { assert books[i].isbn != books[id].isbn; } else { assert books[id].isbn != books[i].isbn; }
    }
  }

  /** The book collection, updated in place by the catalog and by the borrowing engine. */
  class BookStore {
    var books: seq<Book>

    /** Books are indexed by id, every stored book passes the schema's validators, and ISBNs are unique. */
    ghost predicate Valid()
      reads this
    {
      Stored(books)
    }

    constructor ()
      ensures Valid() && books == []
    {
      books := [];
    }

    /** `addBook`: create the book with every copy available; invalid fields or a taken ISBN leave the store unchanged. */
    method AddBook(f: BookFields, now: int) returns (r: Result<Book, CatalogError>)
      requires Valid()
      modifies this
      ensures Valid()
      ensures var created := Create(AddBookFields(f), |old(books)|, now);
        if created.Err? then r == Err(Invalid(created.error)) && books == old(books)
        else if IsbnTaken(old(books), created.value.isbn, -1) then r == Err(DuplicateIsbn) && books == old(books)
        else r == Ok(created.value) && books == old(books) + [created.value]
      ensures r.Ok? ==> r.value.availableCopies == r.value.totalCopies && r.value.isActive
    {
      var created := Create(AddBookFields(f), |books|, now);
      if created.Err? {
        return Err(Invalid(created.error));
      }
      var b := created.value;
      if IsbnTaken(books, b.isbn, -1) {
        return Err(DuplicateIsbn);
      }
      CreatedIsWellFormed(AddBookFields(f), |books|, now);
      AppendKeepsStored(books, b);
      books := books + [b];
      r := Ok(b);
    }

    /**
     * `updateBook`: strip `availableCopies`, validate the paths the update sets, then overwrite them
     * on the book with that id, active or not. No pre-save hook runs.
     */
    method UpdateBook(id: nat, updates: BookUpdate) returns (r: Result<Book, CatalogError>)
      requires Valid()
      modifies this
      ensures Valid()
      ensures var u := StripAvailable(updates);
        if UpdateErrors(u) != {} then r == Err(Invalid(UpdateErrors(u))) && books == old(books)
        else if id >= |old(books)| then r == Err(NotFound) && books == old(books)
        else if u.isbn.Some? && IsbnTaken(old(books), Trim(u.isbn.value), id) then r == Err(DuplicateIsbn) && books == old(books)
        else r == Ok(ApplyUpdate(old(books)[id], u)) && books == old(books)[id := r.value]
      ensures r.Ok? ==> r.value.availableCopies == old(books)[id].availableCopies
    {
      var u := StripAvailable(updates);
      var errs := UpdateErrors(u);
      if errs != {} {
        return Err(Invalid(errs));
      }
      if id >= |books| {
        return Err(NotFound);
      }
      if u.isbn.Some? && IsbnTaken(books, Trim(u.isbn.value), id) {
        return Err(DuplicateIsbn);
      }
      var b := ApplyUpdate(books[id], u);
      ApplyUpdateValid(books[id], u);
      if u.isbn.None? { OwnIsbnNotTaken(books, id); }
      ReplaceKeepsStored(books, id, b);
      books := books[id := b];
      r := Ok(b);
    }

    /**
     * `book.save()` on a stored book whose fields have been changed in memory: validate, clamp the
     * available copies, and write the result back; a failed validation writes nothing.
     */
    method SaveBook(id: nat, b: Book) returns (r: Result<Book, set<Field>>)
      requires Valid() && id < |books| && b.id == id && b.isbn == books[id].isbn
      modifies this
      ensures Valid()
      ensures r == Save(b)
      ensures r.Err? ==> books == old(books)
      ensures r.Ok? ==> books == old(books)[id := r.value]
    {
      r := Save(b);
      if r.Ok? {
        OwnIsbnNotTaken(books, id);
        ReplaceKeepsStored(books, id, r.value);
        books := books[id := r.value];
      }
    }

    /** `deleteBook`: a soft delete that only clears `isActive`; it succeeds again on a deleted book. */
    method DeleteBook(id: nat) returns (r: Result<Book, CatalogError>)
      requires Valid()
      modifies this
      ensures Valid()
      ensures id >= |old(books)| ==> r == Err(NotFound) && books == old(books)
      ensures id < |old(books)| ==> r == Ok(old(books)[id].(isActive := false))
      ensures id < |old(books)| ==> books == old(books)[id := old(books)[id].(isActive := false)]
    {
      if id >= |books| {
        return Err(NotFound);
      }
      var b := books[id].(isActive := false);
      assert SchemaValid(books[id]);
      OwnIsbnNotTaken(books, id);
      ReplaceKeepsStored(books, id, b);
      books := books[id := b];
      r := Ok(b);
    }
  }
}
