/**
 * The GraphQL resolvers. Each one applies its gate to the request context (no gate for the
 * public catalog reads, `RequireUser` or `RequireAdmin` otherwise) and then runs the same core
 * operation as the REST controller. Refusals happen before any read or write; the mutations say
 * so in their postconditions and `RefusalReadsNothing` says it of the queries.
 */
module GraphQL {
  import opened Wrappers
  import opened Constants
  import opened Query
  import BookModel
  import opened BorrowingModel
  import Catalog
  import Circulation
  import opened Accounts
  import opened Access
  import Reports

  type Book = BookModel.Book

  /** Why a resolver throws. */
  datatype GqlError =
    | Denied(access: AccessError)
    | CatalogFailed(catalog: Catalog.CatalogError)
    | LoanFailed(loan: Circulation.LoanError)

  /** A core loan result, its error wrapped as the resolver throws it. */
  function FromLoan(r: Result<Borrowing, Circulation.LoanError>): (g: Result<Borrowing, GqlError>)
    ensures g.Ok? <==> r.Ok?
    ensures g.Ok? ==> g.value == r.value
    ensures g.Err? ==> g.error == LoanFailed(r.error)
  {
    if r.Ok? then Ok(r.value) else Err(LoanFailed(r.error))
  }

  /** `addBook`, for an admin only; it then creates the book exactly as the REST controller does. */
  method AddBook(store: Catalog.BookStore, ctx: Option<User>, f: BookModel.BookFields, now: int)
    returns (r: Result<Book, GqlError>)
    requires store.Valid()
    modifies store
    ensures store.Valid()
    ensures RequireAdmin(ctx).Err? ==> r == Err(Denied(AdminAccessRequired)) && store.books == old(store.books)
    ensures RequireAdmin(ctx).Ok? ==>
      var created := BookModel.Create(Catalog.AddBookFields(f), |old(store.books)|, now);
      if created.Err? then r == Err(CatalogFailed(Catalog.Invalid(created.error))) && store.books == old(store.books)
      else if Catalog.IsbnTaken(old(store.books), created.value.isbn, -1) then
        r == Err(CatalogFailed(Catalog.DuplicateIsbn)) && store.books == old(store.books)
      else r == Ok(created.value) && store.books == old(store.books) + [created.value]
  {
    var gate := RequireAdmin(ctx);
    if gate.Err? {
      return Err(Denied(gate.error));
    }
    var added := store.AddBook(f, now);
    r := if added.Ok? then Ok(added.value) else Err(CatalogFailed(added.error));
  }

  /** `updateBook`, for an admin only; `availableCopies` is stripped and an unknown id is "Book not found". */
  method UpdateBook(store: Catalog.BookStore, ctx: Option<User>, id: nat, updates: Catalog.BookUpdate)
    returns (r: Result<Book, GqlError>)
    requires store.Valid()
    modifies store
    ensures store.Valid()
    ensures RequireAdmin(ctx).Err? ==> r == Err(Denied(AdminAccessRequired)) && store.books == old(store.books)
    ensures RequireAdmin(ctx).Ok? ==>
      var u := Catalog.StripAvailable(updates);
      if Catalog.UpdateErrors(u) != {} then
        r == Err(CatalogFailed(Catalog.Invalid(Catalog.UpdateErrors(u)))) && store.books == old(store.books)
      else if id >= |old(store.books)| then r == Err(CatalogFailed(Catalog.NotFound)) && store.books == old(store.books)
      else if u.isbn.Some? && Catalog.IsbnTaken(old(store.books), BookModel.Trim(u.isbn.value), id) then
        r == Err(CatalogFailed(Catalog.DuplicateIsbn)) && store.books == old(store.books)
      else r == Ok(Catalog.ApplyUpdate(old(store.books)[id], u)) && store.books == old(store.books)[id := r.value]
    ensures r.Ok? ==> r.value.availableCopies == old(store.books)[id].availableCopies
  {
    var gate := RequireAdmin(ctx);
    if gate.Err? {
      return Err(Denied(gate.error));
    }
    var updated := store.UpdateBook(id, updates);
    r := if updated.Ok? then Ok(updated.value) else Err(CatalogFailed(updated.error));
  }

  /** `deleteBook`, for an admin only: the soft delete, answering `true` instead of the book. */
  method DeleteBook(store: Catalog.BookStore, ctx: Option<User>, id: nat) returns (r: Result<bool, GqlError>)
    requires store.Valid()
    modifies store
    ensures store.Valid()
    ensures RequireAdmin(ctx).Err? ==> r == Err(Denied(AdminAccessRequired)) && store.books == old(store.books)
    ensures RequireAdmin(ctx).Ok? && id >= |old(store.books)| ==>
      r == Err(CatalogFailed(Catalog.NotFound)) && store.books == old(store.books)
    ensures RequireAdmin(ctx).Ok? && id < |old(store.books)| ==>
      r == Ok(true) && store.books == old(store.books)[id := old(store.books)[id].(isActive := false)]
  {
    var gate := RequireAdmin(ctx);
    if gate.Err? {
      return Err(Denied(gate.error));
    }
    var deleted := store.DeleteBook(id);
    r := if deleted.Ok? then Ok(true) else Err(CatalogFailed(deleted.error));
  }

  /** `borrowBook`, for an authenticated caller: the borrowing engine's borrow on the caller's id. */
  method BorrowBook(ledger: Circulation.BorrowingLedger, store: Catalog.BookStore, ctx: Option<User>, bookId: int, now: int)
    returns (r: Result<Borrowing, GqlError>)
    requires ledger.Valid(store)
    modifies ledger, store
    ensures ledger.Valid(store)
    ensures ctx.None? ==>
      r == Err(Denied(AuthenticationRequired)) && store.books == old(store.books) && ledger.records == old(ledger.records)
    ensures ctx.Some? ==>
      var o := Circulation.BorrowStep(Circulation.Library(old(store.books), old(ledger.records)), ctx.value.id, bookId, now);
      r == FromLoan(o.result) && Circulation.Library(store.books, ledger.records) == o.after
  {
    var gate := RequireUser(ctx);
    if gate.Err? {
      return Err(Denied(gate.error));
    }
    var borrowed := ledger.Borrow(store, gate.value.id, bookId, now);
    r := FromLoan(borrowed);
  }

  /** `returnBook`, for an authenticated caller: the borrowing engine's return on the caller's id. */
  method ReturnBook(ledger: Circulation.BorrowingLedger, store: Catalog.BookStore, ctx: Option<User>, borrowingId: int, now: int)
    returns (r: Result<Borrowing, GqlError>)
    requires ledger.Valid(store)
    modifies ledger, store
    ensures ledger.Valid(store)
    ensures ctx.None? ==>
      r == Err(Denied(AuthenticationRequired)) && store.books == old(store.books) && ledger.records == old(ledger.records)
    ensures ctx.Some? ==>
      var o := Circulation.ReturnStep(Circulation.Library(old(store.books), old(ledger.records)), ctx.value.id, borrowingId, now);
      r == FromLoan(o.result) && Circulation.Library(store.books, ledger.records) == o.after
  {
    var gate := RequireUser(ctx);
    if gate.Err? {
      return Err(Denied(gate.error));
    }
    var returned := ledger.Return(store, gate.value.id, borrowingId, now);
    r := FromLoan(returned);
  }

  /** A borrow through GraphQL rejects exactly where the REST borrow does, in the same order, once the caller is known. */
  lemma BorrowGuardsAsRest(l: Circulation.Library, u: User, bookId: int, now: int)
    requires Catalog.Stored(l.books)
    ensures var g := FromLoan(Circulation.BorrowStep(l, u.id, bookId, now).result);
      && (g == Err(LoanFailed(Circulation.BookNotFound)) <==> !(0 <= bookId < |l.books| && l.books[bookId].isActive))
      && (g == Err(LoanFailed(Circulation.NotAvailable)) <==>
           0 <= bookId < |l.books| && l.books[bookId].isActive && l.books[bookId].availableCopies <= 0)
      && (g == Err(LoanFailed(Circulation.AlreadyBorrowed)) <==>
           0 <= bookId < |l.books| && l.books[bookId].isActive && l.books[bookId].availableCopies > 0
           && Circulation.HasOpenLoan(l.records, u.id, bookId))
      && (g.Ok? ==> g.value.dueDate == now + BorrowDurationMs && g.value.status == Borrowed && g.value.fine == 0)
  {
  }

  /** `getBorrowingHistory`, for an authenticated caller: only that caller's records, one page of them. */
  function BorrowingHistory(ctx: Option<User>, records: seq<Borrowing>, status: Option<string>, page: int, limit: int)
    : (r: Result<Circulation.RecordPage, GqlError>)
    requires page >= 1 && limit >= 1
    ensures r.Err? <==> ctx.None?
    ensures r.Err? ==> r.error == Denied(AuthenticationRequired)
    ensures r.Ok? ==> forall i :: 0 <= i < |r.value.borrowings| ==>
      r.value.borrowings[i] in records && r.value.borrowings[i].user == ctx.value.id
    ensures r.Ok? ==> |r.value.borrowings| <= limit && SortedDesc(r.value.borrowings, Circulation.BorrowDate)
    ensures r.Ok? ==>
      r.value.pagination == Paginate(|Circulation.Matching(records, Circulation.RecordFilter(Some(ctx.value.id), status))|, page, limit)
    ensures r.Ok? ==>
      r.value.borrowings == PageOf(Circulation.Matching(records, Circulation.RecordFilter(Some(ctx.value.id), status)), page, limit)
  {
    var gate := RequireUser(ctx);
    if gate.Err? then Err(Denied(gate.error))
    else Ok(Circulation.History(records, gate.value.id, status, page, limit))
  }

  /** `getAllBorrowings`, for an admin only: every record matching the optional member and status. */
  function AllBorrowings(ctx: Option<User>, records: seq<Borrowing>, status: Option<string>, userId: Option<UserId>, page: int, limit: int)
    : (r: Result<Circulation.RecordPage, GqlError>)
    requires page >= 1 && limit >= 1
    ensures r.Err? <==> RequireAdmin(ctx).Err?
    ensures r.Err? ==> r.error == Denied(AdminAccessRequired)
    ensures r.Ok? ==> forall i :: 0 <= i < |r.value.borrowings| ==>
      r.value.borrowings[i] in records && Circulation.Matches(r.value.borrowings[i], Circulation.RecordFilter(userId, status))
    ensures r.Ok? && userId.None? && !Catalog.Given(status) ==> r.value.pagination.totalRecords == |records|
    ensures r.Ok? ==> r.value.borrowings == PageOf(Circulation.Matching(records, Circulation.RecordFilter(userId, status)), page, limit)
  {
    var gate := RequireAdmin(ctx);
    if gate.Err? then Err(Denied(gate.error))
    else Ok(Circulation.AllBorrowings(records, status, userId, page, limit))
  }

  /** A member never gets the all-records listing, whatever it asks for. */
  lemma MemberCannotListAll(u: User, records: seq<Borrowing>, status: Option<string>, userId: Option<UserId>, page: int, limit: int)
    requires page >= 1 && limit >= 1 && u.role == Member
    ensures AllBorrowings(Some(u), records, status, userId, page, limit) == Err(Denied(AdminAccessRequired))
  {
  }

  /** An admin asking for one member's records gets exactly that member's history. */
  lemma AdminListingIsMemberHistory(admin: User, member: User, records: seq<Borrowing>, status: Option<string>, page: int, limit: int)
    requires page >= 1 && limit >= 1 && admin.role == Admin
    ensures AllBorrowings(Some(admin), records, status, Some(member.id), page, limit) ==
      BorrowingHistory(Some(member), records, status, page, limit)
  {
    Circulation.HistoryIsFilteredListing(records, member.id, status, page, limit);
  }

  /** `getProfile`: the context user, unchanged; anonymous callers are refused. */
  function GetProfile(ctx: Option<User>): (r: Result<User, GqlError>)
    ensures r.Ok? <==> ctx.Some?
    ensures r.Ok? ==> r.value == ctx.value && r.value.isActive == ctx.value.isActive
    ensures r.Err? ==> r.error == Denied(AuthenticationRequired)
  {
    var gate := RequireUser(ctx);
    if gate.Err? then Err(Denied(gate.error)) else Ok(gate.value)
  }

  /** The profile of a request carrying a valid token is the stored, active user the token names. */
  lemma ProfileOfValidToken(header: string, verify: string -> Option<Claims>, users: seq<User>)
    requires Indexed(users) && StartsWith(header, "Bearer ")
    requires var t := BearerToken(header); t.Some? && verify(t.value).Some?
    ensures var id := verify(BearerToken(header).value).value.userId;
      GetProfile(CreateContext(Some(header), verify, users)) ==
        if 0 <= id < |users| && users[id].isActive then Ok(users[id]) else Err(Denied(AuthenticationRequired))
  {
    ContextOnIndexedUsers(header, verify, users);
  }

  /** `getMostBorrowedBooks`, for an authenticated caller, with `limit` as given. */
  function MostBorrowedBooks(ctx: Option<User>, records: seq<Borrowing>, books: seq<Book>, w: Reports.Window, limit: int)
    : (r: Result<seq<Reports.BookRow>, GqlError>)
    requires limit >= 1
    ensures r.Err? <==> ctx.None?
    ensures r.Err? ==> r.error == Denied(AuthenticationRequired)
    ensures r.Ok? ==> |r.value| <= limit && SortedDesc(r.value, Reports.BorrowCount)
    ensures r.Ok? ==> forall i :: 0 <= i < |r.value| ==> Reports.RankedRow(r.value[i], Reports.Windowed(records, w), books)
    ensures r.Ok? ==> forall i, j :: 0 <= i < j < |r.value| ==> r.value[i].bookId != r.value[j].bookId
  {
    var gate := RequireUser(ctx);
    if gate.Err? then Err(Denied(gate.error)) else Ok(Reports.MostBorrowed(records, books, w, limit))
  }

  /** `getActiveMembers`, for an admin only. */
  function ActiveMembers(ctx: Option<User>, records: seq<Borrowing>, users: seq<User>, w: Reports.Window, limit: int)
    : (r: Result<seq<Reports.MemberRow>, GqlError>)
    requires limit >= 1
    ensures r.Err? <==> RequireAdmin(ctx).Err?
    ensures r.Err? ==> r.error == Denied(AdminAccessRequired)
    ensures r.Ok? ==> |r.value| <= limit && SortedDesc(r.value, Reports.TotalBorrowings)
    ensures r.Ok? ==> forall i :: 0 <= i < |r.value| ==>
      r.value[i].booksReturned + r.value[i].booksBorrowed <= r.value[i].totalBorrowings
    ensures r.Ok? ==> forall i, j :: 0 <= i < j < |r.value| ==> r.value[i].userId != r.value[j].userId
  {
    var gate := RequireAdmin(ctx);
    if gate.Err? then Err(Denied(gate.error)) else Ok(Reports.ActiveMembers(records, users, w, limit))
  }

  /** The availability answer: the summary and the genre breakdown. */
  datatype AvailabilityReport = AvailabilityReport(summary: Reports.Summary, genreBreakdown: seq<Reports.GenreRow>)

  /** `getBookAvailability`, for an authenticated caller. */
  function BookAvailability(ctx: Option<User>, books: seq<Book>, records: seq<Borrowing>, now: int)
    : (r: Result<AvailabilityReport, GqlError>)
    ensures r.Err? <==> ctx.None?
    ensures r.Err? ==> r.error == Denied(AuthenticationRequired)
    ensures r.Ok? ==> r.value.summary.stats.borrowedCopies == r.value.summary.stats.totalCopies - r.value.summary.stats.availableCopies
    ensures r.Ok? ==> r.value.summary.overdueBorrowings <= r.value.summary.activeBorrowings <= |records|
    ensures r.Ok? && (forall i :: 0 <= i < |books| ==> !books[i].isActive) ==>
      r.value.summary.stats == Reports.CopyStats(0, 0, 0, 0)
    ensures r.Ok? ==> SortedDesc(r.value.genreBreakdown, Reports.GenreBooks)
  {
    var gate := RequireUser(ctx);
    if gate.Err? then Err(Denied(gate.error))
    else Ok(AvailabilityReport(Reports.Availability(books, records, now), Reports.GenreBreakdown(books)))
  }

  /** `getOverdueBooks`, for an admin only. */
  function OverdueBooks(ctx: Option<User>, records: seq<Borrowing>, users: seq<User>, books: seq<Book>, now: int)
    : (r: Result<Reports.OverdueReport, GqlError>)
    ensures r.Err? <==> RequireAdmin(ctx).Err?
    ensures r.Err? ==> r.error == Denied(AdminAccessRequired)
    ensures r.Ok? ==> r.value.totalOverdue == |r.value.overdueBooks| && SortedDesc(r.value.overdueBooks, Reports.DaysOverdue)
    ensures r.Ok? ==> forall i :: 0 <= i < |r.value.overdueBooks| ==> Reports.Projected(r.value.overdueBooks[i], now)
    ensures r.Ok? ==> forall k :: 0 <= k < |records| && Reports.IsOverdue(records[k], now) && Reports.Joined(records[k], users, books) ==>
      Reports.OverdueRowFor(records[k], FindById(users, records[k].user).value, Reports.FindBook(books, records[k].book).value, now)
        in r.value.overdueBooks
    ensures r.Ok? ==> forall i :: 0 <= i < |r.value.overdueBooks| ==>
      exists k :: 0 <= k < |records| && Reports.RowOfRecord(r.value.overdueBooks[i], records[k], users, books, now)
    ensures r.Ok? && KeysDistinct(records, Reports.LoanId) ==>
      forall i, j :: 0 <= i < j < |r.value.overdueBooks| ==> r.value.overdueBooks[i].id != r.value.overdueBooks[j].id
  {
    var gate := RequireAdmin(ctx);
    if gate.Err? then Err(Denied(gate.error)) else Ok(Reports.OverdueBooks(records, users, books, now))
  }

  /**
   * A refused query reads nothing: for a context its gate refuses, every collection gives the
   * same answer. The REST-equivalent core is reached only by callers that pass the gate.
   */
  lemma RefusalReadsNothing(ctx: Option<User>, records1: seq<Borrowing>, records2: seq<Borrowing>,
                            books1: seq<Book>, books2: seq<Book>, users1: seq<User>, users2: seq<User>,
                            w: Reports.Window, page: int, limit: int, now: int)
    requires page >= 1 && limit >= 1
    ensures ctx.None? ==>
      && BorrowingHistory(ctx, records1, None, page, limit) == BorrowingHistory(ctx, records2, None, page, limit)
      && MostBorrowedBooks(ctx, records1, books1, w, limit) == MostBorrowedBooks(ctx, records2, books2, w, limit)
      && BookAvailability(ctx, books1, records1, now) == BookAvailability(ctx, books2, records2, now)
    ensures RequireAdmin(ctx).Err? ==>
      && AllBorrowings(ctx, records1, None, None, page, limit) == AllBorrowings(ctx, records2, None, None, page, limit)
      && ActiveMembers(ctx, records1, users1, w, limit) == ActiveMembers(ctx, records2, users2, w, limit)
      && OverdueBooks(ctx, records1, users1, books1, now) == OverdueBooks(ctx, records2, users2, books2, now)
  {
  }

  /** Past the gate every query resolver answers exactly what the REST controller answers. */
  lemma QueriesAgreeWithRest(u: User, records: seq<Borrowing>, books: seq<Book>, users: seq<User>,
                             status: Option<string>, userId: Option<UserId>, w: Reports.Window, page: int, limit: int, now: int)
    requires page >= 1 && limit >= 1
    ensures BorrowingHistory(Some(u), records, status, page, limit) == Ok(Circulation.History(records, u.id, status, page, limit))
    ensures MostBorrowedBooks(Some(u), records, books, w, limit) == Ok(Reports.MostBorrowed(records, books, w, limit))
    ensures BookAvailability(Some(u), books, records, now) ==
      Ok(AvailabilityReport(Reports.Availability(books, records, now), Reports.GenreBreakdown(books)))
    ensures u.role == Admin ==>
      && AllBorrowings(Some(u), records, status, userId, page, limit) == Ok(Circulation.AllBorrowings(records, status, userId, page, limit))
      && ActiveMembers(Some(u), records, users, w, limit) == Ok(Reports.ActiveMembers(records, users, w, limit))
      && OverdueBooks(Some(u), records, users, books, now) == Ok(Reports.OverdueBooks(records, users, books, now))
  {
  }
}
