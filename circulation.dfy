/**
 * The borrowing engine of the borrowing controller: borrow a copy, return it with a late fine,
 * and list a member's or everybody's borrowing records. The records are a `BorrowingLedger`
 * whose methods update it, and the copy counts of the `BookStore`, in place; each method is
 * specified by a pure step on a `Library` value, about which the conservation of copies is proved.
 */
module Circulation {
  import opened Wrappers
  import opened Constants
  import opened Query
  import BookModel
  import opened BorrowingModel
  import Catalog

  type Book = BookModel.Book

  /** Started days late, `Math.ceil((at - due) / 86400000)`, when strictly late; otherwise none. */
  function DaysLate(due: int, at: int): (days: nat)
    ensures days == 0 <==> at <= due
    ensures at > due ==> (days - 1) * MsPerDay < at - due <= days * MsPerDay
  {
    if at > due then CeilDiv(at - due, MsPerDay) else 0
  }

  /** The fine a return at `at` records for a loan due at `due`: five for every started day late. */
  function LateFine(due: int, at: int): (fine: nat)
    ensures fine == 0 <==> at <= due
    ensures fine % FinePerDay == 0
    ensures at > due ==> (fine / FinePerDay - 1) * MsPerDay < at - due <= fine / FinePerDay * MsPerDay
  {
    DaysLate(due, at) * FinePerDay
  }

  /** Returning exactly at the due date costs nothing, one millisecond late costs a full day, and so on. */
  lemma LateFineExamples(due: int, borrowed: int)
    ensures LateFine(due, due) == 0
    ensures LateFine(due, due + 1) == 5
    ensures LateFine(due, due + MsPerDay) == 5
    ensures LateFine(due, due + MsPerDay + 1) == 10
    ensures LateFine(borrowed + BorrowDurationMs, borrowed + 16 * MsPerDay + 1) == 15
  {
    assert CeilDiv(1, MsPerDay) == 1;
    assert CeilDiv(MsPerDay, MsPerDay) == 1;
    assert CeilDiv(MsPerDay + 1, MsPerDay) == 2;
    assert borrowed + 16 * MsPerDay + 1 - (borrowed + BorrowDurationMs) == 2 * MsPerDay + 1;
    assert CeilDiv(2 * MsPerDay + 1, MsPerDay) == 3;
  }

  /** A later return never costs less. */
  lemma LateFineMonotone(due: int, at: int, at': int)
    requires at <= at'
    ensures LateFine(due, at) <= LateFine(due, at')
  {
    if at > due {
      CeilDivMonotone(at - due, at' - due, MsPerDay);
    }
  }

  /** 1 when the record holds a copy of `book`, else 0. */
  function OnLoan(r: Borrowing, book: int): nat
  {
    if r.book == book && r.status == Borrowed then 1 else 0
  }

  /** The number of `borrowed` records of a book. */
  function CountBorrowed(records: seq<Borrowing>, book: int): (n: nat)
    ensures n <= |records|
  {
    if records == [] then 0
    else CountBorrowed(records[..|records| - 1], book) + OnLoan(records[|records| - 1], book)
  }

  /** Appending a record adds its own contribution to the count. */
  lemma CountAppend(records: seq<Borrowing>, r: Borrowing, book: int)
    ensures CountBorrowed(records + [r], book) == CountBorrowed(records, book) + OnLoan(r, book)
  {
    assert (records + [r])[..|records|] == records;
  }

  /** Overwriting one record swaps its contribution to the count for the new one's. */
  lemma {:induction false} CountUpdate(records: seq<Borrowing>, k: nat, x: Borrowing, book: int)
    requires k < |records|
    ensures CountBorrowed(records[k := x], book) == CountBorrowed(records, book) - OnLoan(records[k], book) + OnLoan(x, book)
  {
    var n := |records|;
    var s := records[k := x];
    if k == n - 1 {
      assert s[..n - 1] == records[..n - 1];
    } else {
      CountUpdate(records[..n - 1], k, x, book);
      assert s[..n - 1] == records[..n - 1][k := x];
    }
  }

  /** A book with a `borrowed` record has at least one copy out. */
  lemma {:induction false} CountPositive(records: seq<Borrowing>, k: nat, book: int)
    requires k < |records| && OnLoan(records[k], book) == 1
    ensures CountBorrowed(records, book) >= 1
  {
    var n := |records|;
    if k < n - 1 {
      assert records[..n - 1][k] == records[k];
      CountPositive(records[..n - 1], k, book);
    }
  }

  /** The caller already holds a `borrowed` record for the book. */
  predicate HasOpenLoan(records: seq<Borrowing>, user: UserId, book: int)
  {
    exists k :: 0 <= k < |records| && records[k].user == user && records[k].book == book && records[k].status == Borrowed
  }

  /** `Borrowing.findOne({ _id, user, status: 'borrowed' })`: the one collapsed lookup of a return. */
  function FindLoan(records: seq<Borrowing>, id: int, user: UserId): (r: Option<Borrowing>)
    ensures r.Some? ==> r.value in records && r.value.id == id && r.value.user == user && r.value.status == Borrowed
    ensures r.None? <==> forall k :: 0 <= k < |records| ==>
      !(records[k].id == id && records[k].user == user && records[k].status == Borrowed)
  {
    if records == [] then None
    else if records[0].id == id && records[0].user == user && records[0].status == Borrowed then Some(records[0])
    else FindLoan(records[1..], id, user)
  }

  /** Records are identified by their position, refer to stored books, obey the schema, and a member holds at most one open loan per book. */
  ghost predicate LedgerValid(records: seq<Borrowing>, nBooks: nat)
  {
    && (forall k :: 0 <= k < |records| ==> records[k].id == k && records[k].book < nBooks && WellFormed(records[k]))
    && (forall j, k :: 0 <= j < k < |records| && records[j].status == Borrowed && records[k].status == Borrowed ==>
          records[j].user != records[k].user || records[j].book != records[k].book)
  }

  /** On a valid ledger the lookup is the record at that position, when the caller owns it and it is still borrowed. */
  lemma FindLoanIndexed(records: seq<Borrowing>, nBooks: nat, id: int, user: UserId)
    requires LedgerValid(records, nBooks)
    ensures FindLoan(records, id, user) ==
      if 0 <= id < |records| && records[id].user == user && records[id].status == Borrowed then Some(records[id]) else None
  {
    var r := FindLoan(records, id, user);
    if r.Some? {
      var k :| 0 <= k < |records| && records[k] == r.value;
    } else if 0 <= id < |records| {
      assert records[id].id == id;
    }
  }

  /**
   * The conservation invariant: for every book, the available copies and the `borrowed` records
   * make up the total, and the available copies lie within 0..total.
   */
  ghost predicate Consistent(books: seq<Book>, records: seq<Borrowing>)
  {
    forall i :: 0 <= i < |books| ==>
      && 0 <= books[i].availableCopies <= books[i].totalCopies
      && books[i].availableCopies + CountBorrowed(records, i) == books[i].totalCopies
  }

  /** The record a successful borrow creates: the caller, the book, borrowed now and due fourteen days on, `borrowed` with no fine. */
  function NewLoan(id: BorrowingId, user: UserId, book: BookId, now: int): (r: Borrowing)
    ensures r == Borrowing(id, user, book, now, now + BorrowDurationMs, None, Borrowed, 0)
    ensures WellFormed(r)
  {
    Create(BorrowingFields(Some(user), Some(book), Some(now), Some(now + 14 * 24 * 60 * 60 * 1000)), id, now).value
  }

  /** A book after `availableCopies -= 1` and `save()`: validation passes and the clamp applies. */
  function TakeCopy(b: Book): (r: Book)
    requires BookModel.SchemaValid(b) && b.availableCopies > 0
    ensures BookModel.Save(b.(availableCopies := b.availableCopies - 1)) == Ok(r)
    ensures r == b.(availableCopies := r.availableCopies)
    ensures r.availableCopies == Min(b.availableCopies - 1, b.totalCopies)
    ensures BookModel.SchemaValid(r)
  {
    BookModel.Save(b.(availableCopies := b.availableCopies - 1)).value
  }

  /** A book after `availableCopies += 1` and `save()`: validation passes and the clamp applies. */
  function PutCopyBack(b: Book): (r: Book)
    requires BookModel.SchemaValid(b)
    ensures BookModel.Save(b.(availableCopies := b.availableCopies + 1)) == Ok(r)
    ensures r == b.(availableCopies := r.availableCopies)
    ensures r.availableCopies == Min(b.availableCopies + 1, b.totalCopies)
    ensures BookModel.SchemaValid(r)
  {
    BookModel.Save(b.(availableCopies := b.availableCopies + 1)).value
  }

  /** The record after a return at `now`: stamped, `returned`, and fined only when strictly late. */
  function Settled(rec: Borrowing, now: int): (r: Borrowing)
    ensures r.returnDate == Some(now) && r.status == Returned
    ensures r.fine == (if now > rec.dueDate then LateFine(rec.dueDate, now) else rec.fine)
    ensures r == rec.(returnDate := r.returnDate, status := r.status, fine := r.fine)
  {
    rec.(returnDate := Some(now), status := Returned, fine := if now > rec.dueDate then LateFine(rec.dueDate, now) else rec.fine)
  }

  /** Why a borrow or a return rejects. */
  datatype LoanError =
    | BookNotFound
    | NotAvailable
    | AlreadyBorrowed
    | LoanNotFound

  /** Both collections the engine touches. */
  datatype Library = Library(books: seq<Book>, records: seq<Borrowing>)

  /** What a request answers, and the collections after it. */
  datatype Outcome = Outcome(result: Result<Borrowing, LoanError>, after: Library)

  /**
   * `borrowBook`: three guards in a fixed order (no active book with that id, no copy available,
   * an open loan of the caller for it), each rejecting with nothing written; then one record is
   * appended and the book gives up a copy.
   */
  function BorrowStep(l: Library, user: UserId, bookId: int, now: int): (o: Outcome)
    requires Catalog.Stored(l.books)
    ensures o.result.Err? ==> o.after == l
    ensures o.result == Err(BookNotFound) <==> !(0 <= bookId < |l.books| && l.books[bookId].isActive)
    ensures o.result == Err(NotAvailable) <==>
      0 <= bookId < |l.books| && l.books[bookId].isActive && l.books[bookId].availableCopies <= 0
    ensures o.result == Err(AlreadyBorrowed) <==>
      && 0 <= bookId < |l.books| && l.books[bookId].isActive && l.books[bookId].availableCopies > 0
      && HasOpenLoan(l.records, user, bookId)
    ensures o.result.Ok? ==>
      && 0 <= bookId < |l.books|
      && o.result.value == NewLoan(|l.records|, user, bookId, now)
      && o.after.records == l.records + [o.result.value]
      && o.after.books == l.books[bookId := TakeCopy(l.books[bookId])]
  {
    Catalog.FindActiveIndexed(l.books, bookId);
    var found := Catalog.FindActive(l.books, bookId);
    if found.None? then Outcome(Err(BookNotFound), l)
    else if found.value.availableCopies <= 0 then Outcome(Err(NotAvailable), l)
    else if HasOpenLoan(l.records, user, bookId) then Outcome(Err(AlreadyBorrowed), l)
    else
      var loan := NewLoan(|l.records|, user, bookId, now);
      Outcome(Ok(loan), Library(l.books[bookId := TakeCopy(found.value)], l.records + [loan]))
  }

  /**
   * `returnBook`: a record with that id, owned by the caller and still `borrowed`, or else one
   * collapsed rejection with nothing written; then the record is settled and its book, found by
   * id whether active or not, takes the copy back.
   */
  function ReturnStep(l: Library, user: UserId, borrowingId: int, now: int): (o: Outcome)
    requires Catalog.Stored(l.books) && LedgerValid(l.records, |l.books|)
    ensures o.result.Err? <==>
      !(0 <= borrowingId < |l.records| && l.records[borrowingId].user == user && l.records[borrowingId].status == Borrowed)
    ensures o.result.Err? ==> o.result.error == LoanNotFound && o.after == l
    ensures o.result.Ok? ==>
      && 0 <= borrowingId < |l.records|
      && var rec := l.records[borrowingId];
      && o.result.value == Settled(rec, now)
      && o.after.records == l.records[borrowingId := o.result.value]
      && o.after.books == l.books[rec.book := PutCopyBack(l.books[rec.book])]
  {
    FindLoanIndexed(l.records, |l.books|, borrowingId, user);
    var found := FindLoan(l.records, borrowingId, user);
    if found.None? then Outcome(Err(LoanNotFound), l)
    else
      var rec := found.value;
      var settled := Settled(rec, now);
      Outcome(Ok(settled), Library(l.books[rec.book := PutCopyBack(l.books[rec.book])], l.records[rec.id := settled]))
  }

  /** When the three guards pass, the borrow appends the new loan and takes one copy. */
  lemma BorrowStepOk(l: Library, user: UserId, bookId: nat, now: int)
    requires Catalog.Stored(l.books) && bookId < |l.books| && l.books[bookId].isActive
    requires l.books[bookId].availableCopies > 0 && !HasOpenLoan(l.records, user, bookId)
    ensures var loan := NewLoan(|l.records|, user, bookId, now);
      BorrowStep(l, user, bookId, now) ==
        Outcome(Ok(loan), Library(l.books[bookId := TakeCopy(l.books[bookId])], l.records + [loan]))
  {
  }

  /** When the caller's open loan is found, the return settles it and gives its book a copy back. */
  lemma ReturnStepOk(l: Library, user: UserId, borrowingId: nat, now: int)
    requires Catalog.Stored(l.books) && LedgerValid(l.records, |l.books|)
    requires borrowingId < |l.records| && l.records[borrowingId].user == user && l.records[borrowingId].status == Borrowed
    ensures var rec := l.records[borrowingId];
      rec.book < |l.books| &&
      ReturnStep(l, user, borrowingId, now) ==
        Outcome(Ok(Settled(rec, now)), Library(l.books[rec.book := PutCopyBack(l.books[rec.book])], l.records[borrowingId := Settled(rec, now)]))
  {
  }

  /** Taking a copy and putting it back restores a book whose copies were within its total. */
  lemma TakeThenPutBack(b: Book)
    requires BookModel.SchemaValid(b) && 0 < b.availableCopies <= b.totalCopies
    ensures PutCopyBack(TakeCopy(b)) == b
  {
  }

  /** A member's every open loan is for a different book. */
  lemma OpenLoanUnique(records: seq<Borrowing>, nBooks: nat, j: nat, k: nat)
    requires LedgerValid(records, nBooks) && j < |records| && k < |records| && j != k
    requires records[j].status == Borrowed && records[k].status == Borrowed && records[j].user == records[k].user
    ensures records[j].book != records[k].book
  {
    if j > k { OpenLoanUnique(records, nBooks, k, j); }
  }

  /** Writing back a book changed only in its copy counts keeps the collection stored. */
  lemma CopyChangeKeepsStored(books: seq<Book>, id: nat, b: Book)
    requires Catalog.Stored(books) && id < |books| && BookModel.SchemaValid(b)
    requires b == books[id].(availableCopies := b.availableCopies)
    ensures Catalog.Stored(books[id := b])
  {
    Catalog.OwnIsbnNotTaken(books, id);
    Catalog.ReplaceKeepsStored(books, id, b);
  }

  /** Appending a new, well-formed loan the member does not already hold keeps the ledger valid. */
  lemma AppendLoanKeepsLedger(records: seq<Borrowing>, nBooks: nat, loan: Borrowing)
    requires LedgerValid(records, nBooks) && loan.id == |records| && loan.book < nBooks && WellFormed(loan)
    requires !HasOpenLoan(records, loan.user, loan.book)
    ensures LedgerValid(records + [loan], nBooks)
  {
    var rs := records + [loan];
    var n := |records|;
    forall k | 0 <= k < |rs| ensures rs[k].id == k && rs[k].book < nBooks && WellFormed(rs[k]) {
      if k < n { assert rs[k] == records[k]; }
    }
    forall j, k | 0 <= j < k < |rs| && rs[j].status == Borrowed && rs[k].status == Borrowed
      ensures rs[j].user != rs[k].user || rs[j].book != rs[k].book
    {
      assert rs[j] == records[j];
      if k < n {
        assert rs[k] == records[k];
      }
    }
  }

  /** A borrow keeps the books stored and the ledger valid; in particular it never writes `overdue`. */
  lemma BorrowKeepsValid(l: Library, user: UserId, bookId: int, now: int)
    requires Catalog.Stored(l.books) && LedgerValid(l.records, |l.books|)
    ensures var o := BorrowStep(l, user, bookId, now);
      Catalog.Stored(o.after.books) && LedgerValid(o.after.records, |o.after.books|)
  {
    var o := BorrowStep(l, user, bookId, now);
    if o.result.Ok? {
      CopyChangeKeepsStored(l.books, bookId, TakeCopy(l.books[bookId]));
      AppendLoanKeepsLedger(l.records, |l.books|, o.result.value);
    }
  }

  /** A return keeps the books stored and the ledger valid; in particular it never writes `overdue`. */
  lemma ReturnKeepsValid(l: Library, user: UserId, borrowingId: int, now: int)
    requires Catalog.Stored(l.books) && LedgerValid(l.records, |l.books|)
    ensures var o := ReturnStep(l, user, borrowingId, now);
      Catalog.Stored(o.after.books) && LedgerValid(o.after.records, |o.after.books|)
  {
    var o := ReturnStep(l, user, borrowingId, now);
    if o.result.Ok? {
      var rec := l.records[borrowingId];
      CopyChangeKeepsStored(l.books, rec.book, PutCopyBack(l.books[rec.book]));
      var rs := o.after.records;
      forall k | 0 <= k < |rs| ensures rs[k].id == k && rs[k].book < |o.after.books| && WellFormed(rs[k]) {
        if k != borrowingId { assert rs[k] == l.records[k]; }
      }
      forall j, k | 0 <= j < k < |rs| && rs[j].status == Borrowed && rs[k].status == Borrowed
        ensures rs[j].user != rs[k].user || rs[j].book != rs[k].book
      {
        assert rs[j] == l.records[j] && rs[k] == l.records[k];
      }
    }
  }

  /** From a consistent library a successful borrow takes exactly one copy of that book and leaves every other book alone. */
  lemma BorrowTakesOneCopy(l: Library, user: UserId, bookId: int, now: int)
    requires Catalog.Stored(l.books) && Consistent(l.books, l.records)
    requires BorrowStep(l, user, bookId, now).result.Ok?
    ensures var after := BorrowStep(l, user, bookId, now).after.books;
      && |after| == |l.books|
      && after[bookId] == l.books[bookId].(availableCopies := l.books[bookId].availableCopies - 1)
      && forall j :: 0 <= j < |after| && j != bookId ==> after[j] == l.books[j]
  {
  }

  /** Borrowing keeps every book consistent: its copy leaves the shelf as its record is opened. */
  lemma BorrowConserves(l: Library, user: UserId, bookId: int, now: int)
    requires Catalog.Stored(l.books) && Consistent(l.books, l.records)
    ensures var o := BorrowStep(l, user, bookId, now); Consistent(o.after.books, o.after.records)
  {
    var o := BorrowStep(l, user, bookId, now);
    if o.result.Ok? {
      var bs := o.after.books;
      forall i | 0 <= i < |bs|
        ensures 0 <= bs[i].availableCopies <= bs[i].totalCopies
        ensures bs[i].availableCopies + CountBorrowed(o.after.records, i) == bs[i].totalCopies
      {
        CountAppend(l.records, o.result.value, i);
      }
    }
  }

  /** Returning keeps every book consistent: the record's book gets its copy back as the record closes. */
  lemma ReturnConserves(l: Library, user: UserId, borrowingId: int, now: int)
    requires Catalog.Stored(l.books) && LedgerValid(l.records, |l.books|) && Consistent(l.books, l.records)
    ensures var o := ReturnStep(l, user, borrowingId, now); Consistent(o.after.books, o.after.records)
  {
    var o := ReturnStep(l, user, borrowingId, now);
    if o.result.Ok? {
      var rec := l.records[borrowingId];
      CountPositive(l.records, borrowingId, rec.book);
      var bs := o.after.books;
      forall i | 0 <= i < |bs|
        ensures 0 <= bs[i].availableCopies <= bs[i].totalCopies
        ensures bs[i].availableCopies + CountBorrowed(o.after.records, i) == bs[i].totalCopies
      {
        CountUpdate(l.records, borrowingId, o.result.value, i);
      }
    }
  }

  /** From a consistent library a successful return gives exactly one copy back to the record's book, even a soft-deleted one. */
  lemma ReturnGivesOneCopy(l: Library, user: UserId, borrowingId: int, now: int)
    requires Catalog.Stored(l.books) && LedgerValid(l.records, |l.books|) && Consistent(l.books, l.records)
    requires ReturnStep(l, user, borrowingId, now).result.Ok?
    ensures var b := l.records[borrowingId].book; var after := ReturnStep(l, user, borrowingId, now).after.books;
      && |after| == |l.books|
      && after[b] == l.books[b].(availableCopies := l.books[b].availableCopies + 1)
      && forall j :: 0 <= j < |after| && j != b ==> after[j] == l.books[j]
  {
    CountPositive(l.records, borrowingId, l.records[borrowingId].book);
  }

  /** The same return cannot be made twice: the settled record no longer matches the lookup. */
  lemma SecondReturnFails(l: Library, user: UserId, borrowingId: int, now: int, later: int)
    requires Catalog.Stored(l.books) && LedgerValid(l.records, |l.books|)
    requires ReturnStep(l, user, borrowingId, now).result.Ok?
    ensures var after := ReturnStep(l, user, borrowingId, now).after;
      Catalog.Stored(after.books) && LedgerValid(after.records, |after.books|)
      && ReturnStep(after, user, borrowingId, later) == Outcome(Err(LoanNotFound), after)
  {
    ReturnKeepsValid(l, user, borrowingId, now);
  }

  /** Right after a borrow the same member cannot borrow the same book again. */
  lemma SecondBorrowFails(l: Library, user: UserId, bookId: int, now: int, later: int)
    requires Catalog.Stored(l.books) && LedgerValid(l.records, |l.books|)
    requires BorrowStep(l, user, bookId, now).result.Ok?
    ensures var after := BorrowStep(l, user, bookId, now).after;
      Catalog.Stored(after.books) && BorrowStep(after, user, bookId, later).result.Err?
  {
    BorrowKeepsValid(l, user, bookId, now);
    var after := BorrowStep(l, user, bookId, now).after;
    assert after.records[|l.records|].user == user && after.records[|l.records|].book == bookId;
  }

  /**
   * Borrowing and then returning that loan puts every book back as it was, and the ledger ends with
   * one closed record; a returned record does not block borrowing the book again.
   */
  lemma BorrowThenReturn(l: Library, user: UserId, bookId: int, now: int, later: int, again: int)
    requires Catalog.Stored(l.books) && LedgerValid(l.records, |l.books|) && Consistent(l.books, l.records)
    requires BorrowStep(l, user, bookId, now).result.Ok?
    ensures var o1 := BorrowStep(l, user, bookId, now);
      && Catalog.Stored(o1.after.books) && LedgerValid(o1.after.records, |o1.after.books|)
      && var o2 := ReturnStep(o1.after, user, |l.records|, later);
      && o2.result == Ok(Settled(o1.result.value, later))
      && o2.after.books == l.books
      && o2.after.records == l.records + [Settled(o1.result.value, later)]
      && BorrowStep(o2.after, user, bookId, again).result.Ok?
  {
    BorrowKeepsValid(l, user, bookId, now);
    var loan := NewLoan(|l.records|, user, bookId, now);
    ReturnAfterBorrow(l, user, bookId, now, later);
    SettledNoOpenLoan(l.records, user, bookId, loan, later);
    BorrowStepOk(Library(l.books, l.records + [Settled(loan, later)]), user, bookId, again);
  }

  /** Returning a loan just borrowed settles it and restores every book. */
  lemma ReturnAfterBorrow(l: Library, user: UserId, bookId: int, now: int, later: int)
    requires Catalog.Stored(l.books) && LedgerValid(l.records, |l.books|) && Consistent(l.books, l.records)
    requires BorrowStep(l, user, bookId, now).result.Ok?
    ensures var loan := NewLoan(|l.records|, user, bookId, now);
      ReturnStep(BorrowStep(l, user, bookId, now).after, user, |l.records|, later) ==
        Outcome(Ok(Settled(loan, later)), Library(l.books, l.records + [Settled(loan, later)]))
  {
    BorrowKeepsValid(l, user, bookId, now);
    var loan := NewLoan(|l.records|, user, bookId, now);
    var mid := BorrowStep(l, user, bookId, now).after;
    assert mid.records[|l.records|] == loan;
    ReturnStepOk(mid, user, |l.records|, later);
    assert BookModel.SchemaValid(l.books[bookId]);
    RestoreBooks(l.books, bookId);
    SettleLast(l.records, loan, later);
  }

  /** Taking a copy of a book and putting it back leaves the books as they were. */
  lemma RestoreBooks(books: seq<Book>, i: nat)
    requires i < |books| && BookModel.SchemaValid(books[i]) && 0 < books[i].availableCopies <= books[i].totalCopies
    ensures books[i := TakeCopy(books[i])][i := PutCopyBack(books[i := TakeCopy(books[i])][i])] == books
  {
    TakeThenPutBack(books[i]);
  }

  /** Settling the last record of a ledger is appending its settled form. */
  lemma SettleLast(records: seq<Borrowing>, loan: Borrowing, now: int)
    ensures (records + [loan])[|records| := Settled(loan, now)] == records + [Settled(loan, now)]
  {
  }

  /** A settled record added to a ledger with no open loan of the book leaves it with none. */
  lemma SettledNoOpenLoan(records: seq<Borrowing>, user: UserId, book: int, rec: Borrowing, now: int)
    requires !HasOpenLoan(records, user, book)
    ensures !HasOpenLoan(records + [Settled(rec, now)], user, book)
  {
    var rs := records + [Settled(rec, now)];
    forall k | 0 <= k < |rs| ensures !(rs[k].user == user && rs[k].book == book && rs[k].status == Borrowed) {
      if k < |records| {
        assert rs[k] == records[k];
      }
    }
  }

  /** The borrowing collection, appended to by borrows and settled in place by returns. */
  class BorrowingLedger {
    var records: seq<Borrowing>

    /** The books are stored and the records form a valid ledger over them. */
    ghost predicate Valid(store: Catalog.BookStore)
      reads this, store
    {
      store.Valid() && LedgerValid(records, |store.books|)
    }

    /** An empty collection: a valid ledger over any catalog. */
    constructor ()
      ensures records == []
      ensures forall nBooks: nat :: LedgerValid(records, nBooks)
    {
      records := [];
    }

    /** `borrowBook` for the authenticated caller. */
    method Borrow(store: Catalog.BookStore, user: UserId, bookId: int, now: int) returns (r: Result<Borrowing, LoanError>)
      requires Valid(store)
      modifies this, store
      ensures Valid(store)
      ensures Outcome(r, Library(store.books, records)) == BorrowStep(Library(old(store.books), old(records)), user, bookId, now)
    {
      ghost var before := Library(store.books, records);
      BorrowKeepsValid(before, user, bookId, now);
      Catalog.FindActiveIndexed(store.books, bookId);
      var found := Catalog.FindActive(store.books, bookId);
      if found.None? {
        return Err(BookNotFound);
      }
      var book := found.value;
      if book.availableCopies <= 0 {
        return Err(NotAvailable);
      }
      if HasOpenLoan(records, user, bookId) {
        return Err(AlreadyBorrowed);
      }
      assert book == before.books[bookId];
      assert Catalog.AllSchemaValid(before.books);
      assert BookModel.SchemaValid(book);
      ghost var taken := TakeCopy(book);
      var created := Create(BorrowingFields(Some(user), Some(book.id), Some(now), Some(now + 14 * 24 * 60 * 60 * 1000)), |records|, now);
      var loan := created.value;
      assert loan == NewLoan(|before.records|, user, bookId, now);
      records := records + [loan];
      var saved := store.SaveBook(book.id, book.(availableCopies := book.availableCopies - 1));
      assert saved == Ok(taken);
      assert store.books == before.books[bookId := TakeCopy(before.books[bookId])];
      r := Ok(loan);
      BorrowStepOk(before, user, bookId, now);
    }

    /** `returnBook` for the authenticated caller. */
    method Return(store: Catalog.BookStore, user: UserId, borrowingId: int, now: int) returns (r: Result<Borrowing, LoanError>)
      requires Valid(store)
      modifies this, store
      ensures Valid(store)
      ensures Outcome(r, Library(store.books, records)) == ReturnStep(Library(old(store.books), old(records)), user, borrowingId, now)
    {
      ghost var before := Library(store.books, records);
      ReturnKeepsValid(before, user, borrowingId, now);
      FindLoanIndexed(records, |store.books|, borrowingId, user);
      var found := FindLoan(records, borrowingId, user);
      if found.None? {
        return Err(LoanNotFound);
      }
      var loan := found.value;
      assert loan == before.records[borrowingId] && loan.book < |before.books|;
      var fine := loan.fine;
      if now > loan.dueDate {
        fine := LateFine(loan.dueDate, now);
      }
      var settled := loan.(returnDate := Some(now), status := Returned, fine := fine);
      assert settled == Settled(loan, now);
      records := records[loan.id := settled];
      var book := store.books[loan.book];
      assert BookModel.SchemaValid(store.books[loan.book]);
      ghost var back := PutCopyBack(book);
      var saved := store.SaveBook(loan.book, book.(availableCopies := book.availableCopies + 1));
      assert saved == Ok(back);
      r := Ok(settled);
      ReturnStepOk(before, user, borrowingId, now);
    }
  }

  /** The filters of the two listings: the owner (always set for a history) and a status string, which is no filter when empty. */
  datatype RecordFilter = RecordFilter(user: Option<UserId>, status: Option<string>)

  /** `{ user, status }` as a MongoDB query: any status string other than the enum's matches nothing. */
  predicate Matches(r: Borrowing, f: RecordFilter)
  {
    && (f.user.Some? ==> r.user == f.user.value)
    && (Catalog.Given(f.status) ==> StatusName(r.status) == f.status.value)
  }

  function BorrowDate(r: Borrowing): int
  {
    r.borrowDate
  }

  /** Every matching record, newest borrow first; each record appears as often as it is stored. */
  function Matching(records: seq<Borrowing>, f: RecordFilter): (r: seq<Borrowing>)
    ensures SortedDesc(r, BorrowDate)
    ensures forall x :: multiset(r)[x] == if Matches(x, f) then multiset(records)[x] else 0
    ensures forall i :: 0 <= i < |r| ==> r[i] in records && Matches(r[i], f)
    ensures forall i :: 0 <= i < |records| && Matches(records[i], f) ==> records[i] in r
  {
    var m := Filter(records, x => Matches(x, f));
    var r := SortDesc(m, BorrowDate);
    forall x ensures multiset(r)[x] == if Matches(x, f) then multiset(records)[x] else 0 {
      FilterMultiset(records, x => Matches(x, f), x);
    }
    forall i | 0 <= i < |r| ensures r[i] in records && Matches(r[i], f) {
      assert r[i] in multiset(r);
    }
    forall i | 0 <= i < |records| && Matches(records[i], f) ensures records[i] in r {
      assert records[i] in multiset(records);
    }
    r
  }

  /** One page of records with its pagination block. */
  datatype RecordPage = RecordPage(borrowings: seq<Borrowing>, pagination: Pagination)

  /** `find(query).skip((page - 1) * limit).limit(limit).sort({ borrowDate: -1 })` with `countDocuments(query)`. */
  function Borrowings(records: seq<Borrowing>, f: RecordFilter, page: int, limit: int): (r: RecordPage)
    requires page >= 1 && limit >= 1
    ensures |r.borrowings| <= limit
    ensures forall i :: 0 <= i < |r.borrowings| ==> r.borrowings[i] in records && Matches(r.borrowings[i], f)
    ensures SortedDesc(r.borrowings, BorrowDate)
    ensures r.pagination == Paginate(|Matching(records, f)|, page, limit)
    ensures r.borrowings == PageOf(Matching(records, f), page, limit)
  {
    var all := Matching(records, f);
    PageSorted(all, page, limit, BorrowDate);
    RecordPage(PageOf(all, page, limit), Paginate(|all|, page, limit))
  }

  /** `getBorrowingHistory`: the caller's own records only, optionally of one status. */
  function History(records: seq<Borrowing>, caller: UserId, status: Option<string>, page: int, limit: int): (r: RecordPage)
    requires page >= 1 && limit >= 1
    ensures forall i :: 0 <= i < |r.borrowings| ==> r.borrowings[i] in records && r.borrowings[i].user == caller
    ensures Catalog.Given(status) ==> forall i :: 0 <= i < |r.borrowings| ==> StatusName(r.borrowings[i].status) == status.value
    ensures |r.borrowings| <= limit && SortedDesc(r.borrowings, BorrowDate)
    ensures r.pagination == Paginate(|Matching(records, RecordFilter(Some(caller), status))|, page, limit)
    ensures r.borrowings == PageOf(Matching(records, RecordFilter(Some(caller), status)), page, limit)
  {
    Borrowings(records, RecordFilter(Some(caller), status), page, limit)
  }

  /** `getAllBorrowings`: every record, optionally of one member and of one status. */
  function AllBorrowings(records: seq<Borrowing>, status: Option<string>, userId: Option<UserId>, page: int, limit: int): (r: RecordPage)
    requires page >= 1 && limit >= 1
    ensures r == Borrowings(records, RecordFilter(userId, status), page, limit)
    ensures userId.None? && !Catalog.Given(status) ==> r.pagination.totalRecords == |records|
    ensures r.borrowings == PageOf(Matching(records, RecordFilter(userId, status)), page, limit)
  {
    var all := Matching(records, RecordFilter(userId, status));
    assert userId.None? && !Catalog.Given(status) ==> |all| == |records| by {
      if userId.None? && !Catalog.Given(status) {
        forall x ensures multiset(all)[x] == multiset(records)[x] {
        }
        assert multiset(all) == multiset(records);
      }
    }
    Borrowings(records, RecordFilter(userId, status), page, limit)
  }

  /** A member's history is the all-records listing filtered to that member. */
  lemma HistoryIsFilteredListing(records: seq<Borrowing>, caller: UserId, status: Option<string>, page: int, limit: int)
    requires page >= 1 && limit >= 1
    ensures History(records, caller, status, page, limit) == AllBorrowings(records, status, Some(caller), page, limit)
  {
  }

  /** Every matching record shows up on some page within the reported page count. */
  lemma EveryRecordOnSomePage(records: seq<Borrowing>, f: RecordFilter, limit: int, i: nat)
    requires limit >= 1 && i < |records| && Matches(records[i], f)
    ensures exists p :: (1 <= p <= Paginate(|Matching(records, f)|, 1, limit).totalPages
      && records[i] in Borrowings(records, f, p, limit).borrowings)
  {
    var all := Matching(records, f);
    var k :| 0 <= k < |all| && all[k] == records[i];
    var p := k / limit + 1;
    RowOnPage(all, k, limit);
    PageNonEmptyIff(all, p, limit);
    var page := PageOf(all, p, limit);
    assert page[k % limit] == records[i];
    assert Borrowings(records, f, p, limit).borrowings == page;
    assert Paginate(|all|, p, limit).totalPages == Paginate(|all|, 1, limit).totalPages;
  }
}
