/**
 * The Borrowing schema: required references, the status enum with its default, the fine's
 * default and minimum, the `returnDate` default, and the pre-save hook that fills in a
 * missing `dueDate`.
 */
module BorrowingModel {
  import opened Wrappers
  import opened Constants

  type UserId = nat
  type BookId = nat
  type BorrowingId = nat

  /** A stored borrowing document. Dates are integer milliseconds. */
  datatype Borrowing = Borrowing(
    id: BorrowingId,
    user: UserId,
    book: BookId,
    borrowDate: int,
    dueDate: int,
    returnDate: Option<int>,
    status: Status,
    fine: int)

  /** The fields a create request supplies; `None` is an absent field. */
  datatype BorrowingFields = BorrowingFields(
    user: Option<UserId>,
    book: Option<BookId>,
    borrowDate: Option<int>,
    dueDate: Option<int>)

  /** A document after its schema defaults are applied and before it is validated. */
  datatype Draft = Draft(
    id: BorrowingId,
    user: Option<UserId>,
    book: Option<BookId>,
    borrowDate: int,
    dueDate: Option<int>,
    returnDate: Option<int>,
    status: Status,
    fine: int)

  /** The schema's paths that carry a validator. */
  datatype Field = UserPath | BookPath | DueDatePath | FinePath

  /** The loan length as the hook writes it. */
  const HookLoanMs: int := 14 * 24 * 60 * 60 * 1000

  /** Construct the document: `borrowDate` defaults to now, `returnDate` to null, `status` to borrowed, `fine` to 0. */
  function WithDefaults(f: BorrowingFields, id: BorrowingId, now: int): (d: Draft)
    ensures d.status == Borrowed && d.fine == 0 && d.returnDate == None
    ensures d.borrowDate == (if f.borrowDate.Some? then f.borrowDate.value else now)
    ensures d.user == f.user && d.book == f.book && d.dueDate == f.dueDate && d.id == id
  {
    Draft(id, f.user, f.book, if f.borrowDate.Some? then f.borrowDate.value else now, f.dueDate, None, Borrowed, 0)
  }

  /** The pre-save hook: a new document without a due date gets one 14 days after it was borrowed; otherwise nothing changes. */
  function DueDateHook(d: Draft, isNew: bool): (r: Draft)
    ensures isNew && d.dueDate.None? ==> r.dueDate == Some(d.borrowDate + BorrowDurationMs)
    ensures !(isNew && d.dueDate.None?) ==> r == d
    ensures r == d.(dueDate := r.dueDate)
  {
    if isNew && d.dueDate.None? then d.(dueDate := Some(d.borrowDate + HookLoanMs)) else d
  }

  /** The paths whose validator fails: `user`, `book` and `dueDate` are required and the fine may not be negative. */
  function FieldErrors(d: Draft): (errs: set<Field>)
    ensures errs == {} <==> d.user.Some? && d.book.Some? && d.dueDate.Some? && d.fine >= 0
  {
    (if d.user.Some? then {} else {UserPath})
    + (if d.book.Some? then {} else {BookPath})
    + (if d.dueDate.Some? then {} else {DueDatePath})
    + (if d.fine >= 0 then {} else {FinePath})
  }

  function Stored(d: Draft): Borrowing
    requires FieldErrors(d) == {}
  {
    Borrowing(d.id, d.user.value, d.book.value, d.borrowDate, d.dueDate.value, d.returnDate, d.status, d.fine)
  }

  /**
   * `Borrowing.create` as the library runs it: the schema is validated before any pre-save
   * hook runs, so a missing `dueDate` is rejected before the hook could supply it.
   */
  function CreateAsWritten(f: BorrowingFields, id: BorrowingId, now: int): (r: Result<Borrowing, set<Field>>)
    ensures f.dueDate.None? ==> r.Err? && DueDatePath in r.error
  {
    var d := WithDefaults(f, id, now);
    var errs := FieldErrors(d);
    if errs != {} then Err(errs) else Ok(Stored(DueDateHook(d, true)))
  }

  /** `Borrowing.create` with the due-date default applied before validation, as the hook intends. */
  function Create(f: BorrowingFields, id: BorrowingId, now: int): (r: Result<Borrowing, set<Field>>)
    ensures r.Ok? <==> f.user.Some? && f.book.Some?
    ensures r.Ok? ==> r.value.status == Borrowed && r.value.fine == 0 && r.value.returnDate == None
    ensures r.Ok? ==> r.value.id == id && r.value.user == f.user.value && r.value.book == f.book.value
    ensures r.Ok? ==> r.value.borrowDate == (if f.borrowDate.Some? then f.borrowDate.value else now)
    ensures r.Ok? && f.dueDate.Some? ==> r.value.dueDate == f.dueDate.value
    ensures r.Ok? && f.dueDate.None? ==> r.value.dueDate == r.value.borrowDate + BorrowDurationMs
  {
    var d := DueDateHook(WithDefaults(f, id, now), true);
    var errs := FieldErrors(d);
    if errs != {} then Err(errs) else Ok(Stored(d))
  }

  /** When the caller supplies the due date, as the borrow operation does, both orders create the same record. */
  lemma CreateAgreesWhenDueGiven(f: BorrowingFields, id: BorrowingId, now: int)
    requires f.dueDate.Some?
    ensures CreateAsWritten(f, id, now) == Create(f, id, now)
  {
  }

  /** A concrete request that shows the hook's default never takes effect when the library validates first. */
  lemma DueDateDefaultNeverApplies()
    ensures CreateAsWritten(BorrowingFields(Some(1), Some(2), Some(0), None), 0, 0).Err?
    ensures Create(BorrowingFields(Some(1), Some(2), Some(0), None), 0, 0) ==
      Ok(Borrowing(0, 1, 2, 0, 1209600000, None, Borrowed, 0))
  {
  }

  /** A stored record obeys the schema and the lifecycle: a fine is never negative, `overdue` is never written, and a return date exists exactly for returned records. */
  predicate WellFormed(b: Borrowing)
  {
    && b.fine >= 0
    && b.status != Overdue
    && (b.status == Returned <==> b.returnDate.Some?)
    && (b.status == Borrowed ==> b.fine == 0)
  }

  /** Every record the create operation accepts is well formed. */
  lemma CreatedIsWellFormed(f: BorrowingFields, id: BorrowingId, now: int)
    requires Create(f, id, now).Ok?
    ensures WellFormed(Create(f, id, now).value)
  {
  }
}
