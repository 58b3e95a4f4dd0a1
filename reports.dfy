/**
 * The report aggregations: each is a fold over the stored books and borrowing records, with the
 * optional borrow-date window of the two ranking reports and the single `now` of the request.
 * A `$lookup` followed by `$unwind` drops the rows whose referenced document is missing.
 */
module Reports {
  import opened Wrappers
  import opened Constants
  import opened Query
  import BookModel
  import opened BorrowingModel
  import Accounts
  import Circulation

  type Book = BookModel.Book
  type User = Accounts.User

  /** The `startDate`/`endDate` query parameters; an absent one sets no bound. */
  datatype Window = Window(start: Option<int>, end: Option<int>)

  /** `borrowDate: { $gte: start, $lte: end }`, inclusive at both ends and only for the bounds given. */
  predicate InWindow(r: Borrowing, w: Window)
  {
    && (w.start.Some? ==> w.start.value <= r.borrowDate)
    && (w.end.Some? ==> r.borrowDate <= w.end.value)
  }

  /** The `$match` stage of the window, present only when a bound is given. */
  function Windowed(records: seq<Borrowing>, w: Window): (r: seq<Borrowing>)
    ensures forall i :: 0 <= i < |r| ==> r[i] in records && InWindow(r[i], w)
    ensures forall i :: 0 <= i < |records| && InWindow(records[i], w) ==> records[i] in r
    ensures forall x :: multiset(r)[x] == if InWindow(x, w) then multiset(records)[x] else 0
    ensures w == Window(None, None) ==> r == records
  {
    var r := Filter(records, x => InWindow(x, w));
    forall x ensures multiset(r)[x] == if InWindow(x, w) then multiset(records)[x] else 0 {
      FilterMultiset(records, x => InWindow(x, w), x);
    }
    if w == Window(None, None) then
      FilterAll(records, x => InWindow(x, w));
      r
    else r
  }

  /** The `$group` key of a record for the book report. */
  function BookOf(r: Borrowing): BookId
  {
    r.book
  }

  /** The `$group` key of a record for the member report, and the `$addToSet` of the book report. */
  function UserOf(r: Borrowing): UserId
  {
    r.user
  }

  function FineOf(r: Borrowing): int
  {
    r.fine
  }

  /** `$lookup` into the books by `_id`, with no `isActive` filter. */
  function FindBook(books: seq<Book>, id: int): (r: Option<Book>)
    ensures r.Some? ==> r.value in books && r.value.id == id
    ensures r.None? <==> forall i :: 0 <= i < |books| ==> books[i].id != id
  {
    if books == [] then None
    else if books[0].id == id then Some(books[0])
    else FindBook(books[1..], id)
  }

  /** One row of the most-borrowed report. */
  datatype BookRow = BookRow(bookId: BookId, title: string, author: string, isbn: string, genre: string,
                             borrowCount: nat, uniqueUsersCount: nat)

  function BorrowCount(row: BookRow): int
  {
    row.borrowCount
  }

  function RowBook(row: BookRow): BookId
  {
    row.bookId
  }

  /** The row of a book over the records: every record of the book counts, whatever its status, and each user once. */
  function BookRowFor(b: Book, records: seq<Borrowing>): (row: BookRow)
    ensures row.bookId == b.id && row.title == b.title && row.author == b.author && row.isbn == b.isbn && row.genre == b.genre
    ensures row.borrowCount == |Members(records, BookOf, b.id)|
    ensures row.uniqueUsersCount == |Distinct(Members(records, BookOf, b.id), UserOf)|
    ensures row.uniqueUsersCount <= row.borrowCount
    ensures row.borrowCount >= 1 ==> row.uniqueUsersCount >= 1
  {
    var own := Members(records, BookOf, b.id);
    var users := Distinct(own, UserOf);
    assert |own| >= 1 ==> UserOf(own[0]) in users;
    BookRow(b.id, b.title, b.author, b.isbn, b.genre, |own|, |users|)
  }

  /** A row of the book ranking: the row of a stored book over the windowed records, for a book borrowed at least once. */
  predicate RankedRow(x: BookRow, rs: seq<Borrowing>, books: seq<Book>)
  {
    && FindBook(books, x.bookId).Some?
    && x == BookRowFor(FindBook(books, x.bookId).value, rs)
    && 1 <= x.uniqueUsersCount <= x.borrowCount
  }

  /** The rows of the grouped book ids whose book exists, in the order of the ids. */
  function BookRows(ids: seq<BookId>, records: seq<Borrowing>, books: seq<Book>): (rows: seq<BookRow>)
    ensures |rows| <= |ids|
  {
    if ids == [] then []
    else
      var rest := BookRows(ids[1..], records, books);
      var b := FindBook(books, ids[0]);
      if b.Some? then [BookRowFor(b.value, records)] + rest else rest
  }

  /** The row of a stored, borrowed book is a ranked row. */
  lemma FoundBookRanked(id: BookId, records: seq<Borrowing>, books: seq<Book>)
    requires FindBook(books, id).Some? && |Members(records, BookOf, id)| >= 1
    ensures RankedRow(BookRowFor(FindBook(books, id).value, records), records, books)
  {
  }

  /** Over grouped ids, each of which has a record, every book row is a stored, borrowed book's ranked row. */
  lemma {:induction false} BookRowsRanked(ids: seq<BookId>, records: seq<Borrowing>, books: seq<Book>)
    requires forall j :: 0 <= j < |ids| ==> |Members(records, BookOf, ids[j])| >= 1
    ensures forall i :: 0 <= i < |BookRows(ids, records, books)| ==> RankedRow(BookRows(ids, records, books)[i], records, books)
  {
    if ids == [] {
      assert BookRows(ids, records, books) == [];
    } else {
      var rest := BookRows(ids[1..], records, books);
      assert forall j :: 0 <= j < |ids[1..]| ==> ids[1..][j] == ids[j + 1];
      BookRowsRanked(ids[1..], records, books);
      var b := FindBook(books, ids[0]);
      if b.Some? {
        FoundBookRanked(ids[0], records, books);
        assert BookRows(ids, records, books) == [BookRowFor(b.value, records)] + rest;
        PrependAll(BookRowFor(b.value, records), rest, row => RankedRow(row, records, books));
      } else {
        assert rest == BookRows(ids, records, books);
      }
    }
  }

  /** Every grouped id whose book is stored has its row. */
  lemma {:induction false} BookRowsCover(ids: seq<BookId>, records: seq<Borrowing>, books: seq<Book>)
    ensures forall j :: 0 <= j < |ids| && FindBook(books, ids[j]).Some? ==>
      BookRowFor(FindBook(books, ids[j]).value, records) in BookRows(ids, records, books)
  {
    if ids != [] {
      BookRowsCover(ids[1..], records, books);
      assert forall j :: 1 <= j < |ids| ==> ids[j] == ids[1..][j - 1];
    }
  }

  /** The book rows come one per grouped id: each row's book is a grouped id, and distinct ids give distinct rows. */
  lemma {:induction false} BookRowsOnePerId(ids: seq<BookId>, records: seq<Borrowing>, books: seq<Book>)
    requires forall i, j :: 0 <= i < j < |ids| ==> ids[i] != ids[j]
    ensures KeysIn(BookRows(ids, records, books), RowBook, ids)
    ensures KeysDistinct(BookRows(ids, records, books), RowBook)
  {
    if ids != [] {
      var rest := BookRows(ids[1..], records, books);
      BookRowsOnePerId(ids[1..], records, books);
      assert forall j :: 1 <= j < |ids| ==> ids[j] == ids[1..][j - 1];
      var x := FindBook(books, ids[0]);
      if x.Some? {
        PrependKey(BookRowFor(x.value, records), rest, RowBook, ids);
      }
    }
  }

  /** Every stored book with a record in the window, most borrowed first. */
  function RankedBooks(records: seq<Borrowing>, books: seq<Book>, w: Window): (r: seq<BookRow>)
    ensures SortedDesc(r, BorrowCount)
    ensures forall k :: 0 <= k < |r| ==> RankedRow(r[k], Windowed(records, w), books)
    ensures forall i, j :: 0 <= i < j < |r| ==> r[i].bookId != r[j].bookId
  {
    var rs := Windowed(records, w);
    var ids := Distinct(rs, BookOf);
    forall j | 0 <= j < |ids| ensures |Members(rs, BookOf, ids[j])| >= 1 {
      GroupNonEmpty(rs, BookOf, j);
    }
    var rows := BookRows(ids, rs, books);
    BookRowsRanked(ids, rs, books);
    BookRowsOnePerId(ids, rs, books);
    SortDescKeeps(rows, BorrowCount, x => RankedRow(x, rs, books));
    SortDescKeysDistinct(rows, BorrowCount, RowBook);
    SortDesc(rows, BorrowCount)
  }

  /** `getMostBorrowedBooks`: the ranked rows, cut to the first `limit`. */
  function MostBorrowed(records: seq<Borrowing>, books: seq<Book>, w: Window, limit: int): (r: seq<BookRow>)
    requires limit >= 1
    ensures |r| == Min(limit, |RankedBooks(records, books, w)|)
    ensures r == RankedBooks(records, books, w)[..|r|]
    ensures SortedDesc(r, BorrowCount)
    ensures forall i :: 0 <= i < |r| ==> RankedRow(r[i], Windowed(records, w), books)
    ensures forall i, j :: 0 <= i < j < |r| ==> r[i].bookId != r[j].bookId
  {
    var all := RankedBooks(records, books, w);
    TakeSorted(all, limit, BorrowCount);
    Take(all, limit)
  }

  /** The cut keeps the top of the ranking: no book left out was borrowed more often than one kept. */
  lemma MostBorrowedKeepsTop(records: seq<Borrowing>, books: seq<Book>, w: Window, limit: int, i: nat, j: nat)
    requires limit >= 1
    requires i < |MostBorrowed(records, books, w, limit)| <= j < |RankedBooks(records, books, w)|
    ensures RankedBooks(records, books, w)[j].borrowCount <= MostBorrowed(records, books, w, limit)[i].borrowCount
  {
    var all := RankedBooks(records, books, w);
    assert MostBorrowed(records, books, w, limit)[i] == all[i];
    assert BorrowCount(all[i]) >= BorrowCount(all[j]);
  }

  /** Every stored book with a record in the window is ranked, with all of its records in the window counted. */
  lemma RankedIncludesEveryBorrowedBook(records: seq<Borrowing>, books: seq<Book>, w: Window, k: nat)
    requires k < |records| && InWindow(records[k], w) && FindBook(books, records[k].book).Some?
    ensures BookRowFor(FindBook(books, records[k].book).value, Windowed(records, w)) in RankedBooks(records, books, w)
  {
    var rs := Windowed(records, w);
    var ids := Distinct(rs, BookOf);
    assert records[k] in rs;
    var i :| 0 <= i < |rs| && rs[i] == records[k];
    assert BookOf(rs[i]) in ids;
    var j :| 0 <= j < |ids| && ids[j] == records[k].book;
    var rows := BookRows(ids, rs, books);
    BookRowsCover(ids, rs, books);
    SortDescSameRows(rows, BorrowCount, BookRowFor(FindBook(books, records[k].book).value, rs));
  }

  /** Before the lookup drops unknown books, the group counts account for every record in the window exactly once. */
  lemma BookGroupsCoverWindow(records: seq<Borrowing>, w: Window)
    ensures GroupSizes(Distinct(Windowed(records, w), BookOf), Windowed(records, w), BookOf) == |Windowed(records, w)|
  {
    GroupSizesTotal(Windowed(records, w), BookOf);
  }

  function StatusOf(r: Borrowing): Status
  {
    r.status
  }

  /** The records of one group with the given status: `$cond: [{ $eq: ['$status', …] }, 1, 0]` summed. */
  function WithStatus(s: seq<Borrowing>, st: Status): (r: seq<Borrowing>)
    ensures |r| <= |s|
    ensures forall i :: 0 <= i < |r| ==> r[i] in s && r[i].status == st
    ensures forall i :: 0 <= i < |s| && s[i].status == st ==> s[i] in r
  {
    Members(s, StatusOf, st)
  }

  /** The three statuses split the records: the counts by status add up to the total. */
  lemma {:induction false} StatusCountsPartition(s: seq<Borrowing>)
    ensures |WithStatus(s, Returned)| + |WithStatus(s, Borrowed)| + |WithStatus(s, Overdue)| == |s|
  {
    if s != [] {
      StatusCountsPartition(s[1..]);
    }
  }

  /** One row of the active-members report. */
  datatype MemberRow = MemberRow(userId: UserId, name: string, email: string, totalBorrowings: nat,
                                 booksReturned: nat, booksBorrowed: nat, totalFines: int, uniqueBooksCount: nat)

  function TotalBorrowings(row: MemberRow): int
  {
    row.totalBorrowings
  }

  function RowUser(row: MemberRow): UserId
  {
    row.userId
  }

  /** The row of a user over the records: the counts per status, the sum of the fines, and each book once. */
  function MemberRowFor(u: User, records: seq<Borrowing>): (row: MemberRow)
    ensures row.userId == u.id && row.name == u.name && row.email == u.email
    ensures var own := Members(records, UserOf, u.id);
      && row.totalBorrowings == |own|
      && row.booksReturned == |WithStatus(own, Returned)| && row.booksBorrowed == |WithStatus(own, Borrowed)|
      && row.totalFines == Sum(own, FineOf) && row.uniqueBooksCount == |Distinct(own, BookOf)|
    ensures row.booksReturned + row.booksBorrowed <= row.totalBorrowings
    ensures row.uniqueBooksCount <= row.totalBorrowings
    ensures (forall i :: 0 <= i < |records| ==> records[i].fine >= 0) ==> row.totalFines >= 0
  {
    var own := Members(records, UserOf, u.id);
    StatusCountsPartition(own);
    assert (forall i :: 0 <= i < |records| ==> records[i].fine >= 0) ==> Sum(own, FineOf) >= 0 by {
      if forall i :: 0 <= i < |records| ==> records[i].fine >= 0 {
        forall i | 0 <= i < |own| ensures FineOf(own[i]) >= 0 {
          var k :| 0 <= k < |records| && records[k] == own[i];
        }
        SumNonNegative(own, FineOf);
      }
    }
    MemberRow(u.id, u.name, u.email, |own|, |WithStatus(own, Returned)|, |WithStatus(own, Borrowed)|,
              Sum(own, FineOf), |Distinct(own, BookOf)|)
  }

  /** The rows of the grouped user ids whose user exists, in the order of the ids. */
  function MemberRows(ids: seq<UserId>, records: seq<Borrowing>, users: seq<User>): (rows: seq<MemberRow>)
    ensures |rows| <= |ids|
  {
    if ids == [] then []
    else
      var rest := MemberRows(ids[1..], records, users);
      var u := Accounts.FindById(users, ids[0]);
      if u.Some? then [MemberRowFor(u.value, records)] + rest else rest
  }

  /** Every member row is a stored user's row. */
  lemma {:induction false} MemberRowsOfUsers(ids: seq<UserId>, records: seq<Borrowing>, users: seq<User>)
    ensures forall i :: 0 <= i < |MemberRows(ids, records, users)| ==> MemberOf(MemberRows(ids, records, users)[i], records, users)
  {
    if ids == [] {
      assert MemberRows(ids, records, users) == [];
    } else {
      var rest := MemberRows(ids[1..], records, users);
      MemberRowsOfUsers(ids[1..], records, users);
      var u := Accounts.FindById(users, ids[0]);
      if u.Some? {
        assert MemberOf(MemberRowFor(u.value, records), records, users);
        assert MemberRows(ids, records, users) == [MemberRowFor(u.value, records)] + rest;
        PrependAll(MemberRowFor(u.value, records), rest, row => MemberOf(row, records, users));
      } else {
        assert rest == MemberRows(ids, records, users);
      }
    }
  }

  /** Every grouped id whose user is stored has its row. */
  lemma {:induction false} MemberRowsCover(ids: seq<UserId>, records: seq<Borrowing>, users: seq<User>)
    ensures forall j :: 0 <= j < |ids| && Accounts.FindById(users, ids[j]).Some? ==>
      MemberRowFor(Accounts.FindById(users, ids[j]).value, records) in MemberRows(ids, records, users)
  {
    if ids != [] {
      MemberRowsCover(ids[1..], records, users);
      assert forall j :: 1 <= j < |ids| ==> ids[j] == ids[1..][j - 1];
    }
  }

  /** The member rows come one per grouped id: each row's user is a grouped id, and distinct ids give distinct rows. */
  lemma {:induction false} MemberRowsOnePerId(ids: seq<UserId>, records: seq<Borrowing>, users: seq<User>)
    requires forall i, j :: 0 <= i < j < |ids| ==> ids[i] != ids[j]
    ensures KeysIn(MemberRows(ids, records, users), RowUser, ids)
    ensures KeysDistinct(MemberRows(ids, records, users), RowUser)
  {
    if ids != [] {
      var rest := MemberRows(ids[1..], records, users);
      MemberRowsOnePerId(ids[1..], records, users);
      assert forall j :: 1 <= j < |ids| ==> ids[j] == ids[1..][j - 1];
      var x := Accounts.FindById(users, ids[0]);
      if x.Some? {
        PrependKey(MemberRowFor(x.value, records), rest, RowUser, ids);
      }
    }
  }

  /** A row of the member ranking: the row of a stored user over the windowed records. */
  predicate MemberOf(row: MemberRow, records: seq<Borrowing>, users: seq<User>)
  {
    Accounts.FindById(users, row.userId).Some?
    && row == MemberRowFor(Accounts.FindById(users, row.userId).value, records)
  }

  /** Every stored user with a record in the window, most borrowings first. */
  function RankedMembers(records: seq<Borrowing>, users: seq<User>, w: Window): (r: seq<MemberRow>)
    ensures SortedDesc(r, TotalBorrowings)
    ensures forall i :: 0 <= i < |r| ==> MemberOf(r[i], Windowed(records, w), users)
    ensures forall i, j :: 0 <= i < j < |r| ==> r[i].userId != r[j].userId
  {
    var rs := Windowed(records, w);
    var rows := MemberRows(Distinct(rs, UserOf), rs, users);
    MemberRowsOfUsers(Distinct(rs, UserOf), rs, users);
    MemberRowsOnePerId(Distinct(rs, UserOf), rs, users);
    SortDescKeeps(rows, TotalBorrowings, (x: MemberRow) => MemberOf(x, rs, users));
    SortDescKeysDistinct(rows, TotalBorrowings, RowUser);
    SortDesc(rows, TotalBorrowings)
  }

  /** `getActiveMembers`: the ranked members, cut to the first `limit`. */
  function ActiveMembers(records: seq<Borrowing>, users: seq<User>, w: Window, limit: int): (r: seq<MemberRow>)
    requires limit >= 1
    ensures |r| == Min(limit, |RankedMembers(records, users, w)|)
    ensures r == RankedMembers(records, users, w)[..|r|]
    ensures SortedDesc(r, TotalBorrowings)
    ensures forall i :: 0 <= i < |r| ==> MemberOf(r[i], Windowed(records, w), users)
    ensures forall i :: 0 <= i < |r| ==> r[i].booksReturned + r[i].booksBorrowed <= r[i].totalBorrowings
    ensures forall i, j :: 0 <= i < j < |r| ==> r[i].userId != r[j].userId
  {
    var all := RankedMembers(records, users, w);
    TakeSorted(all, limit, TotalBorrowings);
    Take(all, limit)
  }

  /** The cut keeps the top of the ranking: no member left out borrowed more often than one kept. */
  lemma ActiveMembersKeepsTop(records: seq<Borrowing>, users: seq<User>, w: Window, limit: int, i: nat, j: nat)
    requires limit >= 1
    requires i < |ActiveMembers(records, users, w, limit)| <= j < |RankedMembers(records, users, w)|
    ensures RankedMembers(records, users, w)[j].totalBorrowings <= ActiveMembers(records, users, w, limit)[i].totalBorrowings
  {
    var all := RankedMembers(records, users, w);
    assert ActiveMembers(records, users, w, limit)[i] == all[i];
    assert TotalBorrowings(all[i]) >= TotalBorrowings(all[j]);
  }

  /** Every stored user with a record in the window is ranked, with all of their records in the window counted. */
  lemma RankedIncludesEveryActiveMember(records: seq<Borrowing>, users: seq<User>, w: Window, k: nat)
    requires k < |records| && InWindow(records[k], w) && Accounts.FindById(users, records[k].user).Some?
    ensures MemberRowFor(Accounts.FindById(users, records[k].user).value, Windowed(records, w)) in RankedMembers(records, users, w)
  {
    var rs := Windowed(records, w);
    var ids := Distinct(rs, UserOf);
    assert records[k] in rs;
    var i :| 0 <= i < |rs| && rs[i] == records[k];
    assert UserOf(rs[i]) in ids;
    var rows := MemberRows(ids, rs, users);
    MemberRowsCover(ids, rs, users);
    SortDescSameRows(rows, TotalBorrowings, MemberRowFor(Accounts.FindById(users, records[k].user).value, rs));
  }

  function IsActive(b: Book): bool
  {
    b.isActive
  }

  function TotalCopiesOf(b: Book): int
  {
    b.totalCopies
  }

  function AvailableCopiesOf(b: Book): int
  {
    b.availableCopies
  }

  function BorrowedCopiesOf(b: Book): int
  {
    b.totalCopies - b.availableCopies
  }

  /** The copy totals of a set of books: `$sum` of each count and of their difference. */
  datatype CopyStats = CopyStats(totalBooks: nat, totalCopies: int, availableCopies: int, borrowedCopies: int)

  /** The totals over the given books; the borrowed copies are the total less the available ones. */
  function StatsOf(bs: seq<Book>): (s: CopyStats)
    ensures s.totalBooks == |bs|
    ensures s.borrowedCopies == s.totalCopies - s.availableCopies
    ensures bs == [] ==> s == CopyStats(0, 0, 0, 0)
  {
    SumDiff(bs, TotalCopiesOf, AvailableCopiesOf, BorrowedCopiesOf);
    CopyStats(|bs|, Sum(bs, TotalCopiesOf), Sum(bs, AvailableCopiesOf), Sum(bs, BorrowedCopiesOf))
  }

  /** The summary block of `getBookAvailability`, without the floating-point utilization rate. */
  datatype Summary = Summary(stats: CopyStats, activeBorrowings: nat, overdueBorrowings: nat)

  function IsBorrowed(r: Borrowing): bool
  {
    r.status == Borrowed
  }

  /** `$lt: ['$dueDate', now]`. */
  function DueBefore(now: int): Borrowing -> bool
  {
    (r: Borrowing) => r.dueDate < now
  }

  /** The active books: `$match: { isActive: true }`. */
  function ActiveBooks(books: seq<Book>): (r: seq<Book>)
    ensures forall i :: 0 <= i < |r| ==> r[i] in books && r[i].isActive
    ensures forall i :: 0 <= i < |books| && books[i].isActive ==> books[i] in r
  {
    Filter(books, IsActive)
  }

  /**
   * The availability summary: copy totals over the active books (all zero without any), the
   * `borrowed` records, and those among them already past their due date.
   */
  function Availability(books: seq<Book>, records: seq<Borrowing>, now: int): (s: Summary)
    ensures s.stats == StatsOf(ActiveBooks(books))
    ensures s.stats.borrowedCopies == s.stats.totalCopies - s.stats.availableCopies
    ensures (forall i :: 0 <= i < |books| ==> !books[i].isActive) ==> s.stats == CopyStats(0, 0, 0, 0)
    ensures s.activeBorrowings == |Filter(records, IsBorrowed)|
    ensures s.overdueBorrowings == |Filter(records, OverdueAt(now))|
    ensures s.overdueBorrowings <= s.activeBorrowings <= |records|
    ensures (forall i :: 0 <= i < |records| ==> records[i].status != Borrowed) ==> s.activeBorrowings == 0 && s.overdueBorrowings == 0
  {
    var open := Filter(records, IsBorrowed);
    FilterFilter(records, IsBorrowed, DueBefore(now), OverdueAt(now));
    var active := ActiveBooks(books);
    assert (forall i :: 0 <= i < |books| ==> !books[i].isActive) ==> active == [] by {
      if active != [] {
        assert active[0] in books && active[0].isActive;
      }
    }
    assert (forall i :: 0 <= i < |records| ==> records[i].status != Borrowed) ==> open == [] by {
      if open != [] {
        var i :| 0 <= i < |records| && records[i] == open[0];
      }
    }
    Summary(StatsOf(active), |open|, |Filter(open, DueBefore(now))|)
  }

  /** The copies of the active books, summed per book. */
  function OpenLoansOf(bs: seq<Book>, records: seq<Borrowing>): int
  {
    if bs == [] then 0 else Circulation.CountBorrowed(records, bs[0].id) + OpenLoansOf(bs[1..], records)
  }

  /** On a consistent library the borrowed copies of the summary are exactly the open loans of the active books. */
  lemma BorrowedCopiesAreOpenLoans(books: seq<Book>, records: seq<Borrowing>, now: int)
    requires forall i :: 0 <= i < |books| ==> books[i].id == i
    requires Circulation.Consistent(books, records)
    ensures Availability(books, records, now).stats.borrowedCopies == OpenLoansOf(ActiveBooks(books), records)
    ensures 0 <= Availability(books, records, now).stats.availableCopies <= Availability(books, records, now).stats.totalCopies
  {
    var active := ActiveBooks(books);
    forall i | 0 <= i < |active|
      ensures BorrowedCopiesOf(active[i]) == Circulation.CountBorrowed(records, active[i].id)
      ensures 0 <= AvailableCopiesOf(active[i]) <= TotalCopiesOf(active[i])
    {
      assert active[i] in active;
      var k :| 0 <= k < |books| && books[k] == active[i];
    }
    OpenLoansSum(active, records);
    SumNonNegative(active, AvailableCopiesOf);
    SumNonNegative(active, BorrowedCopiesOf);
  }

  /** The per-book borrowed copies add up to the open loans when they agree book by book. */
  lemma {:induction false} OpenLoansSum(bs: seq<Book>, records: seq<Borrowing>)
    requires forall i :: 0 <= i < |bs| ==> BorrowedCopiesOf(bs[i]) == Circulation.CountBorrowed(records, bs[i].id)
    ensures Sum(bs, BorrowedCopiesOf) == OpenLoansOf(bs, records)
  {
    if bs != [] {
      OpenLoansSum(bs[1..], records);
    }
  }

  /** One row of the genre breakdown, without the floating-point utilization rate. */
  datatype GenreRow = GenreRow(genre: string, stats: CopyStats)

  function GenreOf(b: Book): string
  {
    b.genre
  }

  function GenreBooks(row: GenreRow): int
  {
    row.stats.totalBooks
  }

  /** The rows of the given genres over the books, in the order of the genres. */
  function GenreRows(genres: seq<string>, bs: seq<Book>): (rows: seq<GenreRow>)
    ensures |rows| == |genres|
    ensures forall i :: 0 <= i < |rows| ==> rows[i] == GenreRow(genres[i], StatsOf(Members(bs, GenreOf, genres[i])))
  {
    if genres == [] then [] else [GenreRow(genres[0], StatsOf(Members(bs, GenreOf, genres[0])))] + GenreRows(genres[1..], bs)
  }

  /** Some row is about genre `g`. */
  predicate HasGenre(rows: seq<GenreRow>, g: string)
  {
    exists i :: 0 <= i < |rows| && rows[i].genre == g
  }

  /** The genre breakdown before ordering: one row per genre of an active book. */
  function GenreGroups(books: seq<Book>): (rows: seq<GenreRow>)
    ensures forall i, j :: 0 <= i < j < |rows| ==> rows[i].genre != rows[j].genre
    ensures forall i :: 0 <= i < |rows| ==> rows[i].stats.totalBooks >= 1
    ensures forall k :: 0 <= k < |books| && books[k].isActive ==> HasGenre(rows, books[k].genre)
    ensures forall i :: 0 <= i < |rows| ==> rows[i].stats == StatsOf(Members(ActiveBooks(books), GenreOf, rows[i].genre))
  {
    var active := ActiveBooks(books);
    var genres := Distinct(active, GenreOf);
    GenreRowsNonEmpty(genres, active);
    GenreRowsCover(books, active, genres);
    GenreRows(genres, active)
  }

  /** Every genre row is the genre of some active book: the index of one. */
  lemma GenreRowBook(books: seq<Book>, i: int) returns (k: int)
    requires 0 <= i < |GenreGroups(books)|
    ensures 0 <= k < |books| && books[k].isActive && books[k].genre == GenreGroups(books)[i].genre
  {
    var active := ActiveBooks(books);
    var genres := Distinct(active, GenreOf);
    assert GenreGroups(books) == GenreRows(genres, active);
    var m :| 0 <= m < |active| && GenreOf(active[m]) == genres[i];
    assert active[m] in books;
    k :| 0 <= k < |books| && books[k] == active[m];
  }

  /** Every row of a genre that some book has counts at least one book. */
  lemma GenreRowsNonEmpty(genres: seq<string>, bs: seq<Book>)
    requires genres == Distinct(bs, GenreOf)
    ensures forall i :: 0 <= i < |genres| ==> GenreRows(genres, bs)[i].stats.totalBooks >= 1
  {
    forall i | 0 <= i < |genres| ensures GenreRows(genres, bs)[i].stats.totalBooks >= 1 {
      GroupNonEmpty(bs, GenreOf, i);
    }
  }

  /** Every active book's genre has its row. */
  lemma GenreRowsCover(books: seq<Book>, active: seq<Book>, genres: seq<string>)
    requires active == ActiveBooks(books) && genres == Distinct(active, GenreOf)
    ensures forall k :: 0 <= k < |books| && books[k].isActive ==> HasGenre(GenreRows(genres, active), books[k].genre)
  {
    forall k | 0 <= k < |books| && books[k].isActive
      ensures HasGenre(GenreRows(genres, active), books[k].genre)
    {
      GenreRowOf(active, genres, books[k]);
    }
  }

  /** The genre of a book among the grouped ones has its row. */
  lemma GenreRowOf(active: seq<Book>, genres: seq<string>, x: Book)
    requires genres == Distinct(active, GenreOf) && x in active
    ensures HasGenre(GenreRows(genres, active), x.genre)
  {
    var m :| 0 <= m < |active| && active[m] == x;
    assert GenreOf(active[m]) in genres;
    var i :| 0 <= i < |genres| && genres[i] == x.genre;
    assert GenreRows(genres, active)[i].genre == x.genre;
  }

  /** The genre rows add up to every active book, each counted in its own genre only. */
  lemma GenreGroupsCoverActive(books: seq<Book>)
    ensures Sum(GenreGroups(books), GenreBooks) == |ActiveBooks(books)|
  {
    var active := ActiveBooks(books);
    var genres := Distinct(active, GenreOf);
    GenreRowsSum(genres, active);
    GroupSizesTotal(active, GenreOf);
  }

  /** The book counts of the genre rows are the group sizes of their genres. */
  lemma {:induction false} GenreRowsSum(genres: seq<string>, bs: seq<Book>)
    ensures Sum(GenreRows(genres, bs), GenreBooks) == GroupSizes(genres, bs, GenreOf)
  {
    if genres != [] {
      GenreRowsSum(genres[1..], bs);
      assert GenreRows(genres, bs)[1..] == GenreRows(genres[1..], bs);
    }
  }

  /** The genre breakdown: the genre rows, the genres with most active books first. */
  function GenreBreakdown(books: seq<Book>): (r: seq<GenreRow>)
    ensures SortedDesc(r, GenreBooks)
    ensures multiset(r) == multiset(GenreGroups(books))
  {
    SortDesc(GenreGroups(books), GenreBooks)
  }

  /** Why a report pipeline fails: MongoDB refuses a `$divide` whose divisor is zero. */
  datatype ReportError = DivideByZero

  /** The active books of genre `g` hold no copies between them. */
  predicate EmptyGenre(books: seq<Book>, g: string)
  {
    StatsOf(Members(ActiveBooks(books), GenreOf, g)).totalCopies == 0
  }

  /** Some row's copies add up to zero. */
  predicate HasEmptyGenre(rows: seq<GenreRow>)
  {
    exists i :: 0 <= i < |rows| && rows[i].stats.totalCopies == 0
  }

  /**
   * The genre breakdown as the pipeline is written: the utilization rate divides the
   * borrowed copies by the copy total with no guard, so one genre whose copies add up to
   * zero makes the whole aggregation fail.
   */
  function GenreBreakdownAsWritten(books: seq<Book>): (r: Result<seq<GenreRow>, ReportError>)
    ensures r.Err? <==> exists k :: 0 <= k < |books| && books[k].isActive && EmptyGenre(books, books[k].genre)
    ensures r.Ok? ==> r.value == GenreBreakdown(books)
    ensures r.Ok? ==> forall i :: 0 <= i < |r.value| ==> r.value[i].stats.totalCopies != 0
  {
    EmptyGenreFails(books);
    if HasEmptyGenre(GenreGroups(books)) then Err(DivideByZero)
    else
      BreakdownKeepsCopies(books);
      Ok(GenreBreakdown(books))
  }

  /** Ordering the rows keeps the rows: with no empty genre among them, none after ordering either. */
  lemma BreakdownKeepsCopies(books: seq<Book>)
    requires !HasEmptyGenre(GenreGroups(books))
    ensures forall i :: 0 <= i < |GenreBreakdown(books)| ==> GenreBreakdown(books)[i].stats.totalCopies != 0
  {
    var groups := GenreGroups(books);
    SortDescKeeps(groups, GenreBooks, (row: GenreRow) => row.stats.totalCopies != 0);
    assert GenreBreakdown(books) == SortDesc(groups, GenreBooks);
  }

  /** The grouped rows hold a zero copy total exactly when some active book's genre holds no copies. */
  lemma EmptyGenreFails(books: seq<Book>)
    ensures HasEmptyGenre(GenreGroups(books)) <==> exists k :: 0 <= k < |books| && books[k].isActive && EmptyGenre(books, books[k].genre)
  {
    if HasEmptyGenre(GenreGroups(books)) {
      EmptyRowHasBook(books);
    }
    if k :| 0 <= k < |books| && books[k].isActive && EmptyGenre(books, books[k].genre) {
      EmptyBookHasRow(books, k);
    }
  }

  /** A row with no copies is the genre of some active book with none. */
  lemma EmptyRowHasBook(books: seq<Book>)
    requires HasEmptyGenre(GenreGroups(books))
    ensures exists k :: 0 <= k < |books| && books[k].isActive && EmptyGenre(books, books[k].genre)
  {
    var rows := GenreGroups(books);
    var i :| 0 <= i < |rows| && rows[i].stats.totalCopies == 0;
    var k := GenreRowBook(books, i);
    assert EmptyGenre(books, books[k].genre);
  }

  /** An active book whose genre holds no copies gives a row with no copies. */
  lemma EmptyBookHasRow(books: seq<Book>, k: int)
    requires 0 <= k < |books| && books[k].isActive && EmptyGenre(books, books[k].genre)
    ensures HasEmptyGenre(GenreGroups(books))
  {
    var rows := GenreGroups(books);
    var g := books[k].genre;
    assert HasGenre(rows, g);
    var i :| 0 <= i < |rows| && rows[i].genre == g;
    assert rows[i].stats == StatsOf(Members(ActiveBooks(books), GenreOf, g));
    assert rows[i].stats.totalCopies == 0;
  }

  /** Any active book with no copies: the pipeline as written fails, the corrected breakdown reports its genre. */
  lemma ZeroCopyGenreFails(b: Book)
    requires b.isActive && b.totalCopies == 0 && b.availableCopies == 0
    ensures GenreBreakdownAsWritten([b]) == Err(DivideByZero)
    ensures GenreBreakdown([b]) == [GenreRow(b.genre, CopyStats(1, 0, 0, 0))]
  {
    var row := GenreRow(b.genre, CopyStats(1, 0, 0, 0));
    OneGenreGroups(b);
    assert StatsOf([b]) == row.stats by {
      assert [b][1..] == [];
      assert Sum([b], TotalCopiesOf) == TotalCopiesOf(b) + Sum([b][1..], TotalCopiesOf);
      assert Sum([b], AvailableCopiesOf) == AvailableCopiesOf(b) + Sum([b][1..], AvailableCopiesOf);
    }
    assert [row][0].stats.totalCopies == 0;
    assert SortDesc([row], GenreBooks) == [row] by {
      assert [row][1..] == [];
    }
  }

  /** A catalog of one active book groups into that book's genre alone. */
  lemma OneGenreGroups(b: Book)
    requires b.isActive
    ensures GenreGroups([b]) == [GenreRow(b.genre, StatsOf([b]))]
  {
    assert ActiveBooks([b]) == [b];
    assert Distinct([b], GenreOf) == [b.genre];
    assert Members([b], GenreOf, b.genre) == [b];
  }

  /** A record still `borrowed` whose due date lies strictly before now: the overdue `$match`. */
  predicate IsOverdue(r: Borrowing, now: int)
  {
    r.status == Borrowed && r.dueDate < now
  }

  /** One row of the overdue report. */
  datatype OverdueRow = OverdueRow(
    id: BorrowingId, userId: UserId, name: string, email: string,
    bookId: BookId, title: string, author: string, isbn: string,
    borrowDate: int, dueDate: int, daysOverdue: nat, potentialFine: nat)

  function DaysOverdue(row: OverdueRow): int
  {
    row.daysOverdue
  }

  function RowLoan(row: OverdueRow): BorrowingId
  {
    row.id
  }

  function LoanId(r: Borrowing): BorrowingId
  {
    r.id
  }

  /** The record's user and book are both stored, so the two `$lookup`s and `$unwind`s keep it. */
  predicate Joined(r: Borrowing, users: seq<User>, books: seq<Book>)
  {
    Accounts.FindById(users, r.user).Some? && FindBook(books, r.book).Some?
  }

  /** The projected row: the started days past the due date, and five per day as the potential fine. */
  function OverdueRowFor(r: Borrowing, u: User, b: Book, now: int): (row: OverdueRow)
    requires IsOverdue(r, now)
    ensures row.id == r.id && row.userId == u.id && row.bookId == b.id && row.dueDate == r.dueDate
    ensures row.daysOverdue == Circulation.DaysLate(r.dueDate, now) && row.daysOverdue >= 1
    ensures row.potentialFine == row.daysOverdue * FinePerDay
    ensures row.potentialFine == Circulation.LateFine(r.dueDate, now)
    ensures row.potentialFine == Circulation.Settled(r, now).fine
  {
    var days := Circulation.DaysLate(r.dueDate, now);
    OverdueRow(r.id, u.id, u.name, u.email, b.id, b.title, b.author, b.isbn, r.borrowDate, r.dueDate, days, days * FinePerDay)
  }

  /** What every overdue row states: at least one started day late, and the fine a return now would record. */
  predicate Projected(row: OverdueRow, now: int)
  {
    && row.daysOverdue == Circulation.DaysLate(row.dueDate, now) && row.daysOverdue >= 1
    && row.potentialFine == Circulation.LateFine(row.dueDate, now)
  }

  /** The overdue records whose user and book both exist, projected, in record order. */
  function OverdueRows(rs: seq<Borrowing>, users: seq<User>, books: seq<Book>, now: int): (rows: seq<OverdueRow>)
    requires forall i :: 0 <= i < |rs| ==> IsOverdue(rs[i], now)
    ensures |rows| <= |rs|
    ensures forall i :: 0 <= i < |rows| ==> Projected(rows[i], now)
    ensures (forall k :: 0 <= k < |rs| ==> Accounts.FindById(users, rs[k].user).Some? && FindBook(books, rs[k].book).Some?) ==> |rows| == |rs|
  {
    if rs == [] then []
    else
      var rest := OverdueRows(rs[1..], users, books, now);
      var u := Accounts.FindById(users, rs[0].user);
      var b := FindBook(books, rs[0].book);
      if u.Some? && b.Some? then [OverdueRowFor(rs[0], u.value, b.value, now)] + rest else rest
  }

  /** Every overdue record whose user and book are stored has its projected row. */
  lemma {:induction false} OverdueRowsCover(rs: seq<Borrowing>, users: seq<User>, books: seq<Book>, now: int)
    requires forall i :: 0 <= i < |rs| ==> IsOverdue(rs[i], now)
    ensures forall k :: 0 <= k < |rs| && Joined(rs[k], users, books) ==>
      OverdueRowFor(rs[k], Accounts.FindById(users, rs[k].user).value, FindBook(books, rs[k].book).value, now) in OverdueRows(rs, users, books, now)
  {
    if rs != [] {
      OverdueRowsCover(rs[1..], users, books, now);
      assert forall k :: 1 <= k < |rs| ==> rs[k] == rs[1..][k - 1];
    }
  }

  /** Every overdue row is the projection of one of the records, with its stored user and book. */
  lemma {:induction false} OverdueRowsOfRecords(rs: seq<Borrowing>, users: seq<User>, books: seq<Book>, now: int)
    requires forall i :: 0 <= i < |rs| ==> IsOverdue(rs[i], now)
    ensures forall i :: 0 <= i < |OverdueRows(rs, users, books, now)| ==>
      exists k :: 0 <= k < |rs| && RowOfRecord(OverdueRows(rs, users, books, now)[i], rs[k], users, books, now)
  {
    if rs == [] {
      assert OverdueRows(rs, users, books, now) == [];
    } else {
      OverdueRowsOfRecords(rs[1..], users, books, now);
      var rest := OverdueRows(rs[1..], users, books, now);
      var from := (row: OverdueRow) => exists k :: 0 <= k < |rs| && RowOfRecord(row, rs[k], users, books, now);
      forall i | 0 <= i < |rest| ensures from(rest[i]) {
        RowFromTail(rest[i], rs, users, books, now);
      }
      if Joined(rs[0], users, books) {
        var x := OverdueRowFor(rs[0], Accounts.FindById(users, rs[0].user).value, FindBook(books, rs[0].book).value, now);
        assert RowOfRecord(x, rs[0], users, books, now);
        assert OverdueRows(rs, users, books, now) == [x] + rest;
        PrependAll(x, rest, from);
      } else {
        assert OverdueRows(rs, users, books, now) == rest;
      }
    }
  }

  lemma RowFromTail(row: OverdueRow, rs: seq<Borrowing>, users: seq<User>, books: seq<Book>, now: int)
    requires |rs| >= 1
    requires exists k :: 0 <= k < |rs[1..]| && RowOfRecord(row, rs[1..][k], users, books, now)
    ensures exists k :: 0 <= k < |rs| && RowOfRecord(row, rs[k], users, books, now)
  {
    var k :| 0 <= k < |rs[1..]| && RowOfRecord(row, rs[1..][k], users, books, now);
    assert rs[1..][k] == rs[k + 1];
  }

  /** Records with distinct ids give rows with distinct ids: one row per loan. */
  lemma {:induction false} OverdueRowsOnePerLoan(rs: seq<Borrowing>, users: seq<User>, books: seq<Book>, now: int)
    requires forall i :: 0 <= i < |rs| ==> IsOverdue(rs[i], now)
    requires KeysDistinct(rs, LoanId)
    ensures KeysIn(OverdueRows(rs, users, books, now), RowLoan, Keys(rs, LoanId))
    ensures KeysDistinct(OverdueRows(rs, users, books, now), RowLoan)
  {
    if rs != [] {
      KeysDistinctTail(rs, LoanId);
      OverdueRowsOnePerLoan(rs[1..], users, books, now);
      var rest := OverdueRows(rs[1..], users, books, now);
      var ids := Keys(rs, LoanId);
      assert ids[1..] == Keys(rs[1..], LoanId);
      assert ids[0] !in ids[1..] by {
        forall j | 1 <= j < |ids| ensures ids[j] != ids[0] {
          assert LoanId(rs[0]) != LoanId(rs[j]);
        }
      }
      if Joined(rs[0], users, books) {
        PrependKey(OverdueRowFor(rs[0], Accounts.FindById(users, rs[0].user).value, FindBook(books, rs[0].book).value, now), rest, RowLoan, ids);
      }
    }
  }

  /** The overdue report: its rows and their count. */
  datatype OverdueReport = OverdueReport(overdueBooks: seq<OverdueRow>, totalOverdue: nat)

  /** `{ status: 'borrowed', dueDate: { $lt: now } }`. */
  function OverdueAt(now: int): Borrowing -> bool
  {
    (r: Borrowing) => IsOverdue(r, now)
  }

  /** The `$match` of the overdue report. */
  function OverdueRecords(records: seq<Borrowing>, now: int): (rs: seq<Borrowing>)
    ensures forall i :: 0 <= i < |rs| ==> rs[i] in records && IsOverdue(rs[i], now)
    ensures forall i :: 0 <= i < |records| && IsOverdue(records[i], now) ==> records[i] in rs
  {
    Filter(records, OverdueAt(now))
  }

  /** `getOverdueBooks`: every overdue record with a stored user and book, the most days overdue first. */
  function OverdueBooks(records: seq<Borrowing>, users: seq<User>, books: seq<Book>, now: int): (r: OverdueReport)
    ensures r.totalOverdue == |r.overdueBooks|
    ensures SortedDesc(r.overdueBooks, DaysOverdue)
    ensures forall i :: 0 <= i < |r.overdueBooks| ==> Projected(r.overdueBooks[i], now)
    ensures |r.overdueBooks| == |OverdueRows(OverdueRecords(records, now), users, books, now)|
    ensures forall k :: 0 <= k < |records| && IsOverdue(records[k], now) && Joined(records[k], users, books) ==>
      OverdueRowFor(records[k], Accounts.FindById(users, records[k].user).value, FindBook(books, records[k].book).value, now) in r.overdueBooks
    ensures forall i :: 0 <= i < |r.overdueBooks| ==>
      exists k :: 0 <= k < |records| && RowOfRecord(r.overdueBooks[i], records[k], users, books, now)
    ensures KeysDistinct(records, LoanId) ==> forall i, j :: 0 <= i < j < |r.overdueBooks| ==> r.overdueBooks[i].id != r.overdueBooks[j].id
  {
    var rows := OverdueRows(OverdueRecords(records, now), users, books, now);
    SortDescKeeps(rows, DaysOverdue, (row: OverdueRow) => Projected(row, now));
    OverdueReportCovers(records, users, books, now);
    OverdueReportOrigins(records, users, books, now);
    var sorted := SortDesc(rows, DaysOverdue);
    OverdueReportOnePerLoan(records, users, books, now);
    OverdueReport(sorted, |sorted|)
  }

  /** Every overdue record with a stored user and book has its row in the sorted overdue report. */
  lemma OverdueReportCovers(records: seq<Borrowing>, users: seq<User>, books: seq<Book>, now: int)
    ensures forall k :: 0 <= k < |records| && IsOverdue(records[k], now) && Joined(records[k], users, books) ==>
      OverdueRowFor(records[k], Accounts.FindById(users, records[k].user).value, FindBook(books, records[k].book).value, now)
        in SortDesc(OverdueRows(OverdueRecords(records, now), users, books, now), DaysOverdue)
  {
    var rs := OverdueRecords(records, now);
    var rows := OverdueRows(rs, users, books, now);
    OverdueRowsCover(rs, users, books, now);
    forall k | 0 <= k < |records| && IsOverdue(records[k], now) && Joined(records[k], users, books)
      ensures OverdueRowFor(records[k], Accounts.FindById(users, records[k].user).value, FindBook(books, records[k].book).value, now)
        in SortDesc(rows, DaysOverdue)
    {
      var m :| 0 <= m < |rs| && rs[m] == records[k];
      SortDescSameRows(rows, DaysOverdue, OverdueRowFor(records[k], Accounts.FindById(users, records[k].user).value, FindBook(books, records[k].book).value, now));
    }
  }

  /** Every row of the sorted overdue report is the projection of one of the records. */
  lemma OverdueReportOrigins(records: seq<Borrowing>, users: seq<User>, books: seq<Book>, now: int)
    ensures forall i :: 0 <= i < |SortDesc(OverdueRows(OverdueRecords(records, now), users, books, now), DaysOverdue)| ==>
      exists k :: 0 <= k < |records| &&
        RowOfRecord(SortDesc(OverdueRows(OverdueRecords(records, now), users, books, now), DaysOverdue)[i], records[k], users, books, now)
  {
    var rs := OverdueRecords(records, now);
    var rows := OverdueRows(rs, users, books, now);
    OverdueRowsOfRecords(rs, users, books, now);
    forall i | 0 <= i < |rows| ensures exists k :: 0 <= k < |records| && RowOfRecord(rows[i], records[k], users, books, now) {
      var m :| 0 <= m < |rs| && RowOfRecord(rows[i], rs[m], users, books, now);
      var k :| 0 <= k < |records| && records[k] == rs[m];
    }
    SortDescKeeps(rows, DaysOverdue, (row: OverdueRow) => exists k :: 0 <= k < |records| && RowOfRecord(row, records[k], users, books, now));
  }

  /** Records with distinct ids give a sorted overdue report with one row per loan. */
  lemma OverdueReportOnePerLoan(records: seq<Borrowing>, users: seq<User>, books: seq<Book>, now: int)
    ensures KeysDistinct(records, LoanId) ==>
      KeysDistinct(SortDesc(OverdueRows(OverdueRecords(records, now), users, books, now), DaysOverdue), RowLoan)
  {
    if KeysDistinct(records, LoanId) {
      var rs := OverdueRecords(records, now);
      FilterKeysDistinct(records, OverdueAt(now), LoanId);
      OverdueRowsOnePerLoan(rs, users, books, now);
      SortDescKeysDistinct(OverdueRows(rs, users, books, now), DaysOverdue, RowLoan);
    }
  }

  /** The row of an overdue record: the projection of that record with its stored user and book. */
  predicate RowOfRecord(row: OverdueRow, rec: Borrowing, users: seq<User>, books: seq<Book>, now: int)
  {
    && IsOverdue(rec, now)
    && Accounts.FindById(users, rec.user).Some? && FindBook(books, rec.book).Some?
    && row == OverdueRowFor(rec, Accounts.FindById(users, rec.user).value, FindBook(books, rec.book).value, now)
  }

  /** On records indexed by id, each projected row is the projection of the record its id names. */
  lemma {:induction false} OverdueRowsFromRecords(rs: seq<Borrowing>, records: seq<Borrowing>, users: seq<User>, books: seq<Book>, now: int)
    requires forall k :: 0 <= k < |records| ==> records[k].id == k
    requires forall i :: 0 <= i < |rs| ==> rs[i] in records && IsOverdue(rs[i], now)
    ensures forall i :: 0 <= i < |OverdueRows(rs, users, books, now)| ==>
      var row := OverdueRows(rs, users, books, now)[i];
      row.id < |records| && RowOfRecord(row, records[row.id], users, books, now)
  {
    if rs != [] {
      OverdueRowsFromRecords(rs[1..], records, users, books, now);
      var k :| 0 <= k < |records| && records[k] == rs[0];
    }
  }

  /** On records indexed by id, every row of the report is the projection of the overdue record with that id. */
  lemma OverdueRowsAreProjections(records: seq<Borrowing>, users: seq<User>, books: seq<Book>, now: int)
    requires forall k :: 0 <= k < |records| ==> records[k].id == k
    ensures var rows := OverdueBooks(records, users, books, now).overdueBooks;
      forall i :: 0 <= i < |rows| ==> rows[i].id < |records| && RowOfRecord(rows[i], records[rows[i].id], users, books, now)
  {
    var rs := OverdueRecords(records, now);
    OverdueRowsFromRecords(rs, records, users, books, now);
    var rows := OverdueRows(rs, users, books, now);
    SortDescKeeps(rows, DaysOverdue, (row: OverdueRow) => row.id < |records| && RowOfRecord(row, records[row.id], users, books, now));
  }

  /** The overdue list never shows more loans than the summary counts as overdue, and exactly as many when every user and book is stored. */
  lemma OverdueListMatchesSummary(records: seq<Borrowing>, users: seq<User>, books: seq<Book>, now: int)
    ensures OverdueBooks(records, users, books, now).totalOverdue <= Availability(books, records, now).overdueBorrowings
    ensures (forall k :: 0 <= k < |records| ==> Accounts.FindById(users, records[k].user).Some? && FindBook(books, records[k].book).Some?) ==>
      OverdueBooks(records, users, books, now).totalOverdue == Availability(books, records, now).overdueBorrowings
  {
    var due := OverdueRecords(records, now);
    FilterFilter(records, IsBorrowed, DueBefore(now), OverdueAt(now));
  }
}
