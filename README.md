# Nalanda library management: a verified model of the core

Nalanda is a library back end. Two front ends share one MongoDB store:
- a REST API of Express controllers;
- a GraphQL API whose resolvers repeat the controllers' logic behind their own authentication gates.

This project models that shared core in Dafny:

- **Schema rules** (`BookModel`, `BorrowingModel`, `Constants`). These are the Mongoose validators and setters of the book and borrowing schemas, with their defaults and pre-save hooks:
  - trimming;
  - the ISBN pattern;
  - the `min: 0` bounds;
  - the clamp of available copies to the total;
  - the 14-day due-date default.

  The role and status names agree with `config/constants.js`. The model follows Mongoose's real order of work: setters and defaults first, then validation, then pre-save hooks.
- **Catalog** (`Catalog`). The class `BookStore` holds the book collection and changes it in place with add, update, save and soft delete. Listing and lookup are functions over the collection. The collection keeps an invariant: books are indexed by id, every book is schema-valid, and no two books share an ISBN.
- **Borrowing engine** (`Circulation`):
  - The class `BorrowingLedger` holds the borrowing records. Its `Borrow` and `Return` methods change the ledger and the book store together.
  - Each method is proved against a pure step function: `BorrowStep` or `ReturnStep` over a `Library` of books and records.
  - The lemmas show that every step preserves:
    - the stored-collection invariant;
    - the ledger invariant (ids are positions, every record is well formed, at most one open loan per member and book);
    - conservation: the copies out of every book equal its `borrowed` records.
  - The fine is five per started day late.
  - The borrowing history and the all-records listing are paginated queries over the ledger.
- **Accounts and access** (`Accounts`, `Access`):
  - `UserStore` (registration), and login in its REST and GraphQL forms.
  - The GraphQL context builder: bearer token, then token verification, then an active stored user, degrading to an anonymous context on any failure.
  - The `Authentication required` and `Admin access required` gates.
- **Reports** (`Reports`): the four aggregation pipelines written as functions over the stored sequences, with their guarantees:
  - most borrowed books;
  - active members;
  - book availability with the genre breakdown;
  - overdue books.

  A `$match` becomes a filter, a `$group` a distinct-key grouping, a `$lookup`/`$unwind` a join that drops unmatched rows, and a `$sort`/`$limit` an ordering and a cut. `Query` holds the generic pagination, filter, sort and grouping functions they share.

  The genre breakdown is modelled as evidently intended, reporting a genre whose copies add up to zero. As written, that genre makes the pipeline divide by zero (see Findings).
- **GraphQL resolvers** (`GraphQL`). Each resolver is its gate followed by the same core operation the REST controller runs. Lemmas show that:
  - the resolvers agree with the controllers once the gate passes;
  - a refusal reads nothing from the store.

Abstractions the model makes:
- identifiers are positions in the stored sequences;
- dates are integer milliseconds;
- the request time is one value `now`;
- token signing and verification (`issue`, `verify`), password comparison (`passwordOk`) and the case-insensitive regular-expression search (`matches`) are function parameters.

## Model

| member | source | states |
|---|---|---|
| Constants.RoleName | src/config/constants.js:2-5 | a role is stored as `Admin` or `Member`, and the string is `Admin` exactly for the admin role |
| Constants.ParseRole | src/config/constants.js:2-5 | exactly the two role strings denote a role, and only `Admin` denotes the admin role |
| Constants.RoleRoundTrip | src/config/constants.js:2-5 | role names and roles correspond one to one, in both directions |
| Constants.StatusName | src/config/constants.js:6-10 | the three statuses are stored as `borrowed`, `returned` and `overdue`, each string naming exactly one status |
| Constants.ParseStatus | src/models/Borrowing.js:29-34 | exactly the enum's three strings are accepted as a status, each naming its own status |
| Constants.StatusRoundTrip | src/config/constants.js:6-10 | status names and statuses correspond one to one, in both directions |
| Constants.LoanLiteralAgrees | src/config/constants.js:11 | the literal `14 * 24 * 60 * 60 * 1000` in the controllers and hook is the configured 14 days in milliseconds |
| BookModel.TrimStart | src/models/Book.js:7 | the result is a suffix of the input that does not start with white space |
| BookModel.TrimStartCutsWhitespace | src/models/Book.js:7 | everything the left trim removes is white space |
| BookModel.TrimEnd | src/models/Book.js:7 | the result is a prefix of the input that does not end with white space |
| BookModel.TrimEndCutsWhitespace | src/models/Book.js:7 | everything the right trim removes is white space |
| BookModel.TrimUnpadded | src/models/Book.js:7 | a string with no white space at either end is unchanged by the `trim` setter |
| BookModel.TrimIdempotent | src/models/Book.js:20 | a trimmed value has no white space at either end, so trimming twice equals trimming once |
| BookModel.IsbnIgnoresPadding | src/models/Book.js:16-22 | because the setter trims before the pattern runs, an ISBN is accepted exactly when its trimmed form is |
| BookModel.IsbnDigitsAccepted | src/models/Book.js:21 | ten or thirteen ASCII digits are accepted, bare or padded with one space on each side |
| BookModel.TrimOneSpaceEachSide | src/models/Book.js:20 | one space on each side of an unpadded string is exactly what the setter removes |
| BookModel.IsbnCheckDigitXRefused | src/models/Book.js:21 | an ISBN-10 ending in the check digit `X` is refused |
| BookModel.IsbnHyphenRefused | src/models/Book.js:21 | a hyphen between digit groups makes the ISBN invalid |
| BookModel.FieldErrors | src/models/Book.js:4-42 | a create request has no failing path exactly when: title, author and genre are non-empty after trimming; the ISBN matches the pattern; the publication date is present; both copy counts are present and non-negative |
| BookModel.Clamp | src/models/Book.js:55-60 | the pre-save hook lowers the available copies to the total when they exceed it, and changes nothing else |
| BookModel.ClampIdempotent | src/models/Book.js:56-58 | the hook leaves alone a book whose copies already fit, so running it twice equals running it once |
| BookModel.StoredErrors | src/models/Book.js:4-42 | a stored document has no failing path exactly when it satisfies every validator of the schema |
| BookModel.Save | src/models/Book.js:55-60 | `save()` fails exactly on a document that breaks a validator; otherwise it stores the clamped document, which is well formed |
| BookModel.Create | src/models/Book.js:3-60 | `Book.create` fails with exactly the failing paths. On success the book has the new id and creation time, is active, holds the trimmed strings, the publication date, the total given and the trimmed description when one is given, and its available copies are clamped to the total |
| BookModel.CreatedStringsValid | src/models/Book.js:4-32 | a created book's text fields are already trimmed, non-empty, and its ISBN matches the pattern |
| BookModel.CreatedCountsValid | src/models/Book.js:33-42 | a created book has 0 <= available <= total, with the requested available count kept when it fits |
| BookModel.CreatedIsWellFormed | src/models/Book.js:3-60 | every created book is schema-valid with its available copies within its total |
| BorrowingModel.WithDefaults | src/models/Borrowing.js:16-39 | a new document gets borrow date now (unless given), no return date, status `borrowed` and fine 0, keeping the caller's other fields |
| BorrowingModel.DueDateHook | src/models/Borrowing.js:46-51 | the hook sets the due date to borrow date plus 14 days only on a new document without one, and changes nothing else |
| BorrowingModel.FieldErrors | src/models/Borrowing.js:4-39 | a document validates exactly when user, book and due date are present and the fine is not negative |
| BorrowingModel.CreateAsWritten | src/models/Borrowing.js:21-24 | with validation before pre-save hooks, as Mongoose runs them, a create without a due date always fails on the `dueDate` path |
| BorrowingModel.Create | src/models/Borrowing.js:46-51 | with the intended default, a create succeeds exactly when user and book are given. The record is `borrowed` with no fine and no return date, takes the given due date, and otherwise is due 14 days after it was borrowed |
| BorrowingModel.CreateAgreesWhenDueGiven | src/controllers/borrowingController.js:39-44 | when the caller supplies the due date, as the borrow operation does, the as-written and the intended create are the same |
| BorrowingModel.DueDateDefaultNeverApplies | src/models/Borrowing.js:46-51 | a concrete request without a due date is refused as written but accepted, due 14 days on, by the intended create |
| BorrowingModel.CreatedIsWellFormed | src/models/Borrowing.js:29-39 | every created record obeys the schema and the lifecycle (fine not negative, never `overdue`, return date exactly for returned records) |
| Catalog.AddBookFields | src/controllers/bookController.js:7-16 | `addBook` creates the book with the available copies equal to the total copies, whatever the request held |
| Catalog.AddedBookFullyAvailable | src/controllers/bookController.js:7-16 | a book that `addBook` creates is active with every copy available |
| Catalog.StripAvailable | src/controllers/bookController.js:33-35 | `updateBook` deletes any `availableCopies` from the update and keeps the rest |
| Catalog.UpdateErrors | src/controllers/bookController.js:37-41 | with `runValidators`, an update fails exactly when one of the paths it sets fails its validator |
| Catalog.ApplyUpdate | src/controllers/bookController.js:37-41 | `findByIdAndUpdate` keeps id and creation time. Each other path takes the update's value when the update sets it, through the trim setter for the string paths, and keeps its old value otherwise. An empty update changes nothing |
| Catalog.ApplyUpdateValid | src/controllers/bookController.js:37-41 | an update that passed validation keeps a schema-valid book schema-valid |
| Catalog.UpdateKeepsAvailable | src/controllers/bookController.js:33-35 | a catalog update never changes the available copies |
| Catalog.UpdateCanExceedTotal | src/controllers/bookController.js:37-41 | a valid update that lowers the total copies is not clamped, and can leave more available copies than the total |
| Catalog.FindActive | src/controllers/bookController.js:132 | the lookup returns a stored active book with that id, and fails only when there is none |
| Catalog.FindActiveIndexed | src/controllers/bookController.js:132 | on an indexed collection the lookup is the book at that position, when it is active |
| Catalog.GetBook | src/controllers/bookController.js:128-139 | `getBook` succeeds exactly when an active book has that id, and otherwise answers "Book not found"; the public GraphQL `getBook` (src/graphql/resolvers/bookResolvers.js:34-40) is the same lookup |
| Catalog.ListOrder | src/controllers/bookController.js:90-107 | the listing holds exactly the stored books matching the filter (active, genre, author, search), each as often as it is stored, and no other book, newest first |
| Catalog.ListBooks | src/controllers/bookController.js:86-122 | a page is the window of `limit` books after the first `(page - 1) * limit` of the newest-first listing, so it holds at most `limit` matching books, newest first. Its pagination counts every match, with `Math.ceil(total / limit)` pages; the public GraphQL `listBooks` (src/graphql/resolvers/bookResolvers.js:4-32) computes the same |
| Catalog.EveryMatchOnSomePage | src/controllers/bookController.js:101-117 | every matching book appears on some page numbered within the reported page count |
| Catalog.AppendKeepsStored | src/models/Book.js:19 | adding a valid book with the next id and an unused ISBN keeps the stored-collection invariant |
| Catalog.ReplaceKeepsStored | src/models/Book.js:19 | overwriting a book by a valid one whose ISBN no other book holds keeps the stored-collection invariant |
| Catalog.OwnIsbnNotTaken | src/models/Book.js:19 | under the unique index, no other book holds a stored book's ISBN |
| Catalog.BookStore.constructor | src/models/Book.js:64 | the collection starts empty and valid |
| Catalog.BookStore.AddBook | src/controllers/bookController.js:3-26 | invalid fields or a taken ISBN leave the store unchanged with that error. Otherwise the created, fully available book is appended, and the invariant is kept |
| Catalog.BookStore.UpdateBook | src/controllers/bookController.js:28-58 | in order: invalid fields, then an unknown id ("Book not found"), then a taken ISBN each leave the store unchanged. Otherwise only that book is replaced by the update without `availableCopies`, and the invariant is kept |
| Catalog.BookStore.SaveBook | src/models/Book.js:55-60 | saving a changed document stores its clamped form, or on a validation failure leaves the store unchanged |
| Catalog.BookStore.DeleteBook | src/controllers/bookController.js:60-84 | an unknown id is "Book not found". Otherwise only `isActive` of that book is cleared, even on a book already deleted |
| Circulation.DaysLate | src/controllers/borrowingController.js:83-86 | the days late are the started days past the due date, `Math.ceil` of the millisecond ratio, and zero exactly when not late |
| Circulation.LateFine | src/controllers/borrowingController.js:83-88 | the fine is zero exactly when not strictly late, a multiple of five, and five per started day |
| Circulation.LateFineExamples | src/controllers/borrowingController.js:83-88 | returning on time costs 0; one millisecond or a full day late costs 5; one day and a millisecond costs 10; 16 days after borrowing costs 15 |
| Circulation.LateFineMonotone | src/controllers/borrowingController.js:83-88 | a later return never costs less |
| Circulation.CountBorrowed | src/controllers/borrowingController.js:46-93 | the number of `borrowed` records of a book never exceeds the number of records |
| Circulation.CountAppend | src/controllers/borrowingController.js:39-44 | appending a record adds exactly its own contribution to a book's count |
| Circulation.CountUpdate | src/controllers/borrowingController.js:79-90 | overwriting a record swaps its contribution for the new one's |
| Circulation.CountPositive | src/controllers/borrowingController.js:90-94 | a book with a `borrowed` record has at least one copy out |
| Circulation.FindLoan | src/controllers/borrowingController.js:66-70 | the return lookup finds a `borrowed` record with that id owned by the caller, and fails only when there is none |
| Circulation.FindLoanIndexed | src/controllers/borrowingController.js:66-77 | on a valid ledger the lookup is the record at that position, when the caller owns it and it is still borrowed |
| Circulation.NewLoan | src/controllers/borrowingController.js:39-44 | the new record is the caller's, for the book, borrowed now, due 14 days on, `borrowed` with no fine, and well formed |
| Circulation.TakeCopy | src/controllers/borrowingController.js:46-47 | one copy fewer followed by `save()` passes validation. It changes only the available copies, clamped to the total |
| Circulation.PutCopyBack | src/controllers/borrowingController.js:92-94 | one copy more followed by `save()` passes validation. It changes only the available copies, clamped to the total |
| Circulation.Settled | src/controllers/borrowingController.js:79-88 | a returned record is stamped with the return time and `returned`, and fined only when strictly late |
| Circulation.BorrowStep | src/controllers/borrowingController.js:10-47 | the guards refuse in order, each changing nothing, each exactly when its condition holds: no active book ("Book not found"), then no copy left, then an open loan of that book. Otherwise the new loan is appended and the book loses a copy |
| Circulation.ReturnStep | src/controllers/borrowingController.js:66-94 | a return fails, changing nothing, exactly when the caller has no such open record. Otherwise the record is settled and its book, even a soft-deleted one, gets a copy back |
| Circulation.BorrowStepOk | src/controllers/borrowingController.js:39-47 | once the three guards pass, the borrow's outcome is that new loan and that one-copy change |
| Circulation.ReturnStepOk | src/controllers/borrowingController.js:79-94 | once the lookup succeeds, the return's outcome is the settled record and the copy given back |
| Circulation.TakeThenPutBack | src/controllers/borrowingController.js:92-94 | taking a copy and putting it back restores a book whose copies were within its total |
| Circulation.OpenLoanUnique | src/controllers/borrowingController.js:26-37 | on a valid ledger, a member's distinct open loans are for distinct books |
| Circulation.CopyChangeKeepsStored | src/controllers/borrowingController.js:46-47 | writing back a book changed only in its copies keeps the stored-collection invariant |
| Circulation.AppendLoanKeepsLedger | src/controllers/borrowingController.js:26-44 | appending a well-formed new loan that the member does not already hold keeps the ledger valid |
| Circulation.BorrowKeepsValid | src/controllers/borrowingController.js:5-59 | a borrow keeps the stored books and the ledger valid, so it never writes `overdue` |
| Circulation.ReturnKeepsValid | src/controllers/borrowingController.js:61-106 | a return keeps the stored books and the ledger valid |
| Circulation.BorrowTakesOneCopy | src/controllers/borrowingController.js:46-47 | from a consistent library, a successful borrow takes exactly one copy of that book and leaves every other book alone |
| Circulation.BorrowConserves | src/controllers/borrowingController.js:39-47 | a borrow keeps every book's copies out equal to its open loans |
| Circulation.ReturnConserves | src/controllers/borrowingController.js:79-94 | a return keeps every book's copies out equal to its open loans |
| Circulation.ReturnGivesOneCopy | src/controllers/borrowingController.js:92-94 | from a consistent library, a successful return gives exactly one copy back to the record's book and leaves every other book alone |
| Circulation.SecondReturnFails | src/controllers/borrowingController.js:66-77 | returning the same record again fails and changes nothing |
| Circulation.SecondBorrowFails | src/controllers/borrowingController.js:26-37 | right after a borrow, the same member cannot borrow the same book again |
| Circulation.BorrowThenReturn | src/controllers/borrowingController.js:5-106 | a borrow followed by its return restores every book, leaves the settled record, and lets the member borrow the book again |
| Circulation.ReturnAfterBorrow | src/controllers/borrowingController.js:5-106 | returning the loan a borrow just created succeeds with the settled record, and the books end as they were before the borrow |
| Circulation.SettledNoOpenLoan | src/controllers/borrowingController.js:26-37 | appending a settled record leaves the member with no open loan of the book, so the duplicate-loan check passes again |
| Circulation.BorrowingLedger.constructor | src/models/Borrowing.js:53 | the ledger starts without records, a valid ledger over any number of books |
| Circulation.BorrowingLedger.Borrow | src/controllers/borrowingController.js:5-59 | the result, the new books and the new records are exactly the borrow step's outcome on the old state, and the invariant is kept |
| Circulation.BorrowingLedger.Return | src/controllers/borrowingController.js:61-106 | the result, the new books and the new records are exactly the return step's outcome on the old state, and the invariant is kept |
| Circulation.Matching | src/controllers/borrowingController.js:113-124 | the query result holds exactly the matching records, each as often as stored, newest borrow first |
| Circulation.Borrowings | src/controllers/borrowingController.js:116-137 | a page is the window of `limit` records after the skipped ones of the newest-borrow-first matching records, so at most `limit` matching records, in order. Its pagination counts every match |
| Circulation.History | src/controllers/borrowingController.js:108-142 | a history page is the page window of the caller's records of the status asked for, newest first: only those, at most `limit`. Its pagination counts all of them |
| Circulation.AllBorrowings | src/controllers/borrowingController.js:144-179 | the all-records listing is the page window of the records passing the optional member and status filters, newest first, and without filters counts every record |
| Circulation.HistoryIsFilteredListing | src/controllers/borrowingController.js:148-150 | a member's history equals the all-records listing filtered to that member |
| Circulation.EveryRecordOnSomePage | src/controllers/borrowingController.js:116-133 | every matching record appears on some page numbered within the reported page count |
| Accounts.FindByEmail | src/controllers/authController.js:8 | the lookup returns a stored user with that email, and fails only when no user has it |
| Accounts.FindById | src/graphql/context.js:14 | the lookup returns a stored user with that id, and fails only when no user has it |
| Accounts.FindByIdIndexed | src/graphql/context.js:14 | on an indexed collection, the lookup by id is the user at that position |
| Accounts.FindByEmailUnique | src/controllers/authController.js:40 | with unique emails, the lookup finds the one user holding the email |
| Accounts.FindByEmailAppend | src/controllers/authController.js:8-16 | after a registration, a lookup finds what it found before, or else the new user |
| Accounts.SessionFor | src/controllers/authController.js:58 | the token issued carries the user's id and stored role |
| Accounts.Login | src/graphql/resolvers/userResolvers.js:17-33 | login succeeds exactly for a stored, active user whose password compares equal, with a token for that user's id and role. The session's user is the one the email lookup finds. Every refusal is "Invalid credentials" |
| Accounts.InactiveNeverReachesPassword | src/controllers/authController.js:42-49 | for an inactive user the outcome does not depend on the password comparison |
| Accounts.RefusalsCollapse | src/controllers/authController.js:42-56 | an unknown email, an inactive user and a wrong password give the same refusal |
| Accounts.EmptyEmailFailsLookup | src/graphql/resolvers/userResolvers.js:17-22 | the GraphQL login, which has no presence check, refuses an empty email through its failed lookup |
| Accounts.RestLogin | src/controllers/authController.js:29-71 | the REST login refuses exactly a missing or empty email or password before any lookup, and otherwise is the shared login |
| Accounts.MissingFieldsBeforeLookup | src/controllers/authController.js:33-38 | with a field missing, every user collection gives the same answer |
| Accounts.NewUser | src/controllers/authController.js:16 | the registered user has the next id, the caller's fields and role, and is active |
| Accounts.RegisterThenLogin | src/controllers/authController.js:16-58 | logging in right after registering with the same credentials yields the registered user's session |
| Access.SelfRegisteredAdmin | src/controllers/authController.js:6-16 | `register` stores the role the request names, so an account registered as `Admin` passes the admin gate with a token for it |
| Accounts.UserStore.constructor | src/controllers/authController.js:1 | the user collection starts empty and valid |
| Accounts.UserStore.Register | src/controllers/authController.js:4-27 | a taken email changes nothing and is refused. Otherwise the new user is appended and a session issued for it, and unique emails are kept; the GraphQL `register` (src/graphql/resolvers/userResolvers.js:5-15) is the same operation |
| Access.Split | src/graphql/context.js:11 | `split(' ')` gives at least one piece, and no piece holds the separator |
| Access.SplitJoin | src/graphql/context.js:11 | joining the pieces with the separator gives the header back |
| Access.SplitAfterWord | src/graphql/context.js:11 | a separator-free word followed by the separator splits into that word and the pieces of the rest |
| Access.SplitOfSpaceFree | src/graphql/context.js:11 | a string without spaces is a single piece |
| Access.BearerToken | src/graphql/context.js:11 | the token is the second space-separated field and never holds a space |
| Access.BearerTokenOf | src/graphql/context.js:10-11 | after `Bearer `, the token is the text up to the next space, and a second space gives the empty token |
| Access.SchemeGivesToken | src/graphql/context.js:10-11 | a header starting with `Bearer ` always yields a token candidate |
| Access.CreateContext | src/graphql/context.js:4-24 | the context user exists exactly when a `Bearer ` header's token verifies and names a stored, active user, and is that user. Every other case is anonymous, never an error |
| Access.ContextRoleFromStore | src/graphql/context.js:12-18 | the context depends on the token only through the id it claims, so the role comes from the store |
| Access.ContextOnIndexedUsers | src/graphql/context.js:14-18 | on indexed users, the context is the active user at the claimed position |
| Access.RequireUser | src/graphql/resolvers/borrowingResolvers.js:7-9 | the user gate passes exactly an authenticated caller and otherwise refuses with "Authentication required" |
| Access.RequireAdmin | src/graphql/resolvers/borrowingResolvers.js:120-122 | the admin gate passes exactly a caller whose role string is `Admin` and otherwise refuses with "Admin access required" |
| Access.AdminGateStricter | src/graphql/resolvers/reportResolvers.js:61-63 | a member never passes the admin gate, and whoever passes it passes the user gate as the same user |
| Query.CeilDiv | src/controllers/borrowingController.js:133 | `Math.ceil(a / b)` is the least multiple count covering `a`, zero exactly for `a = 0` |
| Query.CeilDivLeast | src/controllers/borrowingController.js:133 | no smaller count covers the dividend |
| Query.CeilDivMonotone | src/controllers/borrowingController.js:133 | more records never give fewer pages |
| Query.Skip | src/controllers/borrowingController.js:116 | `(page - 1) * limit` is never negative for page >= 1 |
| Query.Paginate | src/controllers/borrowingController.js:131-136 | the pagination reports the total, the page and the limit. Its page count is the least number of `limit`-sized pages covering the total |
| Query.PageOf | src/controllers/borrowingController.js:119-123 | a page is the `limit` rows after the skipped ones, in their order, and empty past the end |
| Query.PageNonEmptyIff | src/controllers/borrowingController.js:116-133 | a page holds rows exactly when its number is within the reported page count |
| Query.RowOnPage | src/controllers/borrowingController.js:116-123 | the row at position `i` appears on page `i / limit + 1` at position `i % limit` |
| Query.PageSorted | src/controllers/borrowingController.js:119-123 | a page of an ordered result is ordered and holds rows of that result only |
| Query.Take | src/controllers/reportController.js:51-53 | `$limit` keeps the first `min(n, length)` rows, in order |
| Query.TakeSorted | src/controllers/reportController.js:48-53 | the rows kept by the cut of an ordered result stay ordered |
| Query.Filter | src/controllers/reportController.js:17 | a `$match` keeps exactly the rows meeting the condition |
| Query.FilterFilter | src/controllers/reportController.js:249-255 | two match conditions in a row are one match on their conjunction |
| Query.Distinct | src/controllers/reportController.js:18-23 | `$group` yields each key of the rows once, and nothing else |
| Query.SortDesc | src/controllers/borrowingController.js:123 | `$sort: -1` orders the rows by non-increasing key and keeps the same multiset of rows |
| Query.SortDescSameRows | src/controllers/reportController.js:48-50 | ordering keeps exactly the same rows |
| Query.SortDescKeysDistinct | src/controllers/reportController.js:48-50 | ordering rows whose keys are distinct leaves their keys distinct |
| Query.KeysDistinctPermutation | src/controllers/reportController.js:48-50 | any rearrangement of rows with distinct keys has distinct keys |
| Query.FilterKeysDistinct | src/controllers/reportController.js:249-255 | a `$match` over rows with distinct keys keeps them distinct |
| Query.SumDiff | src/controllers/reportController.js:150-152 | summing `totalCopies - availableCopies` equals the difference of the two sums |
| Query.Members | src/controllers/reportController.js:18-23 | a group holds exactly the rows with its key |
| Query.MembersMultiset | src/controllers/reportController.js:18-23 | a group holds each row with its key as often as the input does, and no other row |
| Query.GroupNonEmpty | src/controllers/reportController.js:18-23 | no group a `$group` reports is empty |
| Query.GroupSizesTotal | src/controllers/reportController.js:18-23 | every row lands in exactly one group, so the group sizes add up to the number of rows |
| Reports.Windowed | src/controllers/reportController.js:9-17 | the window keeps exactly the records borrowed within the given bounds, inclusive, each as often as it is stored, and everything when no bound is given |
| Reports.FindBook | src/controllers/reportController.js:26-35 | the `$lookup` finds a stored book with that id, active or not, and fails only when there is none |
| Reports.BookRowFor | src/controllers/reportController.js:18-46 | a book's row carries its details. The borrow count is the number of records of that book, and the unique-user count is the number of distinct users among them; it never exceeds the borrow count and is positive once the book was borrowed |
| Reports.BookRows | src/controllers/reportController.js:18-46 | the lookup gives at most one row per grouped id |
| Reports.BookRowsRanked | src/controllers/reportController.js:18-46 | over grouped ids that each have a record, every row is a stored, borrowed book's ranked row |
| Reports.BookRowsCover | src/controllers/reportController.js:18-46 | every grouped id whose book exists has its row; only ids with no stored book are dropped |
| Reports.BookRowsOnePerId | src/controllers/reportController.js:18-46 | over distinct grouped ids, the lookup gives each row the id of one of the groups, and no id two rows |
| Reports.RankedBooks | src/controllers/reportController.js:16-50 | the ranking is by non-increasing borrow count, every row belongs to a stored book over the windowed records, and no book id has two rows |
| Reports.MostBorrowed | src/controllers/reportController.js:16-54 | `getMostBorrowedBooks` is the first `min(limit, n)` rows of the ranking, ordered, each a ranked row, no book id twice |
| Reports.MostBorrowedKeepsTop | src/controllers/reportController.js:48-53 | no book left out by the cut was borrowed more often than one kept |
| Reports.RankedIncludesEveryBorrowedBook | src/controllers/reportController.js:18-35 | every stored book with a record in the window is ranked, with all of its windowed records counted |
| Reports.BookGroupsCoverWindow | src/controllers/reportController.js:18-23 | before the lookup, the group counts account for every windowed record exactly once |
| Reports.WithStatus | src/controllers/reportController.js:82-91 | a status count counts exactly the group's records with that status, so it never exceeds the group |
| Reports.StatusCountsPartition | src/controllers/reportController.js:82-91 | the counts by the three statuses add up to the total |
| Reports.MemberRowFor | src/controllers/reportController.js:78-117 | a member's row carries the user's details. Over that user's records, the total is their number, returned and borrowed are the numbers with each status, the fines total is the sum of their fines, and the unique-book count is the number of distinct books. Returned plus borrowed never exceed the total, distinct books never exceed it, and the fines total is not negative when no fine is |
| Reports.MemberRows | src/controllers/reportController.js:96-106 | the lookup gives at most one row per grouped id |
| Reports.MemberRowsOfUsers | src/controllers/reportController.js:96-117 | every row is the row of a stored user over the records |
| Reports.MemberRowsCover | src/controllers/reportController.js:96-106 | every grouped id whose user exists has its row; only ids with no stored user are dropped |
| Reports.MemberRowsOnePerId | src/controllers/reportController.js:96-106 | over distinct grouped ids, the lookup gives each row the id of one of the groups, and no id two rows |
| Reports.RankedMembers | src/controllers/reportController.js:76-122 | the ranking is by non-increasing total borrowings, every row belongs to a stored user over the windowed records, and no user id has two rows |
| Reports.ActiveMembers | src/controllers/reportController.js:65-126 | `getActiveMembers` is the first `min(limit, n)` rows of the ranking, ordered, each a stored user's row, no user id twice, with returned plus borrowed within the total |
| Reports.ActiveMembersKeepsTop | src/controllers/reportController.js:120-125 | no member left out by the cut borrowed more often than one kept |
| Reports.RankedIncludesEveryActiveMember | src/controllers/reportController.js:78-106 | every stored user with a record in the window is ranked, with all of their windowed records counted |
| Reports.StatsOf | src/controllers/reportController.js:145-153 | the totals count the books, and the borrowed copies are the total less the available ones; no books give all zeros |
| Reports.ActiveBooks | src/controllers/reportController.js:141-143 | the `$match` keeps exactly the active books |
| Reports.Availability | src/controllers/reportController.js:137-226 | the summary is the totals over the active books, all zeros when none is active. Active borrowings are the number of `borrowed` records, and overdue borrowings the number of `borrowed` records due before now. Overdue never exceeds active borrowings, which never exceed the records; both are zero when nothing is borrowed |
| Reports.BorrowedCopiesAreOpenLoans | src/controllers/reportController.js:145-153 | on a consistent library, the summary's borrowed copies are exactly the open loans of the active books, and 0 <= available <= total |
| Reports.OpenLoansSum | src/controllers/reportController.js:150-152 | per-book borrowed copies that agree with the open loans add up to them |
| Reports.GenreRows | src/controllers/reportController.js:183-200 | each genre's row holds the totals over that genre's books, in the order of the genres |
| Reports.GenreGroups | src/controllers/reportController.js:178-210 | the genres are distinct, each row counts at least one book and holds the totals over the active books of its genre, and every active book's genre has a row |
| Reports.GenreRowBook | src/controllers/reportController.js:179-185 | every genre row is the genre of some active book |
| Reports.GenreRowsNonEmpty | src/controllers/reportController.js:183-191 | each grouped genre's row counts at least one book |
| Reports.GenreRowsCover | src/controllers/reportController.js:179-191 | every active book's genre has its row |
| Reports.GenreRowOf | src/controllers/reportController.js:183-191 | a grouped book's genre has its row |
| Reports.GenreGroupsCoverActive | src/controllers/reportController.js:178-191 | the genre rows' book counts add up to the number of active books, each book in its own genre only |
| Reports.GenreRowsSum | src/controllers/reportController.js:183-185 | the book counts of the genre rows are the group sizes of their genres |
| Reports.GenreBreakdown | src/controllers/reportController.js:178-214 | the breakdown is the genre rows ordered by non-increasing book count, none added or lost. It reports every genre, also one whose copies add up to zero |
| Reports.GenreBreakdownAsWritten | src/controllers/reportController.js:194-210 | the pipeline as written fails exactly when some active book's genre holds no copies in total. Otherwise it answers the breakdown, every row with a non-zero copy total |
| Reports.EmptyGenreFails | src/controllers/reportController.js:183-206 | a grouped row has a zero copy total exactly when some active book's genre holds no copies |
| Reports.EmptyRowHasBook | src/controllers/reportController.js:183-206 | a grouped row with a zero copy total names the genre of an active book whose genre holds no copies |
| Reports.EmptyBookHasRow | src/controllers/reportController.js:183-206 | an active book whose genre holds no copies gives a grouped row with a zero copy total |
| Reports.BreakdownKeepsCopies | src/controllers/reportController.js:211-213 | ordering the genre rows keeps every row's copy total |
| Reports.ZeroCopyGenreFails | src/controllers/reportController.js:201-206 | one active book with no copies makes the pipeline as written fail, while the corrected breakdown reports its genre with one book and no copies |
| Reports.OneGenreGroups | src/controllers/reportController.js:178-191 | one active book groups into its own genre alone |
| Reports.OverdueRowFor | src/controllers/reportController.js:279-315 | a row carries the record's id, user, book and due date. Its days overdue are the started days past the due date, at least one, and its potential fine is that many times the daily fine, which is what a return now would record |
| Reports.OverdueRows | src/controllers/reportController.js:256-316 | every row is a projection, there are no more rows than overdue records, and no row is dropped when every user and book is stored |
| Reports.OverdueRowsCover | src/controllers/reportController.js:257-316 | every overdue record whose user and book are stored has its projected row; `$unwind` drops only the others |
| Reports.OverdueRowsOfRecords | src/controllers/reportController.js:257-316 | every row is the projection of one of the records, with its stored user and book |
| Reports.OverdueRowsOnePerLoan | src/controllers/reportController.js:257-316 | records with distinct ids give rows with distinct ids, each the id of one of the records |
| Reports.OverdueRecords | src/controllers/reportController.js:250-255 | the `$match` keeps exactly the `borrowed` records due strictly before now |
| Reports.OverdueBooks | src/controllers/reportController.js:247-328 | `getOverdueBooks` lists, most days overdue first, the projected row of every overdue record whose user and book are stored, and only such rows; loan ids are not repeated when the records' ids are distinct; `totalOverdue` is their number |
| Reports.OverdueReportCovers | src/controllers/reportController.js:249-319 | after the `$sort`, every overdue record with a stored user and book still has its row |
| Reports.OverdueReportOrigins | src/controllers/reportController.js:249-319 | after the `$sort`, every row is still the projection of one of the stored records |
| Reports.OverdueReportOnePerLoan | src/controllers/reportController.js:249-319 | after the `$match` and the `$sort`, distinct record ids still give one row per loan |
| Reports.OverdueRowsFromRecords | src/controllers/reportController.js:279-292 | on records indexed by id, each row is the projection of the record its id names |
| Reports.OverdueRowsAreProjections | src/controllers/reportController.js:247-320 | every reported row is the projection of the overdue record with that id, with its stored user and book |
| Reports.OverdueListMatchesSummary | src/controllers/reportController.js:156-172 | the overdue list never shows more loans than the availability summary counts as overdue, and exactly as many when every user and book is stored |
| GraphQL.AddBook | src/graphql/resolvers/bookResolvers.js:42-61 | a non-admin is refused with the store unchanged; an admin gets exactly the REST `addBook` behaviour |
| GraphQL.UpdateBook | src/graphql/resolvers/bookResolvers.js:63-82 | a non-admin is refused with the store unchanged; an admin gets the REST `updateBook` behaviour, and the available copies never change |
| GraphQL.DeleteBook | src/graphql/resolvers/bookResolvers.js:84-96 | a non-admin is refused with the store unchanged; an admin soft-deletes exactly that book and is answered `true`, or "Book not found" |
| GraphQL.BorrowBook | src/graphql/resolvers/borrowingResolvers.js:6-46 | an anonymous caller is refused with nothing changed. Otherwise the stores change exactly as the borrow step on the caller's id says, with its error wrapped |
| GraphQL.ReturnBook | src/graphql/resolvers/borrowingResolvers.js:48-85 | an anonymous caller is refused with nothing changed. Otherwise the stores change exactly as the return step on the caller's id says |
| GraphQL.BorrowGuardsAsRest | src/graphql/resolvers/borrowingResolvers.js:13-38 | the resolver's three refusals happen exactly where the controller's do, and a created loan is due 14 days on, `borrowed`, with no fine |
| GraphQL.BorrowingHistory | src/graphql/resolvers/borrowingResolvers.js:87-117 | refused exactly for an anonymous caller. Otherwise it is the page window of the caller's own records of the status asked for, newest first, at most `limit`, counting all of them |
| GraphQL.AllBorrowings | src/graphql/resolvers/borrowingResolvers.js:119-149 | refused exactly for a non-admin. Otherwise it is the page window of the records matching the filters, counting every record when there are none |
| GraphQL.MemberCannotListAll | src/graphql/resolvers/borrowingResolvers.js:120-122 | a member never gets the all-records listing, whatever it asks for |
| GraphQL.AdminListingIsMemberHistory | src/graphql/resolvers/borrowingResolvers.js:124-126 | an admin filtering by one member gets exactly that member's own history |
| GraphQL.GetProfile | src/graphql/resolvers/userResolvers.js:35-40 | the profile is the context user, unchanged, and an anonymous caller is refused |
| GraphQL.ProfileOfValidToken | src/graphql/resolvers/userResolvers.js:35-39 | with a verified bearer token, the profile is the stored, active user the token names, and otherwise a refusal |
| GraphQL.MostBorrowedBooks | src/graphql/resolvers/reportResolvers.js:5-58 | refused exactly for an anonymous caller. Otherwise at most `limit` ranked rows, most borrowed first, no book id twice |
| GraphQL.ActiveMembers | src/graphql/resolvers/reportResolvers.js:60-125 | refused exactly for a non-admin. Otherwise at most `limit` rows, most borrowings first, no user id twice, status counts within the total |
| GraphQL.BookAvailability | src/graphql/resolvers/reportResolvers.js:127-229 | refused exactly for an anonymous caller. Otherwise the summary's guarantees hold and the breakdown is the corrected genre breakdown, ordered by book count |
| GraphQL.OverdueBooks | src/graphql/resolvers/reportResolvers.js:231-306 | refused exactly for a non-admin. Otherwise, most days overdue first, the projected row of every overdue record with a stored user and book and only such rows, no loan id twice when record ids are distinct, with the total equal to their number |
| GraphQL.RefusalReadsNothing | src/graphql/resolvers/reportResolvers.js:6-8 | a refused query gives the same answer whatever the stores hold |
| GraphQL.QueriesAgreeWithRest | src/graphql/resolvers/reportResolvers.js:17-55 | past its gate, every query resolver answers exactly what the matching REST controller computes |

## Left out

- Token signing and verification (`config/jwt.js`) are the parameters `issue` and `verify`. `verify` returns `None` for a malformed, forged or expired token, as the thrown error of `verifyToken` collapses into an anonymous context.
- Password hashing is not modelled. The User model is not part of this model: the stored secret is the password as given, and `comparePassword` is the parameter `passwordOk`.
- Accounts.NewUser: the User model is not part of this model. Registration is taken to store an active user with the role given, and the User model's own validators and role default are not modelled.
- The case-insensitive regular-expression filters of `listBooks` (`new RegExp(author, 'i')`, the `search` alternative) are the parameter `matches`. Regular-expression syntax is not modelled.
- `parseInt` of query strings, `NaN`, and a zero or negative `limit` are not modelled. Listings require `page >= 1` and `limit >= 1`, and the reports require `limit >= 1`. The GraphQL resolvers use `limit` unparsed, which the integer model does not distinguish.
- Dates are integer milliseconds, and one `now` stands for every `new Date()` of a request. Parsing `startDate`/`endDate` strings is not modelled.
- The order among rows with equal sort keys is not part of any contract. MongoDB does not fix it either.
- `utilizationRate` is floating point (`toFixed(2)`, a string on REST and a number on GraphQL) and is left out of the summary and the genre rows.
- `populate(...)`, `.select('-password')`, `.select('+password')` and `toJSON()` only shape the response and are not modelled. The REST pagination field `totalBooks` of `listBooks` and the GraphQL `totalRecords` carry the same count and are not distinguished.
- The HTTP layer, the status codes, the route wiring and the Express authentication middleware are not modelled. The REST caller arrives as an authenticated user id.
- Concurrency is not modelled, including two borrows racing on one copy. Every operation runs atomically, one after another.
- Catalog.BookStore.UpdateBook: lowering `totalCopies` by an update is not clamped (`findByIdAndUpdate` skips the pre-save hook). The model keeps this as written, shown by `Catalog.UpdateCanExceedTotal`, so the store invariant does not include `available <= total`.
- The unique indexes on `isbn` and on the user `email` are invariants of `BookStore` and `UserStore` rather than a database error path raised by MongoDB.
- `updatedAt` is not modelled. `description` is carried and trimmed, and has no other effect on the core.
- Who may register as `Admin` is not restricted. The model keeps `register` as written: the role comes from the request, as `Access.SelfRegisteredAdmin` shows.
- Copy counts, fines and days are integers. The REST body of `addBook` accepts any `Number`, so a fractional `totalCopies` such as `0.5` passes the `min: 0` validator (src/models/Book.js:33-42); such values are not modelled. The GraphQL schema types these fields `Int!`, which excludes them.
- Catalog.ListBooks: the public GraphQL `listBooks` and `getBook` take no gate, and are the same functions as the REST ones.

## Findings

| source | as written | input that shows it | evidently intended | confidence | as-written member | corrected member |
|---|---|---|---|---|---|---|
| src/models/Borrowing.js:46-51 | the due-date default is set in a `pre('save')` hook, but Mongoose validates before `save` hooks run, so the `required` check on `dueDate` (src/models/Borrowing.js:21-24) always fails first for a record without one | `BorrowingFields(user 1, book 2, borrowDate 0, no dueDate)` is refused on `dueDate` | the default applies before validation (for example in a `pre('validate')` hook), so the record is due 14 days after it was borrowed | not executed | BorrowingModel.CreateAsWritten (shown by BorrowingModel.DueDateDefaultNeverApplies) | BorrowingModel.Create (agreeing with the as-written create by BorrowingModel.CreateAgreesWhenDueGiven) |
| src/controllers/reportController.js:194-210 | the genre `$project` divides the borrowed copies by the copy total with no guard, although the summary guards the same division (src/controllers/reportController.js:235) and the schema allows `totalCopies` 0 (src/models/Book.js:33-37). The GraphQL resolver repeats the pipeline (src/graphql/resolvers/reportResolvers.js:183-199) | one active book with `totalCopies` 0: MongoDB refuses the `$divide` by zero, so the whole availability report fails | a genre with no copies is reported, with utilization 0 as the summary does | not executed | Reports.GenreBreakdownAsWritten (shown by Reports.ZeroCopyGenreFails) | Reports.GenreBreakdown (used by GraphQL.BookAvailability) |
