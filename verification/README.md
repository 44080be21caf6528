# Library loan engine in Dafny

This project models the loan engine of a library backend (a Kotlin/Spring
service) together with the user and book registries it consults. One store
holds users, books and loans. Loans refer to users and books by id.

Each loan is a small state machine. It is created open, issued today and due
15 days later. Returning the book closes it: without a fine when it comes back
on or before the due date, otherwise with an OPENED fine of 200 cents per
overdue day. Paying an OPENED fine replaces it with a PAID fine of the same
value. A book is available when none of its loans is open. Creating a loan runs
its checks in a fixed order: unknown user, loan limit, unknown book, book
already out.

Modules, one per source file or component:

- `Wrappers` (wrappers.dfy): the `Option` type used for the source's nullable values.
- `Exceptions` (exceptions.dfy): the error kinds as one closed datatype, their
  NotFound and BadRequest families, the HTTP status the handler picks per
  family, and the `ErrorCode` default messages.
- `Domain` (domain.dfy): the `User`, `Book`, `Loan`, `Fine` and `FineStatus`
  records. `User.loans` is derived from the loan store as `UserLoans`.
- `Repositories` (repositories.dfy): class `Store`, the three repositories as
  two maps and a sequence, plus the loan-id counter. Its `Valid()` states the
  store invariants: entities are keyed by their own id, documentIds are unique,
  loan ids are unique, and every loan refers to a stored user and book.
- `UserService`, `BookService`, `LoanService`: each operation that reads is a
  function over the store's values. Each operation that saves is a method that
  modifies the `Store`. The loan service also keeps `LoansConsistent`: at most
  one open loan per book, every loan due 15 days after issue, and a fine that
  matches the return date. Its methods do not demand this of the store they
  are given, since the code does not, but each keeps it when it held before.
- `Scenarios` (scenarios.dfy): client walkthroughs that reason through the
  method contracts alone. They cover a registration with a duplicate
  documentId, a second request for a borrowed book, and a late return whose
  fine is paid once and whose second payment is refused.

Dates are whole day numbers, and the current day is the parameter `today`.
Fine values are whole cents. User and book ids are given by the caller, as the
source's entities carry their own generated id. Loan ids are taken from a
counter.

The model follows the code in these points:

- `create` checks the loan limit before it looks the book up. A missing book
  therefore surfaces only for a user below the limit.
- `returnBook` on an unregistered book fails with BookNotFound, because it
  looks the book up first.
- The loan limit counts every loan of the user, open or closed.
- UserReachedLoanLimit belongs to the BadRequest family (400), as
  Exceptions.kt declares it.

## Model

| member | source | states |
|---|---|---|
| `Exceptions.FamiliesPartition` | src/main/kotlin/com/example/library/exception/Exceptions.kt:5-17 | every error kind is in exactly one of NotFound and BadRequest |
| `Exceptions.HttpStatus` | src/main/kotlin/com/example/library/rest/ExceptionHandler.kt:18-24 | status 404 exactly for the NotFound family and 400 exactly for the BadRequest family |
| `Exceptions.DefaultMessage` | src/main/kotlin/com/example/library/exception/Exceptions.kt:5-25 | the kinds declared in Exceptions.kt, and only they, have a default message (their ErrorCode constant); the three kinds not declared there have none |
| `Exceptions.MessagesIdentifyErrors` | src/main/kotlin/com/example/library/exception/Exceptions.kt:19-25 | two kinds with the same default message are the same kind, so the response body identifies the error |
| `Domain.UserLoans` | src/main/kotlin/com/example/library/domain/User.kt:14-16 | User.loans holds only loans of this user and is never longer than the store |
| `Domain.UserLoansContents` | src/main/kotlin/com/example/library/domain/User.kt:14-16 | User.loans holds exactly the stored loans whose user is this user |
| `Domain.UserLoansAppend` | src/main/kotlin/com/example/library/domain/User.kt:14-16 | saving a new loan appends it to its own user's list and to no other list |
| `Domain.UserLoansUpdate` | src/main/kotlin/com/example/library/domain/User.kt:14-16 | updating a loan in place (same user) leaves every user's loan count unchanged |
| `Domain.UserLoansCountsEveryLoan` | src/main/kotlin/com/example/library/service/UserService.kt:33 | the size of User.loans equals the number of store positions holding a loan of that user, whatever its return date or fine |
| `Repositories.Store.constructor` | src/main/kotlin/com/example/library/repository/LoanRepository.kt:6 | an empty store satisfies the store invariants |
| `UserService.DocumentIdExists` | src/main/kotlin/com/example/library/service/UserService.kt:15-20 | the lookup by documentId over the index of registered documentIds succeeds exactly when some stored user holds that documentId |
| `UserService.Create` | src/main/kotlin/com/example/library/service/UserService.kt:22-27 | fails with UserAlreadyExists exactly when the documentId is registered, leaving the store unchanged; otherwise saves the user under its id and returns it; keeps documentIds unique |
| `UserService.InsertKeepsDocumentIdsUnique` | src/main/kotlin/com/example/library/domain/User.kt:8 | inserting a user whose documentId is unregistered keeps documentIds unique, and the documentId is then registered |
| `UserService.SecondRegistration` | src/main/kotlin/com/example/library/service/UserService.kt:15-27 | after one registration, a second is refused exactly when its documentId equals the first one's |
| `UserService.FindById` | src/main/kotlin/com/example/library/service/UserService.kt:29-30 | returns the stored user, or UserNotFound when the id is absent |
| `UserService.FindAfterCreate` | src/main/kotlin/com/example/library/service/UserService.kt:26-30 | a saved user is found under its id; lookups of other ids are unchanged |
| `UserService.GetUserLoansSize` | src/main/kotlin/com/example/library/service/UserService.kt:33 | UserNotFound for an unknown user; otherwise the number of the user's stored loans, open and closed |
| `UserService.CanLoanBook` | src/main/kotlin/com/example/library/service/UserService.kt:35-40 | UserNotFound for an unknown user; otherwise true exactly when the user's loan count is below USER_LOAN_LIMIT |
| `Domain.NewBook` | src/main/kotlin/com/example/library/domain/Book.kt:9-17 | a book built with the record's defaults keeps its id and has its stored available flag true |
| `BookService.Create` | src/main/kotlin/com/example/library/service/BookService.kt:13 | always succeeds, saves the book under its id, returns it, and changes nothing else |
| `BookService.FindById` | src/main/kotlin/com/example/library/service/BookService.kt:15-16 | returns the stored book, or BookNotFound when the id is absent |
| `BookService.IsAvailable` | src/main/kotlin/com/example/library/service/BookService.kt:18 | BookNotFound for an unknown id; otherwise the book's stored flag |
| `BookService.FindAfterCreate` | src/main/kotlin/com/example/library/service/BookService.kt:13-18 | a book saved with the record's defaults is found under its id with its stored flag true; lookups of other ids are unchanged |
| `LoanService.StateOf` | src/main/kotlin/com/example/library/domain/Loan.kt:19-20 | a loan is open exactly when it has no return date, and closed without fine exactly when it has a return date and no fine |
| `LoanService.IsClosed` | src/main/kotlin/com/example/library/service/LoanService.kt:67 | isClosed holds exactly when the loan has left the open state |
| `LoanService.HasFine` | src/main/kotlin/com/example/library/service/LoanService.kt:69 | hasFine implies a fine whose status is OPENED; on a closed loan it holds exactly in the closed-with-OPENED-fine state |
| `LoanService.IsFineOpened` | src/main/kotlin/com/example/library/service/LoanService.kt:71 | a loan passes isFineOpened exactly in the closed-with-OPENED-fine state; open, closed-without-fine and closed-with-PAID-fine are refused |
| `LoanService.FineFor` | src/main/kotlin/com/example/library/service/LoanService.kt:42-45 | no fine when today - dueDate <= 0; otherwise an OPENED fine whose value is a positive multiple of 200 cents, and value / 200 is exactly the overdue days |
| `LoanService.FineGrowsWithLateness` | src/main/kotlin/com/example/library/service/LoanService.kt:42-45 | a later return never yields a smaller fine |
| `LoanService.Close` | src/main/kotlin/com/example/library/service/LoanService.kt:41-46 | the closed loan has today as return date, a fine exactly when today is past the due date, that fine OPENED with value (today - dueDate) x 200 cents, and every other field unchanged |
| `LoanService.Pay` | src/main/kotlin/com/example/library/service/LoanService.kt:56 | the paid loan has a PAID fine of the same value and every other field unchanged |
| `LoanService.CloseTransition` | src/main/kotlin/com/example/library/service/LoanService.kt:41-48 | an open well-formed loan has no fine; closing it sets returnedDate to today and moves it to closed-with-OPENED-fine of (today - dueDate) x 200 cents when late, otherwise to closed-without-fine, and keeps it well formed |
| `LoanService.ReclosingReopensFine` | src/main/kotlin/com/example/library/service/LoanService.kt:41-48 | closeLoan does not check the loan's state: re-closing a loan with a PAID fine on a late day gives it a new OPENED fine |
| `LoanService.PayTransition` | src/main/kotlin/com/example/library/service/LoanService.kt:52-57 | paying moves a loan from closed-with-OPENED-fine to closed-with-PAID-fine of the same value, after which it is no longer payable; well-formedness is kept |
| `LoanService.LoanIndex` | src/main/kotlin/com/example/library/service/LoanService.kt:36 | findByIdOrNull: the index of the first stored loan with the id, and none exactly when no stored loan has it |
| `LoanService.LoanIndexFrom` | src/main/kotlin/com/example/library/service/LoanService.kt:36 | the lookup by id finds the first stored loan with that id, or reports that no stored loan has it |
| `LoanService.LoanIndexStable` | src/main/kotlin/com/example/library/service/LoanService.kt:52-57 | saving a loan in place under the same id does not change where any id is found |
| `LoanService.FindById` | src/main/kotlin/com/example/library/service/LoanService.kt:36 | a stored loan with the id, or LoanNotFound exactly when no stored loan has that id |
| `LoanService.FindUserLoans` | src/main/kotlin/com/example/library/service/LoanService.kt:50 | UserNotFound for an unknown user; otherwise exactly the stored loans of that user, each as often as it is stored: its length is the number of store positions holding a loan of the user |
| `LoanService.FirstOpenLoanFrom` | src/main/kotlin/com/example/library/service/LoanService.kt:61 | the first open loan of the book in store order, or none when the book has no open loan |
| `LoanService.FindBookCurrentLoan` | src/main/kotlin/com/example/library/service/LoanService.kt:59-61 | BookNotFound for an unknown book; otherwise an open loan of the book, or none exactly when it has no open loan |
| `LoanService.IsBookAvailable` | src/main/kotlin/com/example/library/service/LoanService.kt:63 | BookNotFound for an unknown book; otherwise true exactly when no loan of the book is open |
| `LoanService.ValidateUserLoan` | src/main/kotlin/com/example/library/service/LoanService.kt:77-79 | passes exactly for a registered user below the limit; otherwise UserNotFound or UserReachedLoanLimit |
| `LoanService.ValidateBookLoan` | src/main/kotlin/com/example/library/service/LoanService.kt:73-75 | passes exactly for a registered book with no open loan; otherwise BookNotFound or BookIsNotAvailable |
| `LoanService.ValidateLoan` | src/main/kotlin/com/example/library/service/LoanService.kt:81-84 | the error order of create: UserNotFound, then UserReachedLoanLimit whatever the book, then BookNotFound, then BookIsNotAvailable, and none when all checks pass |
| `LoanService.CreateLoanEntity` | src/main/kotlin/com/example/library/service/LoanService.kt:22-29 | a registered user and book give an open loan without fine, issued today and due 15 days later, which is well formed; otherwise UserNotFound before BookNotFound |
| `LoanService.AppendKeepsConsistent` | src/main/kotlin/com/example/library/service/LoanService.kt:31-34 | saving a well-formed loan keeps at most one open loan per book, provided an open new loan's book had none |
| `LoanService.Create` | src/main/kotlin/com/example/library/service/LoanService.kt:31-34 | on a failed check, returns that check's error and changes nothing; otherwise appends exactly one loan with the given user and book, issued today, due today + 15, open and without fine, and returns it; users and books are unchanged; the store invariants hold, and the loan invariants hold afterwards whenever they held before |
| `LoanService.SecondCreateIsRejected` | src/main/kotlin/com/example/library/service/LoanService.kt:61-75 | after a successful create, the new loan counts toward its user's limit, and any registered user asking for the same book is refused: with UserReachedLoanLimit if at the limit, otherwise with BookIsNotAvailable |
| `LoanService.CloseKeepsConsistent` | src/main/kotlin/com/example/library/service/LoanService.kt:41-48 | closing any stored loan keeps at most one open loan per book and every loan well formed |
| `LoanService.CloseLoan` | src/main/kotlin/com/example/library/service/LoanService.kt:41-48 | replaces the stored loan by its closed form and returns it; nothing else changes; the store invariants hold, and the loan invariants hold afterwards whenever they held before |
| `LoanService.ReturnBook` | src/main/kotlin/com/example/library/service/LoanService.kt:38-39 | BookNotFound for an unknown book and BookIsNotBorrowed for a book with no open loan, both leaving the store unchanged; otherwise closes that open loan and changes no other loan; the store invariants hold, and the loan invariants hold afterwards whenever they held before |
| `LoanService.ReturnedBookIsAvailable` | src/main/kotlin/com/example/library/service/LoanService.kt:38-63 | after the book's open loan is closed, the book has no open loan and is available |
| `LoanService.ReturnedBookCanBeLoanedAgain` | src/main/kotlin/com/example/library/service/LoanService.kt:31-48 | after a return, every registered user below the limit passes all checks for that book again |
| `LoanService.CheckPayable` | src/main/kotlin/com/example/library/service/LoanService.kt:52-57 | LoanNotFound exactly when no stored loan has the id; success only for a loan with that id that is closed with an OPENED fine; otherwise CouldNotPayFine |
| `LoanService.PayFineAcceptsExactly` | src/main/kotlin/com/example/library/service/LoanService.kt:52-71 | with unique loan ids, payment for an existing loan succeeds exactly when that loan is closed with an OPENED fine, and fails with CouldNotPayFine otherwise |
| `LoanService.PayFine` | src/main/kotlin/com/example/library/service/LoanService.kt:52-57 | on success, replaces only the payable loan, with a PAID fine of the same value, and returns it; on LoanNotFound or CouldNotPayFine nothing changes; the store invariants hold, and the loan invariants hold afterwards whenever they held before |
| `LoanService.PayFineNotRepeatable` | src/main/kotlin/com/example/library/service/LoanService.kt:52-57 | after a successful payment, paying the same loan again fails with CouldNotPayFine, and the fine keeps its value |

## Left out

- The HTTP layer is not modelled: controllers, request and response records, and logging. Only the handler's family-to-status choice is kept, as `HttpStatus`.
- The JPA repositories become the in-memory `Store`. `User.loans` and `Book.loans` are derived from the loan sequence, so no back-references are kept in sync.
- The clock is a parameter. `LocalDate.now()` becomes `today`, and the two calls in one operation are taken to fall on the same day. Calendar arithmetic becomes integer day differences.
- Floating point is not modelled. A fine is a whole number of cents: 200 per overdue day, which the source writes as the `Double` 200.00.
- Generated UUIDs are not modelled. Callers supply user and book ids, and loan ids come from a counter.
- The race window between validation and save in `create` is a concurrency concern and is not modelled.
- `USER_LOAN_LIMIT` is the constant 10. The configuration object that defines it is not part of this model.
- LoanNotFound, BookIsNotBorrowed and CouldNotPayFine are thrown by the loan service but not declared in Exceptions.kt. LoanNotFound is taken to be NotFound, like the other lookups. BookIsNotBorrowed and CouldNotPayFine reject a request on an existing entity and are taken to be BadRequest. Their messages are unknown, so `DefaultMessage` gives none.
- The tests expect status 403 for the loan limit and refer to constants the code does not define. The model follows the code.
- ErrorCode.kt declares the same constants as the `ErrorCode` object in Exceptions.kt. One set of constants is modelled.
- The `Fine` record's nullable value and status are modelled as always present. The loan service never builds a fine without them.
- `Fine.status` is read-only in the record but assigned by `payFine`. Payment is modelled as replacing the fine with a PAID fine of the same value.
- LoanService.CloseLoan: takes a loan already in the store, by position. Closing a loan that was never saved, which the repository's save would insert, is not modelled.
- LoanService.FindBookCurrentLoan: returns the first open loan in store order, where the source takes the first of an unordered set. Under the at-most-one-open-loan invariant both are the same loan.
- The stored `available` flag of a book is written only when `BookService.Create` saves a book; no loan operation writes it. The loan flow uses derived availability instead.
