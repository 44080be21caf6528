/**
 * The loan engine. Each loan is a small state machine: it is created open;
 * returning the book closes it, with no fine or with an OPENED fine; paying
 * an OPENED fine makes it PAID. A book is available when none of its loans
 * is open, and the store keeps at most one open loan per book.
 */
module LoanService {
  import opened Wrappers
  import opened Exceptions
  import opened Domain
  import opened Repositories
  import UserService
  import BookService

  /** The fine per overdue day, in cents. */
  const FINE_IN_CENTS_PER_DAY: int := 200
  const LOAN_PERIOD_IN_DAYS: int := 15

  // ---------------------------------------------------------------------
  // Loan states

  datatype LoanState = Open | ClosedNoFine | ClosedFineOpened | ClosedFinePaid

  /** Where the loan is in its life: open, or closed without, with an OPENED or with a PAID fine. */
  function StateOf(l: Loan): (s: LoanState)
    ensures s == Open <==> l.returnedDate.None?
    ensures s == ClosedNoFine <==> l.returnedDate.Some? && l.fine.None?
  {
    if IsOpen(l) then Open
    else match l.fine
      case None => ClosedNoFine
      case Some(f) => if f.status == Opened then ClosedFineOpened else ClosedFinePaid
  }

  /** The loan has been returned: it has left the open state. */
  predicate IsClosed(l: Loan): (b: bool)
    ensures b <==> StateOf(l) != Open
  {
    l.returnedDate.Some?
  }

  /**
   * True when the loan carries a fine that is still OPENED. On a well-formed
   * loan, which has no fine while open, this alone marks the payable state.
   */
  predicate HasFine(l: Loan): (b: bool)
    ensures b ==> l.fine.Some? && l.fine.value.status == Opened
    ensures IsClosed(l) ==> (b <==> StateOf(l) == ClosedFineOpened)
  {
    l.fine.Some? && l.fine.value.status == Opened
  }

  /**
   * The condition under which a fine can be paid. It holds in exactly one
   * state; an open loan, a closed loan without fine and a closed loan whose
   * fine is paid are all refused.
   */
  predicate IsFineOpened(l: Loan): (b: bool)
    ensures b <==> StateOf(l) == ClosedFineOpened
  {
    IsClosed(l) && HasFine(l)
  }

  // ---------------------------------------------------------------------
  // Fines and the two in-place updates of a loan

  /**
   * The fine for a loan due on dueDate and returned today: none unless the
   * return is late, otherwise the overdue days times the daily rate, OPENED.
   */
  function FineFor(dueDate: Day, today: Day): (f: Option<Fine>)
    ensures f.None? <==> today - dueDate <= 0
    ensures f.Some? ==> f.value.status == Opened && f.value.value > 0
    ensures f.Some? ==>
      (f.value.value % FINE_IN_CENTS_PER_DAY == 0 && f.value.value / FINE_IN_CENTS_PER_DAY == today - dueDate)
  {
    var overdueDays := today - dueDate;
    if overdueDays > 0 then Some(Fine(overdueDays * FINE_IN_CENTS_PER_DAY, Opened)) else None
  }

  /** A later return never costs less. */
  lemma {:induction false} FineGrowsWithLateness(dueDate: Day, early: Day, late: Day)
    requires early <= late
    requires FineFor(dueDate, early).Some?
    ensures FineFor(dueDate, late).Some?
    ensures FineFor(dueDate, early).value.value <= FineFor(dueDate, late).value.value
  {
    assert (early - dueDate) * FINE_IN_CENTS_PER_DAY <= (late - dueDate) * FINE_IN_CENTS_PER_DAY;
  }

  /** The loan as closeLoan leaves it: returned today, with the fine for that day. */
  function Close(l: Loan, today: Day): (r: Loan)
    ensures IsClosed(r) && r.returnedDate == Some(today)
    ensures r.fine.Some? <==> today - l.dueDate > 0
    ensures r.fine.Some? ==> r.fine.value.status == Opened
    ensures r.fine.Some? ==> r.fine.value.value == (today - l.dueDate) * FINE_IN_CENTS_PER_DAY
    ensures r.(returnedDate := l.returnedDate, fine := l.fine) == l
  {
    l.(returnedDate := Some(today), fine := FineFor(l.dueDate, today))
  }

  /** The loan with its fine replaced by the same amount, PAID. */
  function Pay(l: Loan): (r: Loan)
    requires l.fine.Some?
    ensures r.fine.Some? && r.fine.value.status == Paid
    ensures r.fine.value.value == l.fine.value.value
    ensures r.(fine := l.fine) == l
  {
    l.(fine := Some(Fine(l.fine.value.value, Paid)))
  }

  /**
   * A loan is well formed when it is due LOAN_PERIOD_IN_DAYS after issue,
   * has no fine while open, and once closed has a fine exactly when it was
   * returned late, of the value FineFor gives.
   */
  ghost predicate WellFormed(l: Loan) {
    && l.dueDate == l.issuedDate + LOAN_PERIOD_IN_DAYS
    && match l.returnedDate
       case None => l.fine.None?
       case Some(d) =>
         match (l.fine, FineFor(l.dueDate, d))
         case (None, None) => true
         case (Some(f), Some(g)) => f.value == g.value
         case _ => false
  }

  /** No two open loans of the same book. */
  ghost predicate AtMostOneOpenPerBook(loans: seq<Loan>) {
    forall i, j | 0 <= i < j < |loans| && IsOpen(loans[i]) && IsOpen(loans[j]) ::
      loans[i].bookId != loans[j].bookId
  }

  ghost predicate LoansConsistent(loans: seq<Loan>) {
    && AtMostOneOpenPerBook(loans)
    && forall i | 0 <= i < |loans| :: WellFormed(loans[i])
  }

  /**
   * Closing an open well-formed loan moves it to the closed state with or
   * without fine, according to lateness, and keeps it well formed.
   */
  lemma CloseTransition(l: Loan, today: Day)
    requires WellFormed(l) && IsOpen(l)
    ensures StateOf(l) == Open && l.fine.None?
    ensures Close(l, today).returnedDate == Some(today)
    ensures StateOf(Close(l, today))
         == if today - l.dueDate > 0 then ClosedFineOpened else ClosedNoFine
    ensures today - l.dueDate > 0 ==>
      Close(l, today).fine.value.value == (today - l.dueDate) * FINE_IN_CENTS_PER_DAY
    ensures WellFormed(Close(l, today))
  {
  }

  /**
   * closeLoan does not look at the loan's state: applied to a loan whose
   * fine is PAID and returned late again, it replaces the paid fine by a
   * new OPENED one. Its only caller, returnBook, passes an open loan.
   */
  lemma ReclosingReopensFine(l: Loan, today: Day)
    requires StateOf(l) == ClosedFinePaid && today > l.dueDate
    ensures StateOf(Close(l, today)) == ClosedFineOpened
  {
  }

  /**
   * Paying moves a loan from closed-with-OPENED-fine to closed-with-PAID-fine,
   * after which it is no longer payable, and keeps it well formed.
   */
  lemma PayTransition(l: Loan)
    requires IsFineOpened(l)
    ensures StateOf(l) == ClosedFineOpened
    ensures StateOf(Pay(l)) == ClosedFinePaid && !IsFineOpened(Pay(l))
    ensures Pay(l).fine.value.value == l.fine.value.value
    ensures WellFormed(l) ==> WellFormed(Pay(l))
  {
  }

  // ---------------------------------------------------------------------
  // Lookups

  /** The first index at or after k holding a loan with this id. */
  function LoanIndexFrom(loans: seq<Loan>, id: nat, k: nat): (r: Option<nat>)
    requires k <= |loans|
    decreases |loans| - k
    ensures r.Some? ==> k <= r.value < |loans| && loans[r.value].id == id
    ensures r.Some? ==> forall j | k <= j < r.value :: loans[j].id != id
    ensures r.None? ==> forall j | k <= j < |loans| :: loans[j].id != id
  {
    if k == |loans| then None
    else if loans[k].id == id then Some(k)
    else LoanIndexFrom(loans, id, k + 1)
  }

  /** Where the repository finds the loan with this id, if anywhere. */
  function LoanIndex(loans: seq<Loan>, id: nat): (r: Option<nat>)
    ensures r.Some? ==> r.value < |loans| && loans[r.value].id == id
    ensures r.Some? ==> forall j | 0 <= j < r.value :: loans[j].id != id
    ensures r.None? <==> forall j | 0 <= j < |loans| :: loans[j].id != id
  {
    LoanIndexFrom(loans, id, 0)
  }

  /** Replacing a loan by one with the same id does not move any lookup by id. */
  lemma {:induction false} LoanIndexStable(loans: seq<Loan>, i: nat, l: Loan, id: nat, k: nat)
    requires i < |loans| && l.id == loans[i].id && k <= |loans|
    ensures LoanIndexFrom(loans[i := l], id, k) == LoanIndexFrom(loans, id, k)
    decreases |loans| - k
  {
    if k < |loans| {
      LoanIndexStable(loans, i, l, id, k + 1);
    }
  }

  /** The stored loan with this id, or LoanNotFound. */
  function FindById(loans: seq<Loan>, id: nat): (r: Result<Loan>)
    ensures r.Err? <==> forall j | 0 <= j < |loans| :: loans[j].id != id
    ensures r.Err? ==> r.error == LoanNotFound
    ensures r.Ok? ==> r.value in loans && r.value.id == id
  {
    match LoanIndex(loans, id)
    case None => Err(LoanNotFound)
    case Some(i) => Ok(loans[i])
  }

  /** The user's loans, open and closed, or UserNotFound. */
  function FindUserLoans(users: map<Id, User>, loans: seq<Loan>, userId: Id): (r: Result<seq<Loan>>)
    ensures r.Err? <==> userId !in users
    ensures r.Err? ==> r.error == UserNotFound
    ensures r.Ok? ==> forall l :: l in r.value <==> l in loans && l.userId == userId
    ensures r.Ok? ==> |r.value| == |UserLoanIndices(loans, userId)|
  {
    match UserService.FindById(users, userId)
    case Err(e) => Err(e)
    case Ok(_) =>
      UserLoansContents(loans, userId);
      UserLoansCountsEveryLoan(loans, userId);
      Ok(UserLoans(loans, userId))
  }

  /** The loan is the book's current, open loan. */
  predicate IsCurrentLoanOf(l: Loan, bookId: Id) {
    l.bookId == bookId && IsOpen(l)
  }

  ghost predicate HasOpenLoan(loans: seq<Loan>, bookId: Id) {
    exists j | 0 <= j < |loans| :: IsCurrentLoanOf(loans[j], bookId)
  }

  /** The first open loan of the book at or after k, as an index into the store. */
  function FirstOpenLoanFrom(loans: seq<Loan>, bookId: Id, k: nat): (r: Option<nat>)
    requires k <= |loans|
    decreases |loans| - k
    ensures r.Some? ==> k <= r.value < |loans| && IsCurrentLoanOf(loans[r.value], bookId)
    ensures r.Some? ==> forall j | k <= j < r.value :: !IsCurrentLoanOf(loans[j], bookId)
    ensures r.None? ==> forall j | k <= j < |loans| :: !IsCurrentLoanOf(loans[j], bookId)
  {
    if k == |loans| then None
    else if IsCurrentLoanOf(loans[k], bookId) then Some(k)
    else FirstOpenLoanFrom(loans, bookId, k + 1)
  }

  /**
   * The book's open loan, if it has one, or BookNotFound when the book is
   * not registered.
   */
  function FindBookCurrentLoan(books: map<Id, Book>, loans: seq<Loan>, bookId: Id): (r: Result<Option<nat>>)
    ensures r.Err? <==> bookId !in books
    ensures r.Err? ==> r.error == BookNotFound
    ensures r.Ok? ==> (r.value.None? <==> !HasOpenLoan(loans, bookId))
    ensures r.Ok? && r.value.Some? ==>
      r.value.value < |loans| && IsCurrentLoanOf(loans[r.value.value], bookId)
  {
    match BookService.FindById(books, bookId)
    case Err(e) => Err(e)
    case Ok(_) => Ok(FirstOpenLoanFrom(loans, bookId, 0))
  }

  /** Derived availability: the book has no open loan. */
  function IsBookAvailable(books: map<Id, Book>, loans: seq<Loan>, bookId: Id): (r: Result<bool>)
    ensures r.Err? <==> bookId !in books
    ensures r.Err? ==> r.error == BookNotFound
    ensures r.Ok? ==> (r.value <==> !HasOpenLoan(loans, bookId))
  {
    match FindBookCurrentLoan(books, loans, bookId)
    case Err(e) => Err(e)
    case Ok(current) => Ok(current.None?)
  }

  // ---------------------------------------------------------------------
  // Creating a loan

  function ValidateUserLoan(users: map<Id, User>, loans: seq<Loan>, userId: Id): (r: Option<Error>)
    ensures r.None? <==> userId in users && |UserLoans(loans, userId)| < UserService.USER_LOAN_LIMIT
    ensures r.Some? ==> r.value == if userId !in users then UserNotFound else UserReachedLoanLimit
  {
    match UserService.CanLoanBook(users, loans, userId)
    case Err(e) => Some(e)
    case Ok(can) => if can then None else Some(UserReachedLoanLimit)
  }

  function ValidateBookLoan(books: map<Id, Book>, loans: seq<Loan>, bookId: Id): (r: Option<Error>)
    ensures r.None? <==> bookId in books && !HasOpenLoan(loans, bookId)
    ensures r.Some? ==> r.value == if bookId !in books then BookNotFound else BookIsNotAvailable
  {
    match IsBookAvailable(books, loans, bookId)
    case Err(e) => Some(e)
    case Ok(available) => if available then None else Some(BookIsNotAvailable)
  }

  /**
   * The checks of create, in their order: an unknown user, then the loan
   * limit, then an unknown book, then a book that is out. A user at the
   * limit is refused for the limit whatever the book.
   */
  function ValidateLoan(users: map<Id, User>, books: map<Id, Book>, loans: seq<Loan>,
                        userId: Id, bookId: Id): (r: Option<Error>)
    ensures r == if userId !in users then Some(UserNotFound)
                 else if |UserLoans(loans, userId)| >= UserService.USER_LOAN_LIMIT
                   then Some(UserReachedLoanLimit)
                 else if bookId !in books then Some(BookNotFound)
                 else if HasOpenLoan(loans, bookId) then Some(BookIsNotAvailable)
                 else None
  {
    match ValidateUserLoan(users, loans, userId)
    case Some(e) => Some(e)
    case None => ValidateBookLoan(books, loans, bookId)
  }

  /**
   * The new loan: issued today, due LOAN_PERIOD_IN_DAYS later, open and
   * without fine; the user is looked up before the book.
   */
  function CreateLoanEntity(users: map<Id, User>, books: map<Id, Book>, id: nat,
                            userId: Id, bookId: Id, today: Day): (r: Result<Loan>)
    ensures r.Err? <==> userId !in users || bookId !in books
    ensures r.Err? ==> r.error == if userId !in users then UserNotFound else BookNotFound
    ensures r.Ok? ==> r.value.id == id && r.value.userId == userId && r.value.bookId == bookId
    ensures r.Ok? ==> r.value.issuedDate == today && r.value.dueDate == today + LOAN_PERIOD_IN_DAYS
    ensures r.Ok? ==> StateOf(r.value) == Open && r.value.fine.None? && WellFormed(r.value)
  {
    match UserService.FindById(users, userId)
    case Err(e) => Err(e)
    case Ok(_) =>
      match BookService.FindById(books, bookId)
      case Err(e) => Err(e)
      case Ok(_) => Ok(Loan(id, userId, bookId, today, today + LOAN_PERIOD_IN_DAYS, None, None))
  }

  /** Adding a well-formed loan, open only if its book has no open loan, keeps the store consistent. */
  lemma AppendKeepsConsistent(loans: seq<Loan>, l: Loan)
    requires LoansConsistent(loans) && WellFormed(l)
    requires IsOpen(l) ==> !HasOpenLoan(loans, l.bookId)
    ensures LoansConsistent(loans + [l])
  {
    var loans' := loans + [l];
    forall i, j | 0 <= i < j < |loans'| && IsOpen(loans'[i]) && IsOpen(loans'[j])
      ensures loans'[i].bookId != loans'[j].bookId
    {
      if j == |loans| {
        assert loans'[i] == loans[i];
        assert !IsCurrentLoanOf(loans[i], l.bookId);
      }
    }
  }

  /**
   * Checks the loan and, when every check passes, stores and returns the new
   * loan; on an error nothing changes.
   */
  method Create(store: Store, userId: Id, bookId: Id, today: Day) returns (r: Result<Loan>)
    requires store.Valid()
    modifies store
    ensures store.Valid()
    ensures LoansConsistent(old(store.loans)) ==> LoansConsistent(store.loans)
    ensures store.users == old(store.users) && store.books == old(store.books)
    ensures r.Err? ==>
      && ValidateLoan(old(store.users), old(store.books), old(store.loans), userId, bookId) == Some(r.error)
      && store.loans == old(store.loans) && store.nextLoanId == old(store.nextLoanId)
    ensures r.Ok? ==>
      && ValidateLoan(old(store.users), old(store.books), old(store.loans), userId, bookId).None?
      && r.value.id == old(store.nextLoanId) && r.value.userId == userId && r.value.bookId == bookId
      && r.value.issuedDate == today && r.value.dueDate == today + LOAN_PERIOD_IN_DAYS
      && r.value.returnedDate.None? && r.value.fine.None?
      && store.loans == old(store.loans) + [r.value] && store.nextLoanId == old(store.nextLoanId) + 1
  {
    var error := ValidateLoan(store.users, store.books, store.loans, userId, bookId);
    if error.Some? {
      return Err(error.value);
    }
    var entity := CreateLoanEntity(store.users, store.books, store.nextLoanId, userId, bookId, today);
    var loan := entity.value;
    if LoansConsistent(store.loans) {
      AppendKeepsConsistent(store.loans, loan);
    }
    store.loans := store.loans + [loan];
    store.nextLoanId := store.nextLoanId + 1;
    r := Ok(loan);
  }

  /**
   * Once a loan of the book has been created, a further request for the same
   * book, by the same or another user, is refused: for the loan limit if the
   * new loan brought that user to it, and otherwise because the book is out.
   * The new loan counts toward its own user's limit.
   */
  lemma SecondCreateIsRejected(users: map<Id, User>, books: map<Id, Book>, loans: seq<Loan>,
                               id: nat, userId: Id, bookId: Id, today: Day, otherUserId: Id)
    requires ValidateLoan(users, books, loans, userId, bookId).None?
    requires otherUserId in users
    ensures CreateLoanEntity(users, books, id, userId, bookId, today).Ok?
    ensures var loans' := loans + [CreateLoanEntity(users, books, id, userId, bookId, today).value];
      && |UserLoans(loans', userId)| == |UserLoans(loans, userId)| + 1
      && ValidateLoan(users, books, loans', otherUserId, bookId)
         == if |UserLoans(loans', otherUserId)| >= UserService.USER_LOAN_LIMIT
            then Some(UserReachedLoanLimit) else Some(BookIsNotAvailable)
  {
    var loan := CreateLoanEntity(users, books, id, userId, bookId, today).value;
    var loans' := loans + [loan];
    UserLoansAppend(loans, loan, userId);
    assert IsCurrentLoanOf(loans'[|loans|], bookId);
  }

  // ---------------------------------------------------------------------
  // Returning a book

  /** Replacing a loan by its closed form keeps the store consistent. */
  lemma CloseKeepsConsistent(loans: seq<Loan>, i: nat, today: Day)
    requires LoansConsistent(loans) && i < |loans|
    ensures LoansConsistent(loans[i := Close(loans[i], today)])
  {
    var loans' := loans[i := Close(loans[i], today)];
    forall j | 0 <= j < |loans'| ensures WellFormed(loans'[j]) {
      if j != i {
        assert loans'[j] == loans[j];
      }
    }
  }

  /**
   * Sets the loan's return date to today and its fine to the fine for that
   * day, and saves it in place.
   */
  method CloseLoan(store: Store, i: nat, today: Day) returns (r: Loan)
    requires store.Valid()
    requires i < |store.loans|
    modifies store
    ensures store.Valid()
    ensures LoansConsistent(old(store.loans)) ==> LoansConsistent(store.loans)
    ensures store.users == old(store.users) && store.books == old(store.books)
    ensures store.nextLoanId == old(store.nextLoanId)
    ensures r == Close(old(store.loans)[i], today) && store.loans == old(store.loans)[i := r]
  {
    r := Close(store.loans[i], today);
    if LoansConsistent(store.loans) {
      CloseKeepsConsistent(store.loans, i, today);
    }
    store.loans := store.loans[i := r];
  }

  /**
   * Closes the book's open loan. A book without an open loan is refused
   * with BookIsNotBorrowed, an unregistered one with BookNotFound, and then
   * nothing changes; otherwise only that loan changes.
   */
  method ReturnBook(store: Store, bookId: Id, today: Day) returns (r: Result<Loan>)
    requires store.Valid()
    modifies store
    ensures store.Valid()
    ensures LoansConsistent(old(store.loans)) ==> LoansConsistent(store.loans)
    ensures store.users == old(store.users) && store.books == old(store.books)
    ensures store.nextLoanId == old(store.nextLoanId)
    ensures match FindBookCurrentLoan(old(store.books), old(store.loans), bookId)
      case Err(e) => r == Err(e) && store.loans == old(store.loans)
      case Ok(None) => r == Err(BookIsNotBorrowed) && store.loans == old(store.loans)
      case Ok(Some(i)) =>
        && r == Ok(Close(old(store.loans)[i], today))
        && store.loans == old(store.loans)[i := r.value]
  {
    match FindBookCurrentLoan(store.books, store.loans, bookId)
    case Err(e) =>
      r := Err(e);
    case Ok(None) =>
      r := Err(BookIsNotBorrowed);
    case Ok(Some(i)) =>
      var closed := CloseLoan(store, i, today);
      r := Ok(closed);
  }

  /** After its open loan is closed, the book has no open loan and is available. */
  lemma ReturnedBookIsAvailable(books: map<Id, Book>, loans: seq<Loan>, bookId: Id, i: nat, today: Day)
    requires AtMostOneOpenPerBook(loans)
    requires FindBookCurrentLoan(books, loans, bookId) == Ok(Some(i))
    ensures FindBookCurrentLoan(books, loans[i := Close(loans[i], today)], bookId) == Ok(None)
    ensures IsBookAvailable(books, loans[i := Close(loans[i], today)], bookId) == Ok(true)
  {
    var loans' := loans[i := Close(loans[i], today)];
    forall j | 0 <= j < |loans'| ensures !IsCurrentLoanOf(loans'[j], bookId) {
      if j < i {
        assert IsOpen(loans[j]) ==> loans[j].bookId != loans[i].bookId;
      } else if j > i {
        assert IsOpen(loans[j]) ==> loans[i].bookId != loans[j].bookId;
      }
    }
  }

  /**
   * After a return, any registered user below the loan limit may borrow the
   * book again: closing the loan left every user's loan count unchanged.
   */
  lemma ReturnedBookCanBeLoanedAgain(users: map<Id, User>, books: map<Id, Book>, loans: seq<Loan>,
                                     bookId: Id, i: nat, today: Day, userId: Id)
    requires AtMostOneOpenPerBook(loans)
    requires FindBookCurrentLoan(books, loans, bookId) == Ok(Some(i))
    requires UserService.CanLoanBook(users, loans, userId) == Ok(true)
    ensures ValidateLoan(users, books, loans[i := Close(loans[i], today)], userId, bookId).None?
  {
    ReturnedBookIsAvailable(books, loans, bookId, i, today);
    UserLoansUpdate(loans, i, Close(loans[i], today), userId);
  }

  // ---------------------------------------------------------------------
  // Paying a fine

  /**
   * The loan whose fine payFine would pay: LoanNotFound for an unknown id,
   * CouldNotPayFine unless the loan is closed with an OPENED fine.
   */
  function CheckPayable(loans: seq<Loan>, loanId: nat): (r: Result<nat>)
    ensures r == Err(LoanNotFound) <==> forall j | 0 <= j < |loans| :: loans[j].id != loanId
    ensures r.Ok? ==> r.value < |loans| && loans[r.value].id == loanId && IsFineOpened(loans[r.value])
    ensures r.Err? ==> r.error == LoanNotFound || r.error == CouldNotPayFine
  {
    match LoanIndex(loans, loanId)
    case None => Err(LoanNotFound)
    case Some(i) => if IsFineOpened(loans[i]) then Ok(i) else Err(CouldNotPayFine)
  }

  /**
   * With unique loan ids, payment of an existing loan is accepted exactly
   * when that loan is closed with an OPENED fine, and refused with
   * CouldNotPayFine otherwise.
   */
  lemma PayFineAcceptsExactly(loans: seq<Loan>, loanId: nat, i: nat)
    requires LoanIdsUnique(loans)
    requires i < |loans| && loans[i].id == loanId
    ensures CheckPayable(loans, loanId)
         == if IsFineOpened(loans[i]) then Ok(i) else Err(CouldNotPayFine)
  {
    var k := LoanIndex(loans, loanId);
    assert k.Some?;
    assert k.value == i;
  }

  /**
   * Replaces the loan's OPENED fine by a PAID one of the same value; on
   * an error nothing changes.
   */
  method PayFine(store: Store, loanId: nat) returns (r: Result<Loan>)
    requires store.Valid()
    modifies store
    ensures store.Valid()
    ensures LoansConsistent(old(store.loans)) ==> LoansConsistent(store.loans)
    ensures store.users == old(store.users) && store.books == old(store.books)
    ensures store.nextLoanId == old(store.nextLoanId)
    ensures match CheckPayable(old(store.loans), loanId)
      case Err(e) => r == Err(e) && store.loans == old(store.loans)
      case Ok(i) =>
        && r == Ok(Pay(old(store.loans)[i]))
        && store.loans == old(store.loans)[i := r.value]
  {
    match CheckPayable(store.loans, loanId)
    case Err(e) =>
      r := Err(e);
    case Ok(i) =>
      var paid := Pay(store.loans[i]);
      ghost var loans := store.loans;
      assert forall j | 0 <= j < |loans| && j != i :: loans[i := paid][j] == loans[j];
      store.loans := store.loans[i := paid];
      r := Ok(paid);
  }

  /**
   * Payment is not repeatable: after one success the same loan is refused
   * with CouldNotPayFine, and the fine keeps its value.
   */
  lemma PayFineNotRepeatable(loans: seq<Loan>, loanId: nat)
    requires CheckPayable(loans, loanId).Ok?
    ensures var i := CheckPayable(loans, loanId).value;
      var loans' := loans[i := Pay(loans[i])];
      && CheckPayable(loans', loanId) == Err(CouldNotPayFine)
      && loans'[i].fine.value.value == loans[i].fine.value.value
  {
    var i := CheckPayable(loans, loanId).value;
    LoanIndexStable(loans, i, Pay(loans[i]), loanId, 0);
  }
}
