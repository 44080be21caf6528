/**
 * Client walkthroughs of the services that reason through the methods'
 * contracts alone: a duplicate registration, a second request for a
 * borrowed book, and a late return whose fine is paid once and then refused.
 */
module Scenarios {
  import opened Wrappers
  import opened Exceptions
  import opened Domain
  import opened Repositories
  import UserService
  import BookService
  import LoanService

  /** A second user with the same documentId is refused; one with another is stored. */
  method Registration()
  {
    var store := new Store();
    var bob := UserService.Create(store, User("u1", "Bob", "123"));
    assert bob.Ok?;
    assert store.users["u1"].documentId == "123";
    var alice := UserService.Create(store, User("u2", "Alice", "123"));
    assert alice == Err(UserAlreadyExists);
    alice := UserService.Create(store, User("u2", "Alice", "456"));
    assert alice.Ok?;
  }

  /** While the book is out, a second request for it is refused. */
  method SecondRequestRefused(today: Day)
  {
    var store := new Store();
    var bob := UserService.Create(store, User("u1", "Bob", "123"));
    var book := BookService.Create(store, NewBook("b1", "Clean Code", "Uncle Bob"));

    var loan := LoanService.Create(store, "u1", "b1", today);
    assert loan.Ok?;
    assert loan.value.dueDate == today + 15 && loan.value.returnedDate.None?;

    assert store.loans == [] + [loan.value];
    UserLoansAppend([], loan.value, "u1");
    assert LoanService.IsCurrentLoanOf(store.loans[0], "b1");
    var refused := LoanService.Create(store, "u1", "b1", today);
    assert refused == Err(BookIsNotAvailable);
  }

  /**
   * Return a book 27 days late, pay the fine once, and have a second
   * payment refused.
   */
  method ReturnLateAndPay(today: Day)
  {
    var store := new Store();
    var bob := UserService.Create(store, User("u1", "Bob", "123"));
    var book := BookService.Create(store, NewBook("b1", "Clean Code", "Uncle Bob"));
    var loan := LoanService.Create(store, "u1", "b1", today);
    assert loan.Ok?;

    var returned := LoanService.ReturnBook(store, "b1", today + 42);
    assert returned.Ok? && returned.value.fine == Some(Fine(5400, Opened));

    assert LoanService.CheckPayable(store.loans, loan.value.id) == Ok(0);
    var paid := LoanService.PayFine(store, loan.value.id);
    assert paid.Ok? && paid.value.fine == Some(Fine(5400, Paid));
    assert LoanService.CheckPayable(store.loans, loan.value.id) == Err(CouldNotPayFine);
    var paidTwice := LoanService.PayFine(store, loan.value.id);
    assert paidTwice == Err(CouldNotPayFine);
  }
}
