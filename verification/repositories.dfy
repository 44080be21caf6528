/**
 * The three repositories as one in-memory store. Saving an entity under an
 * id that is already present replaces it, as the repositories' save does.
 * Loan ids come from a counter in place of random UUIDs.
 */
module Repositories {
  import opened Domain

  class Store {
    var users: map<Id, User>
    var books: map<Id, Book>
    var loans: seq<Loan>
    var nextLoanId: nat

    /**
     * Every entity is stored under its own id, documentIds are unique, loan
     * ids are unique and below the counter, and every loan refers to a
     * stored user and a stored book.
     */
    ghost predicate Valid()
      reads this
    {
      && (forall id | id in users :: users[id].id == id)
      && (forall id | id in books :: books[id].id == id)
      && DocumentIdsUnique(users)
      && LoanIdsUnique(loans)
      && (forall i | 0 <= i < |loans| ::
            loans[i].id < nextLoanId && loans[i].userId in users && loans[i].bookId in books)
    }

    constructor ()
      ensures Valid()
      ensures users == map[] && books == map[] && loans == [] && nextLoanId == 0
    {
      users, books, loans, nextLoanId := map[], map[], [], 0;
    }
  }
}
