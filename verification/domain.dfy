/**
 * The records of the library: users, books, loans and fines.
 * Dates are whole day numbers; a fine's value is a whole number of cents.
 * The back-references User.loans and Book.loans are not stored: they are
 * derived from the loan store, in its insertion order.
 */
module Domain {
  import opened Wrappers

  type Id = string
  type Day = int

  datatype FineStatus = Opened | Paid

  /** An immutable pair: an amount in cents and whether it has been paid. */
  datatype Fine = Fine(value: int, status: FineStatus)

  /**
   * A loan. id, userId, bookId, issuedDate and dueDate never change once
   * built; the loan service replaces returnedDate and fine.
   */
  datatype Loan = Loan(
    id: nat,
    userId: Id,
    bookId: Id,
    issuedDate: Day,
    dueDate: Day,
    returnedDate: Option<Day>,
    fine: Option<Fine>)

  datatype User = User(id: Id, name: string, documentId: string)

  /** `available` is the stored flag, true unless the caller says otherwise. */
  datatype Book = Book(id: Id, title: string, author: string, available: bool)

  /** A loan is open while it has no return date. */
  predicate IsOpen(l: Loan) {
    l.returnedDate.None?
  }

  /** A book built with the defaults of its record: the stored flag is true. */
  function NewBook(id: Id, title: string, author: string): (b: Book)
    ensures b.id == id && b.available
  {
    Book(id, title, author, true)
  }

  /** The unique index on documentId of the user table. */
  ghost predicate DocumentIdsUnique(users: map<Id, User>) {
    forall a, b | a in users && b in users && a != b :: users[a].documentId != users[b].documentId
  }

  ghost predicate LoanIdsUnique(loans: seq<Loan>) {
    forall i, j | 0 <= i < j < |loans| :: loans[i].id != loans[j].id
  }

  /** User.loans: the user's loans, open and closed, in store order. */
  function UserLoans(loans: seq<Loan>, userId: Id): (r: seq<Loan>)
    ensures |r| <= |loans|
    ensures forall k | 0 <= k < |r| :: r[k].userId == userId
  {
    if loans == [] then []
    else
      var r := UserLoans(loans[..|loans| - 1], userId);
      if loans[|loans| - 1].userId == userId then r + [loans[|loans| - 1]] else r
  }

  /** User.loans holds exactly the stored loans that refer to the user. */
  lemma {:induction false} UserLoansContents(loans: seq<Loan>, userId: Id)
    ensures forall l :: l in UserLoans(loans, userId) <==> l in loans && l.userId == userId
  {
    if loans != [] {
      var init, last := loans[..|loans| - 1], loans[|loans| - 1];
      assert loans == init + [last];
      UserLoansContents(init, userId);
    }
  }

  /** Storing one more loan adds it to its user's list and to no other. */
  lemma UserLoansAppend(loans: seq<Loan>, l: Loan, userId: Id)
    ensures UserLoans(loans + [l], userId)
         == UserLoans(loans, userId) + (if l.userId == userId then [l] else [])
  {
    assert (loans + [l])[..|loans|] == loans;
  }

  /**
   * Replacing a loan by one of the same user leaves the size of every
   * user's list unchanged.
   */
  lemma {:induction false} UserLoansUpdate(loans: seq<Loan>, i: nat, l: Loan, userId: Id)
    requires i < |loans| && loans[i].userId == l.userId
    ensures |UserLoans(loans[i := l], userId)| == |UserLoans(loans, userId)|
  {
    var n := |loans|;
    var loans' := loans[i := l];
    var init, init' := loans[..n - 1], loans'[..n - 1];
    var last, last' := loans[n - 1], loans'[n - 1];
    assert loans == init + [last] && loans' == init' + [last'];
    assert last'.userId == last.userId;
    UserLoansAppend(init, last, userId);
    UserLoansAppend(init', last', userId);
    if i < n - 1 {
      assert init' == init[i := l];
      UserLoansUpdate(init, i, l, userId);
    } else {
      assert init' == init;
    }
  }

  /**
   * The size of User.loans counts every stored loan of the user, whatever
   * its return date or fine.
   */
  lemma {:induction false} UserLoansCountsEveryLoan(loans: seq<Loan>, userId: Id)
    ensures |UserLoans(loans, userId)| == |UserLoanIndices(loans, userId)|
  {
    if loans != [] {
      var n := |loans|;
      var init, last := loans[..n - 1], loans[n - 1];
      assert loans == init + [last];
      UserLoansAppend(init, last, userId);
      UserLoansCountsEveryLoan(init, userId);
      UserLoanIndicesStep(loans, userId);
    }
  }

  /** The positions in the store of the user's loans. */
  ghost function UserLoanIndices(loans: seq<Loan>, userId: Id): set<nat> {
    set i: nat | i < |loans| && loans[i].userId == userId
  }

  lemma UserLoanIndicesStep(loans: seq<Loan>, userId: Id)
    requires loans != []
    ensures var n := |loans|;
      UserLoanIndices(loans, userId)
      == UserLoanIndices(loans[..n - 1], userId) + (if loans[n - 1].userId == userId then {n - 1} else {})
    ensures |loans| - 1 !in UserLoanIndices(loans[..|loans| - 1], userId)
  {
    var n := |loans|;
    var init := loans[..n - 1];
    var added := if loans[n - 1].userId == userId then {n - 1} else {};
    forall k: nat
      ensures k in UserLoanIndices(loans, userId) <==> k in UserLoanIndices(init, userId) + added
    {
      if k < n - 1 {
        assert loans[k] == init[k];
      }
    }
  }
}
