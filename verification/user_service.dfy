/**
 * The user registry: registration with a unique documentId, lookup, and the
 * loan-limit gate that the loan service consults.
 */
module UserService {
  import opened Wrappers
  import opened Exceptions
  import opened Domain
  import opened Repositories

  /** The limit of loans per user, defined in ApplicationConfiguration, which is not modelled. */
  const USER_LOAN_LIMIT: nat := 10

  /** The documentIds of the stored users: the keys of the unique index. */
  function DocumentIds(users: map<Id, User>): set<string> {
    set id | id in users :: users[id].documentId
  }

  /** Whether the lookup by documentId finds a stored user. */
  predicate DocumentIdExists(users: map<Id, User>, documentId: string): (b: bool)
    ensures b <==> exists id | id in users :: users[id].documentId == documentId
  {
    documentId in DocumentIds(users)
  }

  /**
   * Stores and returns the user unless its documentId is already
   * registered; the user's id stands in for the generated UUID.
   */
  method Create(store: Store, user: User) returns (r: Result<User>)
    requires store.Valid()
    modifies store
    ensures store.Valid()
    ensures store.books == old(store.books) && store.loans == old(store.loans)
    ensures store.nextLoanId == old(store.nextLoanId)
    ensures r.Err? <==> DocumentIdExists(old(store.users), user.documentId)
    ensures r.Err? ==> r.error == UserAlreadyExists && store.users == old(store.users)
    ensures r.Ok? ==> r.value == user && store.users == old(store.users)[user.id := user]
  {
    if DocumentIdExists(store.users, user.documentId) {
      return Err(UserAlreadyExists);
    }
    InsertKeepsDocumentIdsUnique(store.users, user);
    store.users := store.users[user.id := user];
    r := Ok(user);
  }

  /** Inserting a user with an unregistered documentId keeps documentIds unique. */
  lemma InsertKeepsDocumentIdsUnique(users: map<Id, User>, user: User)
    requires DocumentIdsUnique(users)
    requires !DocumentIdExists(users, user.documentId)
    ensures DocumentIdsUnique(users[user.id := user])
    ensures DocumentIdExists(users[user.id := user], user.documentId)
  {
    var users' := users[user.id := user];
    assert users'[user.id].documentId == user.documentId;
  }

  /**
   * Registration admits a second user exactly when its documentId differs
   * from the first one's.
   */
  lemma SecondRegistration(users: map<Id, User>, first: User, second: User)
    requires !DocumentIdExists(users, first.documentId)
    requires !DocumentIdExists(users, second.documentId)
    ensures DocumentIdExists(users[first.id := first], second.documentId)
        <==> second.documentId == first.documentId
  {
    var users' := users[first.id := first];
    assert users'[first.id].documentId == first.documentId;
    if DocumentIdExists(users', second.documentId) {
      var id :| id in users' && users'[id].documentId == second.documentId;
      assert id == first.id;
    }
  }

  /** The stored user, or UserNotFound. */
  function FindById(users: map<Id, User>, id: Id): (r: Result<User>)
    ensures r.Ok? <==> id in users
    ensures r.Ok? ==> r.value == users[id]
    ensures r.Err? ==> r.error == UserNotFound
  {
    if id in users then Ok(users[id]) else Err(UserNotFound)
  }

  /** A registered user is found under its id, and no other lookup changes. */
  lemma FindAfterCreate(users: map<Id, User>, user: User, id: Id)
    ensures FindById(users[user.id := user], id)
         == if id == user.id then Ok(user) else FindById(users, id)
  {
  }

  /** The number of the user's loans, open and closed. */
  function GetUserLoansSize(users: map<Id, User>, loans: seq<Loan>, id: Id): (r: Result<nat>)
    ensures r.Err? <==> id !in users
    ensures r.Err? ==> r.error == UserNotFound
    ensures r.Ok? ==> r.value == |UserLoanIndices(loans, id)|
  {
    match FindById(users, id)
    case Err(e) => Err(e)
    case Ok(_) =>
      UserLoansCountsEveryLoan(loans, id);
      Ok(|UserLoans(loans, id)|)
  }

  /** Whether the user is below the loan limit. */
  function CanLoanBook(users: map<Id, User>, loans: seq<Loan>, id: Id): (r: Result<bool>)
    ensures r.Err? <==> id !in users
    ensures r.Err? ==> r.error == UserNotFound
    ensures r.Ok? ==> (r.value <==> |UserLoans(loans, id)| < USER_LOAN_LIMIT)
  {
    match GetUserLoansSize(users, loans, id)
    case Err(e) => Err(e)
    case Ok(size) =>
      UserLoansCountsEveryLoan(loans, id);
      Ok(size < USER_LOAN_LIMIT)
  }
}
