/**
 * The error taxonomy of the library backend as a closed datatype.
 * Each Kotlin exception class becomes one constructor; the two open base
 * classes NotFoundException and BadRequestException become the predicates
 * IsNotFound and IsBadRequest.
 */
module Exceptions {
  import opened Wrappers

  /**
   * The first five kinds are declared in Exceptions.kt. LoanNotFound,
   * BookIsNotBorrowed and CouldNotPayFine are thrown by the loan service
   * but not declared in Exceptions.kt. LoanNotFound is taken to be NotFound,
   * like the other failed lookups; the other two reject a request on an
   * existing entity and are taken to be BadRequest.
   */
  datatype Error =
    | UserNotFound
    | UserAlreadyExists
    | UserReachedLoanLimit
    | BookNotFound
    | BookIsNotAvailable
    | LoanNotFound
    | BookIsNotBorrowed
    | CouldNotPayFine

  /** What a service call either returns or throws. */
  datatype Result<+T> = Ok(value: T) | Err(error: Error)

  // The ErrorCode constants.
  const USER_NOT_FOUND: string := "User not found"
  const USER_ALREADY_EXISTS: string := "There is already an user with the informed document id"
  const BOOK_NOT_FOUND: string := "Book not found"
  const USER_REACHED_LOAN_LIMIT: string := "User has reached the limit of loans"
  const BOOK_IS_ALREADY_BORROWED: string := "Book is already borrowed"

  /** The kinds that extend NotFoundException. */
  predicate IsNotFound(e: Error) {
    match e
    case UserNotFound | BookNotFound | LoanNotFound => true
    case _ => false
  }

  /** The kinds that extend BadRequestException. */
  predicate IsBadRequest(e: Error) {
    match e
    case UserAlreadyExists | UserReachedLoanLimit | BookIsNotAvailable
      | BookIsNotBorrowed | CouldNotPayFine => true
    case _ => false
  }

  /** Every kind belongs to exactly one of the two families. */
  lemma FamiliesPartition(e: Error)
    ensures IsNotFound(e) <==> !IsBadRequest(e)
  {
  }

  /** The status the exception handler answers with, chosen by family. */
  function HttpStatus(e: Error): (code: int)
    ensures code == 404 <==> IsNotFound(e)
    ensures code == 400 <==> IsBadRequest(e)
  {
    if IsNotFound(e) then 404 else 400
  }

  /**
   * The default message of each declared kind, which the exception handler
   * sends as the response body. The three kinds not declared in
   * Exceptions.kt have no known message.
   */
  function DefaultMessage(e: Error): (m: Option<string>)
    ensures m.Some? <==> !(e.LoanNotFound? || e.BookIsNotBorrowed? || e.CouldNotPayFine?)
  {
    match e
    case UserNotFound => Some(USER_NOT_FOUND)
    case UserAlreadyExists => Some(USER_ALREADY_EXISTS)
    case UserReachedLoanLimit => Some(USER_REACHED_LOAN_LIMIT)
    case BookNotFound => Some(BOOK_NOT_FOUND)
    case BookIsNotAvailable => Some(BOOK_IS_ALREADY_BORROWED)
    case LoanNotFound | BookIsNotBorrowed | CouldNotPayFine => None
  }

  /** A response body carrying a default message names the error kind uniquely. */
  lemma MessagesIdentifyErrors(e1: Error, e2: Error)
    requires DefaultMessage(e1).Some? && DefaultMessage(e1) == DefaultMessage(e2)
    ensures e1 == e2
  {
  }
}
