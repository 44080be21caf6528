/** The book registry: registration, lookup and the stored availability flag. */
module BookService {
  import opened Exceptions
  import opened Domain
  import opened Repositories

  /** Stores the book under its id and returns it; this never fails. */
  method Create(store: Store, book: Book) returns (r: Book)
    requires store.Valid()
    modifies store
    ensures store.Valid()
    ensures store.users == old(store.users) && store.loans == old(store.loans)
    ensures store.nextLoanId == old(store.nextLoanId)
    ensures r == book && store.books == old(store.books)[book.id := book]
  {
    store.books := store.books[book.id := book];
    r := book;
  }

  /** The stored book, or BookNotFound. */
  function FindById(books: map<Id, Book>, id: Id): (r: Result<Book>)
    ensures r.Ok? <==> id in books
    ensures r.Ok? ==> r.value == books[id]
    ensures r.Err? ==> r.error == BookNotFound
  {
    if id in books then Ok(books[id]) else Err(BookNotFound)
  }

  /** The stored flag of the book, or BookNotFound; loans play no part in it. */
  function IsAvailable(books: map<Id, Book>, id: Id): (r: Result<bool>)
    ensures r.Err? <==> id !in books
    ensures r.Err? ==> r.error == BookNotFound
    ensures r.Ok? ==> r.value == books[id].available
  {
    match FindById(books, id)
    case Err(e) => Err(e)
    case Ok(b) => Ok(b.available)
  }

  /**
   * A book registered with the record's defaults is found under its id and
   * its stored flag says it is available; no other lookup changes.
   */
  lemma FindAfterCreate(books: map<Id, Book>, id: Id, title: string, author: string, other: Id)
    ensures var books' := books[id := NewBook(id, title, author)];
      && FindById(books', id) == Ok(NewBook(id, title, author))
      && IsAvailable(books', id) == Ok(true)
      && (other != id ==> FindById(books', other) == FindById(books, other))
  {
  }
}
