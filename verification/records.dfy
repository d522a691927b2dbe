/** The in-memory record store: the two arrays the server seeds at start-up
    and appends to on every mutation. */
module Records {

  /** A book; `authorId` refers to an author by id but is never checked. */
  datatype Book = Book(id: int, name: string, authorId: int)

  datatype Author = Author(id: int, name: string)

  /** The whole server state: both collections, in insertion order. */
  datatype Store = Store(books: seq<Book>, authors: seq<Author>)

  /** Every book's id is its position plus one. */
  predicate BooksNumbered(books: seq<Book>) {
    forall i :: 0 <= i < |books| ==> books[i].id == i + 1
  }

  /** Every author's id is its position plus one. */
  predicate AuthorsNumbered(authors: seq<Author>) {
    forall i :: 0 <= i < |authors| ==> authors[i].id == i + 1
  }

  /** The numbering the seeds start with and the `length + 1` rule keeps. */
  predicate WellNumbered(s: Store) {
    BooksNumbered(s.books) && AuthorsNumbered(s.authors)
  }

  /** The sample data the process starts with: three books, two authors. */
  function Seed(): (s: Store)
    ensures WellNumbered(s)
    ensures |s.books| == 3 && |s.authors| == 2
    ensures forall i :: 0 <= i < |s.books| ==> 1 <= s.books[i].authorId <= |s.authors|
  {
    Store(
      [ Book(1, "Harry Potter and the Chamber of Secrets", 1),
        Book(2, "Harry Potter and the Prisoner of Azkaban", 1),
        Book(3, "The Felloship of the Ring", 2) ],
      [ Author(1, "J. K. Rowling"),
        Author(2, "J. R. R. Tolkien") ])
  }
}
