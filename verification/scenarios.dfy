/** Concrete request sequences against the seed data, each stating the exact
    responses the server gives. */
module Scenarios {
  import opened Wrappers
  import opened Records
  import opened Server

  /** `book(id: 2)` on the seeds is the second Harry Potter book. */
  lemma SeedBookTwo()
    ensures Run(Seed(), [BookQuery(Some(2))]).responses
         == [OneBook(Some(Book(2, "Harry Potter and the Prisoner of Azkaban", 1)))]
  {
  }

  /** `book` with the id omitted, or with an id no book carries, is absent. */
  lemma SeedBookAbsent()
    ensures Run(Seed(), [BookQuery(None), BookQuery(Some(4)), AuthorQuery(Some(0))]).responses
         == [OneBook(None), OneBook(None), OneAuthor(None)]
  {
  }

  /** `addAuthor("George Orwell")` then `addBook("1984", 3)` then `authors()`:
      the new author is number 3, the new book number 4, and the author list
      has grown to three with Orwell last. */
  lemma AddOrwellThenNineteenEightyFour()
    ensures var t := Run(Seed(), [AddAuthorMutation("George Orwell"), AddBookMutation("1984", 3), AuthorsQuery]);
      && t.responses[0] == OneAuthor(Some(Author(3, "George Orwell")))
      && t.responses[1] == OneBook(Some(Book(4, "1984", 3)))
      && t.responses[2] == ManyAuthors(Seed().authors + [Author(3, "George Orwell")])
      && |t.store.authors| == 3 && |t.store.books| == 4
  {
  }
}
