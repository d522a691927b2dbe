/** `Author.books` compares each book's own `id` with the author's id, where
    the relation it names is carried by the book's `authorId`. This module
    shows, on the seed data, that the field as written is not the inverse of
    `Book.author`, and gives the evidently intended filter with the inverse
    property proved. */
module Findings {
  import opened Wrappers
  import opened Sequences
  import opened Records
  import opened Resolvers

  /** `Author.books` as intended: the books whose `authorId` is the author's id. */
  function WrittenBy(s: Store, a: Author): (r: seq<Book>)
    ensures forall b :: b in r ==> b.authorId == a.id
    ensures forall b :: multiset(r)[b] == if b.authorId == a.id then multiset(s.books)[b] else 0
  {
    var p := (b: Book) => b.authorId == a.id;
    FilterCount(s.books, p);
    Filter(s.books, p)
  }

  /** On the seeds, J. K. Rowling is the author of book 2 by `Book.author`,
      yet the as-written `Author.books` lists only book 1 for her. */
  lemma AuthorBooksIsNotInverseOfBookAuthor()
    ensures var s, rowling, azkaban := Seed(), Seed().authors[0], Seed().books[1];
      && BookAuthor(s, azkaban) == Some(rowling)
      && AuthorBooks(s, rowling) == [Seed().books[0]]
      && azkaban !in AuthorBooks(s, rowling)
  {
  }

  /** The intended `Author.books` is the inverse of `Book.author`: for an
      author of a well-numbered store, a book is listed exactly when it is a
      stored book whose `Book.author` is that author. */
  lemma WrittenByIsInverseOfBookAuthor(s: Store, a: Author, b: Book)
    requires WellNumbered(s)
    requires a in s.authors
    ensures b in WrittenBy(s, a) <==> b in s.books && BookAuthor(s, b) == Some(a)
  {
  }
}
