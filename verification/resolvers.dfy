/** The field resolvers of the schema, each a pure function of the store:
    the four root queries, the two relation fields, and the two mutations,
    which return the new record together with the store after the append. */
module Resolvers {
  import opened Wrappers
  import opened Sequences
  import opened Records

  /** Result of a mutation: the record it built and the store it leaves. */
  datatype Mutated<T> = Mutated(record: T, store: Store)

  /** `Query.book(id)`: the first book carrying the requested id. An omitted
      id never matches, so the answer is then absent. */
  function BookById(s: Store, id: Option<int>): (r: Option<Book>)
    ensures r.None? <==> id.None? || forall i :: 0 <= i < |s.books| ==> s.books[i].id != id.value
    ensures r.Some? ==> id == Some(r.value.id)
    ensures r.Some? ==> exists i :: 0 <= i < |s.books| && s.books[i] == r.value
                                  && forall j :: 0 <= j < i ==> s.books[j].id != r.value.id
  {
    Find(s.books, (b: Book) => Some(b.id) == id)
  }

  /** `Query.author(id)`: the first author carrying the requested id. */
  function AuthorById(s: Store, id: Option<int>): (r: Option<Author>)
    ensures r.None? <==> id.None? || forall i :: 0 <= i < |s.authors| ==> s.authors[i].id != id.value
    ensures r.Some? ==> id == Some(r.value.id)
    ensures r.Some? ==> exists i :: 0 <= i < |s.authors| && s.authors[i] == r.value
                                  && forall j :: 0 <= j < i ==> s.authors[j].id != r.value.id
  {
    Find(s.authors, (a: Author) => Some(a.id) == id)
  }

  /** `Book.author`: the first author whose id is the book's `authorId`;
      absent when the reference dangles. */
  function BookAuthor(s: Store, b: Book): (r: Option<Author>)
    ensures r.None? <==> forall i :: 0 <= i < |s.authors| ==> s.authors[i].id != b.authorId
    ensures r.Some? ==> r.value.id == b.authorId
    ensures r.Some? ==> exists i :: 0 <= i < |s.authors| && s.authors[i] == r.value
                                  && forall j :: 0 <= j < i ==> s.authors[j].id != b.authorId
  {
    Find(s.authors, (x: Author) => x.id == b.authorId)
  }

  /** `Author.books` as the server writes it: the books whose own `id`
      (not their `authorId`) equals the author's id, in store order. */
  function AuthorBooks(s: Store, a: Author): (r: seq<Book>)
    ensures forall b :: b in r ==> b.id == a.id
    ensures forall b :: multiset(r)[b] == if b.id == a.id then multiset(s.books)[b] else 0
  {
    var p := (b: Book) => b.id == a.id;
    FilterCount(s.books, p);
    Filter(s.books, p)
  }

  /** `Mutation.addBook(name, authorId)`: appends a book numbered one past the
      current count; `authorId` is stored without looking it up. */
  function AddBook(s: Store, name: string, authorId: int): (r: Mutated<Book>)
    ensures r.record.id == |s.books| + 1
    ensures r.record.name == name && r.record.authorId == authorId
    ensures |r.store.books| == |s.books| + 1
    ensures r.store.books[..|s.books|] == s.books
    ensures r.store.books[|s.books|] == r.record
    ensures r.store.authors == s.authors
  {
    var book := Book(|s.books| + 1, name, authorId);
    Mutated(book, s.(books := s.books + [book]))
  }

  /** `Mutation.addAuthor(name)`: appends an author numbered one past the
      current count. */
  function AddAuthor(s: Store, name: string): (r: Mutated<Author>)
    ensures r.record.id == |s.authors| + 1
    ensures r.record.name == name
    ensures |r.store.authors| == |s.authors| + 1
    ensures r.store.authors[..|s.authors|] == s.authors
    ensures r.store.authors[|s.authors|] == r.record
    ensures r.store.books == s.books
  {
    var author := Author(|s.authors| + 1, name);
    Mutated(author, s.(authors := s.authors + [author]))
  }
}
