/** The id-equals-position invariant. The seeds are numbered 1..n in order
    and both mutations number the new record `length + 1`, so in every
    reachable store ids are unique and looking up id k yields the k-th record. */
module Numbering {
  import opened Wrappers
  import opened Sequences
  import opened Records
  import opened Resolvers
  import opened Server

  /** `addBook` keeps the store well numbered. */
  lemma AddBookPreservesNumbering(s: Store, name: string, authorId: int)
    requires WellNumbered(s)
    ensures WellNumbered(AddBook(s, name, authorId).store)
  {
  }

  /** `addAuthor` keeps the store well numbered. */
  lemma AddAuthorPreservesNumbering(s: Store, name: string)
    requires WellNumbered(s)
    ensures WellNumbered(AddAuthor(s, name).store)
  {
  }

  /** Every request keeps the store well numbered. */
  lemma ExecutePreservesNumbering(s: Store, q: Request)
    requires WellNumbered(s)
    ensures WellNumbered(Execute(s, q).store)
  {
  }

  /** Any sequence of requests keeps a well-numbered store well numbered. */
  lemma {:induction false} RunPreservesNumbering(s: Store, qs: seq<Request>)
    requires WellNumbered(s)
    ensures WellNumbered(Run(s, qs).store)
    decreases |qs|
  {
    if |qs| > 0 {
      ExecutePreservesNumbering(s, qs[0]);
      RunPreservesNumbering(Execute(s, qs[0]).store, qs[1..]);
    }
  }

  /** Every store the server reaches from its seeds is well numbered. */
  lemma ReachableIsNumbered(qs: seq<Request>)
    ensures WellNumbered(Run(Seed(), qs).store)
    ensures Extends(Seed(), Run(Seed(), qs).store)
  {
    RunPreservesNumbering(Seed(), qs);
  }

  /** In a well-numbered store no two books and no two authors share an id. */
  lemma NumberedIdsUnique(s: Store)
    requires WellNumbered(s)
    ensures forall i, j :: 0 <= i < |s.books| && 0 <= j < |s.books| && s.books[i].id == s.books[j].id ==> i == j
    ensures forall i, j :: 0 <= i < |s.authors| && 0 <= j < |s.authors| && s.authors[i].id == s.authors[j].id ==> i == j
  {
  }

  /** `book(k)` is the k-th book when 1 <= k <= count, and absent otherwise. */
  lemma BookByPosition(s: Store, k: int)
    requires WellNumbered(s)
    ensures 1 <= k <= |s.books| ==> BookById(s, Some(k)) == Some(s.books[k - 1])
    ensures !(1 <= k <= |s.books|) ==> BookById(s, Some(k)) == None
  {
  }

  /** `author(k)` is the k-th author when 1 <= k <= count, and absent otherwise. */
  lemma AuthorByPosition(s: Store, k: int)
    requires WellNumbered(s)
    ensures 1 <= k <= |s.authors| ==> AuthorById(s, Some(k)) == Some(s.authors[k - 1])
    ensures !(1 <= k <= |s.authors|) ==> AuthorById(s, Some(k)) == None
  {
  }

  /** `Book.author` follows `authorId` to that position, and is absent exactly
      when the reference dangles past the authors that exist. */
  lemma BookAuthorByPosition(s: Store, b: Book)
    requires WellNumbered(s)
    ensures BookAuthor(s, b) == AuthorById(s, Some(b.authorId))
    ensures BookAuthor(s, b).None? <==> !(1 <= b.authorId <= |s.authors|)
  {
    AuthorByPosition(s, b.authorId);
    if 1 <= b.authorId <= |s.authors| {
      assert s.authors[b.authorId - 1].id == b.authorId;
    }
  }

  /** After `addBook`, the new book is found by its id and occurs in `books()`
      exactly once, as the last element. */
  lemma AddedBookIsFoundOnce(s: Store, name: string, authorId: int)
    requires WellNumbered(s)
    ensures var m := AddBook(s, name, authorId);
      && BookById(m.store, Some(m.record.id)) == Some(m.record)
      && multiset(m.store.books)[m.record] == 1
      && m.store.books[|m.store.books| - 1] == m.record
  {
  }

  /** After `addAuthor`, the new author is found by its id and occurs in
      `authors()` exactly once, as the last element. */
  lemma AddedAuthorIsFoundOnce(s: Store, name: string)
    requires WellNumbered(s)
    ensures var m := AddAuthor(s, name);
      && AuthorById(m.store, Some(m.record.id)) == Some(m.record)
      && multiset(m.store.authors)[m.record] == 1
      && m.store.authors[|m.store.authors| - 1] == m.record
  {
  }

  /** After any run from a well-numbered store, `addBook` followed by `books()`
      lists the new book exactly once, last, numbered one past the books the
      run left. */
  lemma AddedBookListedByLaterBooks(s: Store, qs: seq<Request>, name: string, authorId: int)
    requires WellNumbered(s)
    ensures var pre := Run(s, qs).store;
      var t := Run(s, qs + [AddBookMutation(name, authorId), BooksQuery]);
      var book := Book(|pre.books| + 1, name, authorId);
      && t.responses[|qs| + 1] == ManyBooks(pre.books + [book])
      && multiset(pre.books + [book])[book] == 1
  {
    var pre := Run(s, qs).store;
    RunPreservesNumbering(s, qs);
    AddedBookIsFoundOnce(pre, name, authorId);
    RunSnoc(s, qs, AddBookMutation(name, authorId));
    assert qs + [AddBookMutation(name, authorId), BooksQuery] == (qs + [AddBookMutation(name, authorId)]) + [BooksQuery];
    RunSnoc(s, qs + [AddBookMutation(name, authorId)], BooksQuery);
  }

  /** `addBook` accepts an `authorId` no author carries; the stored book's
      `Book.author` is then absent. */
  lemma DanglingAuthorIdAccepted(s: Store, name: string, authorId: int)
    requires WellNumbered(s)
    requires !(1 <= authorId <= |s.authors|)
    ensures var m := AddBook(s, name, authorId);
      && m.record in m.store.books
      && BookAuthor(m.store, m.record) == None
  {
  }

  /** As the server writes it, `Author.books` in a well-numbered store holds at
      most one book: the one whose position matches the author's id, whatever
      that book's `authorId` is. */
  lemma {:induction false} AuthorBooksByPosition(s: Store, a: Author)
    requires WellNumbered(s)
    ensures AuthorBooks(s, a) == if 1 <= a.id <= |s.books| then [s.books[a.id - 1]] else []
  {
    var p := (b: Book) => b.id == a.id;
    if 1 <= a.id <= |s.books| {
      FilterSingleHit(s.books, a.id - 1, p);
    } else {
      FilterNone(s.books, p);
    }
  }
}
