/** The root operations as one sequential state machine: a request either
    reads the store or appends one record to it, and a run executes requests
    one after another, each seeing the store its predecessor left. */
module Server {
  import opened Wrappers
  import opened Records
  import opened Resolvers

  /** The root fields a client document can select, with their arguments. */
  datatype Request =
    | BookQuery(id: Option<int>)
    | BooksQuery
    | AuthorQuery(id: Option<int>)
    | AuthorsQuery
    | AddBookMutation(name: string, authorId: int)
    | AddAuthorMutation(name: string)
  {
    predicate IsRead() {
      BookQuery? || BooksQuery? || AuthorQuery? || AuthorsQuery?
    }
  }

  /** What a root field resolves to, before the nested fields are resolved. */
  datatype Response =
    | OneBook(book: Option<Book>)
    | ManyBooks(books: seq<Book>)
    | OneAuthor(author: Option<Author>)
    | ManyAuthors(authors: seq<Author>)

  /** One request's answer and the store it leaves behind. */
  datatype Outcome = Outcome(response: Response, store: Store)

  /** A run's answers, one per request, and the final store. */
  datatype Trace = Trace(responses: seq<Response>, store: Store)

  /** Whether `t` extends `s` by appending only: every existing record of
      either collection is still there, unchanged, at the same position. */
  predicate Extends(s: Store, t: Store) {
    s.books <= t.books && s.authors <= t.authors
  }

  /** Dispatches a request to its resolver. Reads leave the store as it was;
      a mutation appends exactly one record and keeps everything before it. */
  function Execute(s: Store, q: Request): (r: Outcome)
    ensures q.IsRead() ==> r.store == s
    ensures Extends(s, r.store)
    ensures q.BookQuery? ==> r.response == OneBook(BookById(s, q.id))
    ensures q.BooksQuery? ==> r.response == ManyBooks(s.books)
    ensures q.AuthorQuery? ==> r.response == OneAuthor(AuthorById(s, q.id))
    ensures q.AuthorsQuery? ==> r.response == ManyAuthors(s.authors)
    ensures q.AddBookMutation? ==>
      && r.store.authors == s.authors
      && |r.store.books| == |s.books| + 1
      && r.store.books[|s.books|] == Book(|s.books| + 1, q.name, q.authorId)
      && r.response == OneBook(Some(r.store.books[|s.books|]))
    ensures q.AddAuthorMutation? ==>
      && r.store.books == s.books
      && |r.store.authors| == |s.authors| + 1
      && r.store.authors[|s.authors|] == Author(|s.authors| + 1, q.name)
      && r.response == OneAuthor(Some(r.store.authors[|s.authors|]))
  {
    match q
    case BookQuery(id) => Outcome(OneBook(BookById(s, id)), s)
    case BooksQuery => Outcome(ManyBooks(s.books), s)
    case AuthorQuery(id) => Outcome(OneAuthor(AuthorById(s, id)), s)
    case AuthorsQuery => Outcome(ManyAuthors(s.authors), s)
    case AddBookMutation(name, authorId) =>
      var m := AddBook(s, name, authorId);
      Outcome(OneBook(Some(m.record)), m.store)
    case AddAuthorMutation(name) =>
      var m := AddAuthor(s, name);
      Outcome(OneAuthor(Some(m.record)), m.store)
  }

  /** Number of `addBook` mutations among the requests. */
  function BookWrites(qs: seq<Request>): nat {
    if |qs| == 0 then 0 else (if qs[0].AddBookMutation? then 1 else 0) + BookWrites(qs[1..])
  }

  /** Number of `addAuthor` mutations among the requests. */
  function AuthorWrites(qs: seq<Request>): nat {
    if |qs| == 0 then 0 else (if qs[0].AddAuthorMutation? then 1 else 0) + AuthorWrites(qs[1..])
  }

  /** Executes the requests in order, threading the store through them. */
  function Run(s: Store, qs: seq<Request>): (r: Trace)
    ensures |r.responses| == |qs|
    ensures Extends(s, r.store)
    ensures |r.store.books| == |s.books| + BookWrites(qs)
    ensures |r.store.authors| == |s.authors| + AuthorWrites(qs)
    ensures |qs| > 0 ==> r.responses[0] == Execute(s, qs[0]).response
    decreases |qs|
  {
    if |qs| == 0 then Trace([], s)
    else
      var first := Execute(s, qs[0]);
      var rest := Run(first.store, qs[1..]);
      Trace([first.response] + rest.responses, rest.store)
  }

  /** The i-th answer of a run is the i-th request's answer on the store
      that the requests before it left. */
  lemma {:induction false} RunThreads(s: Store, qs: seq<Request>, i: nat)
    requires i < |qs|
    ensures Run(s, qs).responses[i] == Execute(Run(s, qs[..i]).store, qs[i]).response
    decreases |qs|
  {
    if i == 0 {
      assert qs[..0] == [];
    } else {
      var prefix := qs[..i];
      assert prefix[0] == qs[0] && prefix[1..] == qs[1..][..i - 1];
      RunThreads(Execute(s, qs[0]).store, qs[1..], i - 1);
    }
  }

  /** Extending a run by one request executes that request on the store the
      run left: its answer is appended and its store is the new final store. */
  lemma {:induction false} RunSnoc(s: Store, qs: seq<Request>, q: Request)
    ensures var pre := Run(s, qs);
      var e := Execute(pre.store, q);
      Run(s, qs + [q]) == Trace(pre.responses + [e.response], e.store)
    decreases |qs|
  {
    if |qs| == 0 {
      assert qs + [q] == [q];
    } else {
      assert (qs + [q])[1..] == qs[1..] + [q];
      RunSnoc(Execute(s, qs[0]).store, qs[1..], q);
    }
  }

  /** A run made only of reads leaves the store as it found it. */
  lemma {:induction false} ReadsKeepStore(s: Store, qs: seq<Request>)
    requires forall j :: 0 <= j < |qs| ==> qs[j].IsRead()
    ensures Run(s, qs).store == s
    decreases |qs|
  {
    if |qs| > 0 {
      ReadsKeepStore(s, qs[1..]);
    }
  }

  /** Reads have no side effects, so a read repeated with only reads in
      between gives the same answer both times and leaves the store as it was. */
  lemma RepeatedReadIsIdentical(s: Store, q: Request, between: seq<Request>)
    requires q.IsRead()
    requires forall j :: 0 <= j < |between| ==> between[j].IsRead()
    ensures var t := Run(s, [q] + between + [q]);
      t.responses[0] == t.responses[|between| + 1] && t.store == s
  {
    var qs := [q] + between + [q];
    assert forall j :: 0 <= j < |qs| ==> qs[j].IsRead() by {
      forall j | 0 <= j < |qs| ensures qs[j].IsRead() {
        if 0 < j < |qs| - 1 {
          assert qs[j] == between[j - 1];
        }
      }
    }
    var last := |between| + 1;
    RunThreads(s, qs, 0);
    RunThreads(s, qs, last);
    assert qs[..last] == [q] + between;
    assert qs[last] == q;
    ReadsKeepStore(s, qs[..last]);
    ReadsKeepStore(s, qs);
  }
}
