# Book/author GraphQL store — verified model

The server keeps two in-memory arrays, `books` (`id`, `name`, `authorId`) and
`authors` (`id`, `name`), seeded with three books and two authors. GraphQL
resolvers read them and append to them:

- the root queries `book(id)`, `books`, `author(id)` and `authors`;
- the relation fields `Book.author` and `Author.books`;
- the root mutations `addBook(name, authorId)` and `addAuthor(name)`.

This project models that store and those resolvers as pure Dafny functions
over an immutable `Store`. A mutation returns the record it built together
with the store after the append. `Server.Execute` dispatches one root
request. `Server.Run` executes a sequence of requests, passing each the store
its predecessor left, which is the order the server handles them in.

The central property is an inductive invariant. The seeds are numbered
`1..n` in array order, and both mutations number the new record
`length + 1`. So in every reachable store each record's id is its position
plus one (`Records.WellNumbered`). From this follow id uniqueness,
"`book(k)` is the k-th book", and the exact behaviour of the relation fields.

Modules:

- `Wrappers`: the `Option` type.
- `Sequences`: `Find` and `Filter`, which are the first-match search of
  `Array.prototype.find` and the order-preserving selection of
  `Array.prototype.filter`, with lemmas relating them.
- `Records`: the entities, the store, the seed data and the numbering
  invariant.
- `Resolvers`: one function per resolver.
- `Server`: the request/response state machine.
- `Numbering`: the invariant and what follows from it.
- `Findings`: the `Author.books` defect.
- `Scenarios`: concrete request sequences against the seeds.

An omitted `id` argument, or an explicit `null`, is `None`. It never
matches, because in the source `book.id === undefined` is false for every
book. `name` and `authorId` are plain required parameters; GraphQL's
non-null checking rejects requests without them before any resolver runs.
Names are arbitrary strings. The code only forbids null, so an empty name is
stored like any other, and the model puts no non-emptiness condition on it.

## Model

| member | source | states |
|---|---|---|
| Sequences.FirstIndex | server.js:77 | the position `find` stops at: a satisfying position with no satisfying position before it, or absent exactly when no element satisfies the predicate |
| Sequences.Find | server.js:77 | `find` returns absent exactly when no element satisfies the predicate; otherwise it returns the element at the lowest satisfying position |
| Sequences.Filter | server.js:55 | `filter` returns no more elements than its input, and a value occurs in the result iff it occurs in the input and satisfies the predicate |
| Sequences.FilterCount | server.js:55 | `filter` keeps each satisfying value as many times as the input holds it and drops every other value |
| Sequences.FilterAppend | server.js:55 | `filter` preserves input order: filtering a concatenation is the concatenation of the filtered parts |
| Sequences.FindIsHeadOfFilter | server.js:55-77 | `find` with a predicate gives the first element of what `filter` gives with the same predicate, or absent when that is empty |
| Records.Seed | server.js:13-40 | the seed store has 3 books and 2 authors, ids 1..n in array order, and every seeded `authorId` names an existing author |
| Resolvers.BookById | server.js:95 | `book(id)` is absent iff the id is omitted or no book carries it; otherwise it is a stored book with that id and no earlier book has that id |
| Resolvers.AuthorById | server.js:115 | `author(id)` is absent iff the id is omitted or no author carries it; otherwise it is the first stored author with that id |
| Resolvers.BookAuthor | server.js:76-78 | `Book.author` is absent iff no author's id equals the book's `authorId`; otherwise it is the first such author |
| Resolvers.AuthorBooks | server.js:54-56 | `Author.books` as written holds exactly the stored books whose own `id` equals the author's id, each as often as it is stored |
| Resolvers.AddBook | server.js:135-142 | `addBook` returns a book numbered pre-call count + 1 with the given name and `authorId`; the store gains that book at the end; earlier books and all authors are unchanged |
| Resolvers.AddAuthor | server.js:153-159 | `addAuthor` returns an author numbered pre-call count + 1 with the given name; the store gains it at the end; earlier authors and all books are unchanged |
| Server.Execute | server.js:95-159 | each request is answered by its own resolver: `book(id)`/`author(id)` by the first-match lookup, `books()`/`authors()` by the current sequences; reads leave the store unchanged; `addBook` appends book count + 1 with the given name and `authorId` to `books` only and returns it; `addAuthor` does the same for `authors`; no existing record moves or changes |
| Server.Run | server.js:135-159 | a run answers every request, the first by that request's own answer; the final store extends the initial one by appends only; `books` grows by exactly the number of `addBook` requests and `authors` by the number of `addAuthor` requests |
| Server.RunThreads | server.js:95-159 | every answer of a run is its request's answer on the store that the requests before it left |
| Server.RunSnoc | server.js:95-159 | running one more request after a run executes it on the store the run left: the run's answers gain that request's answer and its final store becomes the store that request leaves |
| Server.ReadsKeepStore | server.js:95-115 | a run made only of reads leaves the store exactly as it was |
| Server.RepeatedReadIsIdentical | server.js:100-105 | a read repeated with any number of reads, and no mutation, in between returns the same answer both times and leaves the store as it was |
| Numbering.AddBookPreservesNumbering | server.js:137-141 | `addBook` keeps every id equal to its position plus one |
| Numbering.AddAuthorPreservesNumbering | server.js:155-158 | `addAuthor` keeps every id equal to its position plus one |
| Numbering.ExecutePreservesNumbering | server.js:135-159 | every root request keeps the numbering invariant |
| Numbering.RunPreservesNumbering | server.js:135-159 | any request sequence keeps the numbering invariant |
| Numbering.ReachableIsNumbered | server.js:13-40 | every store reachable from the seeds is well numbered, and the seeded books and authors are still its first records, unchanged |
| Numbering.NumberedIdsUnique | server.js:135-159 | in a well-numbered store no two books share an id and no two authors share an id |
| Numbering.BookByPosition | server.js:95 | in a well-numbered store `book(k)` is the k-th book for 1 <= k <= count and absent for any other k |
| Numbering.AuthorByPosition | server.js:115 | in a well-numbered store `author(k)` is the k-th author for 1 <= k <= count and absent for any other k |
| Numbering.BookAuthorByPosition | server.js:76-78 | in a well-numbered store `Book.author` equals `author(authorId)`; it is absent exactly when `authorId` is outside 1..author count |
| Numbering.AddedBookIsFoundOnce | server.js:135-142 | after `addBook`, `book(newId)` finds the new book, and it occurs exactly once in `books()`, as the last element |
| Numbering.AddedAuthorIsFoundOnce | server.js:153-159 | after `addAuthor`, `author(newId)` finds the new author, and it occurs exactly once in `authors()`, as the last element |
| Numbering.AddedBookListedByLaterBooks | server.js:100-142 | after any run from a well-numbered store, `addBook` then `books()` lists the store's books followed by the new book, numbered one past them with the given name and `authorId`, which occurs exactly once |
| Numbering.DanglingAuthorIdAccepted | server.js:131-142 | `addBook` stores a book even when its `authorId` names no author; that book's `Book.author` is then absent |
| Numbering.AuthorBooksByPosition | server.js:54-56 | in a well-numbered store the as-written `Author.books` is the single book at the author's id position, or empty past the last book, whatever that book's `authorId` |
| Findings.AuthorBooksIsNotInverseOfBookAuthor | server.js:54-56 | on the seeds, book 2's `Book.author` is J. K. Rowling, but her as-written `Author.books` is book 1 alone |
| Findings.WrittenBy | server.js:54-56 | the intended `Author.books` holds exactly the stored books whose `authorId` is the author's id, each as often as it is stored |
| Findings.WrittenByIsInverseOfBookAuthor | server.js:54-56 | for an author of a well-numbered store, a book is in the intended `Author.books` iff it is stored and its `Book.author` is that author |
| Scenarios.SeedBookTwo | server.js:13-29 | on the seeds `book(id: 2)` is `{id: 2, name: "Harry Potter and the Prisoner of Azkaban", authorId: 1}` |
| Scenarios.SeedBookAbsent | server.js:90-115 | on the seeds `book` with the id omitted, `book(id: 4)` and `author(id: 0)` are all absent |
| Scenarios.AddOrwellThenNineteenEightyFour | server.js:135-159 | from the seeds, `addAuthor("George Orwell")` gives author 3, `addBook("1984", 3)` gives book 4, and `authors()` then lists three authors with Orwell last |

## Left out

- The express application, the `graphqlHTTP` middleware and its `graphiql`
  flag, `app.listen` and the start-up log line (server.js:1-11, 171-175).
  These are HTTP and process plumbing with no logic of their own.
- Schema construction (`GraphQLObjectType`, `GraphQLSchema`) and GraphQL
  parsing, validation and execution (server.js:42-53, 61-75, 83-94,
  120-134, 165-168). These are calls into graphql-js. The model starts at
  the resolver, with required arguments already present. The nested
  resolution of `Book.author` and `Author.books` on a returned record is
  modelled by calling `BookAuthor`/`AuthorBooks` on the store the
  request leaves (for a mutation, the store after the append).
- Field descriptions and the type names `Author`, `Book`, `Query` and
  `Mutation` are schema metadata and are not modelled.
- GraphQLInt's 32-bit range and JavaScript number semantics. Ids and
  `authorId` are unbounded integers.
- Concurrency. The source relies on Node's single-threaded event loop and
  has no interleaving of its own. The model runs requests strictly one
  after another, so the duplicate ids that concurrent `length + 1`
  assignment could produce are not modelled.
- Object identity. The source returns and stores the same JavaScript object
  for a new record. The model uses values, so later mutation of a returned
  object through another reference cannot arise. The source never does that
  anyway.
- Record ids are assigned from the collection length, as the code does,
  not from a separate monotonically increasing counter.

## Findings

| source | as written | input that shows it | evidently intended | confidence | as-written member | corrected member |
|---|---|---|---|---|---|---|
| server.js:55 | `Author.books` keeps books with `book.id === author.id` | seed store, `author(id: 1) { books }`: returns only book 1, although book 2 also has `authorId` 1 and its `Book.author` is J. K. Rowling | keep books with `book.authorId === author.id`, making `Author.books` the inverse of `Book.author` | high; not executed | Findings.AuthorBooksIsNotInverseOfBookAuthor | Findings.WrittenByIsInverseOfBookAuthor |

The server model keeps the as-written field (`Resolvers.AuthorBooks`)
because that is what clients observe. `Numbering.AuthorBooksByPosition`
states exactly what it returns. `Findings.WrittenBy` is the corrected field.
