# Library lending API — a Dafny model

This project models a small library REST API. The API has users and books. A
user borrows a book, and later returns it with a score from 1 to 10. A book's
score is the average of the scores it has received.

The model covers the two controllers that hold this logic:

- `src/routes/users/userController.ts`: list, fetch and create users; borrow and return books.
- `src/routes/books/bookController.ts`: list, fetch and create books.

The database is modelled as one object, `Library.Library`. It holds three
tables (`users`, `books`, `borrows`) as sequences in store order, and one
autoincrement counter per table. The rows follow the interfaces in
`src/routes/types.ts`. A borrow's `returnDate` and `userScore` are `Option`s,
and `None` stands for the database's `null`.

Handlers that write to the store are methods of the class: `CreateUser`,
`CreateBook`, `BorrowBook` and `ReturnBook`. They return a `Result` that is
either `Ok` or one of `ValidationError`, `NotFound` or `Conflict`. These
correspond to the HTTP answers 400, 404 and the 400 "already borrowed". The
read-only views `getUser` and `getBook` are pure functions of the tables
(`Membership.GetUser`, `Catalog.GetBook`).

The class invariant `Library.Valid()` holds that:

- the keys of each table are distinct and below that table's counter;
- every borrow refers to an existing user and an existing book;
- no book has two open borrows (`Lending.AtMostOneOpenPerBook`);
- a score is recorded exactly when a return date is (`Lending.ScoreIffReturned`);
- every recorded score lies in 1..10 (`Lending.ScoresInRange`).

Every handler keeps `Valid()`. This holds because each handler runs to
completion before the next starts.

Modules, one per concern: `Results` (outcomes), `Records` (rows), `Seqs`
(order-preserving scan and filter), `Query` (the store lookups), `Validation`
(the request-body schemas), `Lending` (loan invariants and transitions),
`Catalog` (book view and score), `Membership` (user history view), `Library`
(the store and its handlers). `Scenario` is a client. It checks the lending
walkthrough (lend "Dune", refuse a second loan, return it with an 8, refuse a
second return, read score 8) against the handlers' contracts alone.

Three facts about the code that the model keeps:

- `getUser` names its past entries `{name, userScore}` and its present entries `{id, name}` (userController.ts:44-53).
- The already-borrowed case is answered with status 400 (userController.ts:124).
- The availability check and the insert in `borrowBook` are separate store calls, so two concurrent requests can race (userController.ts:119-133). The model treats each handler as atomic.

## Model

| member | source | states |
|---|---|---|
| `Seqs.FirstIndex` | src/routes/users/userController.ts:161-163 | `findFirst` semantics: the index returned holds the first row satisfying the filter, and no index is returned only when no row satisfies it |
| `Seqs.FilterIsSubsequence` | src/routes/users/userController.ts:42-54 | `filter` keeps store order: its result is a subsequence of the input |
| `Seqs.FilterThroughMap` | src/routes/users/userController.ts:42-54 | filtering the included borrows by a condition on the borrow picks, position by position, the same borrows as filtering the borrow rows themselves |
| `Seqs.FilterPartition` | src/routes/users/userController.ts:42-54 | filtering by a condition and by its negation splits the input into two parts whose multisets add up to the input's |
| `Query.FindUser` | src/routes/users/userController.ts:111 | a user row is found exactly when a user with that id exists, and the row found has that id |
| `Query.FindBook` | src/routes/users/userController.ts:112 | a book row is found exactly when a book with that id exists, and the row found has that id |
| `Query.OpenBorrowIndex` | src/routes/users/userController.ts:119-121 | a row is found exactly when the book has an open borrow by any user; the row found is such a borrow |
| `Query.ActiveBorrowIndex` | src/routes/users/userController.ts:161-163 | a row is found exactly when this user holds an open borrow of this book; the row found is such a borrow |
| `Validation.ValidateName` | src/routes/users/userController.ts:75-82 | the body is accepted exactly when its only key is `name` and holds a non-empty string, which is returned; otherwise ValidationError |
| `Validation.ValidateScore` | src/routes/users/userController.ts:148-155 | the body is accepted exactly when its only key is `score` and holds a whole number in 1..10, which is returned; otherwise ValidationError |
| `Lending.OpenKeepsInvariant` | src/routes/users/userController.ts:119-133 | appending an open borrow for a book that has none keeps one-open-borrow-per-book and score-iff-returned, and marks the book borrowed |
| `Lending.CloseKeepsInvariant` | src/routes/users/userController.ts:161-176 | closing an open borrow with a score in 1..10 keeps all loan invariants and leaves that book with no open borrow, so a second return fails |
| `Lending.ActiveBorrowIsOnlyOpenLoan` | src/routes/users/userController.ts:161-171 | under the invariant, the borrow the return finds is the book's only open borrow, so the row `findFirst` picks is determined |
| `Catalog.Scores` | src/routes/books/bookController.ts:40-43 | the values kept are exactly the non-null scores of the borrows; the list is empty exactly when no borrow has a score |
| `Catalog.ScoresMultiplicity` | src/routes/books/bookController.ts:40-50 | each value is kept exactly as many times as borrows carry it as their score, and the number kept (the divisor) is the number of scored borrows |
| `Catalog.AverageScore` | src/routes/books/bookController.ts:45-51 | the sentinel -1 when there is no score, otherwise the value whose product with the count is the sum (the mean) |
| `Catalog.SumBounds` | src/routes/books/bookController.ts:47-50 | a sum of scores in 1..10 lies between the count and ten times the count |
| `Catalog.AverageInRange` | src/routes/books/bookController.ts:45-51 | the mean of a non-empty list of scores in 1..10 lies in 1..10, so it is never the sentinel |
| `Catalog.ScoresOfValidBorrowsInRange` | src/routes/books/bookController.ts:40-43 | every score kept from borrows whose scores lie in 1..10 lies in 1..10 |
| `Catalog.BookAverage` | src/routes/books/bookController.ts:40-51 | a book has no kept score exactly when none of its borrows is scored; otherwise its average lies in 1..10 |
| `Catalog.GetBook` | src/routes/books/bookController.ts:20-38 | NotFound exactly when no book has the id; otherwise the answer carries that id and the stored name |
| `Catalog.GetBookScore` | src/routes/books/bookController.ts:40-51 | the reported score is -1 exactly when no borrow of the book has a score; otherwise it is the mean of those scores and lies in 1..10 |
| `Membership.LoansOf` | src/routes/users/userController.ts:28-37 | the included borrows are the user's borrows in store order, each paired with the stored book its `bookId` finds; every borrow of the user is included |
| `Membership.ReturnedBorrowsOf` | src/routes/users/userController.ts:42-43 | a borrow is kept exactly when it is the user's and has a return date |
| `Membership.HeldBorrowsOf` | src/routes/users/userController.ts:49-50 | a borrow is kept exactly when it is the user's and has no return date |
| `Membership.PastBooks` | src/routes/users/userController.ts:42-47 | entry i is the book name and score of the i-th returned loan, one entry per returned loan |
| `Membership.PresentBooks` | src/routes/users/userController.ts:49-54 | entry i is the book id and name of the i-th held loan, one entry per held loan |
| `Membership.HistoryEntries` | src/routes/users/userController.ts:42-54 | a past entry is exactly the book name and score of some returned loan, and a present entry exactly the book id and name of some held loan |
| `Membership.HistoryPartition` | src/routes/users/userController.ts:42-54 | each loan is in exactly one of the returned and held lists, chosen by whether `returnDate` is set; both lists keep store order; the entry counts add up to the loan count |
| `Membership.GetUser` | src/routes/users/userController.ts:24-41 | NotFound exactly when no user has the id; otherwise the answer carries that id and the stored name |
| `Membership.GetUserHistory` | src/routes/users/userController.ts:42-63 | past and present together have one entry per borrow of the user; every present entry is a stored book (id and name) the user holds on an open borrow; every past entry is a stored book's name with the score of a returned borrow of it by the user; every returned or open borrow of the user yields its entry; under score-iff-returned every past entry has a score |
| `Membership.GetUserInStoreOrder` | src/routes/users/userController.ts:28-54 | `past` lists the user's returned borrows and `present` their open borrows, each in store order with one entry per borrow, entry i carrying the i-th such borrow's score or book id and its book's stored name |
| `Membership.PastInStoreOrder` | src/routes/users/userController.ts:28-47 | entry i of `past` is the stored name of the i-th returned borrow's book with that borrow's score, one entry per returned borrow |
| `Membership.PresentInStoreOrder` | src/routes/users/userController.ts:28-54 | entry i of `present` is the id and stored name of the i-th open borrow's book, one entry per open borrow |
| `Membership.PresentEntriesHeld` | src/routes/users/userController.ts:49-54 | every present entry is a stored book (id and name) the user holds on an open borrow |
| `Membership.PastEntriesReturned` | src/routes/users/userController.ts:42-47 | every past entry is a stored book's name with the score of a returned borrow of it by the user; under score-iff-returned that score is set |
| `Membership.EveryBorrowListed` | src/routes/users/userController.ts:42-54 | every returned borrow of the user appears in past, and every open one in present, with its book's stored name |
| `Library.ValidStoreServesGetUser` | src/routes/users/userController.ts:28-41 | on a valid store every borrow's book resolves, so `getUser` can be asked, and it answers NotFound exactly for an unknown id |
| `Library.Library.GetUsers` | src/routes/users/userController.ts:8-21 | returns every user in store order |
| `Library.Library.GetBooks` | src/routes/books/bookController.ts:9-17 | returns every book in store order |
| `Library.Library.CreateUser` | src/routes/users/userController.ts:73-100 | a body that fails the schema gives ValidationError and adds no user; otherwise exactly one user with the given name and a new id is appended; other tables unchanged; invariant kept |
| `Library.Library.CreateBook` | src/routes/books/bookController.ts:67-95 | a body that fails the schema gives ValidationError and adds no book; otherwise exactly one book with the given name and a new id is appended; existing books unchanged; invariant kept |
| `Library.Library.BorrowBook` | src/routes/users/userController.ts:105-140 | NotFound when the user or the book is missing, checked first; Conflict when the book has an open borrow by anyone; on either error the borrows are unchanged; otherwise exactly one open borrow for this user and book is appended; invariant kept |
| `Library.Library.ReturnBook` | src/routes/users/userController.ts:143-183 | ValidationError for a bad score, checked before anything else; NotFound when the caller holds no open borrow of the book; on either error nothing changes; otherwise only the found row is closed with the score; closed rows never change; a second return fails; invariant kept |

## Left out

- Express routing and server start-up (`src/routes/users.ts`, `src/routes/books.ts`, `src/app.ts`): dispatch and I/O only.
- The database client: tables are in-memory sequences. `findFirst` and an included relation return rows in store order. An update by primary key is an update at the found index, which is the same row because keys are distinct.
- Storage failures, `console.error` and the 500 answers: the model's store never fails.
- `parseInt` on path parameters: ids are natural numbers, so the `NaN` id cases are not modelled.
- The race between the availability check and the insert in `borrowBook`: each handler is atomic in this sequential model.
- `new Date()`: the current time is the parameter `now`. Nothing is assumed about clock order, and `borrowDate` is recorded but never read.
- Catalog.GetBook: reports the exact mean as a real number; the source divides in floating point and rounds with `toFixed(2)`, which is not modelled.
- Validation.ValidateScore: refuses a numeric string such as `"8"` with ValidationError. The schema's default conversion accepts it. The source then answers 404 when the caller holds no open borrow of the book. When the caller does hold one, the handler passes the raw string to the store, whose failure is the unmodelled 500 answer. No row changes in any of these cases.
- Validation's error messages: every schema failure is the single outcome ValidationError.
- The nested response shape of `getUser` (`books: { past, present }`) is flattened into the fields of `Membership.UserView`.
- The optional `borrows` and `score` members of `User` and `Book` in `src/routes/types.ts`: relations are expressed by ids, and the score is computed by `Catalog.GetBook`.
