/** A client of the handlers: the lending walkthrough a reader of the API would
    try first (create "Dune", lend it, refuse a second loan, return it with a
    score of 8, refuse a second return), checked from the handlers' contracts
    alone. */
module Scenario {
  import opened Results
  import opened Records
  import opened Validation
  import opened Query
  import opened Lending
  import opened Catalog
  import opened Library

  /** Two users and one book, created through the handlers. */
  method SetUp() returns (lib: Library)
    ensures fresh(lib) && lib.Valid()
    ensures lib.users == [User(1, "Ann"), User(2, "Bob")]
    ensures lib.books == [Book(1, "Dune")] && lib.borrows == []
    ensures lib.nextBorrowId == 1
  {
    lib := new Library();
    var ann := lib.CreateUser(map["name" := Str("Ann")]);
    var nameless := lib.CreateUser(map["name" := Str("")]);
    assert nameless == Err(ValidationError);
    var bob := lib.CreateUser(map["name" := Str("Bob")]);
    var dune := lib.CreateBook(map["name" := Str("Dune")]);
    assert GetBook(lib.books, lib.borrows, 1).value.score == NoRatings;
  }

  /** The set-up with Ann holding "Dune". */
  method SetUpLent(t0: Time) returns (lib: Library)
    ensures fresh(lib) && lib.Valid()
    ensures lib.users == [User(1, "Ann"), User(2, "Bob")]
    ensures lib.books == [Book(1, "Dune")] && lib.borrows == [Opened(1, 1, 1, t0)]
  {
    lib := SetUp();
    assert lib.users[0].id == 1 && lib.books[0].id == 1;
    var lent := lib.BorrowBook(1, 1, t0);
    assert lent.Ok?;
  }

  method LendTwice(t0: Time, t1: Time)
  {
    var lib := SetUpLent(t0);
    assert lib.users[1].id == 2 && lib.books[0].id == 1;
    assert lib.borrows[0].bookId == 1 && lib.borrows[0].IsOpen();
    var again := lib.BorrowBook(2, 1, t1);
    assert again == Err(Conflict);
  }

  method LendToStranger(t0: Time, t1: Time)
  {
    var lib := SetUpLent(t0);
    assert !HasUser(lib.users, 3);
    var stranger := lib.BorrowBook(3, 1, t1);
    assert stranger == Err(NotFound);
  }

  method ReturnOutOfRange(t0: Time, t1: Time)
  {
    var lib := SetUpLent(t0);
    var tooHigh := lib.ReturnBook(1, 1, map["score" := Number(11.0)], t1);
    assert tooHigh == Err(ValidationError) && lib.borrows == [Opened(1, 1, 1, t0)];
  }

  method ReturnTwice(t0: Time, t1: Time)
  {
    var lib := SetUpLent(t0);
    assert lib.borrows[0].userId == 1 && lib.borrows[0].bookId == 1 && lib.borrows[0].IsOpen();
    var returned := lib.ReturnBook(1, 1, map["score" := Number(8.0)], t1);
    assert returned.Ok?;
    var twice := lib.ReturnBook(1, 1, map["score" := Number(8.0)], t1);
    assert twice == Err(NotFound);
  }

  method ScoreAfterReturn(t0: Time, t1: Time)
  {
    var lib := SetUpLent(t0);
    assert lib.borrows[0].userId == 1 && lib.borrows[0].bookId == 1 && lib.borrows[0].IsOpen();
    var returned := lib.ReturnBook(1, 1, map["score" := Number(8.0)], t1);
    assert returned.Ok?;
    assert lib.borrows == [Closed(Opened(1, 1, 1, t0), t1, 8)];
    assert BorrowsOfBook(lib.borrows, 1) == lib.borrows;
    assert Scores(lib.borrows) == [8];
    assert AverageScore([8]) == 8.0;
    assert GetBook(lib.books, lib.borrows, 1).value.score == 8.0;
  }
}
