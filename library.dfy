/** The database behind both controllers, as one object whose tables the
    handlers read and write in place. Each handler runs to completion before
    the next starts; ids are handed out by per-table autoincrement counters. */
module Library {
  import opened Results
  import opened Records
  import opened Seqs
  import opened Query
  import opened Validation
  import opened Lending
  import Membership

  /** Keys are distinct and all below the next key to hand out. */
  ghost predicate KeysFresh(keys: seq<Id>, next: Id) {
    (forall i, j :: 0 <= i < j < |keys| ==> keys[i] != keys[j])
    && (forall i :: 0 <= i < |keys| ==> keys[i] < next)
  }

  function UserIds(users: seq<User>): seq<Id> {
    seq(|users|, i requires 0 <= i < |users| => users[i].id)
  }

  function BookIds(books: seq<Book>): seq<Id> {
    seq(|books|, i requires 0 <= i < |books| => books[i].id)
  }

  function BorrowIds(borrows: seq<Borrow>): seq<Id> {
    seq(|borrows|, i requires 0 <= i < |borrows| => borrows[i].id)
  }

  /** Handing out `next` as a new key keeps the keys distinct. */
  lemma AppendKeepsKeysFresh(keys: seq<Id>, next: Id)
    requires KeysFresh(keys, next)
    ensures KeysFresh(keys + [next], next + 1)
    ensures next !in keys
  {
  }

  class Library {
    var users: seq<User>
    var books: seq<Book>
    var borrows: seq<Borrow>
    var nextUserId: Id
    var nextBookId: Id
    var nextBorrowId: Id

    ghost predicate Valid()
      reads this
    {
      KeysFresh(UserIds(users), nextUserId)
      && KeysFresh(BookIds(books), nextBookId)
      && KeysFresh(BorrowIds(borrows), nextBorrowId)
      && ReferencesResolve(users, books, borrows)
      && LoanInvariant(borrows)
    }

    /** An empty database; autoincrement keys start at 1. */
    constructor ()
      ensures Valid()
      ensures users == [] && books == [] && borrows == []
      ensures nextUserId == 1 && nextBookId == 1 && nextBorrowId == 1
    {
      users, books, borrows := [], [], [];
      nextUserId, nextBookId, nextBorrowId := 1, 1, 1;
    }

    /** `getUsers`: every user, in store order. */
    method GetUsers() returns (r: seq<User>)
      ensures r == users
    {
      r := users;
    }

    /** `getBooks`: every book verbatim, in store order. */
    method GetBooks() returns (r: seq<Book>)
      ensures r == books
    {
      r := books;
    }

    /** `createUser`: validate the body, then insert one user. */
    method CreateUser(body: Body) returns (r: Result<User>)
      requires Valid()
      modifies this
      ensures Valid()
      ensures books == old(books) && borrows == old(borrows)
      ensures nextBookId == old(nextBookId) && nextBorrowId == old(nextBorrowId)
      ensures r.Err? <==> ValidateName(body).Err?
      ensures r.Err? ==> r.error == ValidationError
                         && users == old(users) && nextUserId == old(nextUserId)
      ensures r.Ok? ==> r.value == User(old(nextUserId), ValidateName(body).value)
                        && users == old(users) + [r.value] && nextUserId == old(nextUserId) + 1
      ensures r.Ok? ==> !HasUser(old(users), r.value.id)
    {
      var name := ValidateName(body);
      if name.Err? {
        return Err(ValidationError);
      }
      var user := User(nextUserId, name.value);
      AppendKeepsKeysFresh(UserIds(users), nextUserId);
      forall i | 0 <= i < |users| ensures users[i].id != nextUserId {
        assert UserIds(users)[i] == users[i].id;
      }
      assert UserIds(users + [user]) == UserIds(users) + [nextUserId];
      users := users + [user];
      nextUserId := nextUserId + 1;
      r := Ok(user);
      ResolveAfterUserInsert(old(users), user);
    }

    /** `createBook`: validate the body, then insert one book. */
    method CreateBook(body: Body) returns (r: Result<Book>)
      requires Valid()
      modifies this
      ensures Valid()
      ensures users == old(users) && borrows == old(borrows)
      ensures nextUserId == old(nextUserId) && nextBorrowId == old(nextBorrowId)
      ensures r.Err? <==> ValidateName(body).Err?
      ensures r.Err? ==> r.error == ValidationError
                         && books == old(books) && nextBookId == old(nextBookId)
      ensures r.Ok? ==> r.value == Book(old(nextBookId), ValidateName(body).value)
                        && books == old(books) + [r.value] && nextBookId == old(nextBookId) + 1
      ensures r.Ok? ==> !HasBook(old(books), r.value.id)
    {
      var name := ValidateName(body);
      if name.Err? {
        return Err(ValidationError);
      }
      var book := Book(nextBookId, name.value);
      AppendKeepsKeysFresh(BookIds(books), nextBookId);
      forall i | 0 <= i < |books| ensures books[i].id != nextBookId {
        assert BookIds(books)[i] == books[i].id;
      }
      assert BookIds(books + [book]) == BookIds(books) + [nextBookId];
      books := books + [book];
      nextBookId := nextBookId + 1;
      r := Ok(book);
      ResolveAfterBookInsert(old(books), book);
    }

    /** `borrowBook`: both rows must exist (else NotFound), the book must have no
        open borrow by anyone (else Conflict); then one open borrow is appended. */
    method BorrowBook(userId: Id, bookId: Id, now: Time) returns (r: Result<()>)
      requires Valid()
      modifies this
      ensures Valid()
      ensures users == old(users) && books == old(books)
      ensures nextUserId == old(nextUserId) && nextBookId == old(nextBookId)
      ensures r == Err(NotFound) <==> !HasUser(users, userId) || !HasBook(books, bookId)
      ensures r == Err(Conflict) <==>
        HasUser(users, userId) && HasBook(books, bookId) && HasOpenBorrow(old(borrows), bookId)
      ensures r.Err? ==> r.error in {NotFound, Conflict}
                         && borrows == old(borrows) && nextBorrowId == old(nextBorrowId)
      ensures r.Ok? ==> borrows == old(borrows) + [Opened(old(nextBorrowId), userId, bookId, now)]
                        && nextBorrowId == old(nextBorrowId) + 1
      ensures r.Ok? ==> HasOpenBorrow(borrows, bookId)
    {
      var user := FindUser(users, userId);
      var book := FindBook(books, bookId);
      if user.None? || book.None? {
        return Err(NotFound);
      }
      var existing := OpenBorrowIndex(borrows, bookId);
      if existing.Some? {
        return Err(Conflict);
      }
      var loan := Opened(nextBorrowId, userId, bookId, now);
      OpenKeepsInvariant(borrows, nextBorrowId, userId, bookId, now);
      AppendKeepsKeysFresh(BorrowIds(borrows), nextBorrowId);
      assert BorrowIds(borrows + [loan]) == BorrowIds(borrows) + [nextBorrowId];
      borrows := borrows + [loan];
      nextBorrowId := nextBorrowId + 1;
      r := Ok(());
    }

    /** `returnBook`: the score must pass its schema (else ValidationError, before
        anything is read); the caller must hold an open borrow of the book (else
        NotFound); then that one row gets its return date and score. */
    method ReturnBook(userId: Id, bookId: Id, body: Body, now: Time) returns (r: Result<()>)
      requires Valid()
      modifies this
      ensures Valid()
      ensures users == old(users) && books == old(books)
      ensures nextUserId == old(nextUserId) && nextBookId == old(nextBookId)
      ensures nextBorrowId == old(nextBorrowId)
      ensures r == Err(ValidationError) <==> ValidateScore(body).Err?
      ensures r == Err(NotFound) <==>
        ValidateScore(body).Ok? && !HasActiveBorrow(old(borrows), userId, bookId)
      ensures r.Err? ==> r.error in {ValidationError, NotFound} && borrows == old(borrows)
      ensures r.Ok? ==>
        var k := ActiveBorrowIndex(old(borrows), userId, bookId).value;
        borrows == old(borrows)[k := Closed(old(borrows)[k], now, ValidateScore(body).value)]
      ensures |borrows| == |old(borrows)|
      ensures forall i :: 0 <= i < |borrows| && !old(borrows)[i].IsOpen() ==> borrows[i] == old(borrows)[i]
      ensures r.Ok? ==> !HasActiveBorrow(borrows, userId, bookId) && !HasOpenBorrow(borrows, bookId)
    {
      var score := ValidateScore(body);
      if score.Err? {
        return Err(ValidationError);
      }
      var found := ActiveBorrowIndex(borrows, userId, bookId);
      if found.None? {
        return Err(NotFound);
      }
      var k := found.value;
      CloseKeepsInvariant(borrows, k, now, score.value);
      var closed := Closed(borrows[k], now, score.value);
      assert BorrowIds(borrows[k := closed]) == BorrowIds(borrows);
      borrows := borrows[k := closed];
      r := Ok(());
    }
  }

  /** On a valid store `getUser` can always be asked, and it answers NotFound
      exactly for an unknown id. */
  lemma ValidStoreServesGetUser(lib: Library, id: Id)
    requires lib.Valid()
    ensures Membership.BooksResolve(lib.books, lib.borrows)
    ensures Membership.GetUser(lib.users, lib.books, lib.borrows, id).Ok? <==> HasUser(lib.users, id)
  {
  }

  /** A new user leaves every existing reference resolvable. */
  lemma ResolveAfterUserInsert(users: seq<User>, user: User)
    ensures forall id :: HasUser(users, id) ==> HasUser(users + [user], id)
  {
    forall id | HasUser(users, id) ensures HasUser(users + [user], id) {
      var i :| 0 <= i < |users| && users[i].id == id;
      assert (users + [user])[i] == users[i];
    }
  }

  /** A new book leaves every existing reference resolvable. */
  lemma ResolveAfterBookInsert(books: seq<Book>, book: Book)
    ensures forall id :: HasBook(books, id) ==> HasBook(books + [book], id)
  {
    forall id | HasBook(books, id) ensures HasBook(books + [book], id) {
      var i :| 0 <= i < |books| && books[i].id == id;
      assert (books + [book])[i] == books[i];
    }
  }
}
