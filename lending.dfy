/** The loan lifecycle of src/routes/users/userController.ts: a borrow row is
    created open by `borrowBook` and closed, once, by `returnBook`. This module
    states the invariants of the borrow table and proves that the two
    transitions keep them. */
module Lending {
  import opened Results
  import opened Records
  import opened Query

  /** The row `prisma.borrow.create` inserts: both optional columns null. */
  function Opened(id: Id, userId: Id, bookId: Id, now: Time): Borrow {
    Borrow(id, userId, bookId, now, None, None)
  }

  /** The row after `prisma.borrow.update` sets the return date and score. */
  function Closed(b: Borrow, now: Time, score: int): Borrow {
    b.(returnDate := Some(now), userScore := Some(score))
  }

  /** No book is lent twice at the same time. */
  ghost predicate AtMostOneOpenPerBook(borrows: seq<Borrow>) {
    forall i, j :: 0 <= i < j < |borrows| && borrows[i].bookId == borrows[j].bookId ==>
      !(borrows[i].IsOpen() && borrows[j].IsOpen())
  }

  /** A score is recorded exactly when the loan has been returned. */
  ghost predicate ScoreIffReturned(borrows: seq<Borrow>) {
    forall i :: 0 <= i < |borrows| ==>
      (borrows[i].userScore.Some? <==> borrows[i].returnDate.Some?)
  }

  /** Every recorded score passed the 1..10 schema. */
  ghost predicate ScoresInRange(borrows: seq<Borrow>) {
    forall i :: 0 <= i < |borrows| && borrows[i].userScore.Some? ==>
      1 <= borrows[i].userScore.value <= 10
  }

  ghost predicate LoanInvariant(borrows: seq<Borrow>) {
    AtMostOneOpenPerBook(borrows) && ScoreIffReturned(borrows) && ScoresInRange(borrows)
  }

  /** Every borrow points at an existing user and an existing book. */
  ghost predicate ReferencesResolve(users: seq<User>, books: seq<Book>, borrows: seq<Borrow>) {
    forall i :: 0 <= i < |borrows| ==>
      HasUser(users, borrows[i].userId) && HasBook(books, borrows[i].bookId)
  }

  /** Appending a fresh open loan for a book that has none keeps the invariant,
      and afterwards the book counts as borrowed. */
  lemma OpenKeepsInvariant(borrows: seq<Borrow>, id: Id, userId: Id, bookId: Id, now: Time)
    requires LoanInvariant(borrows)
    requires !HasOpenBorrow(borrows, bookId)
    ensures LoanInvariant(borrows + [Opened(id, userId, bookId, now)])
    ensures HasOpenBorrow(borrows + [Opened(id, userId, bookId, now)], bookId)
  {
    var after := borrows + [Opened(id, userId, bookId, now)];
    forall i | 0 <= i < |borrows| && borrows[i].bookId == bookId
      ensures !after[i].IsOpen()
    {
      assert after[i] == borrows[i];
    }
    assert after[|borrows|].bookId == bookId;
  }

  /** Closing the open loan at `k` with a valid score keeps the invariant, and
      leaves its book with no open loan at all. */
  lemma CloseKeepsInvariant(borrows: seq<Borrow>, k: nat, now: Time, score: int)
    requires LoanInvariant(borrows)
    requires k < |borrows| && borrows[k].IsOpen()
    requires 1 <= score <= 10
    ensures LoanInvariant(borrows[k := Closed(borrows[k], now, score)])
    ensures !HasOpenBorrow(borrows[k := Closed(borrows[k], now, score)], borrows[k].bookId)
  {
  }

  /** Under the invariant the loan `findFirst` finds for (user, book) is the
      book's only open loan, so which row the store returns first does not matter. */
  lemma ActiveBorrowIsOnlyOpenLoan(borrows: seq<Borrow>, userId: Id, bookId: Id)
    requires AtMostOneOpenPerBook(borrows)
    requires ActiveBorrowIndex(borrows, userId, bookId).Some?
    ensures forall i ::
      (0 <= i < |borrows| && i != ActiveBorrowIndex(borrows, userId, bookId).value
       && borrows[i].bookId == bookId) ==> !borrows[i].IsOpen()
  {
  }
}
