/** The read side of src/routes/books/bookController.ts: `getBook` and its
    average score. The average is exact: the source's `toFixed(2)` rounding
    of a floating-point quotient is not modelled. */
module Catalog {
  import opened Results
  import opened Records
  import opened Seqs
  import opened Query
  import opened Lending

  /** A book as `getBook` answers it: id, name and derived score. */
  datatype BookView = BookView(id: Id, name: string, score: real)

  /** Score reported for a book that has no scored borrow yet. */
  const NoRatings: real := -1.0

  /** The borrows the store includes with a book. */
  function BorrowsOfBook(borrows: seq<Borrow>, bookId: Id): seq<Borrow> {
    Filter(borrows, (b: Borrow) => b.bookId == bookId)
  }

  /** The non-null `userScore` values of `borrows`, in store order. */
  function Scores(borrows: seq<Borrow>): (r: seq<int>)
    ensures |r| <= |borrows|
    ensures forall x :: x in r <==> exists b :: b in borrows && b.userScore == Some(x)
    ensures r == [] <==> forall b :: b in borrows ==> b.userScore.None?
  {
    if borrows == [] then []
    else match borrows[0].userScore
      case Some(x) => [x] + Scores(borrows[1..])
      case None => Scores(borrows[1..])
  }

  /** Each value is kept as many times as borrows carry it as their score, so
      the count the mean divides by is the number of scored borrows. */
  lemma {:induction false} ScoresMultiplicity(borrows: seq<Borrow>, x: int)
    ensures multiset(Scores(borrows))[x] == |Filter(borrows, (b: Borrow) => b.userScore == Some(x))|
    ensures |Scores(borrows)| == |Filter(borrows, (b: Borrow) => b.userScore.Some?)|
  {
    if borrows != [] {
      ScoresMultiplicity(borrows[1..], x);
    }
  }

  function Sum(s: seq<int>): int {
    if s == [] then 0 else s[0] + Sum(s[1..])
  }

  /** `m` is the arithmetic mean of the non-empty `scores`. */
  ghost predicate IsMean(m: real, scores: seq<int>) {
    |scores| > 0 && m * (|scores| as real) == Sum(scores) as real
  }

  /** The mean of `scores`, or the sentinel when there is none. */
  function AverageScore(scores: seq<int>): (r: real)
    ensures |scores| == 0 ==> r == NoRatings
    ensures |scores| > 0 ==> IsMean(r, scores)
  {
    if |scores| > 0 then Sum(scores) as real / |scores| as real else NoRatings
  }

  /** A sum of scores from 1 to 10 lies between one and ten times their count. */
  lemma {:induction false} SumBounds(s: seq<int>)
    requires forall i :: 0 <= i < |s| ==> 1 <= s[i] <= 10
    ensures |s| <= Sum(s) <= 10 * |s|
  {
    if s != [] {
      SumBounds(s[1..]);
    }
  }

  /** The mean of valid scores is itself a valid score, hence never the sentinel. */
  lemma AverageInRange(scores: seq<int>)
    requires |scores| > 0
    requires forall i :: 0 <= i < |scores| ==> 1 <= scores[i] <= 10
    ensures 1.0 <= AverageScore(scores) <= 10.0
    ensures AverageScore(scores) != NoRatings
  {
    SumBounds(scores);
    var n := |scores| as real;
    assert AverageScore(scores) == Sum(scores) as real / n;
    QuotientBounds(Sum(scores) as real, n);
  }

  lemma QuotientBounds(total: real, n: real)
    requires n > 0.0 && n <= total <= 10.0 * n
    ensures 1.0 <= total / n <= 10.0
  {
  }

  /** `getBook`: NotFound for an unknown id; otherwise the book with the average
      of the non-null scores of its borrows. */
  function GetBook(books: seq<Book>, borrows: seq<Borrow>, id: Id): (r: Result<BookView>)
    ensures r.Err? <==> !HasBook(books, id)
    ensures r.Err? ==> r.error == NotFound
    ensures r.Ok? ==> r.value.id == id && Book(id, r.value.name) in books
  {
    match FindBook(books, id)
    case None => Err(NotFound)
    case Some(book) => Ok(BookView(book.id, book.name, AverageScore(Scores(BorrowsOfBook(borrows, id)))))
  }

  /** The score `getBook` reports is the sentinel exactly when no borrow of the
      book carries a score; otherwise it is the mean of those scores and, since
      stored scores lie in 1..10, lies in 1..10 itself. */
  lemma GetBookScore(books: seq<Book>, borrows: seq<Borrow>, id: Id)
    requires ScoresInRange(borrows)
    requires GetBook(books, borrows, id).Ok?
    ensures var score := GetBook(books, borrows, id).value.score;
      score == NoRatings <==> forall b :: b in borrows && b.bookId == id ==> b.userScore.None?
    ensures var score := GetBook(books, borrows, id).value.score;
      var scores := Scores(BorrowsOfBook(borrows, id));
      score != NoRatings ==> 1.0 <= score <= 10.0 && IsMean(score, scores)
  {
    assert GetBook(books, borrows, id).value.score == AverageScore(Scores(BorrowsOfBook(borrows, id)));
    BookAverage(borrows, id);
  }

  lemma BookAverage(borrows: seq<Borrow>, id: Id)
    requires ScoresInRange(borrows)
    ensures var scores := Scores(BorrowsOfBook(borrows, id));
      (scores == [] <==> forall b :: b in borrows && b.bookId == id ==> b.userScore.None?)
      && (scores != [] ==> 1.0 <= AverageScore(scores) <= 10.0 && AverageScore(scores) != NoRatings)
  {
    var mine := BorrowsOfBook(borrows, id);
    var scores := Scores(mine);
    forall b | b in mine && b.userScore.Some? ensures 1 <= b.userScore.value <= 10 {
      var i :| 0 <= i < |borrows| && borrows[i] == b;
    }
    ScoresOfValidBorrowsInRange(mine);
    if scores != [] {
      AverageInRange(scores);
    }
  }

  /** Every score taken from a table that keeps scores in 1..10 lies in 1..10. */
  lemma ScoresOfValidBorrowsInRange(borrows: seq<Borrow>)
    requires forall b :: b in borrows && b.userScore.Some? ==> 1 <= b.userScore.value <= 10
    ensures forall i :: 0 <= i < |Scores(borrows)| ==> 1 <= Scores(borrows)[i] <= 10
  {
  }
}
