/** The read side of src/routes/users/userController.ts: `getUser` answers a
    user with the books they have returned (`past`) and the books they still
    hold (`present`). */
module Membership {
  import opened Results
  import opened Records
  import opened Seqs
  import opened Query
  import opened Lending

  /** A borrow with its book included, as the store returns it for `getUser`. */
  datatype Loan = Loan(borrow: Borrow, book: Book)

  datatype PastBook = PastBook(name: string, userScore: Option<int>)

  datatype PresentBook = PresentBook(id: Id, name: string)

  datatype UserView = UserView(id: Id, name: string, past: seq<PastBook>, present: seq<PresentBook>)

  ghost predicate BooksResolve(books: seq<Book>, borrows: seq<Borrow>) {
    forall b :: b in borrows ==> HasBook(books, b.bookId)
  }

  /** The borrows of `userId` in store order. */
  function BorrowsOfUser(borrows: seq<Borrow>, userId: Id): seq<Borrow> {
    Filter(borrows, (b: Borrow) => b.userId == userId)
  }

  predicate WasReturned(b: Borrow) { b.returnDate.Some? }

  predicate StillHeld(b: Borrow) { b.IsOpen() }

  /** The returned borrows of `userId`, in store order. */
  function ReturnedBorrowsOf(borrows: seq<Borrow>, userId: Id): (r: seq<Borrow>)
    ensures forall b :: b in r <==> b in borrows && b.userId == userId && b.returnDate.Some?
  {
    Filter(BorrowsOfUser(borrows, userId), WasReturned)
  }

  /** The open borrows of `userId`, in store order. */
  function HeldBorrowsOf(borrows: seq<Borrow>, userId: Id): (r: seq<Borrow>)
    ensures forall b :: b in r <==> b in borrows && b.userId == userId && b.IsOpen()
  {
    Filter(BorrowsOfUser(borrows, userId), StillHeld)
  }

  /** `include: { borrows: { include: { book: true } } }`: the user's borrows,
      each paired with the book it refers to. */
  function LoansOf(books: seq<Book>, borrows: seq<Borrow>, userId: Id): (r: seq<Loan>)
    requires BooksResolve(books, borrows)
    ensures |r| == |BorrowsOfUser(borrows, userId)|
    ensures forall i :: 0 <= i < |r| ==> r[i].borrow == BorrowsOfUser(borrows, userId)[i]
    ensures forall l :: l in r ==> l.borrow in borrows && l.borrow.userId == userId
                                   && l.book in books && FindBook(books, l.borrow.bookId) == Some(l.book)
    ensures forall b :: b in borrows && b.userId == userId ==>
      Loan(b, FindBook(books, b.bookId).value) in r
  {
    var mine := BorrowsOfUser(borrows, userId);
    seq(|mine|, i requires 0 <= i < |mine| =>
      assert mine[i] in mine;
      Loan(mine[i], FindBook(books, mine[i].bookId).value))
  }

  predicate IsHeld(l: Loan) { l.borrow.IsOpen() }

  predicate IsReturned(l: Loan) { !IsHeld(l) }

  /** `filter(borrow => borrow.returnDate !== null)`. */
  function ReturnedLoans(loans: seq<Loan>): seq<Loan> {
    Filter(loans, IsReturned)
  }

  /** `filter(borrow => borrow.returnDate === null)`. */
  function HeldLoans(loans: seq<Loan>): seq<Loan> {
    Filter(loans, IsHeld)
  }

  /** `.map(borrow => ({ name: borrow.book.name, userScore: borrow.userScore }))`. */
  function PastBooks(loans: seq<Loan>): (r: seq<PastBook>)
    ensures |r| == |ReturnedLoans(loans)|
    ensures forall i :: 0 <= i < |r| ==>
      r[i] == PastBook(ReturnedLoans(loans)[i].book.name, ReturnedLoans(loans)[i].borrow.userScore)
  {
    var returned := ReturnedLoans(loans);
    seq(|returned|, i requires 0 <= i < |returned| =>
      PastBook(returned[i].book.name, returned[i].borrow.userScore))
  }

  /** `.map(borrow => ({ id: borrow.bookId, name: borrow.book.name }))`. */
  function PresentBooks(loans: seq<Loan>): (r: seq<PresentBook>)
    ensures |r| == |HeldLoans(loans)|
    ensures forall i :: 0 <= i < |r| ==>
      r[i] == PresentBook(HeldLoans(loans)[i].borrow.bookId, HeldLoans(loans)[i].book.name)
  {
    var held := HeldLoans(loans);
    seq(|held|, i requires 0 <= i < |held| =>
      PresentBook(held[i].borrow.bookId, held[i].book.name))
  }

  /** Each past entry is the book name and score of a returned loan and each
      present entry the book id and name of a held loan; and every such loan
      yields its entry. */
  lemma HistoryEntries(loans: seq<Loan>)
    ensures forall p :: p in PastBooks(loans) <==>
      exists l :: l in loans && IsReturned(l) && p == PastBook(l.book.name, l.borrow.userScore)
    ensures forall p :: p in PresentBooks(loans) <==>
      exists l :: l in loans && IsHeld(l) && p == PresentBook(l.borrow.bookId, l.book.name)
  {
    var returned, past := ReturnedLoans(loans), PastBooks(loans);
    forall p | p in past
      ensures exists l :: l in loans && IsReturned(l) && p == PastBook(l.book.name, l.borrow.userScore)
    {
      var i :| 0 <= i < |past| && past[i] == p;
      assert returned[i] in returned;
    }
    forall l | l in loans && IsReturned(l)
      ensures PastBook(l.book.name, l.borrow.userScore) in past
    {
      assert l in returned;
      var i :| 0 <= i < |returned| && returned[i] == l;
      assert past[i] == PastBook(l.book.name, l.borrow.userScore);
    }
    var held, present := HeldLoans(loans), PresentBooks(loans);
    forall p | p in present
      ensures exists l :: l in loans && IsHeld(l) && p == PresentBook(l.borrow.bookId, l.book.name)
    {
      var i :| 0 <= i < |present| && present[i] == p;
      assert held[i] in held;
    }
    forall l | l in loans && IsHeld(l)
      ensures PresentBook(l.borrow.bookId, l.book.name) in present
    {
      assert l in held;
      var i :| 0 <= i < |held| && held[i] == l;
      assert present[i] == PresentBook(l.borrow.bookId, l.book.name);
    }
  }

  /** Every loan lands in exactly one of the returned and held lists, each in
      store order. */
  lemma HistoryPartition(loans: seq<Loan>)
    ensures multiset(ReturnedLoans(loans)) + multiset(HeldLoans(loans)) == multiset(loans)
    ensures |PastBooks(loans)| + |PresentBooks(loans)| == |loans|
    ensures IsSubsequence(ReturnedLoans(loans), loans) && IsSubsequence(HeldLoans(loans), loans)
    ensures forall l :: l in loans ==> (l in ReturnedLoans(loans) <==> l.borrow.returnDate.Some?)
    ensures forall l :: l in loans ==> (l in HeldLoans(loans) <==> l.borrow.returnDate.None?)
  {
    FilterPartition(loans, IsReturned, IsHeld);
    FilterIsSubsequence(loans, IsReturned);
    FilterIsSubsequence(loans, IsHeld);
  }

  /** `getUser`: NotFound for an unknown id; otherwise the user with the past
      and present split of their loans. */
  function GetUser(users: seq<User>, books: seq<Book>, borrows: seq<Borrow>, id: Id): (r: Result<UserView>)
    requires BooksResolve(books, borrows)
    ensures r.Err? <==> !HasUser(users, id)
    ensures r.Err? ==> r.error == NotFound
    ensures r.Ok? ==> r.value.id == id && User(id, r.value.name) in users
  {
    match FindUser(users, id)
    case None => Err(NotFound)
    case Some(user) =>
      var loans := LoansOf(books, borrows, id);
      Ok(UserView(user.id, user.name, PastBooks(loans), PresentBooks(loans)))
  }

  /** What `getUser` reports about a known user. Between them `past` and
      `present` hold one entry per borrow of the user. Every present entry is a
      stored book the user holds on an open loan; every past entry is the name
      of a stored book and the score of a returned borrow of it by the user;
      every borrow of the user yields its entry. Where the table keeps scores
      exactly on returned loans, every past entry carries a score. */
  lemma GetUserHistory(users: seq<User>, books: seq<Book>, borrows: seq<Borrow>, id: Id)
    requires BooksResolve(books, borrows)
    requires GetUser(users, books, borrows, id).Ok?
    ensures var v := GetUser(users, books, borrows, id).value;
      |v.past| + |v.present| == |BorrowsOfUser(borrows, id)|
    ensures var v := GetUser(users, books, borrows, id).value;
      forall p :: p in v.present ==> HasActiveBorrow(borrows, id, p.id) && Book(p.id, p.name) in books
    ensures var v := GetUser(users, books, borrows, id).value;
      forall p :: p in v.past ==> exists b ::
        b in borrows && b.userId == id && b.returnDate.Some?
        && b.userScore == p.userScore && Book(b.bookId, p.name) in books
    ensures var v := GetUser(users, books, borrows, id).value;
      forall b :: b in borrows && b.userId == id ==>
        (b.returnDate.Some? ==> PastBook(FindBook(books, b.bookId).value.name, b.userScore) in v.past)
        && (b.IsOpen() ==> PresentBook(b.bookId, FindBook(books, b.bookId).value.name) in v.present)
    ensures var v := GetUser(users, books, borrows, id).value;
      ScoreIffReturned(borrows) ==> forall p :: p in v.past ==> p.userScore.Some?
  {
    var loans := LoansOf(books, borrows, id);
    var v := GetUser(users, books, borrows, id).value;
    assert v.past == PastBooks(loans) && v.present == PresentBooks(loans);
    HistoryPartition(loans);
    PresentEntriesHeld(books, borrows, id);
    PastEntriesReturned(books, borrows, id);
    EveryBorrowListed(books, borrows, id);
  }

  /** The order of what `getUser` reports: `past` holds the user's returned
      borrows and `present` their open borrows, each in store order, one entry
      per borrow, each with the stored name of its book. */
  lemma GetUserInStoreOrder(users: seq<User>, books: seq<Book>, borrows: seq<Borrow>, id: Id)
    requires BooksResolve(books, borrows)
    requires GetUser(users, books, borrows, id).Ok?
    ensures var v, r := GetUser(users, books, borrows, id).value, ReturnedBorrowsOf(borrows, id);
      |v.past| == |r| && forall i :: 0 <= i < |r| ==>
        v.past[i] == PastBook(FindBook(books, r[i].bookId).value.name, r[i].userScore)
    ensures var v, h := GetUser(users, books, borrows, id).value, HeldBorrowsOf(borrows, id);
      |v.present| == |h| && forall i :: 0 <= i < |h| ==>
        v.present[i] == PresentBook(h[i].bookId, FindBook(books, h[i].bookId).value.name)
  {
    PastInStoreOrder(books, borrows, id);
    PresentInStoreOrder(books, borrows, id);
  }

  /** Every `present` entry is a stored book that the user holds on an open borrow. */
  lemma PresentEntriesHeld(books: seq<Book>, borrows: seq<Borrow>, id: Id)
    requires BooksResolve(books, borrows)
    ensures forall p :: p in PresentBooks(LoansOf(books, borrows, id)) ==>
      HasActiveBorrow(borrows, id, p.id) && Book(p.id, p.name) in books
  {
    HistoryEntries(LoansOf(books, borrows, id));
  }

  /** Every `past` entry is a stored book's name with the score of a returned
      borrow of it by the user. */
  lemma PastEntriesReturned(books: seq<Book>, borrows: seq<Borrow>, id: Id)
    requires BooksResolve(books, borrows)
    ensures forall p :: p in PastBooks(LoansOf(books, borrows, id)) ==>
      exists b :: b in borrows && b.userId == id && b.returnDate.Some?
        && b.userScore == p.userScore && Book(b.bookId, p.name) in books
    ensures ScoreIffReturned(borrows) ==>
      forall p :: p in PastBooks(LoansOf(books, borrows, id)) ==> p.userScore.Some?
  {
    HistoryEntries(LoansOf(books, borrows, id));
  }

  /** Every borrow of the user shows up in `past` or `present` with its book's name. */
  lemma EveryBorrowListed(books: seq<Book>, borrows: seq<Borrow>, id: Id)
    requires BooksResolve(books, borrows)
    ensures forall b :: b in borrows && b.userId == id ==>
      (b.returnDate.Some? ==> PastBook(FindBook(books, b.bookId).value.name, b.userScore) in PastBooks(LoansOf(books, borrows, id)))
      && (b.IsOpen() ==> PresentBook(b.bookId, FindBook(books, b.bookId).value.name) in PresentBooks(LoansOf(books, borrows, id)))
  {
    var loans := LoansOf(books, borrows, id);
    HistoryEntries(loans);
    forall b | b in borrows && b.userId == id
      ensures b.returnDate.Some? ==> PastBook(FindBook(books, b.bookId).value.name, b.userScore) in PastBooks(loans)
      ensures b.IsOpen() ==> PresentBook(b.bookId, FindBook(books, b.bookId).value.name) in PresentBooks(loans)
    {
      var l := Loan(b, FindBook(books, b.bookId).value);
      assert l in loans;
    }
  }

  /** `past` lists the user's returned borrows in store order, one entry each,
      with the name of the book each refers to. */
  lemma PastInStoreOrder(books: seq<Book>, borrows: seq<Borrow>, id: Id)
    requires BooksResolve(books, borrows)
    ensures var past, r := PastBooks(LoansOf(books, borrows, id)), ReturnedBorrowsOf(borrows, id);
      |past| == |r| && forall i :: 0 <= i < |r| ==>
        past[i] == PastBook(FindBook(books, r[i].bookId).value.name, r[i].userScore)
  {
    var loans := LoansOf(books, borrows, id);
    FilterThroughMap(loans, BorrowsOfUser(borrows, id), (l: Loan) => l.borrow, IsReturned, WasReturned);
    var returned := ReturnedLoans(loans);
    forall i | 0 <= i < |returned| ensures FindBook(books, returned[i].borrow.bookId) == Some(returned[i].book) {
      assert returned[i] in returned;
    }
  }

  /** `present` lists the user's open borrows in store order, one entry each,
      with the name of the book each refers to. */
  lemma PresentInStoreOrder(books: seq<Book>, borrows: seq<Borrow>, id: Id)
    requires BooksResolve(books, borrows)
    ensures var present, h := PresentBooks(LoansOf(books, borrows, id)), HeldBorrowsOf(borrows, id);
      |present| == |h| && forall i :: 0 <= i < |h| ==>
        present[i] == PresentBook(h[i].bookId, FindBook(books, h[i].bookId).value.name)
  {
    var loans := LoansOf(books, borrows, id);
    FilterThroughMap(loans, BorrowsOfUser(borrows, id), (l: Loan) => l.borrow, IsHeld, StillHeld);
    var held := HeldLoans(loans);
    forall i | 0 <= i < |held| ensures FindBook(books, held[i].borrow.bookId) == Some(held[i].book) {
      assert held[i] in held;
    }
  }
}
