/** The store lookups the controllers issue: `findUnique` by primary key and
    `findFirst` over borrows with a `returnDate: null` filter. Each scans the
    table in store order and answers with the first matching row. */
module Query {
  import opened Results
  import opened Records
  import opened Seqs

  ghost predicate HasUser(users: seq<User>, id: Id) {
    exists i :: 0 <= i < |users| && users[i].id == id
  }

  ghost predicate HasBook(books: seq<Book>, id: Id) {
    exists i :: 0 <= i < |books| && books[i].id == id
  }

  /** Some borrow of `bookId`, by any user, is still open. */
  ghost predicate HasOpenBorrow(borrows: seq<Borrow>, bookId: Id) {
    exists i :: 0 <= i < |borrows| && borrows[i].bookId == bookId && borrows[i].IsOpen()
  }

  /** `userId` holds an open borrow of `bookId`. */
  ghost predicate HasActiveBorrow(borrows: seq<Borrow>, userId: Id, bookId: Id) {
    exists i :: 0 <= i < |borrows| && borrows[i].userId == userId
      && borrows[i].bookId == bookId && borrows[i].IsOpen()
  }

  /** `prisma.user.findUnique({ where: { id } })`. */
  function FindUser(users: seq<User>, id: Id): (r: Option<User>)
    ensures r.Some? <==> HasUser(users, id)
    ensures r.Some? ==> r.value in users && r.value.id == id
  {
    match FirstIndex(users, (u: User) => u.id == id)
    case Some(k) => Some(users[k])
    case None => None
  }

  /** `prisma.book.findUnique({ where: { id } })`. */
  function FindBook(books: seq<Book>, id: Id): (r: Option<Book>)
    ensures r.Some? <==> HasBook(books, id)
    ensures r.Some? ==> r.value in books && r.value.id == id
  {
    match FirstIndex(books, (b: Book) => b.id == id)
    case Some(k) => Some(books[k])
    case None => None
  }

  /** `prisma.borrow.findFirst({ where: { bookId, returnDate: null } })`. */
  function OpenBorrowIndex(borrows: seq<Borrow>, bookId: Id): (r: Option<nat>)
    ensures r.Some? <==> HasOpenBorrow(borrows, bookId)
    ensures r.Some? ==> r.value < |borrows| && borrows[r.value].bookId == bookId
                        && borrows[r.value].IsOpen()
  {
    FirstIndex(borrows, (b: Borrow) => b.bookId == bookId && b.IsOpen())
  }

  /** `prisma.borrow.findFirst({ where: { userId, bookId, returnDate: null } })`. */
  function ActiveBorrowIndex(borrows: seq<Borrow>, userId: Id, bookId: Id): (r: Option<nat>)
    ensures r.Some? <==> HasActiveBorrow(borrows, userId, bookId)
    ensures r.Some? ==> r.value < |borrows| && borrows[r.value].userId == userId
                        && borrows[r.value].bookId == bookId && borrows[r.value].IsOpen()
  {
    FirstIndex(borrows, (b: Borrow) => b.userId == userId && b.bookId == bookId && b.IsOpen())
  }
}
