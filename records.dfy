/** The three stored entities, shaped after the interfaces in src/routes/types.ts.
    Relations (`user`, `book`, `borrows`) are not embedded: a row refers to
    another by id, as the database does. */
module Records {
  import opened Results

  /** Auto-incremented primary keys. */
  type Id = nat

  /** An abstract timestamp; the handlers take the current time as a parameter. */
  type Time = nat

  datatype User = User(id: Id, name: string)

  datatype Book = Book(id: Id, name: string)

  /** A loan. `returnDate` and `userScore` are null (None) while the loan is open. */
  datatype Borrow = Borrow(
    id: Id,
    userId: Id,
    bookId: Id,
    borrowDate: Time,
    returnDate: Option<Time>,
    userScore: Option<int>)
  {
    predicate IsOpen() { returnDate.None? }
  }
}
