/** Outcomes of the request handlers: a value, or one of the error kinds the
    controllers answer with (400 for a failed schema, 404 for a missing row,
    400 "already borrowed" for a conflicting loan). */
module Results {

  datatype Option<+T> = None | Some(value: T)

  datatype Error =
    | ValidationError  // the request body fails its schema (HTTP 400)
    | NotFound         // a user, book or active borrow does not exist (HTTP 404)
    | Conflict         // the book already has an open borrow (HTTP 400)

  datatype Result<+T> = Ok(value: T) | Err(error: Error)
}
