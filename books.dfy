/**
  The catalog's one entity and the outcomes its operations report.
  Java's nullable boxed fields (`Long`, `String`, `Integer`, `Boolean`)
  become `Option` values; `None` is `null`.
*/
module Books {

  datatype Option<+T> = None | Some(value: T)

  /** A book record: `id` is unset until the store assigns one. */
  datatype Book = Book(
    id: Option<int>,
    title: Option<string>,
    author: Option<string>,
    isbn: Option<string>,
    publicationYear: Option<int>,
    available: Option<bool>)

  /**
    How an operation fails. `NotFound` and `Invalid` are the two uses of
    IllegalArgumentException (unknown id, blank field); `Conflict` is
    IllegalStateException (a borrow or return the availability state forbids);
    `NullPointer` is the NullPointerException the code raises when it unboxes
    a null `available` flag or lower-cases a null author.
  */
  datatype Error = NotFound | Invalid | Conflict | NullPointer

  datatype Result<+T> = Ok(value: T) | Err(error: Error)
}
