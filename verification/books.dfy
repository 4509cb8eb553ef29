/**
 The Book entity of the catalogue: the one record type the repository stores
 and the controller receives and returns.
 */
module Books {
  import opened Wrappers

  /** The publication date; the model never inspects it, so it is an opaque value. */
  datatype Timestamp = Timestamp(ticks: int)

  /**
   A book record. The text fields are C# reference strings and may be null,
   hence `Option<string>`; `id` is the key the store assigns.
   */
  datatype Book = Book(
    id: int,
    title: Option<string>,
    author: Option<string>,
    isbn: Option<string>,
    publishedDate: Option<Timestamp>
  )

  /** `string.IsNullOrEmpty`: null, or the empty string. */
  predicate IsNullOrEmpty(s: Option<string>) {
    s.None? || s.value == ""
  }

  /** Both required fields are present and non-empty. */
  predicate HasTitleAndAuthor(b: Book) {
    !IsNullOrEmpty(b.title) && !IsNullOrEmpty(b.author)
  }
}
