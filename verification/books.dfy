/** A catalog record. The source passes books around as dictionaries whose
    keys may be absent; the record below keeps that distinction explicitly,
    because `book.get(key, default)` substitutes the default only for a
    missing key and not for a stored `None`. */
module Books {
  import opened Text

  datatype Option<T> = None | Some(value: T)

  /** The `year` entry of a record: no such key, a stored `None` (a NULL
      column), or an integer. */
  datatype YearValue = Absent | Null | Known(n: int)

  /** `book_id` is always present (it is the primary key and the recommender
      indexes it unconditionally); the text fields may be missing but are
      never `None`; `available_copies` is missing or an integer. */
  datatype Book = Book(
    bookId: int,
    title: Option<string>,
    author: Option<string>,
    genre: Option<string>,
    year: YearValue,
    availableCopies: Option<int>)

  /** The field names a caller can sort or search by. */
  datatype Field = BookId | Title | Author | Genre | Year | AvailableCopies

  /** `opt` or the given default when the key is missing, as `get(key, default)`. */
  function TextOr(opt: Option<string>, default: string): string {
    match opt
    case Some(s) => s
    case None => default
  }

  function IntOr(opt: Option<int>, default: int): int {
    match opt
    case Some(n) => n
    case None => default
  }

  /** The entry of a text field, when `f` names one. */
  function TextField(b: Book, f: Field): Option<string>
    requires f.Title? || f.Author? || f.Genre?
  {
    match f
    case Title => b.title
    case Author => b.author
    case Genre => b.genre
  }

  /** `str(book.get(field, ''))`: a missing key prints as the empty string, a
      stored `None` as `"None"`, an integer in decimal. */
  function FieldText(b: Book, f: Field): string {
    match f
    case BookId => IntToStr(b.bookId)
    case Title => TextOr(b.title, "")
    case Author => TextOr(b.author, "")
    case Genre => TextOr(b.genre, "")
    case Year =>
      (match b.year
       case Absent => ""
       case Null => "None"
       case Known(n) => IntToStr(n))
    case AvailableCopies =>
      (match b.availableCopies
       case None => ""
       case Some(n) => IntToStr(n))
  }

  /** The sort key of `merge_books`: `str(book.get(field, '')).lower()`. It is
      text for every field, so years compare as strings, not as numbers. */
  function SortKey(b: Book, f: Field): string {
    Lower(FieldText(b, f))
  }
}
