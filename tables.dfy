/**
 * Rows of the MyBible-format tables the merge reads and writes. A SQL NULL
 * short name (Python's None) is `None`.
 */
module Tables {
  import opened Wrappers

  /** A book of the SBLGNT module: its number, long name and short name. */
  datatype SblBook = SblBook(bookNumber: int, longName: string, shortName: Option<string>)

  /** A row of the `books` table: `(book_number, book_color, short_name, long_name)`. */
  datatype BookRow = BookRow(bookNumber: int, bookColor: string, shortName: Option<string>, longName: string)

  /** A row of a `verses` table: `(book_number, chapter, verse, text)`. */
  datatype Verse = Verse(bookNumber: int, chapter: int, verse: int, text: string)
}
