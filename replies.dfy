/** What a handler hands back to the web framework: a status code and a JSON body, and,
    for the handlers that change the database, the new tables and the notifications sent. */
module Replies {
  import opened Wrappers
  import opened Models
  import opened Notifications

  /** One element of the rental toggle's reply list. */
  datatype StatusEntry = StatusEntry(bookId: int, bookTitle: Option<string>, bookStatus: string)

  /** One element of the search reply: every column of the book, and whether some wishlist
      row names it. */
  datatype BookView = BookView(book: Book, isWishlisted: bool)

  /** One element of the rented-days report. */
  datatype DaysRented = DaysRented(bookId: int, title: Option<string>, daysRented: int)

  datatype Body =
    | Error(error: string)
    | Message(message: string)
    | StatusList(entries: seq<StatusEntry>)
    | UserCreated(message: string, userId: int)
    | BookList(books: seq<BookView>)
    | DaysRentedList(rows: seq<DaysRented>)

  datatype Reply = Reply(status: int, body: Body)

  /** The effect of one call of a handler that may change the database. */
  datatype Outcome = Outcome(tables: Tables, sent: seq<Notification>, reply: Reply)

  /** How an f-string renders a nullable column. */
  function Show(value: Option<string>): string
  {
    match value
    case None => "None"
    case Some(s) => s
  }
}
