/** `GET /reports/amount/<status>`: for every rented book, how many whole days it has
    been out. */
module Reports {
  import opened Wrappers
  import opened Query
  import opened Models
  import opened Replies
  import BookStatus

  /** Microseconds in a day: a `timedelta` keeps its whole days apart from the rest. */
  const MicrosPerDay: int := 86_400_000_000

  /** `get_delta`: the whole days in `now - createdAt`, rounded down as `timedelta.days`
      is (so a rental stamped in the future gives a negative count). */
  function GetDelta(now: int, createdAt: int): (days: int)
    ensures days * MicrosPerDay <= now - createdAt < (days + 1) * MicrosPerDay
  {
    (now - createdAt) / MicrosPerDay
  }

  /** Whole days are determined by the interval: any count that brackets it is the one
      `GetDelta` returns. */
  lemma DeltaUnique(now: int, createdAt: int, days: int)
    requires days * MicrosPerDay <= now - createdAt < (days + 1) * MicrosPerDay
    ensures GetDelta(now, createdAt) == days
  {
  }

  /** A rental does not get younger as time passes. */
  lemma DeltaMonotone(now1: int, now2: int, createdAt: int)
    requires now1 <= now2
    ensures GetDelta(now1, createdAt) <= GetDelta(now2, createdAt)
  {
  }

  /** One report row: the book's catalog number and title, and the rental's age in days. */
  function Row(record: (Rental, Book), now: int): (row: DaysRented)
    ensures row.bookId == record.1.bookId && row.title == record.1.title
    ensures row.daysRented * MicrosPerDay <= now - record.0.createdAt < (row.daysRented + 1) * MicrosPerDay
  {
    DaysRented(record.1.bookId, record.1.title, GetDelta(now, record.0.createdAt))
  }

  /** `reports_amount_of_rented_books_with_delta`, at clock reading `now`. The status is
      only validated: every rental is reported, whichever valid status was asked for. */
  function AmountOfRentedBooks(t: Tables, status: string, now: int): (r: Reply)
    ensures r.status in {200, 400, 404}
    ensures !BookStatus.IsValidStatus(Some(status)) ==> r == Reply(400, Error("Invalid status. Use 'borrowed'."))
    ensures BookStatus.IsValidStatus(Some(status)) ==> (r.status == 404 <==> Join(t.rentals, t.books) == [])
    ensures BookStatus.IsValidStatus(Some(status)) && Join(t.rentals, t.books) != [] ==> r.status == 200
    ensures r.status == 200 ==>
      && r.body.DaysRentedList?
      && var records := Join(t.rentals, t.books);
      && |r.body.rows| == |records|
      && forall k :: 0 <= k < |records| ==>
           && r.body.rows[k].bookId == records[k].1.bookId
           && r.body.rows[k].title == records[k].1.title
           && r.body.rows[k].daysRented * MicrosPerDay <= now - records[k].0.createdAt
           && now - records[k].0.createdAt < (r.body.rows[k].daysRented + 1) * MicrosPerDay
  {
    if !BookStatus.IsValidStatus(Some(status)) then
      Reply(400, Error("Invalid status. Use 'borrowed'."))
    else
      var records := Join(t.rentals, t.books);
      if records != [] then
        Reply(200, DaysRentedList(seq(|records|, k requires 0 <= k < |records| => Row(records[k], now))))
      else
        Reply(404, Message("No books found with given status of " + status))
  }

  /** The status only gates the report: whenever some rental meets its book, two valid
      statuses, such as "borrowed" and "available", get the same 200 report. (With an
      empty join the 404 message repeats the status asked for.) */
  lemma StatusOnlyGates(t: Tables, s1: string, s2: string, now: int)
    requires BookStatus.IsValidStatus(Some(s1)) && BookStatus.IsValidStatus(Some(s2))
    requires Join(t.rentals, t.books) != []
    ensures AmountOfRentedBooks(t, s1, now) == AmountOfRentedBooks(t, s2, now)
    ensures AmountOfRentedBooks(t, s1, now).status == 200
  {
  }

  /** Asking for "available" books reports the borrowed ones. */
  lemma AvailableReportsBorrowed(t: Tables, now: int)
    requires Join(t.rentals, t.books) != []
    ensures AmountOfRentedBooks(t, "available", now) == AmountOfRentedBooks(t, "borrowed", now)
  {
    BookStatus.ValueIsValid(BookStatus.Available);
    BookStatus.ValueIsValid(BookStatus.Borrowed);
    StatusOnlyGates(t, "available", "borrowed", now);
  }

  /** With referential integrity, the report has one row per rental, in rental order,
      naming the rented book by its catalog number; and it is 404 exactly when nothing is
      rented. */
  lemma ReportOnePerRental(t: Tables, status: string, now: int)
    requires Valid(t) && BookStatus.IsValidStatus(Some(status))
    ensures var reply := AmountOfRentedBooks(t, status, now);
      reply.status == 404 <==> t.rentals == []
    ensures var reply := AmountOfRentedBooks(t, status, now);
      t.rentals != [] ==>
        && reply.body.DaysRentedList?
        && |reply.body.rows| == |t.rentals|
        && forall k :: 0 <= k < |t.rentals| ==>
             var b := BookByPk(t.books, t.rentals[k].bookId);
             reply.body.rows[k] == DaysRented(b.bookId, b.title, GetDelta(now, t.rentals[k].createdAt))
  {
    JoinOnePerRental(t.rentals, t.books);
  }

  /** When no rental is stamped after `now`, no row reports a negative number of days. */
  lemma DaysNonNegative(t: Tables, status: string, now: int)
    requires forall i :: 0 <= i < |t.rentals| ==> t.rentals[i].createdAt <= now
    ensures var reply := AmountOfRentedBooks(t, status, now);
      reply.body.DaysRentedList? ==> forall k :: 0 <= k < |reply.body.rows| ==> reply.body.rows[k].daysRented >= 0
  {
  }
}
