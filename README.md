# LibraryApp in Dafny

A model of the request handlers at the heart of LibraryApp, a small Flask service for a
lending library. The service keeps four SQLite tables: a book catalog, the users, the
wishlists that queue users for a book, and the rentals of books currently out. Its
handlers do the following:

- They register users.
- They put books on and take them off a user's wishlist. A book is on at most one
  user's wishlist at a time.
- They toggle a book between lent and returned. A returned book is offered to everyone
  who wishlisted it. An available book goes to the first user who wishlisted it.
- They search the catalog by title and author.
- They report how many days each rented book has been out.
- Two string enumerations, `BookStatus` and `UserType`, validate their arguments.

## How the model is built

- `models.dfy` holds the four row types, the `Tables` value and the lookups the
  handlers share. A `Database` class keeps each table as a `seq` field that the
  session's `add`, `delete` and `commit` calls replace.
- `Query` (`query.dfy`) models SQLAlchemy's `filter_by(...).first()` and `.all()` over
  a table as `First` and `Where`, taking rows in the table's order (see "## Left out"). It also gives the row deletion (`RemoveAt`) and
  SQLite's key for a new row (`NextId`: one more than the largest key in use, or 1).
- Four handlers change the database: `change_rental_status`, `add_to_wishlist`,
  `remove_from_wishlist` and `create_user`. Each is a method. The first three
  `modify` the `Database` and the `Notifier`; `create_user` notifies nobody, so
  `Users.CreateUser` takes no `Notifier` and `modifies` the `Database` only. A
  handler's `ensures` ties the new tables, the notifications
  sent and the reply to a step function of the old tables: `Rentals.Toggle`,
  `Wishlists.Add` / `Wishlists.Remove` or `Users.Create`. The properties of each
  handler are lemmas about that step function.
- `search_books` loops over its results, so it is the method `Books.SearchBooks`,
  proved against `Books.Results`.
- The report and the two validators are functions.
- Strings follow Python:
  - `strip()` removes the characters `str.isspace` accepts.
  - `lower()` and `ilike` fold ASCII letters only.
  - Nullable columns are `Option<string>` and print as `None` inside f-strings.
- Time is an integer count of microseconds. `get_delta`'s `.days` is floor division by
  the microseconds in a day.
- Behaviour not visible in the code is a parameter of the model:
  - The clock reading `now` is an argument.
  - The notification sink (`app/notifications`, which is not part of this model) is a
    `Notifier` that records the calls it receives, in order.

Where the code and its own documentation differ, or the code is easy to misread, the
model follows the code:

- The docstring of `change_rental_status` (app/routes/rentals.py:33-37) lists a 404
  "No rentals found" reply. The borrowed branch cannot give it: `get_rentals_with_book`
  runs before the rental row is deleted (rentals.py:48-51), so the list always holds
  the row being deleted. That branch therefore always answers 200, and its 404 at
  lines 68-69 cannot be reached. `Rentals.ToggleReturnsBook` proves this.
- The toggle's reply lists `book.id`, the internal key (rentals.py:61 and :100), not
  the catalog's `book_id`. The model does the same.
- The report (reports.py:41-55) only validates the status. It lists every rental
  whichever valid status is asked for, "available" included (`Reports.StatusOnlyGates`,
  for every table in which some rental meets its book).

## Model

| member | source | states |
|---|---|---|
| Query.First | app/routes/rentals.py:122-123 | `.first()` of a filter: the index of the first row satisfying the filter, or none exactly when no row does |
| Query.Where | app/routes/rentals.py:135-136 | `.all()` of a filter: only rows satisfying it, each from the table, and every satisfying row is kept |
| Query.RemoveAt | app/routes/wishlists.py:156-157 | deleting one row keeps the other rows in order, one fewer |
| Query.NextId | app/db/models.py:52-53 | the key SQLite gives a new row is larger than every key in use, 1 for an empty table, otherwise one more than the largest |
| Query.FirstIsHeadOfWhere | app/routes/rentals.py:75-78 | the first wishlist row found is the head of the list of all of them; none exactly when the list is empty |
| Query.FirstAppended | app/routes/users.py:37-43 | a row appended to a table where no row matched is the first match afterwards |
| Query.WhereAppend | app/routes/rentals.py:126-132 | filtering distributes over concatenation of tables |
| Query.WhereRemoveFirst | app/routes/rentals.py:77-87 | deleting the first matching row removes exactly the head of the filtered list |
| Query.DistinctAppend | app/db/models.py:38-41 | appending a row under a fresh key keeps keys unique |
| Query.DistinctRemoveAt | app/db/models.py:52-55 | deleting a row keeps keys unique |
| Models.GetBook | app/routes/rentals.py:118-119 | `Book.query.filter_by(book_id=...).first()`: the first catalog row with that number, none exactly when no row has it |
| Models.GetUser | app/routes/wishlists.py:175-176 | the first user row with that name, none exactly when nobody has it |
| Models.UserByPk | app/db/models.py:38-43 | the user a wishlist row's foreign key loads is a row of the table with that key |
| Models.BookByPk | app/db/models.py:52-61 | the book a rental row's foreign key loads is a row of the table with that key |
| Models.BookByPkAlone | app/db/models.py:7-8 | with unique primary keys, a key names exactly one book row |
| Models.JoinOnePerRental | app/routes/reports.py:41-43 | with unique book keys and every rental naming a book, the join of rentals with books has one pair per rental, in rental order, with the book it names |
| Models.Join | app/routes/reports.py:41-43 | the inner join: every pair is a rental and a book of the tables, and the book is the one the rental names |
| Models.JoinHas | app/routes/rentals.py:126-132 | a rental and the book it names always meet in the join |
| Models.Database.constructor | app/db/models.py:1-4 | a session opened on given tables holds exactly those tables |
| Models.Database.AddUser | app/routes/users.py:41-43 | the user table gains one row under the next key; nothing else changes |
| Models.Database.AddWishlist | app/routes/wishlists.py:84-86 | the wishlist table gains one row under the next key; nothing else changes |
| Models.Database.DeleteWishlist | app/routes/wishlists.py:156-157 | exactly the given wishlist row is deleted; nothing else changes |
| Models.Database.AddRental | app/routes/rentals.py:80-86 | the rentals table gains one row under the next key, stamped with the given time; nothing else changes |
| Models.Database.DeleteRental | app/routes/rentals.py:50-51 | exactly the given rental row is deleted; nothing else changes |
| Notifications.Notifier.constructor | app/routes/wishlists.py:4 | the sink starts with no notifications recorded |
| Notifications.Notifier.Notify | app/routes/wishlists.py:88 | one call appends exactly one notification, for that user and title |
| Text.LStrip | app/app_types/BookStatus.py:10 | leading `strip()`: what is removed is whitespace, what is kept is a suffix not starting with whitespace |
| Text.RStrip | app/app_types/BookStatus.py:10 | trailing `strip()`: what is removed is whitespace, what is kept is a prefix not ending with whitespace |
| Text.Strip | app/app_types/UserType.py:11 | `strip()`: the result is a window of the input with only whitespace before and after it, and it neither starts nor ends with whitespace |
| Text.Lower | app/app_types/UserType.py:11 | `lower()` on ASCII: same length, each of 'A'..'Z' becomes the letter 32 code points above it ('a'..'z'), every other character kept in place, so no upper-case letter is left |
| Text.LowerIdempotent | app/app_types/UserType.py:11 | lower-casing twice is lower-casing once |
| Text.Normalize | app/app_types/UserType.py:11 | `strip().lower()`: no longer than the input and free of upper-case letters |
| Text.NormalizeWindow | app/app_types/UserType.py:11 | `strip().lower()` is the lower-cased `s[i..j]` for some window with only whitespace before `i` and from `j` on, and no whitespace at either end of the window (`TrimWindow`) |
| Text.NormalizeLowerWord | app/app_types/UserType.py:11 | a non-empty word of lower-case letters is its own normal form |
| Text.ContainsIgnoreCase | app/routes/books.py:49-50 | `ilike '%term%'`: true exactly when some stretch of the text as long as the term equals the term up to letter case; the empty term is in every text |
| Text.Contains | app/routes/books.py:49-50 | `like '%term%'`: true exactly when the term occurs as a contiguous run of the text |
| Text.StripPadded | app/routes/books.py:41-42 | whitespace around a string does not change what `strip()` returns |
| Text.LStripAllSpace | app/routes/books.py:41-42 | removing leading whitespace leaves nothing exactly when the string is all whitespace |
| Text.StripEmpty | app/routes/books.py:41-42 | `strip()` gives "" exactly when the input is all whitespace |
| Text.LStripLower | app/app_types/UserType.py:11 | lower-casing commutes with removing leading whitespace |
| Text.RStripLower | app/app_types/UserType.py:11 | lower-casing commutes with removing trailing whitespace |
| Text.NormalizeIgnoresCase | app/app_types/BookStatus.py:10 | inputs equal up to letter case normalise alike |
| BookStatus.IsValidStatus | app/app_types/BookStatus.py:10 | `is_valid_status`: accepted exactly when a status is given and its trimmed, lower-cased form is the value of a member |
| BookStatus.ValueIsValid | app/app_types/BookStatus.py:4-10 | every member's value passes `is_valid_status` |
| BookStatus.StatusIgnoresCase | app/app_types/BookStatus.py:10 | the verdict depends on the input only through its lower-cased form |
| BookStatus.StatusIgnoresPadding | app/app_types/BookStatus.py:10 | whitespace around the input does not change the verdict |
| BookStatus.WhitespaceOnlyStatusInvalid | app/app_types/BookStatus.py:10 | a non-empty string of whitespace only is rejected |
| BookStatus.LowerCaseStatusAccepted | tests/types/test_book_status.py:5 | "available" is accepted |
| BookStatus.UpperCaseStatusAccepted | tests/types/test_book_status.py:6 | "AVAILABLE" is accepted |
| BookStatus.PaddedStatusAccepted | tests/types/test_book_status.py:7 | " borrowed " is accepted |
| BookStatus.RejectedStatusExamples | tests/types/test_book_status.py:9-12 | "lost", "", "random" and `None` are rejected |
| BookStatus.LostRejected | tests/types/test_book_status.py:9 | "lost" is rejected |
| BookStatus.RandomRejected | tests/types/test_book_status.py:11 | "random" is rejected |
| UserType.IsValidUserType | app/app_types/UserType.py:11 | `is_valid_usertype`: accepted exactly when a type is given and its trimmed, lower-cased form is the value of a member |
| UserType.ValueIsValid | app/app_types/UserType.py:4-12 | every member's value passes `is_valid_usertype` |
| UserType.UserTypeIgnoresCase | app/app_types/UserType.py:11 | the verdict depends on the input only through its lower-cased form |
| UserType.UserTypeIgnoresPadding | app/app_types/UserType.py:11 | whitespace around the input does not change the verdict |
| UserType.WhitespaceOnlyUserTypeInvalid | app/app_types/UserType.py:11 | a non-empty string of whitespace only is rejected |
| UserType.LowerCaseUserTypeAccepted | tests/types/test_user_type.py:5 | "user" is accepted |
| UserType.CapitalisedUserTypeAccepted | tests/types/test_user_type.py:6 | "User" is accepted |
| UserType.PaddedUserTypeAccepted | tests/types/test_user_type.py:7 | " staff " is accepted |
| UserType.RejectedUserTypeExamples | tests/types/test_user_type.py:8-11 | "admin", "", "random" and `None` are rejected |
| UserType.AdminRejected | tests/types/test_user_type.py:8 | "admin" is rejected |
| UserType.RandomRejected | tests/types/test_user_type.py:10 | "random" is rejected |
| Users.Create | app/routes/users.py:10-53 | creation notifies nobody and may change only the user table; it answers 201 or 409, 201 exactly when the tables change, and then by one appended row with the old rows kept |
| Users.CreateUser | app/routes/users.py:10-53 | the handler leaves exactly the tables and reply of `Create` on the tables it found |
| Users.TypeCheckedFirst | app/routes/users.py:34-35 | an unsupported type answers 409 "User type is not supported" and changes nothing, whether or not the name is taken |
| Users.CreateSucceedsIff | app/routes/users.py:34-45 | creation answers 201 exactly when the type is supported and nobody has the name, and the tables change exactly then |
| Users.CreateAppends | app/routes/users.py:41-53 | a successful creation appends one row, stored with the type as given, under a key larger than every key in use; the reply carries that key; the name then finds that row |
| Users.GetUserAppended | app/routes/users.py:37-43 | a row appended under a name nobody had is the row that name then finds |
| Users.CreateTwice | app/routes/users.py:37-39 | creating the same name again changes nothing and, with a supported type, answers 409 "Username already exists" |
| Users.CreateKeepsInvariants | app/routes/users.py:37-43 | creation keeps keys and user names unique and every reference pointing at an existing row |
| Wishlists.Add | app/routes/wishlists.py:10-97 | adding may change only the wishlist table; it answers 200, 201 or 404, 201 exactly when the tables change; it sends at most one notification, and one exactly when the tables change |
| Wishlists.Remove | app/routes/wishlists.py:101-168 | removing may change only the wishlist table; it answers 204 or 404, 204 exactly when the tables change; it sends at most one notification, and one exactly when the tables change |
| Wishlists.AddToWishlist | app/routes/wishlists.py:10-97 | the handler leaves exactly the tables, notifications and reply of `Add` on the tables it found |
| Wishlists.RemoveFromWishlist | app/routes/wishlists.py:101-168 | the handler leaves exactly the tables, notifications and reply of `Remove` on the tables it found |
| Wishlists.UnknownUserFirst | app/routes/wishlists.py:59-65 | an unknown user answers 404 "User not found" and changes nothing, whether or not the book exists |
| Wishlists.UnknownBook | app/routes/wishlists.py:63-65 | with the user found, an unknown book id answers 404 "Book not found" from both handlers (also lines 138-140), changes nothing and notifies nobody |
| Wishlists.AddSucceedsIff | app/routes/wishlists.py:59-97 | adding answers 201 exactly when the user and the book exist and the book is on nobody's wishlist, and the tables change exactly then |
| Wishlists.AddAppends | app/routes/wishlists.py:84-97 | a successful add appends one row for the pair under a fresh key, notifies that user once, and answers 201 |
| Wishlists.AddWhenHeld | app/routes/wishlists.py:67-78 | a user who already holds the book gets 200 with the "already has this book" message, and nothing changes |
| Wishlists.AddWhenHeldByOther | app/routes/wishlists.py:80-82 | a book on another user's wishlist gets 200 "Book already in wishlist of other user", and nothing changes |
| Wishlists.AddIdempotent | app/routes/wishlists.py:67-82 | adding the same pair twice: the second call changes nothing and notifies nobody |
| Wishlists.AddKeepsInvariants | app/routes/wishlists.py:80-86 | adding keeps keys unique, a book on at most one wishlist, and every reference pointing at an existing row |
| Wishlists.RemoveDeletes | app/routes/wishlists.py:142-168 | removing a held book deletes the first row for the pair and nothing else, notifies the user, answers 204; with a book on at most one wishlist, the book is then on none |
| Wishlists.RemoveWhenAbsent | app/routes/wishlists.py:146-154 | removing a book the user does not hold answers 404 with the "does not have book" message and changes nothing |
| Wishlists.RemoveKeepsInvariants | app/routes/wishlists.py:156-157 | removing keeps every invariant of the tables |
| Wishlists.AddThenRemove | app/routes/wishlists.py:84-88 | removing what was just added restores the tables; the user is notified twice |
| Rentals.Toggle | app/routes/rentals.py:15-115 | the toggle never changes books or users and answers 200 or 404; when the rentals table is left as it was, nothing changed and nobody was notified |
| Rentals.GiveBack | app/routes/rentals.py:44-69 | the borrowed branch changes only the rentals table, which loses one row; it sends one notification per wishlist row of the book and answers 200 or 404 |
| Rentals.Lend | app/routes/rentals.py:70-115 | the available branch never changes books or users and answers 200 or 404; it sends at most one notification, one exactly when the rentals table changes, and without one nothing changes |
| Rentals.GetRental | app/routes/rentals.py:122-123 | `get_rental`: the first rental row naming the book; none exactly when no row names it |
| Rentals.GetWishlists | app/routes/rentals.py:135-136 | `get_wishlists`: only wishlist rows of the book, and every one of them |
| Rentals.GetRentalsWithBook | app/routes/rentals.py:126-132 | every pair returned is a rental row naming the book, paired with a book row whose key is the book's |
| Rentals.Entries | app/routes/rentals.py:59-66 | the reply list: one entry per pair, in order, with that pair's book key and title and the branch's status |
| Rentals.NotifyWishlisters | app/routes/rentals.py:53-56 | one notification per wishlist row, in order, each with the book's title and addressed to the name of the user the row names |
| Rentals.ChangeRentalStatus | app/routes/rentals.py:15-115 | the handler leaves exactly the tables, notifications and reply of `Toggle` on the tables it found |
| Rentals.ReturnBook | app/routes/rentals.py:44-69 | the borrowed branch leaves exactly the tables, notifications and reply of `GiveBack` |
| Rentals.NotifyEach | app/routes/rentals.py:53-56 | the loop sends one notification per wishlist row of the book, to that row's user, in table order |
| Rentals.LendBook | app/routes/rentals.py:70-115 | the available branch leaves exactly the tables, notifications and reply of `Lend` |
| Rentals.WishlistersExist | app/routes/rentals.py:53-55 | when every wishlist row names an existing user, so does every row `get_wishlists` returns |
| Rentals.RentalsWithBookAre | app/routes/rentals.py:126-132 | with unique book keys, `get_rentals_with_book` pairs the book with each of its rental rows, in rental order |
| Rentals.RentalsWithBookHas | app/routes/rentals.py:126-132 | a rental row naming a book of the table always comes back from `get_rentals_with_book` |
| Rentals.NewRentalAlone | app/routes/rentals.py:95-97 | when the book had no rental, the re-query after a loan finds exactly the new rental |
| Rentals.OnlyRental | app/routes/rentals.py:122-123 | with one rental per book, a lent book has exactly one rental row, the one `get_rental` finds |
| Rentals.ToggleUnknownBook | app/routes/rentals.py:40-42 | an unknown `book_id` answers 404 "Book not found" and changes nothing |
| Rentals.ToggleReturnsBook | app/routes/rentals.py:44-67 | returning deletes the first rental row of the book and nothing else, notifies every wishlister of the book in table order, and always answers 200 |
| Rentals.ToggleReturnReply | app/routes/rentals.py:58-67 | with unique keys and one rental per book, returning lists the book once, as "available", under its internal key |
| Rentals.ToggleReturnEntries | app/routes/rentals.py:44-67 | with unique book keys and any number of rental rows for the book, returning lists every rental row of the book, in table order, each as the book with status "available" |
| Rentals.GiveBackReply | app/routes/rentals.py:58-67 | the borrowed branch's reply lists the book once, as "available" |
| Rentals.ToggleLendsBook | app/routes/rentals.py:75-106 | lending gives the first wishlister a new rental row stamped `now` under the next key, deletes that wishlist row, notifies only that user, and lists the book once as "borrowed" |
| Rentals.LendReply | app/routes/rentals.py:95-106 | the available branch's reply lists the book once, as "borrowed" |
| Rentals.ToggleNoWishlist | app/routes/rentals.py:109-115 | a known book that is not lent and that nobody wishlisted answers 404 "No wishlists found being linked to ..." and changes nothing |
| Rentals.NoOtherRental | app/routes/rentals.py:50-51 | with one rental per book, deleting a book's rental row leaves no rental for it |
| Rentals.ToggleFlipsLoan | app/routes/rentals.py:44-115 | afterwards the book is lent exactly when it was not before and someone had it on a wishlist |
| Rentals.GiveBackKeepsInvariants | app/routes/rentals.py:50-51 | returning keeps every invariant of the tables |
| Rentals.LendTables | app/routes/rentals.py:75-88 | a loan appends the first wishlister's rental row and deletes their wishlist row, or changes nothing when nobody wishlists the book |
| Rentals.LoanKeepsReferences | app/db/models.py:38-55 | appending a rental that names existing rows and deleting a wishlist row keep every reference pointing at an existing row |
| Rentals.LendKeepsInvariants | app/routes/rentals.py:80-88 | lending an available book keeps keys unique, one rental per book, a book on at most one wishlist, and references intact |
| Rentals.ToggleKeepsInvariants | app/routes/rentals.py:44-115 | the toggle keeps every invariant of the tables |
| Rentals.GiveBackTables | app/routes/rentals.py:50-51 | a return deletes the rental row and changes nothing else |
| Rentals.RemoveKeepsWishlistUsers | app/routes/rentals.py:87 | deleting a wishlist row leaves the others naming existing users |
| Rentals.ToggleKeepsWishlistUsers | app/routes/rentals.py:44-115 | the toggle keeps every wishlist row naming an existing user, the one fact the handler needs to load `wishlist.user` |
| Rentals.AfterLend | app/routes/rentals.py:80-88 | after a loan the new row is the book's only rental and its wishlist is the old one less its head |
| Rentals.LendThenReturn | app/routes/rentals.py:44-115 | lending then toggling again restores the rentals table, keeps the lender's wishlist row deleted, leaves users and books untouched, and notifies exactly the remaining wishlisters of the book, in table order |
| Books.Term | app/routes/books.py:41-42 | a query argument is no filter exactly when it is all whitespace, otherwise its stripped, non-empty form |
| Books.TitleMatches | app/routes/books.py:49 | `Book.title.ilike('%term%')`: true exactly when the title is not NULL and some window of it as long as the term equals the term up to ASCII case; so a longer term never matches and the empty term matches every non-NULL title |
| Books.AuthorMatches | app/routes/books.py:50 | `Book.authors.ilike('%term%')`: true exactly when some window of the authors column as long as the term equals the term up to ASCII case; so a longer term never matches and the empty term matches every book |
| Books.Matches | app/routes/books.py:44-56 | the filter: every book when neither term is given, otherwise exactly the books whose title matches the given title term or whose authors match the given author term |
| Books.GroupByBookId | app/routes/books.py:58 | `group_by(Book.book_id)`: rows of the input, no two with the same catalog number |
| Books.GroupByBookIdCovers | app/routes/books.py:58 | every catalog number of the input is kept by the grouping |
| Books.SearchBooks | app/routes/books.py:28-79 | both arguments empty answer 400; otherwise 200 with one entry per result, in order, flagged wishlisted exactly when some wishlist row names the book |
| Books.Results | app/routes/books.py:44-58 | no more results than catalog rows; every book returned is a catalog row matching the terms (either term when both are given), and no two share a catalog number |
| Books.ResultsCover | app/routes/books.py:44-58 | every catalog number that has a matching row is among the results |
| Books.BlankTermsListAll | app/routes/books.py:31-58 | whitespace-only terms pass the 400 check and then filter nothing: every catalog number is listed |
| Books.TermIgnoresPadding | app/routes/books.py:41-42 | whitespace around a term does not change it |
| Books.TermLower | app/routes/books.py:41-56 | arguments equal up to letter case give terms equal up to letter case |
| Books.SearchIgnoresCase | app/routes/books.py:49-54 | title terms equal up to letter case select the same books |
| Reports.GetDelta | app/routes/reports.py:60-61 | `timedelta.days`: the whole days `d` with `d` days <= elapsed time < `d + 1` days |
| Reports.DeltaUnique | app/routes/reports.py:60-61 | any count of days that brackets the elapsed time is the one `get_delta` returns |
| Reports.DeltaMonotone | app/routes/reports.py:60-61 | a later clock reading never gives fewer days |
| Reports.Row | app/routes/reports.py:45-55 | a report row carries the book's catalog number and title and the whole days `d` with `d` days <= the rental's age < `d + 1` days |
| Reports.AmountOfRentedBooks | app/routes/reports.py:12-57 | an invalid status answers 400 "Invalid status. Use 'borrowed'."; with a valid one the reply is 404 when the join is empty and 200 otherwise; a 200 has one row per pair of the join, in order, with its catalog number, its title and its age in whole days |
| Reports.StatusOnlyGates | app/routes/reports.py:38-55 | whenever the join of rentals and books is non-empty, any two valid statuses get the same 200 report |
| Reports.AvailableReportsBorrowed | app/routes/reports.py:38-55 | whenever the join is non-empty, asking for "available" books gives the same reply as asking for "borrowed" ones |
| Reports.ReportOnePerRental | app/routes/reports.py:41-57 | with referential integrity the report has one row per rental, in rental order, naming the book by its catalog number and age in days; 404 exactly when nothing is rented |
| Reports.DaysNonNegative | app/routes/reports.py:45-55 | when no rental is stamped after `now`, no row reports a negative number of days |

## Left out

- HTTP, Flask routing, `jsonify` and the API-key check are not modelled. A handler
  returns a status code and a body value.
- SQLAlchemy sessions, transactions and concurrent requests are not modelled. One
  handler runs at a time, and every `commit` succeeds.
- What `app/notifications` does with a notification is not part of this model. The
  model records only the calls and their order.
- `datetime.now()` is a parameter `now`. Time zones and the database's
  `server_default` are not modelled: timestamps are plain microsecond counts.
- `lower()` and `ilike` fold ASCII letters only, as SQLite's `LIKE` does. Python's full
  Unicode case mapping is not modelled.
- Text.Contains: the `%` and `_` wildcards inside a search term are not modelled; a term
  is matched as a literal substring.
- Books.GroupByBookId: SQLite picks an unspecified row for each group and returns the
  groups in an unspecified order. The model keeps each catalog number's first row, in
  order of first appearance. The lemmas about it only rely on the rows returned
  matching the terms and having distinct catalog numbers.
- Query.First and Query.Where: a query without `ORDER BY` returns rows in no order that
  SQL promises. The model fixes it to the table's order, and so do the lookups built on
  them: Models.GetBook, Models.GetUser, Rentals.GetRental, Rentals.GetWishlists. When
  several rows match, which one `.first()` returns is therefore an assumption of the
  model, and so is which wishlister Rentals.Lend hands the book to.
- Models.Join: the order of the join's rows is not fixed by SQL. The model takes them
  rental by rental, in table order.
- Wishlists.Add: the `User.wishlist` relationship is declared `uselist=False`
  (app/db/models.py:31, with its other side at line 43), so SQLAlchemy expects at most
  one wishlist row per user, and `Wishlist(user=user, book=book)` may detach a user's
  earlier row from that relationship. The model assumes the relationship has no effect:
  a user may hold any number of wishlist rows, and adding one leaves the others as they
  are.
- Rentals.Toggle: what the handler does when a wishlist row names a user that no longer
  exists is not modelled. `load_users` deletes every user (app/utils/users_loader.py:9)
  and SQLite does not enforce foreign keys by default, so such a row can exist; the
  handler would then fail on the missing user (rentals.py:55 and :81), in the borrowed
  branch after the rental delete has been committed (rentals.py:50-51). The model
  requires every wishlist row to name an existing user (`WishlistUsersExist`), and every
  modelled handler keeps that true (`Rentals.ToggleKeepsWishlistUsers`,
  `Wishlists.AddKeepsInvariants`, `Wishlists.RemoveKeepsInvariants`,
  `Users.CreateKeepsInvariants`).
- Flask drops the body of a 204 reply. Wishlists.Remove keeps the message it builds.
- Reports.DeltaUnique and Reports.DeltaMonotone follow directly from the contract of
  `Reports.GetDelta` and need no proof steps.
- The data loaders (`app/utils`), `app/__init__.py`, `app/main.py`,
  `app/db/setup_db.py` and the other routes are not part of this model.
