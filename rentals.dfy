/** `POST /rentals/<book_id>`: the toggle that lends a book to the first user who
    wishlisted it, or takes it back and tells everyone who wishlisted it. */
module Rentals {
  import opened Wrappers
  import opened Query
  import opened Models
  import opened Notifications
  import opened Replies
  import BookStatus

  function RentalOf(bookPk: int): Rental -> bool { (r: Rental) => r.bookId == bookPk }
  function JoinedTo(bookPk: int): ((Rental, Book)) -> bool { (p: (Rental, Book)) => p.1.id == bookPk }

  /** `get_rental`: the index of the first rental row for the book, if any. */
  function GetRental(rentals: seq<Rental>, book: Book): (r: Option<nat>)
    ensures r.Some? ==> r.value < |rentals| && rentals[r.value].bookId == book.id
    ensures r.Some? ==> forall j :: 0 <= j < r.value ==> rentals[j].bookId != book.id
    ensures r.None? <==> forall j :: 0 <= j < |rentals| ==> rentals[j].bookId != book.id
  {
    First(rentals, RentalOf(book.id))
  }

  /** `get_wishlists`: the wishlist rows for the book, in table order. */
  function GetWishlists(wishlists: seq<Wishlist>, book: Book): (r: seq<Wishlist>)
    ensures forall k :: 0 <= k < |r| ==> r[k] in wishlists && r[k].bookId == book.id
    ensures forall j :: 0 <= j < |wishlists| && wishlists[j].bookId == book.id ==> wishlists[j] in r
  {
    Where(wishlists, WishlistOf(book.id))
  }

  /** `get_rentals_with_book`: the join of rentals with books, kept where the book is
      this one. */
  function GetRentalsWithBook(rentals: seq<Rental>, books: seq<Book>, book: Book): (r: seq<(Rental, Book)>)
    ensures forall k :: 0 <= k < |r| ==>
      r[k].0 in rentals && r[k].1 in books && r[k].1.id == book.id && r[k].0.bookId == book.id
  {
    Where(Join(rentals, books), JoinedTo(book.id))
  }

  /** The reply list: one entry per joined pair, in order, naming the joined book by its
      internal key and title, and every entry carrying the branch's status. */
  function Entries(pairs: seq<(Rental, Book)>, status: BookStatus.Status): (r: seq<StatusEntry>)
    ensures |r| == |pairs|
    ensures forall k :: 0 <= k < |r| ==>
      r[k].bookId == pairs[k].1.id && r[k].bookTitle == pairs[k].1.title && r[k].bookStatus == status.Value()
  {
    seq(|pairs|, k requires 0 <= k < |pairs| => StatusEntry(pairs[k].1.id, pairs[k].1.title, status.Value()))
  }

  /** One notification per wishlist row, to that row's user, in table order. */
  function NotifyWishlisters(users: seq<User>, ws: seq<Wishlist>, title: Option<string>): (r: seq<Notification>)
    requires forall i :: 0 <= i < |ws| ==> HasUser(users, ws[i].userId)
    ensures |r| == |ws|
    ensures forall k :: 0 <= k < |r| ==>
      r[k].bookTitle == title && exists u :: u in users && u.id == ws[k].userId && u.userName == r[k].userName
  {
    seq(|ws|, k requires 0 <= k < |ws| => Notification(UserByPk(users, ws[k].userId).userName, title))
  }

  /** The book is on loan exactly when some rental row names its internal key. */
  predicate OnLoan(t: Tables, book: Book)
  {
    exists i :: 0 <= i < |t.rentals| && t.rentals[i].bookId == book.id
  }

  lemma WishlistersExist(t: Tables, book: Book)
    requires WishlistUsersExist(t)
    ensures forall i :: 0 <= i < |GetWishlists(t.wishlists, book)| ==>
      HasUser(t.users, GetWishlists(t.wishlists, book)[i].userId)
  {
    var ws := GetWishlists(t.wishlists, book);
    forall i | 0 <= i < |ws| ensures HasUser(t.users, ws[i].userId) {
      var j :| 0 <= j < |t.wishlists| && t.wishlists[j] == ws[i];
    }
  }

  /** `change_rental_status` as a function of the tables before the call and the clock. */
  function Toggle(t: Tables, bookId: int, now: int): (out: Outcome)
    requires WishlistUsersExist(t)
    ensures out.tables.books == t.books && out.tables.users == t.users
    ensures out.reply.status == 200 || out.reply.status == 404
    ensures out.tables.rentals == t.rentals ==> out.tables == t && out.sent == []
  {
    match GetBook(t.books, bookId)
    case None => Outcome(t, [], Reply(404, Error("Book not found")))
    case Some(book) =>
      match GetRental(t.rentals, book)
      case Some(i) => GiveBack(t, book, i)
      case None => Lend(t, book, now)
  }

  /** The borrowed branch: the rental row at `i` is deleted, every user who wishlisted the
      book is told, and the reply lists the rentals read before the delete. */
  function GiveBack(t: Tables, book: Book, i: nat): (out: Outcome)
    requires WishlistUsersExist(t) && i < |t.rentals|
    ensures out.tables == t.(rentals := out.tables.rentals) && |out.tables.rentals| == |t.rentals| - 1
    ensures |out.sent| == |GetWishlists(t.wishlists, book)|
    ensures out.reply.status == 200 || out.reply.status == 404
  {
    WishlistersExist(t, book);
    var rentalsWithBook := GetRentalsWithBook(t.rentals, t.books, book);
    var t' := t.(rentals := RemoveAt(t.rentals, i));
    var sent := NotifyWishlisters(t.users, GetWishlists(t.wishlists, book), book.title);
    if rentalsWithBook != [] then
      Outcome(t', sent, Reply(200, StatusList(Entries(rentalsWithBook, BookStatus.Available))))
    else
      Outcome(t', sent, Reply(404, Message("No rentals found")))
  }

  /** The available branch: the first user who wishlisted the book gets a rental row
      stamped `now`, loses that wishlist row and is told. */
  function Lend(t: Tables, book: Book, now: int): (out: Outcome)
    requires WishlistUsersExist(t)
    ensures out.tables.books == t.books && out.tables.users == t.users
    ensures out.reply.status == 200 || out.reply.status == 404
    ensures |out.sent| <= 1
    ensures out.tables.rentals == t.rentals <==> out.sent == []
    ensures out.sent == [] ==> out.tables == t
  {
    match First(t.wishlists, WishlistOf(book.id))
    case None =>
      Outcome(t, [], Reply(404, Message("No wishlists found being linked to " + Show(book.title))))
    case Some(j) =>
      var user := UserByPk(t.users, t.wishlists[j].userId);
      var rental := Rental(NextId(t.rentals, RentalPk), user.id, book.id, now);
      var t' := t.(rentals := t.rentals + [rental], wishlists := RemoveAt(t.wishlists, j));
      var rentalsWithBook := GetRentalsWithBook(t'.rentals, t'.books, book);
      var sent := [Notification(user.userName, book.title)];
      if rentalsWithBook != [] then
        Outcome(t', sent, Reply(200, StatusList(Entries(rentalsWithBook, BookStatus.Borrowed))))
      else
        Outcome(t', sent, Reply(404, Message("No rentals found")))
  }

  /** The handler: looks the book up, then either takes it back or lends it. */
  method ChangeRentalStatus(db: Database, notifier: Notifier, bookId: int, now: int) returns (reply: Reply)
    requires WishlistUsersExist(db.Snapshot())
    modifies db, notifier
    ensures var out := Toggle(old(db.Snapshot()), bookId, now);
      db.Snapshot() == out.tables && notifier.sent == old(notifier.sent) + out.sent && reply == out.reply
  {
    var found := GetBook(db.books, bookId);
    if found.None? {
      return Reply(404, Error("Book not found"));
    }
    var rentalOfBook := GetRental(db.rentals, found.value);
    if rentalOfBook.Some? {
      reply := ReturnBook(db, notifier, found.value, rentalOfBook.value);
    } else {
      reply := LendBook(db, notifier, found.value, now);
    }
  }

  method ReturnBook(db: Database, notifier: Notifier, book: Book, i: nat) returns (reply: Reply)
    requires WishlistUsersExist(db.Snapshot()) && i < |db.rentals|
    modifies db, notifier
    ensures var out := GiveBack(old(db.Snapshot()), book, i);
      db.Snapshot() == out.tables && notifier.sent == old(notifier.sent) + out.sent && reply == out.reply
  {
    WishlistersExist(db.Snapshot(), book);
    var rentalsWithBook := GetRentalsWithBook(db.rentals, db.books, book);
    db.DeleteRental(i);
    NotifyEach(notifier, db.users, GetWishlists(db.wishlists, book), book.title);
    if rentalsWithBook != [] {
      reply := Reply(200, StatusList(Entries(rentalsWithBook, BookStatus.Available)));
    } else {
      reply := Reply(404, Message("No rentals found"));
    }
  }

  /** The loop over a book's wishlist rows: one notification per row, in order. */
  method NotifyEach(notifier: Notifier, users: seq<User>, ws: seq<Wishlist>, title: Option<string>)
    requires forall i :: 0 <= i < |ws| ==> HasUser(users, ws[i].userId)
    modifies notifier
    ensures notifier.sent == old(notifier.sent) + NotifyWishlisters(users, ws, title)
  {
    ghost var all := NotifyWishlisters(users, ws, title);
    var k := 0;
    while k < |ws|
      invariant k <= |ws|
      invariant notifier.sent == old(notifier.sent) + all[..k]
    {
      assert all[..k + 1] == all[..k] + [all[k]];
      notifier.Notify(UserByPk(users, ws[k].userId).userName, title);
      k := k + 1;
    }
    assert all[..k] == all;
  }

  method LendBook(db: Database, notifier: Notifier, book: Book, now: int) returns (reply: Reply)
    requires WishlistUsersExist(db.Snapshot())
    modifies db, notifier
    ensures var out := Lend(old(db.Snapshot()), book, now);
      db.Snapshot() == out.tables && notifier.sent == old(notifier.sent) + out.sent && reply == out.reply
  {
    var wishlists := GetWishlists(db.wishlists, book);
    FirstIsHeadOfWhere(db.wishlists, WishlistOf(book.id));
    if wishlists == [] {
      return Reply(404, Message("No wishlists found being linked to " + Show(book.title)));
    }
    var j := First(db.wishlists, WishlistOf(book.id)).value;
    var user := UserByPk(db.users, wishlists[0].userId);
    var _ := db.AddRental(user.id, book.id, now);
    db.DeleteWishlist(j);
    notifier.Notify(user.userName, book.title);
    var rentalsWithBook := GetRentalsWithBook(db.rentals, db.books, book);
    if rentalsWithBook != [] {
      reply := Reply(200, StatusList(Entries(rentalsWithBook, BookStatus.Borrowed)));
    } else {
      reply := Reply(404, Message("No rentals found"));
    }
  }

  /** With unique book keys, a book of the table is the row its key names. */
  lemma BookIsBookByPk(books: seq<Book>, b: Book)
    requires Distinct(books, BookPk) && b in books
    ensures HasBook(books, b.id) && BookByPk(books, b.id) == b
  {
    var j :| 0 <= j < |books| && books[j] == b;
    BookByPkAlone(books, b.id);
    assert WithBookPk(b.id)(books[j]);
  }

  /** Each rental paired with the same book. */
  function Tagged(rs: seq<Rental>, book: Book): (r: seq<(Rental, Book)>)
    ensures |r| == |rs| && forall k :: 0 <= k < |rs| ==> r[k].0 == rs[k] && r[k].1 == book
  {
    seq(|rs|, k requires 0 <= k < |rs| => (rs[k], book))
  }

  /** What the join contributes for one rental, once filtered to the book. */
  lemma HeadPairs(r: Rental, books: seq<Book>, book: Book)
    requires Distinct(books, BookPk) && book in books
    ensures Where(PairWith(r, Where(books, WithBookPk(r.bookId))), JoinedTo(book.id))
      == if r.bookId == book.id then [(r, book)] else []
  {
    var head := PairWith(r, Where(books, WithBookPk(r.bookId)));
    if r.bookId == book.id {
      BookIsBookByPk(books, book);
      BookByPkAlone(books, book.id);
      assert head == [(r, book)];
    } else {
      WhereNone(head, JoinedTo(book.id));
    }
  }

  /** With unique book keys, `get_rentals_with_book` pairs the book with each of its rental
      rows, in rental order. */
  lemma {:induction false} RentalsWithBookAre(rentals: seq<Rental>, books: seq<Book>, book: Book)
    requires Distinct(books, BookPk) && book in books
    ensures GetRentalsWithBook(rentals, books, book) == Tagged(Where(rentals, RentalOf(book.id)), book)
  {
    if rentals != [] {
      var r, rest := rentals[0], rentals[1..];
      var head := PairWith(r, Where(books, WithBookPk(r.bookId)));
      var mine: seq<Rental> := if r.bookId == book.id then [r] else [];
      calc {
        GetRentalsWithBook(rentals, books, book);
        { assert Join(rentals, books) == head + Join(rest, books); }
        Where(head + Join(rest, books), JoinedTo(book.id));
        { WhereAppend(head, Join(rest, books), JoinedTo(book.id)); }
        Where(head, JoinedTo(book.id)) + GetRentalsWithBook(rest, books, book);
        { HeadPairs(r, books, book);
          assert Tagged(mine, book) == if r.bookId == book.id then [(r, book)] else [];
          RentalsWithBookAre(rest, books, book); }
        Tagged(mine, book) + Tagged(Where(rest, RentalOf(book.id)), book);
        { TaggedAppend(mine, Where(rest, RentalOf(book.id)), book); }
        Tagged(mine + Where(rest, RentalOf(book.id)), book);
      }
      assert Where(rentals, RentalOf(book.id)) == mine + Where(rest, RentalOf(book.id));
    }
  }

  lemma TaggedAppend(a: seq<Rental>, b: seq<Rental>, book: Book)
    ensures Tagged(a + b, book) == Tagged(a, book) + Tagged(b, book)
  {
  }

  /** A rental row naming a book of the table always comes back from
      `get_rentals_with_book`. */
  lemma RentalsWithBookHas(rentals: seq<Rental>, books: seq<Book>, book: Book, i: nat)
    requires i < |rentals| && rentals[i].bookId == book.id && book in books
    ensures (rentals[i], book) in GetRentalsWithBook(rentals, books, book)
  {
    JoinHas(rentals, books, i, book);
    var join := Join(rentals, books);
    var k :| 0 <= k < |join| && join[k] == (rentals[i], book);
    assert JoinedTo(book.id)(join[k]);
  }

  /** The rental the lend branch adds is the only one the re-query finds. */
  lemma NewRentalAlone(rentals: seq<Rental>, books: seq<Book>, book: Book, x: Rental)
    requires Distinct(books, BookPk) && book in books && x.bookId == book.id
    requires forall i :: 0 <= i < |rentals| ==> rentals[i].bookId != book.id
    ensures GetRentalsWithBook(rentals + [x], books, book) == [(x, book)]
  {
    RentalsWithBookAre(rentals + [x], books, book);
    WhereAppend(rentals, [x], RentalOf(book.id));
    WhereNone(rentals, RentalOf(book.id));
    assert Where([x], RentalOf(book.id)) == [x];
  }

  /** Under the one-rental-per-book invariant, a book on loan has exactly one rental row,
      the one `get_rental` finds. */
  lemma OnlyRental(t: Tables, book: Book)
    requires Distinct(t.rentals, RentalBook) && GetRental(t.rentals, book).Some?
    ensures Where(t.rentals, RentalOf(book.id)) == [t.rentals[GetRental(t.rentals, book).value]]
  {
    var i := GetRental(t.rentals, book).value;
    forall j | 0 <= j < |t.rentals| && j != i ensures !RentalOf(book.id)(t.rentals[j]) {
      if j > i {
        assert RentalBook(t.rentals[i]) != RentalBook(t.rentals[j]);
      }
    }
    WhereSingle(t.rentals, RentalOf(book.id), i);
  }

  /** An unknown `book_id` answers 404 and changes nothing. */
  lemma ToggleUnknownBook(t: Tables, bookId: int, now: int)
    requires WishlistUsersExist(t)
    requires forall i :: 0 <= i < |t.books| ==> t.books[i].bookId != bookId
    ensures Toggle(t, bookId, now) == Outcome(t, [], Reply(404, Error("Book not found")))
  {
  }

  /** Returning a borrowed book: the first rental row for it is deleted and nothing
      else changes, every user who wishlisted it is told in wishlist order (their wishlist
      rows stay), and the reply is 200 whatever the tables hold: the rentals are read
      before the delete and include the one being deleted, so the "No rentals found"
      reply of this branch cannot be reached. */
  lemma ToggleReturnsBook(t: Tables, bookId: int, now: int, book: Book)
    requires WishlistUsersExist(t)
    requires GetBook(t.books, bookId) == Some(book) && OnLoan(t, book)
    ensures var out := Toggle(t, bookId, now);
      var i := GetRental(t.rentals, book).value;
      && t.rentals[i].bookId == book.id
      && out.tables == t.(rentals := RemoveAt(t.rentals, i))
      && out.reply.status == 200
    ensures var out := Toggle(t, bookId, now);
      var ws := GetWishlists(t.wishlists, book);
      && |out.sent| == |ws|
      && forall k :: 0 <= k < |ws| ==>
           && HasUser(t.users, ws[k].userId)
           && out.sent[k] == Notification(UserByPk(t.users, ws[k].userId).userName, book.title)
  {
    var i := GetRental(t.rentals, book).value;
    assert Toggle(t, bookId, now) == GiveBack(t, book, i);
    WishlistersExist(t, book);
    assert book in t.books;
    RentalsWithBookHas(t.rentals, t.books, book, i);
  }

  /** With unique book keys and one rental row per book, returning a book lists it once,
      as available, under its internal key. */
  lemma ToggleReturnReply(t: Tables, bookId: int, now: int, book: Book)
    requires WishlistUsersExist(t) && Distinct(t.books, BookPk) && Distinct(t.rentals, RentalBook)
    requires GetBook(t.books, bookId) == Some(book) && OnLoan(t, book)
    ensures Toggle(t, bookId, now).reply == Reply(200, StatusList([StatusEntry(book.id, book.title, "available")]))
  {
    var i := GetRental(t.rentals, book).value;
    assert Toggle(t, bookId, now) == GiveBack(t, book, i);
    assert book in t.books;
    GiveBackReply(t, book, i);
  }

  /** Taking a book back when book keys are unique but several rental rows may name it:
      the reply lists every rental row of the book, in table order, each as the book with
      status "available". */
  lemma ToggleReturnEntries(t: Tables, bookId: int, now: int, book: Book)
    requires WishlistUsersExist(t) && Distinct(t.books, BookPk)
    requires GetBook(t.books, bookId) == Some(book) && OnLoan(t, book)
    ensures Toggle(t, bookId, now).reply ==
      Reply(200, StatusList(Entries(Tagged(Where(t.rentals, RentalOf(book.id)), book), BookStatus.Available)))
  {
    var i := GetRental(t.rentals, book).value;
    assert Toggle(t, bookId, now) == GiveBack(t, book, i);
    assert book in t.books;
    RentalsWithBookHas(t.rentals, t.books, book, i);
    RentalsWithBookAre(t.rentals, t.books, book);
  }

  lemma GiveBackReply(t: Tables, book: Book, i: nat)
    requires WishlistUsersExist(t) && Distinct(t.books, BookPk) && Distinct(t.rentals, RentalBook)
    requires book in t.books && GetRental(t.rentals, book) == Some(i)
    ensures GiveBack(t, book, i).reply == Reply(200, StatusList([StatusEntry(book.id, book.title, "available")]))
  {
    OnlyRental(t, book);
    RentalsWithBookAre(t.rentals, t.books, book);
    var pairs := GetRentalsWithBook(t.rentals, t.books, book);
    assert pairs == [(t.rentals[i], book)];
    assert Entries(pairs, BookStatus.Available) == [StatusEntry(book.id, book.title, "available")];
  }

  /** Lending an available book: the first user who wishlisted it gets a new rental row
      under the next key, stamped `now`; that wishlist row is deleted; only that user is
      told; and with unique book keys the reply lists the book once, as borrowed, under
      its internal key. */
  lemma ToggleLendsBook(t: Tables, bookId: int, now: int, book: Book)
    requires WishlistUsersExist(t) && Distinct(t.books, BookPk)
    requires GetBook(t.books, bookId) == Some(book) && !OnLoan(t, book)
    requires GetWishlists(t.wishlists, book) != []
    ensures var out := Toggle(t, bookId, now);
      var w := GetWishlists(t.wishlists, book)[0];
      var j := First(t.wishlists, WishlistOf(book.id)).value;
      && t.wishlists[j] == w
      && HasUser(t.users, w.userId)
      && out.tables == t.(rentals := t.rentals + [Rental(NextId(t.rentals, RentalPk), w.userId, book.id, now)],
                          wishlists := RemoveAt(t.wishlists, j))
      && out.sent == [Notification(UserByPk(t.users, w.userId).userName, book.title)]
      && out.reply == Reply(200, StatusList([StatusEntry(book.id, book.title, "borrowed")]))
  {
    assert Toggle(t, bookId, now) == Lend(t, book, now);
    FirstIsHeadOfWhere(t.wishlists, WishlistOf(book.id));
    assert book in t.books;
    LendReply(t, book, now);
  }

  lemma LendReply(t: Tables, book: Book, now: int)
    requires WishlistUsersExist(t) && Distinct(t.books, BookPk) && book in t.books && !OnLoan(t, book)
    requires First(t.wishlists, WishlistOf(book.id)).Some?
    ensures Lend(t, book, now).reply == Reply(200, StatusList([StatusEntry(book.id, book.title, "borrowed")]))
  {
    var j := First(t.wishlists, WishlistOf(book.id)).value;
    var user := UserByPk(t.users, t.wishlists[j].userId);
    var rental := Rental(NextId(t.rentals, RentalPk), user.id, book.id, now);
    NewRentalAlone(t.rentals, t.books, book, rental);
    var pairs := GetRentalsWithBook(t.rentals + [rental], t.books, book);
    assert Entries(pairs, BookStatus.Borrowed) == [StatusEntry(book.id, book.title, "borrowed")];
  }

  /** A known book that is not on loan and that nobody wishlisted answers 404 and changes
      nothing. */
  lemma ToggleNoWishlist(t: Tables, bookId: int, now: int, book: Book)
    requires WishlistUsersExist(t)
    requires GetBook(t.books, bookId) == Some(book) && !OnLoan(t, book)
    requires forall i :: 0 <= i < |t.wishlists| ==> t.wishlists[i].bookId != book.id
    ensures Toggle(t, bookId, now)
      == Outcome(t, [], Reply(404, Message("No wishlists found being linked to " + Show(book.title))))
  {
  }

  /** Under the one-rental-per-book invariant, deleting a book's rental row leaves no
      row for that book. */
  lemma NoOtherRental(rentals: seq<Rental>, i: nat, bookPk: int)
    requires Distinct(rentals, RentalBook) && i < |rentals| && rentals[i].bookId == bookPk
    ensures forall j :: 0 <= j < |RemoveAt(rentals, i)| ==> RemoveAt(rentals, i)[j].bookId != bookPk
  {
    var r := RemoveAt(rentals, i);
    forall j | 0 <= j < |r| ensures r[j].bookId != bookPk {
      var j' := if j < i then j else j + 1;
      assert r[j] == rentals[j'];
      assert RentalBook(rentals[i]) != RentalBook(rentals[j']);
    }
  }

  /** The toggle: afterwards the book is on loan exactly when it was not before and
      someone had it on a wishlist. */
  lemma ToggleFlipsLoan(t: Tables, bookId: int, now: int, book: Book)
    requires WishlistUsersExist(t) && Distinct(t.rentals, RentalBook)
    requires GetBook(t.books, bookId) == Some(book)
    ensures OnLoan(Toggle(t, bookId, now).tables, book)
      <==> !OnLoan(t, book) && GetWishlists(t.wishlists, book) != []
  {
    var t' := Toggle(t, bookId, now).tables;
    if OnLoan(t, book) {
      var i := GetRental(t.rentals, book).value;
      assert t' == t.(rentals := RemoveAt(t.rentals, i));
      NoOtherRental(t.rentals, i, book.id);
    } else {
      FirstIsHeadOfWhere(t.wishlists, WishlistOf(book.id));
      if GetWishlists(t.wishlists, book) == [] {
        assert t' == t;
      } else {
        assert |t'.rentals| == |t.rentals| + 1 && t'.rentals[|t.rentals|].bookId == book.id;
      }
    }
  }

  lemma GiveBackKeepsInvariants(t: Tables, book: Book, i: nat)
    requires Invariants(t) && i < |t.rentals|
    ensures Invariants(GiveBack(t, book, i).tables)
  {
    var t' := GiveBack(t, book, i).tables;
    assert t' == t.(rentals := RemoveAt(t.rentals, i));
    DistinctRemoveAt(t.rentals, i, RentalPk);
    DistinctRemoveAt(t.rentals, i, RentalBook);
    forall k | 0 <= k < |t'.rentals|
      ensures HasUser(t.users, t'.rentals[k].userId) && HasBook(t.books, t'.rentals[k].bookId)
    {
      assert t'.rentals[k] == t.rentals[if k < i then k else k + 1];
    }
  }

  /** The tables a loan leaves: the first wishlister's rental row appended and their
      wishlist row deleted, or nothing changed when nobody wishlists the book. */
  lemma LendTables(t: Tables, book: Book, now: int)
    requires WishlistUsersExist(t)
    ensures First(t.wishlists, WishlistOf(book.id)).None? ==> Lend(t, book, now).tables == t
    ensures First(t.wishlists, WishlistOf(book.id)).Some? ==>
      var j := First(t.wishlists, WishlistOf(book.id)).value;
      var user := UserByPk(t.users, t.wishlists[j].userId);
      Lend(t, book, now).tables ==
        t.(rentals := t.rentals + [Rental(NextId(t.rentals, RentalPk), user.id, book.id, now)],
           wishlists := RemoveAt(t.wishlists, j))
  {
  }

  /** Appending a rental row that refers to existing rows, and deleting a wishlist row,
      keeps every reference in the two tables pointing at an existing user and book. */
  lemma LoanKeepsReferences(t: Tables, rental: Rental, j: nat)
    requires Valid(t) && j < |t.wishlists|
    requires HasUser(t.users, rental.userId) && HasBook(t.books, rental.bookId)
    ensures var t' := t.(rentals := t.rentals + [rental], wishlists := RemoveAt(t.wishlists, j));
      && WishlistUsersExist(t')
      && (forall k :: 0 <= k < |t'.wishlists| ==> HasBook(t'.books, t'.wishlists[k].bookId))
      && (forall k :: 0 <= k < |t'.rentals| ==>
            HasUser(t'.users, t'.rentals[k].userId) && HasBook(t'.books, t'.rentals[k].bookId))
  {
    var t' := t.(rentals := t.rentals + [rental], wishlists := RemoveAt(t.wishlists, j));
    forall k | 0 <= k < |t'.wishlists|
      ensures HasUser(t.users, t'.wishlists[k].userId) && HasBook(t.books, t'.wishlists[k].bookId)
    {
      assert t'.wishlists[k] == t.wishlists[if k < j then k else k + 1];
    }
    forall k | 0 <= k < |t'.rentals|
      ensures HasUser(t.users, t'.rentals[k].userId) && HasBook(t.books, t'.rentals[k].bookId)
    {
      if k < |t.rentals| {
        assert t'.rentals[k] == t.rentals[k];
      }
    }
  }

  lemma LendKeepsInvariants(t: Tables, book: Book, now: int)
    requires Invariants(t) && book in t.books && !OnLoan(t, book)
    ensures Invariants(Lend(t, book, now).tables)
  {
    LendTables(t, book, now);
    match First(t.wishlists, WishlistOf(book.id))
    case None =>
    case Some(j) =>
      var user := UserByPk(t.users, t.wishlists[j].userId);
      var rental := Rental(NextId(t.rentals, RentalPk), user.id, book.id, now);
      DistinctAppend(t.rentals, rental, RentalPk);
      DistinctAppend(t.rentals, rental, RentalBook);
      DistinctRemoveAt(t.wishlists, j, WishlistPk);
      DistinctRemoveAt(t.wishlists, j, WishlistBook);
      assert HasBook(t.books, book.id);
      LoanKeepsReferences(t, rental, j);
  }

  /** The toggle keeps the database's integrity and the handlers' invariants. */
  lemma ToggleKeepsInvariants(t: Tables, bookId: int, now: int)
    requires Invariants(t)
    ensures Invariants(Toggle(t, bookId, now).tables)
  {
    match GetBook(t.books, bookId)
    case None =>
    case Some(book) =>
      match GetRental(t.rentals, book)
      case Some(i) =>
        GiveBackKeepsInvariants(t, book, i);
      case None =>
        assert book in t.books;
        LendKeepsInvariants(t, book, now);
  }

  /** The tables a return leaves: the rental row at `i` deleted, nothing else changed. */
  lemma GiveBackTables(t: Tables, book: Book, i: nat)
    requires WishlistUsersExist(t) && i < |t.rentals|
    ensures GiveBack(t, book, i).tables == t.(rentals := RemoveAt(t.rentals, i))
  {
  }

  /** Deleting a wishlist row leaves the others naming existing users. */
  lemma RemoveKeepsWishlistUsers(users: seq<User>, ws: seq<Wishlist>, j: nat)
    requires j < |ws|
    requires forall k :: 0 <= k < |ws| ==> HasUser(users, ws[k].userId)
    ensures forall k :: 0 <= k < |RemoveAt(ws, j)| ==> HasUser(users, RemoveAt(ws, j)[k].userId)
  {
    forall k | 0 <= k < |RemoveAt(ws, j)| ensures HasUser(users, RemoveAt(ws, j)[k].userId) {
      assert RemoveAt(ws, j)[k] == ws[if k < j then k else k + 1];
    }
  }

  /** Every wishlist row still names an existing user after the toggle. */
  lemma ToggleKeepsWishlistUsers(t: Tables, bookId: int, now: int)
    requires WishlistUsersExist(t)
    ensures WishlistUsersExist(Toggle(t, bookId, now).tables)
  {
    match GetBook(t.books, bookId)
    case None =>
    case Some(book) =>
      match GetRental(t.rentals, book)
      case Some(i) =>
        assert Toggle(t, bookId, now) == GiveBack(t, book, i);
        GiveBackTables(t, book, i);
      case None =>
        assert Toggle(t, bookId, now) == Lend(t, book, now);
        LendTables(t, book, now);
        match First(t.wishlists, WishlistOf(book.id))
        case None =>
        case Some(j) =>
          RemoveKeepsWishlistUsers(t.users, t.wishlists, j);
  }

  /** After a loan, the book's only rental row is the new last one, and its wishlist
      rows are the ones before the loan less the first. */
  lemma AfterLend(t: Tables, bookId: int, now: int, book: Book)
    requires WishlistUsersExist(t) && Distinct(t.books, BookPk)
    requires GetBook(t.books, bookId) == Some(book) && !OnLoan(t, book)
    requires GetWishlists(t.wishlists, book) != []
    ensures var t1 := Toggle(t, bookId, now).tables;
      && WishlistUsersExist(t1)
      && GetBook(t1.books, bookId) == Some(book)
      && GetRental(t1.rentals, book) == Some(|t.rentals|)
      && RemoveAt(t1.rentals, |t.rentals|) == t.rentals
      && GetWishlists(t1.wishlists, book) == GetWishlists(t.wishlists, book)[1..]
  {
    ToggleKeepsWishlistUsers(t, bookId, now);
    ToggleLendsBook(t, bookId, now, book);
    var t1 := Toggle(t, bookId, now).tables;
    var n := |t.rentals|;
    var rental := t1.rentals[n];
    assert t1.books == t.books && t1.rentals == t.rentals + [rental] && rental.bookId == book.id;
    FirstAppended(t.rentals, rental, RentalOf(book.id));
    WhereRemoveFirst(t.wishlists, WishlistOf(book.id));
    assert RemoveAt(t1.rentals, n) == t.rentals;
  }

  /** Lending a book and then toggling it again gives it back: the rentals table is as it
      was before the loan, the wishlist row of the user who had it stays deleted, users
      and books are untouched, and exactly the users still wishlisting the book are told,
      in table order. */
  lemma LendThenReturn(t: Tables, bookId: int, now: int, later: int, book: Book)
    requires WishlistUsersExist(t) && Distinct(t.books, BookPk)
    requires GetBook(t.books, bookId) == Some(book) && !OnLoan(t, book)
    requires GetWishlists(t.wishlists, book) != []
    ensures var t1 := Toggle(t, bookId, now).tables;
      && WishlistUsersExist(t1)
      && var out := Toggle(t1, bookId, later);
      && out.tables.rentals == t.rentals
      && out.tables.wishlists == t1.wishlists
      && out.tables.users == t.users && out.tables.books == t.books
  ensures var ws := GetWishlists(t.wishlists, book);
      && (forall k :: 0 <= k < |ws| ==> HasUser(t.users, ws[k].userId))
      && var t1 := Toggle(t, bookId, now).tables;
      && Toggle(t1, bookId, later).sent == NotifyWishlisters(t.users, ws[1..], book.title)
  {
    AfterLend(t, bookId, now, book);
    WishlistersExist(t, book);
    var t1 := Toggle(t, bookId, now).tables;
    assert t1.rentals[|t.rentals|].bookId == book.id;
    ToggleReturnsBook(t1, bookId, later, book);
    var ws := GetWishlists(t.wishlists, book);
    var sent := Toggle(t1, bookId, later).sent;
    assert forall k :: 0 <= k < |ws| - 1 ==> ws[1..][k] == GetWishlists(t1.wishlists, book)[k];
    assert |sent| == |NotifyWishlisters(t.users, ws[1..], book.title)|;
    forall k | 0 <= k < |sent| ensures sent[k] == NotifyWishlisters(t.users, ws[1..], book.title)[k] {
    }
  }
}
