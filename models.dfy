/** The four tables of the library database, the lookups several handlers share, and
    the session through which the handlers change the tables. */
module Models {
  import opened Wrappers
  import opened Query

  /** A catalog row. `id` is the internal primary key; `bookId` is the catalog's own
      number, the one the routes take from the URL, and the schema does not make it
      unique. `title` and `language` may be NULL. */
  datatype Book = Book(
    id: int,
    bookId: int,
    isbn: int,
    authors: string,
    publicationYear: int,
    title: Option<string>,
    language: Option<string>)

  /** A user row. The schema requires a name but does not make it unique. */
  datatype User = User(id: int, userName: string, userType: string)

  /** A wishlist row: `userId` and `bookId` hold the internal keys `User.id` and `Book.id`. */
  datatype Wishlist = Wishlist(id: int, userId: int, bookId: int)

  /** A rental row: `userId` and `bookId` hold internal keys; `createdAt` is a local
      timestamp counted in microseconds, the resolution of Python's `datetime`. */
  datatype Rental = Rental(id: int, userId: int, bookId: int, createdAt: int)

  /** The whole database: every table as its rows in insertion order. */
  datatype Tables = Tables(
    books: seq<Book>,
    users: seq<User>,
    wishlists: seq<Wishlist>,
    rentals: seq<Rental>)

  function BookPk(b: Book): int { b.id }
  function UserPk(u: User): int { u.id }
  function WishlistPk(w: Wishlist): int { w.id }
  function RentalPk(r: Rental): int { r.id }

  function WithBookId(bookId: int): Book -> bool { (b: Book) => b.bookId == bookId }
  function WithBookPk(id: int): Book -> bool { (b: Book) => b.id == id }
  function WithUserName(userName: string): User -> bool { (u: User) => u.userName == userName }
  function WithUserPk(id: int): User -> bool { (u: User) => u.id == id }
  function WishlistOf(bookPk: int): Wishlist -> bool { (w: Wishlist) => w.bookId == bookPk }

  predicate HasBook(books: seq<Book>, id: int)
  {
    exists i :: 0 <= i < |books| && books[i].id == id
  }

  predicate HasUser(users: seq<User>, id: int)
  {
    exists i :: 0 <= i < |users| && users[i].id == id
  }

  /** Every wishlist row names a user that exists, which the handlers rely on when they
      follow `wishlist.user`. */
  ghost predicate WishlistUsersExist(t: Tables)
  {
    forall i :: 0 <= i < |t.wishlists| ==> HasUser(t.users, t.wishlists[i].userId)
  }

  /** The database's integrity: primary keys are unique, and every wishlist and rental
      row refers to an existing user and book. */
  ghost predicate Valid(t: Tables)
  {
    && Distinct(t.books, BookPk)
    && Distinct(t.users, UserPk)
    && Distinct(t.wishlists, WishlistPk)
    && Distinct(t.rentals, RentalPk)
    && WishlistUsersExist(t)
    && (forall i :: 0 <= i < |t.wishlists| ==> HasBook(t.books, t.wishlists[i].bookId))
    && (forall i :: 0 <= i < |t.rentals| ==>
          HasUser(t.users, t.rentals[i].userId) && HasBook(t.books, t.rentals[i].bookId))
  }

  function RentalBook(r: Rental): int { r.bookId }
  function WishlistBook(w: Wishlist): int { w.bookId }
  function UserNameKey(u: User): string { u.userName }

  /** What the handlers keep true beyond the schema: at most one rental row per book (a
      book is on loan or it is not), at most one wishlist row per book, and no two users
      with the same name. */
  ghost predicate Invariants(t: Tables)
  {
    && Valid(t)
    && Distinct(t.rentals, RentalBook)
    && Distinct(t.wishlists, WishlistBook)
    && Distinct(t.users, UserNameKey)
  }

  /** `Book.query.filter_by(book_id=...).first()`: the first catalog row with that
      external number, or nothing when there is none. */
  function GetBook(books: seq<Book>, bookId: int): (r: Option<Book>)
    ensures r.None? <==> forall i :: 0 <= i < |books| ==> books[i].bookId != bookId
    ensures r.Some? ==> r.value.bookId == bookId
    ensures r.Some? ==>
      exists i :: 0 <= i < |books| && books[i] == r.value &&
        forall j :: 0 <= j < i ==> books[j].bookId != bookId
  {
    match First(books, WithBookId(bookId))
    case None => None
    case Some(i) => Some(books[i])
  }

  /** `User.query.filter_by(user_name=...).first()`: the first user row with that name,
      or nothing when there is none. */
  function GetUser(users: seq<User>, userName: string): (r: Option<User>)
    ensures r.None? <==> forall i :: 0 <= i < |users| ==> users[i].userName != userName
    ensures r.Some? ==> r.value.userName == userName
    ensures r.Some? ==>
      exists i :: 0 <= i < |users| && users[i] == r.value &&
        forall j :: 0 <= j < i ==> users[j].userName != userName
  {
    match First(users, WithUserName(userName))
    case None => None
    case Some(i) => Some(users[i])
  }

  /** The user row a foreign key refers to, as `wishlist.user` loads it. */
  function UserByPk(users: seq<User>, id: int): (u: User)
    requires HasUser(users, id)
    ensures u in users && u.id == id
  {
    users[First(users, WithUserPk(id)).value]
  }

  /** The book row a foreign key refers to, as `rental.book` loads it. */
  function BookByPk(books: seq<Book>, id: int): (b: Book)
    requires HasBook(books, id)
    ensures b in books && b.id == id
  {
    books[First(books, WithBookPk(id)).value]
  }

  function PairWith(r: Rental, bs: seq<Book>): seq<(Rental, Book)>
  {
    seq(|bs|, k requires 0 <= k < |bs| => (r, bs[k]))
  }

  /** The inner join of Rentals with Book on `Rentals.book_id == Book.id`: rental by
      rental in table order, one pair for each book row whose key the rental names.
      Every pair is a rental and a book of the tables, and the book is the one the
      rental names. */
  function Join(rentals: seq<Rental>, books: seq<Book>): (r: seq<(Rental, Book)>)
    ensures forall k :: 0 <= k < |r| ==> r[k].0 in rentals && r[k].1 in books && r[k].1.id == r[k].0.bookId
  {
    if rentals == [] then []
    else
      var ws := Where(books, WithBookPk(rentals[0].bookId));
      assert forall k :: 0 <= k < |ws| ==> ws[k] in books && ws[k].id == rentals[0].bookId;
      var rest := Join(rentals[1..], books);
      assert forall k :: 0 <= k < |rest| ==> rest[k].0 in rentals;
      PairWith(rentals[0], ws) + rest
  }

  /** With unique book keys, the book a key names is the only row `Where` finds for it. */
  lemma BookByPkAlone(books: seq<Book>, id: int)
    requires Distinct(books, BookPk) && HasBook(books, id)
    ensures Where(books, WithBookPk(id)) == [BookByPk(books, id)]
  {
    var i := First(books, WithBookPk(id)).value;
    forall j | 0 <= j < |books| && j != i ensures !WithBookPk(id)(books[j]) {
      if j < i {
      } else {
        assert BookPk(books[i]) != BookPk(books[j]);
      }
    }
    WhereSingle(books, WithBookPk(id), i);
  }

  /** When book keys are unique and every rental names an existing book, the join has
      exactly one row per rental, in rental order, paired with the book it names. */
  lemma {:induction false} JoinOnePerRental(rentals: seq<Rental>, books: seq<Book>)
    requires Distinct(books, BookPk)
    requires forall i :: 0 <= i < |rentals| ==> HasBook(books, rentals[i].bookId)
    ensures |Join(rentals, books)| == |rentals|
    ensures forall k :: 0 <= k < |rentals| ==>
      Join(rentals, books)[k] == (rentals[k], BookByPk(books, rentals[k].bookId))
  {
    if rentals != [] {
      var rest := rentals[1..];
      assert forall i :: 0 <= i < |rest| ==> rest[i] == rentals[i + 1];
      JoinOnePerRental(rest, books);
      JoinHeadOne(rentals, books);
      ConsOnePerRental(rentals, books, Join(rentals, books), Join(rest, books));
    }
  }

  /** A rental's own pair in front of the pairs of the later rentals, one each, gives one
      pair per rental. */
  lemma ConsOnePerRental(rentals: seq<Rental>, books: seq<Book>, join: seq<(Rental, Book)>,
                         rest: seq<(Rental, Book)>)
    requires rentals != []
    requires forall i :: 0 <= i < |rentals| ==> HasBook(books, rentals[i].bookId)
    requires |rest| == |rentals| - 1
    requires forall k :: 0 <= k < |rest| ==> rest[k] == (rentals[k + 1], BookByPk(books, rentals[k + 1].bookId))
    requires join == [(rentals[0], BookByPk(books, rentals[0].bookId))] + rest
    ensures |join| == |rentals|
    ensures forall k :: 0 <= k < |rentals| ==> join[k] == (rentals[k], BookByPk(books, rentals[k].bookId))
  {
    forall k | 0 <= k < |rentals| ensures join[k] == (rentals[k], BookByPk(books, rentals[k].bookId)) {
      if k > 0 {
        assert join[k] == rest[k - 1];
      }
    }
  }

  /** A rental whose book exists once contributes exactly one pair to the join. */
  lemma {:induction false} JoinHeadOne(rentals: seq<Rental>, books: seq<Book>)
    requires Distinct(books, BookPk)
    requires rentals != [] && HasBook(books, rentals[0].bookId)
    ensures Join(rentals, books) == [(rentals[0], BookByPk(books, rentals[0].bookId))] + Join(rentals[1..], books)
  {
    var r := rentals[0];
    var b := BookByPk(books, r.bookId);
    assert Join(rentals, books) == PairWith(r, Where(books, WithBookPk(r.bookId))) + Join(rentals[1..], books);
    BookByPkAlone(books, r.bookId);
    assert PairWith(r, [b]) == [(r, b)];
  }

  /** A rental and the book it names always meet in the join. */
  lemma {:induction false} JoinHas(rentals: seq<Rental>, books: seq<Book>, k: nat, b: Book)
    requires k < |rentals| && b in books && b.id == rentals[k].bookId
    ensures (rentals[k], b) in Join(rentals, books)
  {
    var head := PairWith(rentals[0], Where(books, WithBookPk(rentals[0].bookId)));
    if k == 0 {
      var j :| 0 <= j < |books| && books[j] == b;
      var ws := Where(books, WithBookPk(rentals[0].bookId));
      assert b in ws;
      var m :| 0 <= m < |ws| && ws[m] == b;
      assert head[m] == (rentals[0], b);
    } else {
      assert rentals[k] == rentals[1..][k - 1];
      JoinHas(rentals[1..], books, k - 1, b);
    }
  }

  /** The database session. Each table is a field the handlers' `add`, `delete` and
      `commit` calls replace; one handler runs at a time. */
  class Database {
    var books: seq<Book>
    var users: seq<User>
    var wishlists: seq<Wishlist>
    var rentals: seq<Rental>

    constructor (t: Tables)
      ensures Snapshot() == t
    {
      books, users, wishlists, rentals := t.books, t.users, t.wishlists, t.rentals;
    }

    /** The four tables as they stand. */
    function Snapshot(): Tables
      reads this
    {
      Tables(books, users, wishlists, rentals)
    }

    /** Adds a user row under SQLite's next key and commits. */
    method AddUser(userName: string, userType: string) returns (id: int)
      modifies this
      ensures id == NextId(old(users), UserPk)
      ensures Snapshot() == old(Snapshot()).(users := old(users) + [User(id, userName, userType)])
    {
      id := NextId(users, UserPk);
      users := users + [User(id, userName, userType)];
    }

    /** Adds a wishlist row under SQLite's next key and commits. */
    method AddWishlist(userId: int, bookId: int) returns (id: int)
      modifies this
      ensures id == NextId(old(wishlists), WishlistPk)
      ensures Snapshot() == old(Snapshot()).(wishlists := old(wishlists) + [Wishlist(id, userId, bookId)])
    {
      id := NextId(wishlists, WishlistPk);
      wishlists := wishlists + [Wishlist(id, userId, bookId)];
    }

    /** Deletes the wishlist row at index `i` and commits. */
    method DeleteWishlist(i: nat)
      requires i < |wishlists|
      modifies this
      ensures Snapshot() == old(Snapshot()).(wishlists := RemoveAt(old(wishlists), i))
    {
      wishlists := RemoveAt(wishlists, i);
    }

    /** Adds a rental row under SQLite's next key. */
    method AddRental(userId: int, bookId: int, createdAt: int) returns (id: int)
      modifies this
      ensures id == NextId(old(rentals), RentalPk)
      ensures Snapshot() == old(Snapshot()).(rentals := old(rentals) + [Rental(id, userId, bookId, createdAt)])
    {
      id := NextId(rentals, RentalPk);
      rentals := rentals + [Rental(id, userId, bookId, createdAt)];
    }

    /** Deletes the rental row at index `i` and commits. */
    method DeleteRental(i: nat)
      requires i < |rentals|
      modifies this
      ensures Snapshot() == old(Snapshot()).(rentals := RemoveAt(old(rentals), i))
    {
      rentals := RemoveAt(rentals, i);
    }
  }
}
