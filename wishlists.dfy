/** `POST` and `DELETE /wishlists/<user_name>/<book_id>`: a user puts a book on their
    wishlist, or takes it off. A book is on at most one user's wishlist. */
module Wishlists {
  import opened Wrappers
  import opened Query
  import opened Models
  import opened Notifications
  import opened Replies

  /** The wishlist rows of this user for this book. */
  function OfPair(userPk: int, bookPk: int): Wishlist -> bool
  {
    (w: Wishlist) => w.userId == userPk && w.bookId == bookPk
  }

  /** Does the user hold a wishlist row for the book? */
  predicate Holds(t: Tables, userPk: int, bookPk: int)
  {
    exists i :: 0 <= i < |t.wishlists| && t.wishlists[i].userId == userPk && t.wishlists[i].bookId == bookPk
  }

  /** Is the book on anybody's wishlist? */
  predicate Wishlisted(t: Tables, bookPk: int)
  {
    exists i :: 0 <= i < |t.wishlists| && t.wishlists[i].bookId == bookPk
  }

  /** `add_to_wishlist` as a function of the tables before the call. */
  function Add(t: Tables, userName: string, bookId: int): (out: Outcome)
    ensures out.tables == t.(wishlists := out.tables.wishlists)
    ensures out.reply.status in {200, 201, 404}
    ensures out.reply.status == 201 <==> out.tables != t
    ensures |out.sent| <= 1 && (out.sent == [] <==> out.tables == t)
  {
    match GetUser(t.users, userName)
    case None => Outcome(t, [], Reply(404, Error("User not found")))
    case Some(user) =>
      match GetBook(t.books, bookId)
      case None => Outcome(t, [], Reply(404, Error("Book not found")))
      case Some(book) =>
        if First(t.wishlists, OfPair(user.id, book.id)).Some? then
          Outcome(t, [], Reply(200, Message("Given user '" + userName + "' already has this book in a wishlist")))
        else if First(t.wishlists, WishlistOf(book.id)).Some? then
          Outcome(t, [], Reply(200, Message("Book already in wishlist of other user")))
        else
          var entry := Wishlist(NextId(t.wishlists, WishlistPk), user.id, book.id);
          Outcome(t.(wishlists := t.wishlists + [entry]),
                  [Notification(user.userName, book.title)],
                  Reply(201, Message("Book '" + Show(book.title) + "' added to user " + user.userName + "'s wishlist")))
  }

  /** `remove_from_wishlist` as a function of the tables before the call. */
  function Remove(t: Tables, userName: string, bookId: int): (out: Outcome)
    ensures out.tables == t.(wishlists := out.tables.wishlists)
    ensures out.reply.status in {204, 404}
    ensures out.reply.status == 204 <==> out.tables != t
    ensures |out.sent| <= 1 && (out.sent == [] <==> out.tables == t)
  {
    match GetUser(t.users, userName)
    case None => Outcome(t, [], Reply(404, Error("User not found")))
    case Some(user) =>
      match GetBook(t.books, bookId)
      case None => Outcome(t, [], Reply(404, Error("Book not found")))
      case Some(book) =>
        match First(t.wishlists, OfPair(user.id, book.id))
        case None =>
          Outcome(t, [], Reply(404, Message("Given user '" + userName + "' does not have book "
                                            + Show(book.title) + " in a wishlist")))
        case Some(i) =>
          Outcome(t.(wishlists := RemoveAt(t.wishlists, i)),
                  [Notification(user.userName, book.title)],
                  Reply(204, Message("Book '" + Show(book.title) + "' has been removed from "
                                     + user.userName + "'s wishlist")))
  }

  /** The add handler. */
  method AddToWishlist(db: Database, notifier: Notifier, userName: string, bookId: int) returns (reply: Reply)
    modifies db, notifier
    ensures var out := Add(old(db.Snapshot()), userName, bookId);
      db.Snapshot() == out.tables && notifier.sent == old(notifier.sent) + out.sent && reply == out.reply
  {
    var user := GetUser(db.users, userName);
    if user.None? {
      return Reply(404, Error("User not found"));
    }
    var book := GetBook(db.books, bookId);
    if book.None? {
      return Reply(404, Error("Book not found"));
    }
    var existingGivenUser := First(db.wishlists, OfPair(user.value.id, book.value.id));
    if existingGivenUser.Some? {
      return Reply(200, Message("Given user '" + userName + "' already has this book in a wishlist"));
    }
    var existingOtherUser := First(db.wishlists, WishlistOf(book.value.id));
    if existingOtherUser.Some? {
      return Reply(200, Message("Book already in wishlist of other user"));
    }
    var _ := db.AddWishlist(user.value.id, book.value.id);
    notifier.Notify(user.value.userName, book.value.title);
    reply := Reply(201, Message("Book '" + Show(book.value.title) + "' added to user "
                                + user.value.userName + "'s wishlist"));
  }

  /** The remove handler. */
  method RemoveFromWishlist(db: Database, notifier: Notifier, userName: string, bookId: int) returns (reply: Reply)
    modifies db, notifier
    ensures var out := Remove(old(db.Snapshot()), userName, bookId);
      db.Snapshot() == out.tables && notifier.sent == old(notifier.sent) + out.sent && reply == out.reply
  {
    var user := GetUser(db.users, userName);
    if user.None? {
      return Reply(404, Error("User not found"));
    }
    var book := GetBook(db.books, bookId);
    if book.None? {
      return Reply(404, Error("Book not found"));
    }
    var existingGivenUser := First(db.wishlists, OfPair(user.value.id, book.value.id));
    if existingGivenUser.None? {
      return Reply(404, Message("Given user '" + userName + "' does not have book "
                                + Show(book.value.title) + " in a wishlist"));
    }
    db.DeleteWishlist(existingGivenUser.value);
    notifier.Notify(user.value.userName, book.value.title);
    reply := Reply(204, Message("Book '" + Show(book.value.title) + "' has been removed from "
                                + user.value.userName + "'s wishlist"));
  }

  /** Both handlers look the user up before the book: an unknown user name answers 404
      "User not found" and changes nothing, whether or not the book exists. */
  lemma UnknownUserFirst(t: Tables, userName: string, bookId: int)
    requires forall i :: 0 <= i < |t.users| ==> t.users[i].userName != userName
    ensures Add(t, userName, bookId) == Outcome(t, [], Reply(404, Error("User not found")))
    ensures Remove(t, userName, bookId) == Outcome(t, [], Reply(404, Error("User not found")))
  {
  }

  /** With the user found, an unknown book id answers 404 "Book not found" from both
      handlers and changes nothing. */
  lemma UnknownBook(t: Tables, userName: string, bookId: int)
    requires GetUser(t.users, userName).Some?
    requires forall i :: 0 <= i < |t.books| ==> t.books[i].bookId != bookId
    ensures Add(t, userName, bookId) == Outcome(t, [], Reply(404, Error("Book not found")))
    ensures Remove(t, userName, bookId) == Outcome(t, [], Reply(404, Error("Book not found")))
  {
  }

  /** Adding succeeds exactly when the user and the book exist and the book is on nobody's
      wishlist; and it changes the tables exactly when it succeeds. */
  lemma AddSucceedsIff(t: Tables, userName: string, bookId: int)
    ensures var out := Add(t, userName, bookId);
      out.reply.status == 201 <==>
        && GetUser(t.users, userName).Some?
        && GetBook(t.books, bookId).Some?
        && !Wishlisted(t, GetBook(t.books, bookId).value.id)
    ensures var out := Add(t, userName, bookId);
      out.tables != t <==> out.reply.status == 201
  {
    var out := Add(t, userName, bookId);
    if GetUser(t.users, userName).Some? && GetBook(t.books, bookId).Some? {
      var user, book := GetUser(t.users, userName).value, GetBook(t.books, bookId).value;
      if !Wishlisted(t, book.id) {
        assert First(t.wishlists, OfPair(user.id, book.id)).None?;
        assert |out.tables.wishlists| == |t.wishlists| + 1;
      } else {
        var i :| 0 <= i < |t.wishlists| && t.wishlists[i].bookId == book.id;
        assert WishlistOf(book.id)(t.wishlists[i]);
      }
    }
  }

  /** A successful add appends one row for the pair under a fresh key, tells the user, and
      answers 201. */
  lemma AddAppends(t: Tables, userName: string, bookId: int, user: User, book: Book)
    requires GetUser(t.users, userName) == Some(user) && GetBook(t.books, bookId) == Some(book)
    requires !Wishlisted(t, book.id)
    ensures var out := Add(t, userName, bookId);
      var id := NextId(t.wishlists, WishlistPk);
      && (forall i :: 0 <= i < |t.wishlists| ==> t.wishlists[i].id != id)
      && out.tables == t.(wishlists := t.wishlists + [Wishlist(id, user.id, book.id)])
      && out.sent == [Notification(userName, book.title)]
      && out.reply.status == 201
  {
    assert First(t.wishlists, OfPair(user.id, book.id)).None?;
  }

  /** A user who already holds the book is told so, and nothing changes. */
  lemma AddWhenHeld(t: Tables, userName: string, bookId: int, user: User, book: Book)
    requires GetUser(t.users, userName) == Some(user) && GetBook(t.books, bookId) == Some(book)
    requires Holds(t, user.id, book.id)
    ensures Add(t, userName, bookId)
      == Outcome(t, [], Reply(200, Message("Given user '" + userName + "' already has this book in a wishlist")))
  {
    var i :| 0 <= i < |t.wishlists| && t.wishlists[i].userId == user.id && t.wishlists[i].bookId == book.id;
    assert OfPair(user.id, book.id)(t.wishlists[i]);
  }

  /** A book on another user's wishlist cannot be added, and nothing changes. */
  lemma AddWhenHeldByOther(t: Tables, userName: string, bookId: int, user: User, book: Book)
    requires GetUser(t.users, userName) == Some(user) && GetBook(t.books, bookId) == Some(book)
    requires Wishlisted(t, book.id) && !Holds(t, user.id, book.id)
    ensures Add(t, userName, bookId) == Outcome(t, [], Reply(200, Message("Book already in wishlist of other user")))
  {
    var i :| 0 <= i < |t.wishlists| && t.wishlists[i].bookId == book.id;
    assert WishlistOf(book.id)(t.wishlists[i]);
    assert First(t.wishlists, OfPair(user.id, book.id)).None?;
  }

  /** Adding twice is adding once: the second call changes nothing and tells nobody. */
  lemma AddIdempotent(t: Tables, userName: string, bookId: int)
    ensures var t1 := Add(t, userName, bookId).tables;
      Add(t1, userName, bookId).tables == t1 && Add(t1, userName, bookId).sent == []
  {
    var t1 := Add(t, userName, bookId).tables;
    if t1 != t {
      AddSucceedsIff(t, userName, bookId);
      var user, book := GetUser(t.users, userName).value, GetBook(t.books, bookId).value;
      assert t1.users == t.users && t1.books == t.books;
      var n := |t.wishlists|;
      assert t1.wishlists[n].userId == user.id && t1.wishlists[n].bookId == book.id;
      assert OfPair(user.id, book.id)(t1.wishlists[n]);
    }
  }

  /** Adding keeps the database's integrity and the handlers' invariants; in particular a
      book stays on at most one wishlist. */
  lemma AddKeepsInvariants(t: Tables, userName: string, bookId: int)
    requires Invariants(t)
    ensures Invariants(Add(t, userName, bookId).tables)
  {
    var t1 := Add(t, userName, bookId).tables;
    if t1 != t {
      AddSucceedsIff(t, userName, bookId);
      var user, book := GetUser(t.users, userName).value, GetBook(t.books, bookId).value;
      assert First(t.wishlists, OfPair(user.id, book.id)).None?;
      var entry := Wishlist(NextId(t.wishlists, WishlistPk), user.id, book.id);
      assert t1 == t.(wishlists := t.wishlists + [entry]);
      DistinctAppend(t.wishlists, entry, WishlistPk);
      DistinctAppend(t.wishlists, entry, WishlistBook);
      assert user in t.users && book in t.books;
      assert HasUser(t.users, user.id) && HasBook(t.books, book.id);
    }
  }

  /** Removing a held book deletes the first row for the pair and nothing else, tells the
      user, and answers 204; with a book on at most one wishlist, the book is then on none. */
  lemma RemoveDeletes(t: Tables, userName: string, bookId: int, user: User, book: Book)
    requires GetUser(t.users, userName) == Some(user) && GetBook(t.books, bookId) == Some(book)
    requires Holds(t, user.id, book.id)
    ensures var out := Remove(t, userName, bookId);
      var i := First(t.wishlists, OfPair(user.id, book.id)).value;
      && t.wishlists[i].userId == user.id && t.wishlists[i].bookId == book.id
      && out.tables == t.(wishlists := RemoveAt(t.wishlists, i))
      && out.sent == [Notification(userName, book.title)]
      && out.reply.status == 204
    ensures Distinct(t.wishlists, WishlistBook) ==> !Wishlisted(Remove(t, userName, bookId).tables, book.id)
  {
    var i :| 0 <= i < |t.wishlists| && t.wishlists[i].userId == user.id && t.wishlists[i].bookId == book.id;
    assert OfPair(user.id, book.id)(t.wishlists[i]);
    var k := First(t.wishlists, OfPair(user.id, book.id)).value;
    var t1 := Remove(t, userName, bookId).tables;
    if Distinct(t.wishlists, WishlistBook) {
      forall j | 0 <= j < |t1.wishlists| ensures t1.wishlists[j].bookId != book.id {
        var j' := if j < k then j else j + 1;
        assert t1.wishlists[j] == t.wishlists[j'];
        assert WishlistBook(t.wishlists[k]) != WishlistBook(t.wishlists[j']);
      }
    }
  }

  /** Removing a book the user does not hold answers 404 and changes nothing. */
  lemma RemoveWhenAbsent(t: Tables, userName: string, bookId: int, user: User, book: Book)
    requires GetUser(t.users, userName) == Some(user) && GetBook(t.books, bookId) == Some(book)
    requires !Holds(t, user.id, book.id)
    ensures Remove(t, userName, bookId) == Outcome(t, [], Reply(404, Message(
      "Given user '" + userName + "' does not have book " + Show(book.title) + " in a wishlist")))
  {
    assert First(t.wishlists, OfPair(user.id, book.id)).None?;
  }

  /** Removing keeps the database's integrity and the handlers' invariants. */
  lemma RemoveKeepsInvariants(t: Tables, userName: string, bookId: int)
    requires Invariants(t)
    ensures Invariants(Remove(t, userName, bookId).tables)
  {
    var t1 := Remove(t, userName, bookId).tables;
    if t1 != t {
      var user, book := GetUser(t.users, userName).value, GetBook(t.books, bookId).value;
      var i := First(t.wishlists, OfPair(user.id, book.id)).value;
      assert t1 == t.(wishlists := RemoveAt(t.wishlists, i));
      DistinctRemoveAt(t.wishlists, i, WishlistPk);
      DistinctRemoveAt(t.wishlists, i, WishlistBook);
      forall k | 0 <= k < |t1.wishlists|
        ensures HasUser(t.users, t1.wishlists[k].userId) && HasBook(t.books, t1.wishlists[k].bookId)
      {
        assert t1.wishlists[k] == t.wishlists[if k < i then k else k + 1];
      }
    }
  }

  /** Removing what was just added restores the tables, and the user is told twice. */
  lemma AddThenRemove(t: Tables, userName: string, bookId: int, user: User, book: Book)
    requires GetUser(t.users, userName) == Some(user) && GetBook(t.books, bookId) == Some(book)
    requires !Wishlisted(t, book.id)
    ensures var added := Add(t, userName, bookId);
      var removed := Remove(added.tables, userName, bookId);
      && removed.tables == t
      && added.sent + removed.sent == [Notification(userName, book.title), Notification(userName, book.title)]
  {
    AddAppends(t, userName, bookId, user, book);
    var t1 := Add(t, userName, bookId).tables;
    var n := |t.wishlists|;
    var entry := t1.wishlists[n];
    assert t1.wishlists == t.wishlists + [entry];
    assert forall j :: 0 <= j < n ==> !OfPair(user.id, book.id)(t.wishlists[j]);
    FirstAppended(t.wishlists, entry, OfPair(user.id, book.id));
    assert RemoveAt(t1.wishlists, n) == t.wishlists;
  }
}
