/** `GET /books/search?title=...&author=...`: the books whose title or authors contain
    the given terms, case-insensitively, one per catalog number, each flagged with whether
    it is on a wishlist. */
module Books {
  import opened Wrappers
  import opened Text
  import opened Query
  import opened Models
  import opened Replies

  /** A query argument as the handler uses it: stripped, and no filter at all when
      nothing but whitespace was given (an empty stripped string is falsy). */
  function Term(arg: string): (r: Option<string>)
    ensures r.None? <==> AllSpace(arg)
    ensures r.Some? ==> r.value == Strip(arg) && |r.value| > 0
  {
    StripEmpty(arg);
    if Strip(arg) == [] then None else Some(Strip(arg))
  }

  /** `Book.title.ilike('%term%')`: the title is not NULL and the term occurs in it,
      ignoring letter case. So a term longer than the title never matches, and the
      empty term matches every non-NULL title. */
  predicate TitleMatches(b: Book, term: string)
    ensures TitleMatches(b, term) <==> (b.title.Some? &&
      exists i :: 0 <= i <= |b.title.value| - |term| && Lower(b.title.value[i..][..|term|]) == Lower(term))
    ensures TitleMatches(b, term) ==> b.title.Some? && |term| <= |b.title.value|
    ensures term == [] ==> (TitleMatches(b, term) <==> b.title.Some?)
  {
    b.title.Some? && ContainsIgnoreCase(b.title.value, term)
  }

  /** `Book.authors.ilike('%term%')`: the term occurs in the authors column, ignoring
      letter case. So a longer term never matches, and the empty term matches every book. */
  predicate AuthorMatches(b: Book, term: string)
    ensures AuthorMatches(b, term) <==>
      exists i :: 0 <= i <= |b.authors| - |term| && Lower(b.authors[i..][..|term|]) == Lower(term)
    ensures AuthorMatches(b, term) ==> |term| <= |b.authors|
    ensures term == [] ==> AuthorMatches(b, term)
  {
    ContainsIgnoreCase(b.authors, term)
  }

  /** The filter the handler builds: either term may match when both are given, the one
      given must match when only one is, and every book passes when neither is. */
  predicate Matches(b: Book, title: Option<string>, author: Option<string>)
    ensures Matches(b, title, author) <==>
      || (title.None? && author.None?)
      || (title.Some? && TitleMatches(b, title.value))
      || (author.Some? && AuthorMatches(b, author.value))
  {
    match (title, author)
    case (Some(tt), Some(at)) => TitleMatches(b, tt) || AuthorMatches(b, at)
    case (Some(tt), None) => TitleMatches(b, tt)
    case (None, Some(at)) => AuthorMatches(b, at)
    case (None, None) => true
  }

  function MatchesTerms(title: Option<string>, author: Option<string>): Book -> bool
  {
    (b: Book) => Matches(b, title, author)
  }

  function OtherBookId(bookId: int): Book -> bool
  {
    (b: Book) => b.bookId != bookId
  }

  /** `group_by(Book.book_id)`: one row per catalog number, the first the table holds, in
      the order the numbers first appear. */
  function GroupByBookId(s: seq<Book>): (r: seq<Book>)
    ensures |r| <= |s|
    ensures forall i :: 0 <= i < |r| ==> r[i] in s
    ensures forall i, j :: 0 <= i < j < |r| ==> r[i].bookId != r[j].bookId
    decreases |s|
  {
    if s == [] then []
    else
      var rest := GroupByBookId(Where(s[1..], OtherBookId(s[0].bookId)));
      assert forall i :: 0 <= i < |rest| ==> rest[i] in s[1..] && rest[i].bookId != s[0].bookId;
      [s[0]] + rest
  }

  /** Every catalog number of the input is kept by the grouping. */
  lemma {:induction false} GroupByBookIdCovers(s: seq<Book>, j: nat)
    requires j < |s|
    ensures exists i :: 0 <= i < |GroupByBookId(s)| && GroupByBookId(s)[i].bookId == s[j].bookId
    decreases |s|
  {
    var r := GroupByBookId(s);
    if s[j].bookId == s[0].bookId {
      assert r[0].bookId == s[j].bookId;
    } else {
      var w := Where(s[1..], OtherBookId(s[0].bookId));
      assert s[j] == s[1..][j - 1];
      var m :| 0 <= m < |w| && w[m] == s[j];
      GroupByBookIdCovers(w, m);
      var i :| 0 <= i < |GroupByBookId(w)| && GroupByBookId(w)[i].bookId == s[j].bookId;
      assert r[i + 1] == GroupByBookId(w)[i];
    }
  }

  /** The books the search returns, before they are rendered: every one is a row of the
      catalog that matches the terms, and no two share a catalog number. */
  function Results(books: seq<Book>, title: Option<string>, author: Option<string>): (found: seq<Book>)
    ensures |found| <= |books|
    ensures forall k :: 0 <= k < |found| ==> found[k] in books && Matches(found[k], title, author)
    ensures forall k, m :: 0 <= k < m < |found| ==> found[k].bookId != found[m].bookId
  {
    var matching := Where(books, MatchesTerms(title, author));
    var found := GroupByBookId(matching);
    assert forall k :: 0 <= k < |found| ==> found[k] in matching;
    assert forall m :: 0 <= m < |matching| ==> MatchesTerms(title, author)(matching[m]);
    found
  }

  /** `search_books`, over the catalog and wishlist tables as they stand. */
  method SearchBooks(books: seq<Book>, wishlists: seq<Wishlist>, title: string, author: string)
    returns (reply: Reply)
    ensures title == "" && author == "" ==>
      reply == Reply(400, Error("At least one of 'title' or 'author' query parameters must be provided."))
    ensures title != "" || author != "" ==>
      && reply.status == 200 && reply.body.BookList?
      && var found := Results(books, Term(title), Term(author));
      && |reply.body.books| == |found|
      && forall k :: 0 <= k < |found| ==>
           && reply.body.books[k].book == found[k]
           && (reply.body.books[k].isWishlisted <==>
                 exists i :: 0 <= i < |wishlists| && wishlists[i].bookId == found[k].id)
  {
    if title == "" && author == "" {
      return Reply(400, Error("At least one of 'title' or 'author' query parameters must be provided."));
    }
    var found := Results(books, Term(title), Term(author));
    var views: seq<BookView> := [];
    var k := 0;
    while k < |found|
      invariant k <= |found| && |views| == k
      invariant forall m :: 0 <= m < k ==>
        && views[m].book == found[m]
        && (views[m].isWishlisted <==> exists i :: 0 <= i < |wishlists| && wishlists[i].bookId == found[m].id)
    {
      var isWishlisted := First(wishlists, WishlistOf(found[k].id)).Some?;
      views := views + [BookView(found[k], isWishlisted)];
      k := k + 1;
    }
    reply := Reply(200, BookList(views));
  }

  /** Every catalog number that has a matching row is among the results. */
  lemma ResultsCover(books: seq<Book>, title: Option<string>, author: Option<string>, j: nat)
    requires j < |books| && Matches(books[j], title, author)
    ensures var found := Results(books, title, author);
      exists k :: 0 <= k < |found| && found[k].bookId == books[j].bookId
  {
    var matching := Where(books, MatchesTerms(title, author));
    assert MatchesTerms(title, author)(books[j]);
    var m :| 0 <= m < |matching| && matching[m] == books[j];
    GroupByBookIdCovers(matching, m);
    assert Results(books, title, author) == GroupByBookId(matching);
  }

  /** Terms of whitespace only filter nothing: a search with such terms (which passes the
      400 check) lists every catalog number. */
  lemma BlankTermsListAll(books: seq<Book>, title: string, author: string, j: nat)
    requires AllSpace(title) && AllSpace(author) && j < |books|
    ensures var found := Results(books, Term(title), Term(author));
      exists k :: 0 <= k < |found| && found[k].bookId == books[j].bookId
  {
    ResultsCover(books, Term(title), Term(author), j);
  }

  /** Whitespace around a term does not change what it matches. */
  lemma TermIgnoresPadding(w1: string, s: string, w2: string)
    requires AllSpace(w1) && AllSpace(w2)
    ensures Term(w1 + s + w2) == Term(s)
  {
    StripPadded(w1, s, w2);
    StripEmpty(w1 + s + w2);
    StripEmpty(s);
  }

  lemma StripLower(s: string)
    ensures Strip(Lower(s)) == Lower(Strip(s))
  {
    LStripLower(s);
    RStripLower(LStrip(s));
  }

  /** Arguments that differ only in letter case give terms that differ only in letter
      case. */
  lemma TermLower(t1: string, t2: string)
    requires Lower(t1) == Lower(t2)
    ensures Term(t1).Some? == Term(t2).Some?
    ensures Term(t1).Some? ==> Lower(Term(t1).value) == Lower(Term(t2).value)
  {
    StripLower(t1);
    StripLower(t2);
    assert |Strip(t1)| == |Lower(Strip(t1))| && |Strip(t2)| == |Lower(Strip(t2))|;
    StripEmpty(t1);
    StripEmpty(t2);
  }

  /** Terms that differ only in letter case select the same books. */
  lemma SearchIgnoresCase(books: seq<Book>, t1: string, t2: string, author: string)
    requires Lower(t1) == Lower(t2)
    ensures Results(books, Term(t1), Term(author)) == Results(books, Term(t2), Term(author))
  {
    TermLower(t1, t2);
    var p, q := MatchesTerms(Term(t1), Term(author)), MatchesTerms(Term(t2), Term(author));
    forall j | 0 <= j < |books| ensures p(books[j]) == q(books[j]) {
    }
    WhereSame(books, p, q);
  }
}
