/**
 * The six SELECTs of `demonstrate_queries`, as read-only functions over the
 * store. As in `Reads`, each result row carries the primary key of the row it
 * was read from (for the GROUP BY queries, the author's id, the group key).
 */
module Queries {
  import opened Wrappers
  import opened Ordering
  import opened Relational
  import opened Schema
  import opened Reads

  // Query 1 ------------------------------------------------------------------

  const OrwellLastName := "Orwell"

  datatype TitleYearPrice = TitleYearPrice(title: string, year: Option<int>, price: Option<Price>)

  /** The join condition and filter of Query 1: the book's author exists and is called Orwell. */
  predicate ByOrwell(db: Db, b: Book)
  {
    HasAuthor(db, b) && db.authors[b.authorId.value].last == OrwellLastName
  }

  /** ORDER BY publication_year (ascending), where NULL sorts below every year and so comes first. */
  predicate YearAscNullsFirst(x: Option<int>, y: Option<int>)
  {
    x.None? || (y.Some? && x.value <= y.value)
  }

  predicate ByYearAsc(x: Keyed<TitleYearPrice>, y: Keyed<TitleYearPrice>)
  {
    YearAscNullsFirst(x.row.year, y.row.year)
  }

  lemma ByYearAscTotal()
    ensures TotalPreorder(ByYearAsc)
  {
  }

  /**
   * Query 1: books JOIN authors WHERE last_name = 'Orwell' ORDER BY
   * publication_year. A book with no author or a dangling author id is not
   * joined, so it is never listed.
   */
  function OrwellBooks(db: Db): (r: seq<Keyed<TitleYearPrice>>)
    requires Valid(db)
    ensures forall i :: 0 <= i < |r| ==>
              && r[i].id in db.books && ByOrwell(db, db.books[r[i].id])
              && var b := db.books[r[i].id]; r[i].row == TitleYearPrice(b.title, b.year, b.price)
    ensures forall k :: k in db.books && ByOrwell(db, db.books[k]) ==> exists i :: 0 <= i < |r| && r[i].id == k
    ensures forall i, j :: 0 <= i < j < |r| ==> r[i].id != r[j].id
    ensures forall i, j :: 0 <= i < j < |r| ==> YearAscNullsFirst(r[i].row.year, r[j].row.year)
  {
    ByYearAscTotal();
    var keep := (k: int, b: Book) => ByOrwell(db, b);
    var proj := (k: int, b: Book) => TitleYearPrice(b.title, b.year, b.price);
    var r := OrderedSelect(db.books, db.bookSeq, keep, proj, ByYearAsc);
    assert forall i :: 0 <= i < |r| ==> Picked(r[i], db.books, keep, proj);
    assert forall i, j :: 0 <= i < j < |r| ==> ByYearAsc(r[i], r[j]);
    r
  }

  // Query 2 ------------------------------------------------------------------

  /** The ids of the books whose author_id is `authorId`. */
  function BooksOf(db: Db, authorId: int): set<int>
  {
    set k | k in db.books && db.books[k].authorId == Some(authorId)
  }

  datatype AuthorBookCount = AuthorBookCount(authorName: string, bookCount: nat)

  /** ORDER BY book_count DESC. */
  predicate ByCountDesc(x: Keyed<AuthorBookCount>, y: Keyed<AuthorBookCount>)
  {
    x.row.bookCount >= y.row.bookCount
  }

  lemma ByCountDescTotal()
    ensures TotalPreorder(ByCountDesc)
  {
  }

  /**
   * Query 2: authors LEFT JOIN books GROUP BY author_id ORDER BY book_count
   * DESC. Every author appears once; COUNT(b.book_id) counts the books that
   * reference the author, 0 when none does.
   */
  function BookCountPerAuthor(db: Db): (r: seq<Keyed<AuthorBookCount>>)
    requires Valid(db)
    ensures forall i :: 0 <= i < |r| ==>
              && r[i].id in db.authors
              && r[i].row.authorName == FullName(db.authors[r[i].id].first, db.authors[r[i].id].last)
              && r[i].row.bookCount == |BooksOf(db, r[i].id)|
    ensures forall k :: k in db.authors ==> exists i :: 0 <= i < |r| && r[i].id == k
    ensures forall i, j :: 0 <= i < j < |r| ==> r[i].id != r[j].id
    ensures forall i, j :: 0 <= i < j < |r| ==> r[i].row.bookCount >= r[j].row.bookCount
  {
    ByCountDescTotal();
    var keep := (k: int, a: Author) => true;
    var proj := (k: int, a: Author) => AuthorBookCount(FullName(a.first, a.last), |BooksOf(db, k)|);
    var r := OrderedSelect(db.authors, db.authorSeq, keep, proj, ByCountDesc);
    assert forall i :: 0 <= i < |r| ==> Picked(r[i], db.authors, keep, proj);
    assert forall i, j :: 0 <= i < j < |r| ==> ByCountDesc(r[i], r[j]);
    r
  }

  /** The ids of the books whose author_id names one of `authorIds`. */
  function BooksOfAny(db: Db, authorIds: set<int>): set<int>
  {
    set k | k in db.books && db.books[k].authorId.Some? && db.books[k].authorId.value in authorIds
  }

  function CountSum(r: seq<Keyed<AuthorBookCount>>): nat
  {
    if |r| == 0 then 0 else CountSum(r[..|r| - 1]) + r[|r| - 1].row.bookCount
  }

  /** Per-author counts over distinct authors add up to the count of the books of all of them. */
  lemma {:induction false} CountSumIsUnion(db: Db, r: seq<Keyed<AuthorBookCount>>)
    requires forall i :: 0 <= i < |r| ==> r[i].row.bookCount == |BooksOf(db, r[i].id)|
    requires forall i, j :: 0 <= i < j < |r| ==> r[i].id != r[j].id
    ensures CountSum(r) == |BooksOfAny(db, IdsOf(r))|
  {
    if |r| == 0 {
      assert BooksOfAny(db, IdsOf(r)) == {};
    } else {
      var p, x := r[..|r| - 1], r[|r| - 1];
      CountSumIsUnion(db, p);
      assert IdsOf(r) == IdsOf(p) + {x.id};
      assert x.id !in IdsOf(p);
      assert BooksOfAny(db, IdsOf(r)) == BooksOfAny(db, IdsOf(p)) + BooksOf(db, x.id);
      assert BooksOfAny(db, IdsOf(p)) !! BooksOf(db, x.id);
    }
  }

  /**
   * The counts of Query 2 add up to the number of books whose author_id names
   * an existing author: every such book is counted once, under its author, and
   * books with no author or a dangling one are counted nowhere.
   */
  lemma BookCountsSum(db: Db)
    requires Valid(db)
    ensures CountSum(BookCountPerAuthor(db)) == |set k | k in db.books && HasAuthor(db, db.books[k])|
  {
    var r := BookCountPerAuthor(db);
    CountSumIsUnion(db, r);
    ListingSize(r, db.authors.Keys);
    BooksOfAllAuthors(db);
  }

  lemma BooksOfAllAuthors(db: Db)
    ensures BooksOfAny(db, db.authors.Keys) == set k | k in db.books && HasAuthor(db, db.books[k])
  {
  }

  // Query 3 ------------------------------------------------------------------

  datatype ActiveLoan = ActiveLoan(memberName: string, title: string, borrowDate: Time)

  /** The filter and both inner joins of Query 3: not yet returned, member and book both present. */
  predicate IsCurrentLoan(db: Db, br: Borrowing)
  {
    br.returnDate.None? && br.memberId in db.members && br.bookId in db.books
  }

  /** ORDER BY br.borrow_date (ascending). */
  predicate ByBorrowDateAsc(x: Keyed<ActiveLoan>, y: Keyed<ActiveLoan>)
  {
    x.row.borrowDate <= y.row.borrowDate
  }

  lemma ByBorrowDateAscTotal()
    ensures TotalPreorder(ByBorrowDateAsc)
  {
  }

  /**
   * Query 3: borrowings JOIN members JOIN books WHERE return_date IS NULL
   * ORDER BY borrow_date. A borrowing whose member or book no longer exists
   * is dropped by the inner joins.
   */
  function CurrentlyBorrowed(db: Db): (r: seq<Keyed<ActiveLoan>>)
    requires Valid(db)
    ensures forall i :: 0 <= i < |r| ==>
              && r[i].id in db.borrowings && IsCurrentLoan(db, db.borrowings[r[i].id])
              && var br := db.borrowings[r[i].id];
              && r[i].row.memberName == FullName(db.members[br.memberId].first, db.members[br.memberId].last)
              && r[i].row.title == db.books[br.bookId].title
              && r[i].row.borrowDate == br.borrowDate
    ensures forall k :: k in db.borrowings && IsCurrentLoan(db, db.borrowings[k]) ==> exists i :: 0 <= i < |r| && r[i].id == k
    ensures forall i, j :: 0 <= i < j < |r| ==> r[i].id != r[j].id
    ensures forall i, j :: 0 <= i < j < |r| ==> r[i].row.borrowDate <= r[j].row.borrowDate
  {
    ByBorrowDateAscTotal();
    var keep := (k: int, br: Borrowing) => IsCurrentLoan(db, br);
    var proj := (k: int, br: Borrowing) =>
      if IsCurrentLoan(db, br) then
        ActiveLoan(FullName(db.members[br.memberId].first, db.members[br.memberId].last), db.books[br.bookId].title, br.borrowDate)
      else ActiveLoan("", "", br.borrowDate);
    var r := OrderedSelect(db.borrowings, db.borrowingSeq, keep, proj, ByBorrowDateAsc);
    assert forall i :: 0 <= i < |r| ==> Picked(r[i], db.borrowings, keep, proj);
    assert forall i, j :: 0 <= i < j < |r| ==> ByBorrowDateAsc(r[i], r[j]);
    r
  }

  // Query 4 ------------------------------------------------------------------

  /** The ids of the books of `authorId` that have a price. */
  function PricedBooksOf(db: Db, authorId: int): set<int>
  {
    set k | k in db.books && db.books[k].authorId == Some(authorId) && db.books[k].price.Some?
  }

  predicate HasPricedBook(db: Db, authorId: int)
  {
    exists k | k in db.books :: db.books[k].authorId == Some(authorId) && db.books[k].price.Some?
  }

  /** The HAVING clause holds exactly when the count of priced books is positive. */
  lemma HasPricedBookMeans(db: Db, authorId: int)
    ensures HasPricedBook(db, authorId) <==> |PricedBooksOf(db, authorId)| > 0
  {
    if HasPricedBook(db, authorId) {
      var k :| k in db.books && db.books[k].authorId == Some(authorId) && db.books[k].price.Some?;
      assert k in PricedBooksOf(db, authorId);
    }
    if !HasPricedBook(db, authorId) {
      assert forall k :: k !in PricedBooksOf(db, authorId);
      assert PricedBooksOf(db, authorId) == {};
    }
  }

  datatype PricedAuthor = PricedAuthor(authorName: string, bookCount: nat)

  /**
   * Query 4 without its average: authors JOIN books WHERE price IS NOT NULL
   * GROUP BY author_id HAVING COUNT(b.book_id) > 0. An author is listed once
   * exactly when one of their books has a price; the count is the number of
   * such books. The ORDER BY avg_price DESC is not modelled, so rows come in
   * author-id order.
   */
  function AuthorsWithPricedBooks(db: Db): (r: seq<Keyed<PricedAuthor>>)
    requires Valid(db)
    ensures forall i :: 0 <= i < |r| ==>
              && r[i].id in db.authors && HasPricedBook(db, r[i].id)
              && r[i].row.authorName == FullName(db.authors[r[i].id].first, db.authors[r[i].id].last)
              && r[i].row.bookCount == |PricedBooksOf(db, r[i].id)| > 0
    ensures forall k :: k in db.authors && HasPricedBook(db, k) ==> exists i :: 0 <= i < |r| && r[i].id == k
    ensures forall i, j :: 0 <= i < j < |r| ==> r[i].id != r[j].id
  {
    var keep := (k: int, a: Author) => HasPricedBook(db, k);
    var proj := (k: int, a: Author) => PricedAuthor(FullName(a.first, a.last), |PricedBooksOf(db, k)|);
    var r := Select(db.authors, 1, db.authorSeq, keep, proj);
    forall i | 0 <= i < |r|
      ensures |PricedBooksOf(db, r[i].id)| > 0
    {
      assert Picked(r[i], db.authors, keep, proj);
      HasPricedBookMeans(db, r[i].id);
    }
    r
  }

  // Query 5 ------------------------------------------------------------------

  const TitleFragment := "Harry"

  /** SQLite's LIKE folds ASCII letters only. */
  function AsciiLower(c: char): char
  {
    if 'A' <= c <= 'Z' then (c as int + 32) as char else c
  }

  predicate MatchesAt(s: string, p: string, i: nat)
    requires i + |p| <= |s|
  {
    forall j :: 0 <= j < |p| ==> AsciiLower(s[i + j]) == AsciiLower(p[j])
  }

  /** `s LIKE '%' || p || '%'` for a pattern `p` without wildcards: `p` occurs in `s` up to ASCII case. */
  predicate LikeContains(s: string, p: string)
  {
    exists i: nat | i + |p| <= |s| :: MatchesAt(s, p, i)
  }

  /** Titles that differ only in the case of ASCII letters match the same patterns. */
  lemma LikeIgnoresAsciiCase(s: string, s': string, p: string)
    requires |s| == |s'| && forall i :: 0 <= i < |s| ==> AsciiLower(s[i]) == AsciiLower(s'[i])
    ensures LikeContains(s, p) <==> LikeContains(s', p)
  {
    if LikeContains(s, p) {
      var i: nat :| i + |p| <= |s| && MatchesAt(s, p, i);
      assert MatchesAt(s', p, i);
    }
    if LikeContains(s', p) {
      var i: nat :| i + |p| <= |s'| && MatchesAt(s', p, i);
      assert MatchesAt(s, p, i);
    }
  }

  datatype TitleAuthor = TitleAuthor(title: string, authorName: Option<string>)

  /**
   * Query 5: books LEFT JOIN authors WHERE title LIKE '%Harry%'. Books without
   * an author are found too, with a NULL author name. The query has no ORDER
   * BY; the model lists rows in book-id order and its contract claims no order.
   */
  function TitlesContainingHarry(db: Db): (r: seq<Keyed<TitleAuthor>>)
    requires Valid(db)
    ensures forall i :: 0 <= i < |r| ==>
              && r[i].id in db.books && LikeContains(db.books[r[i].id].title, TitleFragment)
              && r[i].row == TitleAuthor(db.books[r[i].id].title, AuthorName(db, db.books[r[i].id]))
    ensures forall k :: k in db.books && LikeContains(db.books[k].title, TitleFragment) ==> exists i :: 0 <= i < |r| && r[i].id == k
    ensures forall i, j :: 0 <= i < j < |r| ==> r[i].id != r[j].id
  {
    var keep := (k: int, b: Book) => LikeContains(b.title, TitleFragment);
    var proj := (k: int, b: Book) => TitleAuthor(b.title, AuthorName(db, b));
    var r := Select(db.books, 1, db.bookSeq, keep, proj);
    assert forall i :: 0 <= i < |r| ==> Picked(r[i], db.books, keep, proj);
    r
  }

  // Query 6 ------------------------------------------------------------------

  const FirstYear := 1940
  const LastYear := 1950

  /** The join and filter of Query 6: the author exists and the year lies BETWEEN 1940 AND 1950. */
  predicate InYearRange(db: Db, b: Book)
  {
    HasAuthor(db, b) && b.year.Some? && FirstYear <= b.year.value <= LastYear
  }

  datatype TitleYearAuthor = TitleYearAuthor(title: string, year: int, authorName: string)

  predicate ByYear(x: Keyed<TitleYearAuthor>, y: Keyed<TitleYearAuthor>)
  {
    x.row.year <= y.row.year
  }

  lemma ByYearTotal()
    ensures TotalPreorder(ByYear)
  {
  }

  /**
   * Query 6: books JOIN authors WHERE publication_year BETWEEN 1940 AND 1950
   * ORDER BY publication_year. Both bounds are inclusive; a NULL year never
   * matches.
   */
  function BooksFrom1940To1950(db: Db): (r: seq<Keyed<TitleYearAuthor>>)
    requires Valid(db)
    ensures forall i :: 0 <= i < |r| ==>
              && r[i].id in db.books && InYearRange(db, db.books[r[i].id])
              && var b := db.books[r[i].id];
              && r[i].row == TitleYearAuthor(b.title, b.year.value,
                                             FullName(db.authors[b.authorId.value].first, db.authors[b.authorId.value].last))
    ensures forall k :: k in db.books && InYearRange(db, db.books[k]) ==> exists i :: 0 <= i < |r| && r[i].id == k
    ensures forall i, j :: 0 <= i < j < |r| ==> r[i].id != r[j].id
    ensures forall i :: 0 <= i < |r| ==> FirstYear <= r[i].row.year <= LastYear
    ensures forall i, j :: 0 <= i < j < |r| ==> r[i].row.year <= r[j].row.year
  {
    ByYearTotal();
    var keep := (k: int, b: Book) => InYearRange(db, b);
    var proj := (k: int, b: Book) =>
      if InYearRange(db, b) then
        TitleYearAuthor(b.title, b.year.value, FullName(db.authors[b.authorId.value].first, db.authors[b.authorId.value].last))
      else TitleYearAuthor(b.title, 0, "");
    var r := OrderedSelect(db.books, db.bookSeq, keep, proj, ByYear);
    assert forall i :: 0 <= i < |r| ==> Picked(r[i], db.books, keep, proj);
    assert forall i, j :: 0 <= i < j < |r| ==> ByYear(r[i], r[j]);
    r
  }
}
