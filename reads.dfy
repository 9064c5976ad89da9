/**
 * The read operations of `DatabaseManager`: each is one SELECT over the
 * current store, with no effect on it. A result row is `Keyed`: the selected
 * columns together with the primary key of the row they were read from.
 */
module Reads {
  import opened Wrappers
  import opened Ordering
  import opened Relational
  import opened Schema

  /** `first_name || ' ' || last_name`. */
  function FullName(first: string, last: string): string
  {
    first + " " + last
  }

  /** The book's author reference names an existing author (the ON clause of a join with authors holds). */
  predicate HasAuthor(db: Db, b: Book)
  {
    b.authorId.Some? && b.authorId.value in db.authors
  }

  /** The author name a LEFT JOIN with authors gives a book: NULL when no author matches. */
  function AuthorName(db: Db, b: Book): Option<string>
  {
    if HasAuthor(db, b) then Some(FullName(db.authors[b.authorId.value].first, db.authors[b.authorId.value].last))
    else None
  }

  /** ORDER BY last_name, first_name. */
  predicate ByName(x: Keyed<Author>, y: Keyed<Author>)
  {
    if x.row.last == y.row.last then LexLe(x.row.first, y.row.first) else LexLe(x.row.last, y.row.last)
  }

  lemma ByNameTotal()
    ensures TotalPreorder(ByName)
  {
    forall x, y ensures ByName(x, y) || ByName(y, x) {
      LexLeTotal(x.row.first, y.row.first);
      LexLeTotal(x.row.last, y.row.last);
    }
    forall x, y, z | ByName(x, y) && ByName(y, z) ensures ByName(x, z) {
      var a, b, c := x.row.last, y.row.last, z.row.last;
      if a == b && b == c {
        LexLeTransitive(x.row.first, y.row.first, z.row.first);
      } else if a != b && b != c {
        LexLeTransitive(a, b, c);
        if a == c {
          LexLeAntisymmetric(a, b);
        }
      }
    }
  }

  lemma ByNameMeans(x: Keyed<Author>, y: Keyed<Author>)
    requires ByName(x, y)
    ensures LexLe(x.row.last, y.row.last)
    ensures x.row.last == y.row.last ==> LexLe(x.row.first, y.row.first)
  {
    LexLeTotal(x.row.last, y.row.last);
  }

  /** `get_all_authors`: SELECT * FROM authors ORDER BY last_name, first_name. */
  function GetAllAuthors(db: Db): (r: seq<Keyed<Author>>)
    requires Valid(db)
    ensures forall i :: 0 <= i < |r| ==> r[i].id in db.authors && r[i].row == db.authors[r[i].id]
    ensures forall k :: k in db.authors ==> exists i :: 0 <= i < |r| && r[i].id == k
    ensures forall i, j :: 0 <= i < j < |r| ==> r[i].id != r[j].id
    ensures forall i, j :: 0 <= i < j < |r| ==>
              && LexLe(r[i].row.last, r[j].row.last)
              && (r[i].row.last == r[j].row.last ==> LexLe(r[i].row.first, r[j].row.first))
  {
    ByNameTotal();
    var keep := (k: int, a: Author) => true;
    var proj := (k: int, a: Author) => a;
    var r := OrderedSelect(db.authors, db.authorSeq, keep, proj, ByName);
    assert forall i :: 0 <= i < |r| ==> Picked(r[i], db.authors, keep, proj);
    forall i, j | 0 <= i < j < |r|
      ensures LexLe(r[i].row.last, r[j].row.last)
      ensures r[i].row.last == r[j].row.last ==> LexLe(r[i].row.first, r[j].row.first)
    {
      ByNameMeans(r[i], r[j]);
    }
    r
  }

  /** A row of `get_all_books`. */
  datatype BookListing = BookListing(title: string, isbn: Option<string>, year: Option<int>, price: Option<Price>,
                                     authorName: Option<string>)

  /** ORDER BY b.title. */
  predicate ByTitle(x: Keyed<BookListing>, y: Keyed<BookListing>)
  {
    LexLe(x.row.title, y.row.title)
  }

  lemma ByTitleTotal()
    ensures TotalPreorder(ByTitle)
  {
    forall x, y ensures ByTitle(x, y) || ByTitle(y, x) {
      LexLeTotal(x.row.title, y.row.title);
    }
    forall x, y, z | ByTitle(x, y) && ByTitle(y, z) ensures ByTitle(x, z) {
      LexLeTransitive(x.row.title, y.row.title, z.row.title);
    }
  }

  /**
   * `get_all_books`: books LEFT JOIN authors ORDER BY title. Every book is
   * listed, one with no author or a dangling author id with a NULL author name.
   */
  function GetAllBooks(db: Db): (r: seq<Keyed<BookListing>>)
    requires Valid(db)
    ensures forall i :: 0 <= i < |r| ==>
              && r[i].id in db.books
              && var b := db.books[r[i].id];
              && r[i].row.title == b.title && r[i].row.isbn == b.isbn && r[i].row.year == b.year && r[i].row.price == b.price
              && (r[i].row.authorName.Some? <==> HasAuthor(db, b))
              && (HasAuthor(db, b) ==>
                    r[i].row.authorName.value == FullName(db.authors[b.authorId.value].first, db.authors[b.authorId.value].last))
    ensures forall k :: k in db.books ==> exists i :: 0 <= i < |r| && r[i].id == k
    ensures forall i, j :: 0 <= i < j < |r| ==> r[i].id != r[j].id
    ensures forall i, j :: 0 <= i < j < |r| ==> LexLe(r[i].row.title, r[j].row.title)
  {
    ByTitleTotal();
    var keep := (k: int, b: Book) => true;
    var proj := (k: int, b: Book) => BookListing(b.title, b.isbn, b.year, b.price, AuthorName(db, b));
    var r := OrderedSelect(db.books, db.bookSeq, keep, proj, ByTitle);
    assert forall i, j :: 0 <= i < j < |r| ==> ByTitle(r[i], r[j]);
    r
  }

  /** ORDER BY publication_year DESC, where NULL sorts below every year and so comes last. */
  predicate YearDescNullsLast(x: Option<int>, y: Option<int>)
  {
    y.None? || (x.Some? && x.value >= y.value)
  }

  predicate ByYearDesc(x: Keyed<Book>, y: Keyed<Book>)
  {
    YearDescNullsLast(x.row.year, y.row.year)
  }

  lemma ByYearDescTotal()
    ensures TotalPreorder(ByYearDesc)
  {
  }

  /** `get_books_by_author`: SELECT * FROM books WHERE author_id = ? ORDER BY publication_year DESC. */
  function GetBooksByAuthor(db: Db, authorId: int): (r: seq<Keyed<Book>>)
    requires Valid(db)
    ensures forall i :: 0 <= i < |r| ==>
              r[i].id in db.books && r[i].row == db.books[r[i].id] && r[i].row.authorId == Some(authorId)
    ensures forall k :: k in db.books && db.books[k].authorId == Some(authorId) ==> exists i :: 0 <= i < |r| && r[i].id == k
    ensures forall i, j :: 0 <= i < j < |r| ==> r[i].id != r[j].id
    ensures forall i, j :: 0 <= i < j < |r| ==> YearDescNullsLast(r[i].row.year, r[j].row.year)
  {
    ByYearDescTotal();
    var r := OrderedSelect(db.books, db.bookSeq, (k: int, b: Book) => b.authorId == Some(authorId),
                           (k: int, b: Book) => b, ByYearDesc);
    assert forall i, j :: 0 <= i < j < |r| ==> ByYearDesc(r[i], r[j]);
    r
  }

  /** A row of `get_member_borrowings`. */
  datatype BorrowedTitle = BorrowedTitle(title: string, borrowDate: Time, returnDate: Option<Time>)

  /** ORDER BY br.borrow_date DESC. */
  predicate ByBorrowDateDesc(x: Keyed<BorrowedTitle>, y: Keyed<BorrowedTitle>)
  {
    x.row.borrowDate >= y.row.borrowDate
  }

  lemma ByBorrowDateDescTotal()
    ensures TotalPreorder(ByBorrowDateDesc)
  {
  }

  /**
   * `get_member_borrowings`: borrowings JOIN books WHERE member_id = ? ORDER BY
   * borrow_date DESC. A borrowing whose book was deleted drops out of the join.
   */
  function GetMemberBorrowings(db: Db, memberId: int): (r: seq<Keyed<BorrowedTitle>>)
    requires Valid(db)
    ensures forall i :: 0 <= i < |r| ==>
              && r[i].id in db.borrowings
              && var br := db.borrowings[r[i].id];
              && br.memberId == memberId && br.bookId in db.books
              && r[i].row == BorrowedTitle(db.books[br.bookId].title, br.borrowDate, br.returnDate)
    ensures forall k :: k in db.borrowings && db.borrowings[k].memberId == memberId && db.borrowings[k].bookId in db.books ==>
              exists i :: 0 <= i < |r| && r[i].id == k
    ensures forall i, j :: 0 <= i < j < |r| ==> r[i].id != r[j].id
    ensures forall i, j :: 0 <= i < j < |r| ==> r[i].row.borrowDate >= r[j].row.borrowDate
  {
    ByBorrowDateDescTotal();
    var r := OrderedSelect(db.borrowings, db.borrowingSeq,
                           (k: int, br: Borrowing) => br.memberId == memberId && br.bookId in db.books,
                           (k: int, br: Borrowing) =>
                             BorrowedTitle(if br.bookId in db.books then db.books[br.bookId].title else "", br.borrowDate, br.returnDate),
                           ByBorrowDateDesc);
    assert forall i, j :: 0 <= i < j < |r| ==> ByBorrowDateDesc(r[i], r[j]);
    r
  }
}
