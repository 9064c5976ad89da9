/**
 * How the write operations of `DatabaseManager` show up in its reads and in
 * the demonstration queries: a borrowing becomes a current loan, a return
 * ends it, a deleted book takes its loans out of the joins while the
 * borrowings themselves stay, and a new price is what the book listing shows.
 */
module Properties {
  import opened Wrappers
  import opened Relational
  import opened Schema
  import opened Operations
  import opened Reads
  import opened Queries

  /** The borrowings that Query 3 reports: open, with member and book both present. */
  ghost function CurrentLoanIds(db: Db): set<int>
  {
    set k | k in db.borrowings && IsCurrentLoan(db, db.borrowings[k])
  }

  /** Query 3 lists each current loan exactly once, so it has one row per current loan. */
  lemma CurrentLoansListed(db: Db)
    requires Valid(db)
    ensures IdsOf(CurrentlyBorrowed(db)) == CurrentLoanIds(db)
    ensures |CurrentlyBorrowed(db)| == |CurrentLoanIds(db)|
  {
    ListingSize(CurrentlyBorrowed(db), CurrentLoanIds(db));
  }

  /** get_all_authors returns one row per author. */
  lemma AuthorsListed(db: Db)
    requires Valid(db)
    ensures IdsOf(GetAllAuthors(db)) == db.authors.Keys
    ensures |GetAllAuthors(db)| == |db.authors|
  {
    ListingSize(GetAllAuthors(db), db.authors.Keys);
  }

  /** get_all_books returns one row per book, authored or not. */
  lemma BooksListed(db: Db)
    requires Valid(db)
    ensures IdsOf(GetAllBooks(db)) == db.books.Keys
    ensures |GetAllBooks(db)| == |db.books|
  {
    ListingSize(GetAllBooks(db), db.books.Keys);
  }

  /** A successful add_author adds exactly one row to get_all_authors; a failed one adds none. */
  lemma AddAuthorListed(db: Db, first: Option<string>, last: Option<string>, email: Option<string>, now: Time)
    requires Valid(db) && db.clock <= now
    ensures var s := AddAuthor(db, first, last, email, now);
            && (s.reply.Some? ==> IdsOf(GetAllAuthors(s.db)) == IdsOf(GetAllAuthors(db)) + {s.reply.value})
            && |GetAllAuthors(s.db)| == |GetAllAuthors(db)| + (if s.reply.Some? then 1 else 0)
  {
    var s := AddAuthor(db, first, last, email, now);
    AddAuthorKeepsValid(db, first, last, email, now);
    if s.reply.Some? {
      AuthorsGrow(db, s.db, s.reply.value);
    }
  }

  lemma AuthorsGrow(db: Db, next: Db, id: int)
    requires Valid(db) && Valid(next)
    requires id !in db.authors && next.authors.Keys == db.authors.Keys + {id}
    ensures IdsOf(GetAllAuthors(next)) == IdsOf(GetAllAuthors(db)) + {id}
    ensures |GetAllAuthors(next)| == |GetAllAuthors(db)| + 1
  {
    AuthorsListed(db);
    AuthorsListed(next);
  }

  /** A book added with an author id is listed by get_books_by_author for that id, as stored. */
  lemma AddBookListedUnderAuthor(db: Db, title: Option<string>, authorId: Option<int>, isbn: Option<string>,
                                 year: Option<int>, price: Option<Price>, now: Time)
    requires Valid(db) && db.clock <= now
    ensures var s := AddBook(db, title, authorId, isbn, year, price, now);
            s.reply.Some? && authorId.Some? ==>
              var r := GetBooksByAuthor(s.db, authorId.value);
              exists i :: 0 <= i < |r| && r[i].id == s.reply.value
                       && r[i].row == Book(title.value, isbn, authorId, year, price, now)
  {
    var s := AddBook(db, title, authorId, isbn, year, price, now);
    AddBookKeepsValid(db, title, authorId, isbn, year, price, now);
    if s.reply.Some? && authorId.Some? {
      var r := GetBooksByAuthor(s.db, authorId.value);
      assert s.db.books[s.reply.value].authorId == authorId;
      var i :| 0 <= i < |r| && r[i].id == s.reply.value;
    }
  }

  /**
   * borrow_book makes the new borrowing a current loan exactly when its member
   * and its book exist (the foreign keys are not checked, so a dangling
   * borrowing is stored but Query 3 drops it); no other loan changes.
   */
  lemma BorrowBookCurrentLoans(db: Db, memberId: int, bookId: int, now: Time)
    requires Valid(db) && db.clock <= now
    ensures var s := BorrowBook(db, Some(memberId), Some(bookId), now);
            && s.reply.Some?
            && CurrentLoanIds(s.db) ==
                 CurrentLoanIds(db) + (if memberId in db.members && bookId in db.books then {s.reply.value} else {})
  {
    var s := BorrowBook(db, Some(memberId), Some(bookId), now);
    var id := s.reply.value;
    assert id !in db.borrowings;
    var extra := if memberId in db.members && bookId in db.books then {id} else {};
    forall k | k in CurrentLoanIds(s.db)
      ensures k in CurrentLoanIds(db) + extra
    {
      if k != id {
        assert s.db.borrowings[k] == db.borrowings[k];
      }
    }
    forall k | k in CurrentLoanIds(db) + extra
      ensures k in CurrentLoanIds(s.db)
    {
      if k != id {
        assert s.db.borrowings[k] == db.borrowings[k];
      }
    }
  }

  /**
   * After return_book, the borrowing is no longer a current loan, whether the
   * call succeeded or found nothing open to return; every other loan stays as it was.
   */
  lemma ReturnBookCurrentLoans(db: Db, borrowingId: int, now: Time)
    requires Valid(db) && db.clock <= now
    ensures var s := ReturnBook(db, borrowingId, now);
            CurrentLoanIds(s.db) == CurrentLoanIds(db) - {borrowingId}
  {
    var s := ReturnBook(db, borrowingId, now);
    if s.reply {
      forall k | k in CurrentLoanIds(s.db)
        ensures k in CurrentLoanIds(db) - {borrowingId}
      {
        assert s.db.borrowings[k] == db.borrowings[k];
      }
      forall k | k in CurrentLoanIds(db) - {borrowingId}
        ensures k in CurrentLoanIds(s.db)
      {
        assert s.db.borrowings[k] == db.borrowings[k];
      }
    } else {
      assert borrowingId !in CurrentLoanIds(db);
    }
  }

  /**
   * delete_book keeps every borrowing of the book (no ON DELETE clause), but
   * the inner join of Query 3 no longer finds them: the current loans lose
   * exactly those of the deleted book.
   */
  lemma DeleteBookCurrentLoans(db: Db, bookId: int)
    requires Valid(db)
    ensures var s := DeleteBook(db, bookId);
            && s.db.borrowings == db.borrowings
            && CurrentLoanIds(s.db) == set k | k in CurrentLoanIds(db) && db.borrowings[k].bookId != bookId
  {
    var s := DeleteBook(db, bookId);
    var kept := set k | k in CurrentLoanIds(db) && db.borrowings[k].bookId != bookId;
    forall k | k in CurrentLoanIds(s.db)
      ensures k in kept
    {
      assert IsCurrentLoan(s.db, s.db.borrowings[k]);
    }
    forall k | k in kept
      ensures k in CurrentLoanIds(s.db)
    {
      assert IsCurrentLoan(db, db.borrowings[k]);
    }
  }

  /** After delete_book, get_member_borrowings no longer shows the deleted book, for any member. */
  lemma DeleteBookHidesBorrowings(db: Db, bookId: int, memberId: int)
    requires Valid(db)
    ensures var s := DeleteBook(db, bookId);
            var r := GetMemberBorrowings(s.db, memberId);
            forall i :: 0 <= i < |r| ==> s.db.borrowings[r[i].id].bookId != bookId
  {
    DeleteBookKeepsValid(db, bookId);
  }

  /** After a successful update_book_price, get_all_books shows the new price for that book. */
  lemma UpdatedPriceListed(db: Db, bookId: int, newPrice: Option<Price>)
    requires Valid(db)
    ensures var s := UpdateBookPrice(db, bookId, newPrice);
            s.reply ==>
              var r := GetAllBooks(s.db);
              exists i :: 0 <= i < |r| && r[i].id == bookId && r[i].row.price == newPrice
  {
    var s := UpdateBookPrice(db, bookId, newPrice);
    UpdateBookPriceKeepsValid(db, bookId, newPrice);
    if s.reply {
      var r := GetAllBooks(s.db);
      var i :| 0 <= i < |r| && r[i].id == bookId;
    }
  }

  /**
   * Giving a price to a book that names an existing author puts that author
   * among the rows of Query 4.
   */
  lemma PricedAuthorListed(db: Db, bookId: int, price: Price)
    requires Valid(db)
    requires bookId in db.books && HasAuthor(db, db.books[bookId])
    ensures var s := UpdateBookPrice(db, bookId, Some(price));
            var r := AuthorsWithPricedBooks(s.db);
            exists i :: 0 <= i < |r| && Some(r[i].id) == db.books[bookId].authorId
  {
    var s := UpdateBookPrice(db, bookId, Some(price));
    UpdateBookPriceKeepsValid(db, bookId, Some(price));
    var a := db.books[bookId].authorId.value;
    assert HasPricedBook(s.db, a) by {
      assert s.db.books[bookId].authorId == Some(a) && s.db.books[bookId].price.Some?;
    }
    assert a in s.db.authors;
    var r := AuthorsWithPricedBooks(s.db);
    var i :| 0 <= i < |r| && r[i].id == a;
  }
}
