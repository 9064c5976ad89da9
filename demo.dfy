/**
 * The example session of database_design.py's main block, run against the
 * store: three authors, four books, two members, two borrowings and one price
 * change on a fresh store. Every stamp is the same instant `now`.
 */
module Demo {
  import opened Wrappers
  import opened Relational
  import opened Schema
  import opened Reads
  import opened Queries
  import opened Properties
  import Store

  /**
   * A listing of the books of author `a` when exactly `x` and `y` are theirs
   * and `x` is the later one: the two come back in that order.
   */
  lemma TwoBooksByYear(db: Db, a: int, x: int, y: int)
    requires Valid(db)
    requires x in db.books && y in db.books && x != y
    requires forall k :: k in db.books ==> (db.books[k].authorId == Some(a) <==> k == x || k == y)
    requires db.books[x].year.Some? && db.books[y].year.Some? && db.books[x].year.value > db.books[y].year.value
    ensures var r := GetBooksByAuthor(db, a);
            |r| == 2 && r[0].id == x && r[1].id == y
  {
    var r := GetBooksByAuthor(db, a);
    TwoBookRows(db, a, x, y, r);
    assert r[0].row.year == db.books[r[0].id].year;
    assert r[1].row.year == db.books[r[1].id].year;
    assert YearDescNullsLast(r[0].row.year, r[1].row.year);
  }

  /** The rows of such a listing are the two books, in some order. */
  lemma TwoBookRows(db: Db, a: int, x: int, y: int, r: seq<Keyed<Book>>)
    requires x in db.books && y in db.books && x != y
    requires forall i :: 0 <= i < |r| ==> r[i].id in db.books && r[i].row.authorId == Some(a)
    requires forall k :: k in db.books && db.books[k].authorId == Some(a) ==> exists i :: 0 <= i < |r| && r[i].id == k
    requires forall i, j :: 0 <= i < j < |r| ==> r[i].id != r[j].id
    requires forall i :: 0 <= i < |r| ==> r[i].row == db.books[r[i].id]
    requires forall k :: k in db.books ==> (db.books[k].authorId == Some(a) <==> k == x || k == y)
    ensures |r| == 2 && {r[0].id, r[1].id} == {x, y}
  {
    var ids := {x, y};
    forall i | 0 <= i < |r|
      ensures r[i].id in ids
    {
      assert db.books[r[i].id].authorId == Some(a);
    }
    ListingSize(r, ids);
    assert |ids| == 2;
    assert r[0].id in ids && r[1].id in ids;
  }

  /** The three authors of the session, as stored. */
  function SessionAuthors(now: Time): map<int, Author>
  {
    map[1 := Author("J.K.", "Rowling", Some("jkrowling@example.com"), now),
        2 := Author("George", "Orwell", Some("gorwell@example.com"), now),
        3 := Author("Jane", "Austen", Some("jausten@example.com"), now)]
  }

  /** The four books as added, Harry Potter at 12.99. */
  function BooksAsAdded(now: Time): map<int, Book>
  {
    map[1 := Book("Harry Potter and the Philosopher's Stone", Some("978-0747532699"), Some(1), Some(1997), Some(1299), now),
        2 := Book("1984", Some("978-0451524935"), Some(2), Some(1949), Some(999), now),
        3 := Book("Pride and Prejudice", Some("978-0141439518"), Some(3), Some(1813), Some(899), now),
        4 := Book("Animal Farm", Some("978-0451526342"), Some(2), Some(1945), Some(799), now)]
  }

  /** The books at the end of the session, Harry Potter repriced at 14.99. */
  function SessionBooks(now: Time): map<int, Book>
  {
    BooksAsAdded(now)[1 := BooksAsAdded(now)[1].(price := Some(1499))]
  }

  function SessionMembers(now: Time): map<int, Member>
  {
    map[1 := Member("John", "Doe", "john.doe@example.com", Some("555-0101"), now),
        2 := Member("Jane", "Smith", "jane.smith@example.com", Some("555-0102"), now)]
  }

  /** John borrows Harry Potter, Jane borrows 1984. */
  function SessionBorrowings(now: Time): map<int, Borrowing>
  {
    map[1 := Borrowing(1, 1, now, None), 2 := Borrowing(2, 2, now, None)]
  }

  /** In the session's store, Orwell's books come newest first: 1984 (1949), then Animal Farm (1945). */
  lemma SessionOrwell(db: Db, now: Time)
    requires Valid(db) && db.books == SessionBooks(now)
    ensures var r := GetBooksByAuthor(db, 2);
            |r| == 2 && r[0].row.title == "1984" && r[1].row.title == "Animal Farm"
  {
    TwoBooksByYear(db, 2, 2, 4);
  }

  /** Both borrowings of the session are current loans: neither is returned, and their members and books exist. */
  lemma SessionLoanIds(db: Db, now: Time)
    requires db.books == SessionBooks(now) && db.members == SessionMembers(now) && db.borrowings == SessionBorrowings(now)
    ensures CurrentLoanIds(db) == {1, 2} && |CurrentLoanIds(db)| == 2
  {
    assert IsCurrentLoan(db, db.borrowings[1]) && IsCurrentLoan(db, db.borrowings[2]);
  }

  /** A member with a single borrowing, of a book still held, sees exactly that book. */
  lemma OnlyBorrowing(db: Db, memberId: int, k: int)
    requires Valid(db)
    requires k in db.borrowings && db.borrowings[k].memberId == memberId && db.borrowings[k].bookId in db.books
    requires forall j :: j in db.borrowings && db.borrowings[j].memberId == memberId ==> j == k
    ensures var r := GetMemberBorrowings(db, memberId);
            |r| == 1 && r[0].id == k && r[0].row.title == db.books[db.borrowings[k].bookId].title
  {
    var r := GetMemberBorrowings(db, memberId);
    forall i | 0 <= i < |r|
      ensures r[i].id in {k}
    {
    }
    ListingSize(r, {k});
    assert r[0].id in {k};
  }

  /** The three add_author calls of the session, on a store with no authors yet. */
  method AddSessionAuthors(m: Store.DatabaseManager, now: Time) returns (ids: seq<Option<int>>)
    requires m.Valid() && m.open && m.clock <= now && m.authors == map[] && m.authorSeq == 0
    modifies m
    ensures m.Valid() && m.open
    ensures ids == [Some(1), Some(2), Some(3)]
    ensures m.State() == old(m.State()).(authors := SessionAuthors(now), authorSeq := 3, clock := now)
  {
    var a1 := m.AddAuthor(Some("J.K."), Some("Rowling"), Some("jkrowling@example.com"), now);
    assert a1 == Some(1) && m.authors == map[1 := SessionAuthors(now)[1]];
    var a2 := m.AddAuthor(Some("George"), Some("Orwell"), Some("gorwell@example.com"), now);
    assert a2 == Some(2) && m.authors == map[1 := SessionAuthors(now)[1], 2 := SessionAuthors(now)[2]];
    var a3 := m.AddAuthor(Some("Jane"), Some("Austen"), Some("jausten@example.com"), now);
    assert a3 == Some(3) && m.authors == SessionAuthors(now);
    ids := [a1, a2, a3];
  }

  /** The four add_book calls, with the author ids the session got back. */
  method AddSessionBooks(m: Store.DatabaseManager, authorIds: seq<Option<int>>, now: Time) returns (ids: seq<Option<int>>)
    requires m.Valid() && m.open && m.clock <= now && m.books == map[] && m.bookSeq == 0
    requires authorIds == [Some(1), Some(2), Some(3)]
    modifies m
    ensures m.Valid() && m.open
    ensures ids == [Some(1), Some(2), Some(3), Some(4)]
    ensures m.State() == old(m.State()).(books := BooksAsAdded(now), bookSeq := 4, clock := now)
  {
    var books := BooksAsAdded(now);
    var b1 := m.AddBook(Some("Harry Potter and the Philosopher's Stone"), authorIds[0], Some("978-0747532699"), Some(1997), Some(1299), now);
    assert b1 == Some(1) && m.books == map[1 := books[1]];
    var b2 := m.AddBook(Some("1984"), authorIds[1], Some("978-0451524935"), Some(1949), Some(999), now);
    assert b2 == Some(2) && m.books == map[1 := books[1], 2 := books[2]];
    var b3 := m.AddBook(Some("Pride and Prejudice"), authorIds[2], Some("978-0141439518"), Some(1813), Some(899), now);
    assert b3 == Some(3) && m.books == map[1 := books[1], 2 := books[2], 3 := books[3]];
    var b4 := m.AddBook(Some("Animal Farm"), authorIds[1], Some("978-0451526342"), Some(1945), Some(799), now);
    assert b4 == Some(4) && m.books == books;
    ids := [b1, b2, b3, b4];
  }

  /** The two add_member calls. */
  method AddSessionMembers(m: Store.DatabaseManager, now: Time) returns (ids: seq<Option<int>>)
    requires m.Valid() && m.open && m.clock <= now && m.members == map[] && m.memberSeq == 0
    modifies m
    ensures m.Valid() && m.open
    ensures ids == [Some(1), Some(2)]
    ensures m.State() == old(m.State()).(members := SessionMembers(now), memberSeq := 2, clock := now)
  {
    var m1 := m.AddMember(Some("John"), Some("Doe"), Some("john.doe@example.com"), Some("555-0101"), now);
    assert m1 == Some(1) && m.members == map[1 := SessionMembers(now)[1]];
    var m2 := m.AddMember(Some("Jane"), Some("Smith"), Some("jane.smith@example.com"), Some("555-0102"), now);
    assert m2 == Some(2) && m.members == SessionMembers(now);
    ids := [m1, m2];
  }

  /**
   * The borrowing step: when both members were added, John borrows book 1
   * and Jane book 2, and John's borrowings are listed.
   */
  method BorrowSessionBooks(m: Store.DatabaseManager, memberIds: seq<Option<int>>, now: Time)
    returns (johnsBooks: seq<Keyed<BorrowedTitle>>)
    requires m.Valid() && m.open && m.clock <= now && m.borrowings == map[] && m.borrowingSeq == 0
    requires m.books == BooksAsAdded(now) && memberIds == [Some(1), Some(2)]
    modifies m
    ensures m.Valid() && m.open
    ensures |johnsBooks| == 1 && johnsBooks[0].row.title == "Harry Potter and the Philosopher's Stone"
    ensures m.State() == old(m.State()).(borrowings := SessionBorrowings(now), borrowingSeq := 2, clock := now)
  {
    johnsBooks := [];
    var m1, m2 := memberIds[0], memberIds[1];
    if m1.Some? && m2.Some? {
      var l1 := m.BorrowBook(m1, Some(1), now);
      assert m.borrowings == map[1 := SessionBorrowings(now)[1]];
      var l2 := m.BorrowBook(m2, Some(2), now);
      assert m.borrowings == SessionBorrowings(now);
      var lent := m.State();
      OnlyBorrowing(lent, 1, 1);
      johnsBooks := GetMemberBorrowings(lent, m1.value);
    }
  }

  /**
   * The main block of database_design.py, with two reads added on the final
   * store that the script itself does not run: get_books_by_author for
   * Orwell, and the number of rows of Query 3. It returns the ids that the
   * script gets back, what get_member_borrowings gives for the first member,
   * those two reads and the final store.
   */
  method LibrarySession(now: Time)
    returns (authorIds: seq<Option<int>>, bookIds: seq<Option<int>>, memberIds: seq<Option<int>>,
             orwell: seq<Keyed<Book>>, johnsBooks: seq<Keyed<BorrowedTitle>>, db: Db)
    ensures authorIds == [Some(1), Some(2), Some(3)]
    ensures bookIds == [Some(1), Some(2), Some(3), Some(4)]
    ensures memberIds == [Some(1), Some(2)]
    ensures Valid(db)
    ensures |orwell| == 2 && orwell[0].row.title == "1984" && orwell[1].row.title == "Animal Farm"
    ensures |johnsBooks| == 1 && johnsBooks[0].row.title == "Harry Potter and the Philosopher's Stone"
    ensures 1 in db.books && db.books[1].price == Some(1499)
    ensures |CurrentlyBorrowed(db)| == 2
  {
    var m := new Store.DatabaseManager("library.db", None);
    authorIds := AddSessionAuthors(m, now);
    bookIds := AddSessionBooks(m, authorIds, now);
    memberIds := AddSessionMembers(m, now);
    assert m.books == BooksAsAdded(now) && m.members == SessionMembers(now) && m.borrowings == map[];

    johnsBooks := BorrowSessionBooks(m, memberIds, now);

    var changed := m.UpdateBookPrice(1, Some(1499));
    assert m.books == SessionBooks(now) && m.members == SessionMembers(now) && m.borrowings == SessionBorrowings(now);
    db := m.State();
    orwell := GetBooksByAuthor(db, 2);
    m.Close();

    SessionOrwell(db, now);
    SessionLoanIds(db, now);
    CurrentLoansListed(db);
  }
}
