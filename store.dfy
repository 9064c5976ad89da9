/**
 * `DatabaseManager`: the object that owns the connection and changes the
 * tables in place. Its fields hold the persisted tables and AUTOINCREMENT
 * counters; each mutating method performs one statement and commits it, and
 * its contract ties the new state and the reply to the statement's function in
 * `Operations`.
 */
module Store {
  import opened Wrappers
  import opened Schema
  import Operations

  class DatabaseManager {
    const dbName: string
    var authors: map<int, Author>
    var books: map<int, Book>
    var members: map<int, Member>
    var borrowings: map<int, Borrowing>
    var authorSeq: nat
    var bookSeq: nat
    var memberSeq: nat
    var borrowingSeq: nat
    var clock: Time
    /** The connection is open: set by `connect`, cleared by `close`. */
    var open: bool

    /** The store's content as a value. */
    function State(): Db
      reads this
    {
      Db(authors, books, members, borrowings, authorSeq, bookSeq, memberSeq, borrowingSeq, clock)
    }

    ghost predicate Valid()
      reads this
    {
      Schema.Valid(State())
    }

    /**
     * `__init__`: connect to the store named `dbName` and run `create_tables`.
     * `existing` is what the store already holds, if it already has the schema.
     */
    constructor (dbName: string, existing: Option<Db>)
      requires existing.Some? ==> Schema.Valid(existing.value)
      ensures Valid() && open && this.dbName == dbName
      ensures State() == CreateTables(existing)
    {
      var db := CreateTables(existing);
      this.dbName := dbName;
      authors, books, members, borrowings := db.authors, db.books, db.members, db.borrowings;
      authorSeq, bookSeq, memberSeq, borrowingSeq := db.authorSeq, db.bookSeq, db.memberSeq, db.borrowingSeq;
      clock := db.clock;
      open := true;
    }

    method AddAuthor(first: Option<string>, last: Option<string>, email: Option<string>, now: Time)
      returns (authorId: Option<int>)
      requires Valid() && open && clock <= now
      modifies this
      ensures Valid() && open
      ensures Operations.AddAuthor(old(State()), first, last, email, now) == Operations.Step(authorId, State())
    {
      Operations.AddAuthorKeepsValid(State(), first, last, email, now);
      if first.None? || last.None? || (email.Some? && AuthorEmailInUse(authors, email.value)) {
        authorId := None;
        return;
      }
      authorSeq := authorSeq + 1;
      authors := authors[authorSeq := Author(first.value, last.value, email, now)];
      clock := now;
      authorId := Some(authorSeq);
    }

    method AddBook(title: Option<string>, authorId: Option<int>, isbn: Option<string>, year: Option<int>,
                   price: Option<Price>, now: Time)
      returns (bookId: Option<int>)
      requires Valid() && open && clock <= now
      modifies this
      ensures Valid() && open
      ensures Operations.AddBook(old(State()), title, authorId, isbn, year, price, now) == Operations.Step(bookId, State())
    {
      Operations.AddBookKeepsValid(State(), title, authorId, isbn, year, price, now);
      if title.None? || (isbn.Some? && IsbnInUse(books, isbn.value)) {
        bookId := None;
        return;
      }
      bookSeq := bookSeq + 1;
      books := books[bookSeq := Book(title.value, isbn, authorId, year, price, now)];
      clock := now;
      bookId := Some(bookSeq);
    }

    method AddMember(first: Option<string>, last: Option<string>, email: Option<string>, phone: Option<string>, now: Time)
      returns (memberId: Option<int>)
      requires Valid() && open && clock <= now
      modifies this
      ensures Valid() && open
      ensures Operations.AddMember(old(State()), first, last, email, phone, now) == Operations.Step(memberId, State())
    {
      Operations.AddMemberKeepsValid(State(), first, last, email, phone, now);
      if first.None? || last.None? || email.None? || MemberEmailInUse(members, email.value) {
        memberId := None;
        return;
      }
      memberSeq := memberSeq + 1;
      members := members[memberSeq := Member(first.value, last.value, email.value, phone, now)];
      clock := now;
      memberId := Some(memberSeq);
    }

    method BorrowBook(memberId: Option<int>, bookId: Option<int>, now: Time) returns (borrowingId: Option<int>)
      requires Valid() && open && clock <= now
      modifies this
      ensures Valid() && open
      ensures Operations.BorrowBook(old(State()), memberId, bookId, now) == Operations.Step(borrowingId, State())
    {
      Operations.BorrowBookKeepsValid(State(), memberId, bookId, now);
      if memberId.None? || bookId.None? {
        borrowingId := None;
        return;
      }
      borrowingSeq := borrowingSeq + 1;
      borrowings := borrowings[borrowingSeq := Borrowing(memberId.value, bookId.value, now, None)];
      clock := now;
      borrowingId := Some(borrowingSeq);
    }

    method UpdateBookPrice(bookId: int, newPrice: Option<Price>) returns (updated: bool)
      requires Valid() && open
      modifies this
      ensures Valid() && open
      ensures Operations.UpdateBookPrice(old(State()), bookId, newPrice) == Operations.Step(updated, State())
    {
      Operations.UpdateBookPriceKeepsValid(State(), bookId, newPrice);
      updated := bookId in books;
      if updated {
        books := books[bookId := books[bookId].(price := newPrice)];
      }
    }

    method ReturnBook(borrowingId: int, now: Time) returns (returned: bool)
      requires Valid() && open && clock <= now
      modifies this
      ensures Valid() && open
      ensures Operations.ReturnBook(old(State()), borrowingId, now) == Operations.Step(returned, State())
    {
      Operations.ReturnBookKeepsValid(State(), borrowingId, now);
      returned := borrowingId in borrowings && borrowings[borrowingId].returnDate.None?;
      if returned {
        borrowings := borrowings[borrowingId := borrowings[borrowingId].(returnDate := Some(now))];
        clock := now;
      }
    }

    method DeleteBook(bookId: int) returns (deleted: bool)
      requires Valid() && open
      modifies this
      ensures Valid() && open
      ensures Operations.DeleteBook(old(State()), bookId) == Operations.Step(deleted, State())
    {
      Operations.DeleteBookKeepsValid(State(), bookId);
      deleted := bookId in books;
      books := books - {bookId};
    }

    /** `close`: releases the connection; the persisted tables stay as they are. Closing again is harmless. */
    method Close()
      modifies this
      ensures !open && State() == old(State())
    {
      open := false;
    }
  }
}
