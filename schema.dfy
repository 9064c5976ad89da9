/**
 * The library store's four tables, as `create_tables` declares them.
 *
 * A table is a map from its INTEGER PRIMARY KEY AUTOINCREMENT id to a row;
 * each table also has its AUTOINCREMENT counter (its sqlite_sequence entry),
 * the largest id the table has ever handed out. NOT NULL columns are plain
 * values, nullable ones are `Option`s. The declared FOREIGN KEYs are not
 * enforced (the connection never turns `foreign_keys` on), so reference
 * columns are plain ids that need not name an existing row.
 */
module Schema {
  import opened Wrappers
  import opened Relational

  /** CURRENT_TIMESTAMP, as an abstract point on a clock. */
  type Time = nat

  /** The REAL price column, held as a whole number of cents; nothing computes with it. */
  type Price = int

  datatype Author = Author(first: string, last: string, email: Option<string>, createdAt: Time)

  datatype Book = Book(title: string, isbn: Option<string>, authorId: Option<int>, year: Option<int>,
                       price: Option<Price>, createdAt: Time)

  datatype Member = Member(first: string, last: string, email: string, phone: Option<string>, joinDate: Time)

  datatype Borrowing = Borrowing(memberId: int, bookId: int, borrowDate: Time, returnDate: Option<Time>)

  /**
   * The persisted content of the store. `clock` is the latest timestamp the
   * store has written.
   */
  datatype Db = Db(authors: map<int, Author>, books: map<int, Book>, members: map<int, Member>,
                   borrowings: map<int, Borrowing>,
                   authorSeq: nat, bookSeq: nat, memberSeq: nat, borrowingSeq: nat,
                   clock: Time)

  /** Some author has email `e` (the UNIQUE index on authors.email). */
  predicate AuthorEmailInUse(authors: map<int, Author>, e: string)
  {
    exists k | k in authors :: authors[k].email == Some(e)
  }

  /** Some book has ISBN `isbn` (the UNIQUE index on books.isbn). */
  predicate IsbnInUse(books: map<int, Book>, isbn: string)
  {
    exists k | k in books :: books[k].isbn == Some(isbn)
  }

  /** Some member has email `e` (the UNIQUE index on members.email). */
  predicate MemberEmailInUse(members: map<int, Member>, e: string)
  {
    exists k | k in members :: members[k].email == e
  }

  /** UNIQUE on a nullable column: any number of NULLs, each present value at most once. */
  ghost predicate AuthorEmailsUnique(authors: map<int, Author>)
  {
    forall i, j :: i in authors && j in authors && i != j && authors[i].email.Some? ==> authors[i].email != authors[j].email
  }

  ghost predicate IsbnsUnique(books: map<int, Book>)
  {
    forall i, j :: i in books && j in books && i != j && books[i].isbn.Some? ==> books[i].isbn != books[j].isbn
  }

  ghost predicate MemberEmailsUnique(members: map<int, Member>)
  {
    forall i, j :: i in members && j in members && i != j ==> members[i].email != members[j].email
  }

  /** No timestamp lies after the clock, and no book comes back before it went out. */
  ghost predicate Chronology(db: Db)
  {
    && (forall k :: k in db.authors ==> db.authors[k].createdAt <= db.clock)
    && (forall k :: k in db.books ==> db.books[k].createdAt <= db.clock)
    && (forall k :: k in db.members ==> db.members[k].joinDate <= db.clock)
    && (forall k :: k in db.borrowings ==> db.borrowings[k].borrowDate <= db.clock)
    && (forall k :: k in db.borrowings && db.borrowings[k].returnDate.Some? ==>
          db.borrowings[k].borrowDate <= db.borrowings[k].returnDate.value <= db.clock)
  }

  /** What holds of every state the store can reach. */
  ghost predicate Valid(db: Db)
  {
    && KeysUpTo(db.authors, db.authorSeq)
    && KeysUpTo(db.books, db.bookSeq)
    && KeysUpTo(db.members, db.memberSeq)
    && KeysUpTo(db.borrowings, db.borrowingSeq)
    && AuthorEmailsUnique(db.authors)
    && IsbnsUnique(db.books)
    && MemberEmailsUnique(db.members)
    && Chronology(db)
  }

  /**
   * `create_tables`: CREATE TABLE IF NOT EXISTS for all four tables. A store
   * that already holds the schema keeps its content; a new one starts empty.
   */
  function CreateTables(existing: Option<Db>): (db: Db)
    requires existing.Some? ==> Valid(existing.value)
    ensures Valid(db)
    ensures existing.Some? ==> db == existing.value
    ensures existing.None? ==> db.authors == map[] && db.books == map[] && db.members == map[] && db.borrowings == map[]
    ensures existing.None? ==> db.authorSeq == db.bookSeq == db.memberSeq == db.borrowingSeq == 0
  {
    match existing
    case Some(db) => db
    case None => Db(map[], map[], map[], map[], 0, 0, 0, 0, 0)
  }
}
