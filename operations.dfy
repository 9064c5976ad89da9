/**
 * The statements `DatabaseManager` issues, one function per statement, over
 * a value of the whole store: what each returns (`lastrowid`, or whether
 * `rowcount > 0`) and the store it leaves. A statement that violates a
 * constraint is rolled back, so the store is unchanged and the caller sees
 * None or false. Then the invariant every statement keeps, and properties of
 * whole runs of statements.
 */
module Operations {
  import opened Wrappers
  import opened Relational
  import opened Schema

  datatype Step<R> = Step(reply: R, db: Db)

  /**
   * `add_author`: INSERT INTO authors. Rejected when a name is NULL (NOT NULL)
   * or when the email is already held by an author (UNIQUE); a NULL email
   * never collides.
   */
  function AddAuthor(db: Db, first: Option<string>, last: Option<string>, email: Option<string>, now: Time): (s: Step<Option<int>>)
    requires db.clock <= now
    ensures s.reply.Some? <==> first.Some? && last.Some? && !(email.Some? && AuthorEmailInUse(db.authors, email.value))
    ensures s.reply.None? ==> s.db == db
    ensures s.reply.Some? ==>
      && s.reply.value == db.authorSeq + 1
      && s.db == db.(authors := db.authors[s.reply.value := Author(first.value, last.value, email, now)],
                     authorSeq := s.reply.value, clock := now)
  {
    if first.None? || last.None? || (email.Some? && AuthorEmailInUse(db.authors, email.value)) then Step(None, db)
    else
      var id := db.authorSeq + 1;
      Step(Some(id), db.(authors := db.authors[id := Author(first.value, last.value, email, now)], authorSeq := id, clock := now))
  }

  /**
   * `add_book`: INSERT INTO books. Rejected when the title is NULL or the ISBN
   * is already held by a book. The author id is stored as given: nothing
   * checks that such an author exists.
   */
  function AddBook(db: Db, title: Option<string>, authorId: Option<int>, isbn: Option<string>, year: Option<int>,
                   price: Option<Price>, now: Time): (s: Step<Option<int>>)
    requires db.clock <= now
    ensures s.reply.Some? <==> title.Some? && !(isbn.Some? && IsbnInUse(db.books, isbn.value))
    ensures s.reply.None? ==> s.db == db
    ensures s.reply.Some? ==>
      && s.reply.value == db.bookSeq + 1
      && s.db == db.(books := db.books[s.reply.value := Book(title.value, isbn, authorId, year, price, now)],
                     bookSeq := s.reply.value, clock := now)
  {
    if title.None? || (isbn.Some? && IsbnInUse(db.books, isbn.value)) then Step(None, db)
    else
      var id := db.bookSeq + 1;
      Step(Some(id), db.(books := db.books[id := Book(title.value, isbn, authorId, year, price, now)], bookSeq := id, clock := now))
  }

  /**
   * `add_member`: INSERT INTO members. Rejected when a name or the email is
   * NULL, or when the email is already held by a member.
   */
  function AddMember(db: Db, first: Option<string>, last: Option<string>, email: Option<string>, phone: Option<string>,
                     now: Time): (s: Step<Option<int>>)
    requires db.clock <= now
    ensures s.reply.Some? <==> first.Some? && last.Some? && email.Some? && !MemberEmailInUse(db.members, email.value)
    ensures s.reply.None? ==> s.db == db
    ensures s.reply.Some? ==>
      && s.reply.value == db.memberSeq + 1
      && s.db == db.(members := db.members[s.reply.value := Member(first.value, last.value, email.value, phone, now)],
                     memberSeq := s.reply.value, clock := now)
  {
    if first.None? || last.None? || email.None? || MemberEmailInUse(db.members, email.value) then Step(None, db)
    else
      var id := db.memberSeq + 1;
      Step(Some(id), db.(members := db.members[id := Member(first.value, last.value, email.value, phone, now)], memberSeq := id, clock := now))
  }

  /**
   * `borrow_book`: INSERT INTO borrowings, with the borrow date stamped and no
   * return date. Rejected only when an id is NULL: neither the member nor the
   * book is looked up, and a book may be out on several borrowings at once.
   */
  function BorrowBook(db: Db, memberId: Option<int>, bookId: Option<int>, now: Time): (s: Step<Option<int>>)
    requires db.clock <= now
    ensures s.reply.Some? <==> memberId.Some? && bookId.Some?
    ensures s.reply.None? ==> s.db == db
    ensures s.reply.Some? ==>
      && s.reply.value == db.borrowingSeq + 1
      && s.db == db.(borrowings := db.borrowings[s.reply.value := Borrowing(memberId.value, bookId.value, now, None)],
                     borrowingSeq := s.reply.value, clock := now)
  {
    if memberId.None? || bookId.None? then Step(None, db)
    else
      var id := db.borrowingSeq + 1;
      Step(Some(id), db.(borrowings := db.borrowings[id := Borrowing(memberId.value, bookId.value, now, None)], borrowingSeq := id, clock := now))
  }

  /**
   * `update_book_price`: UPDATE books SET price WHERE book_id. True exactly
   * when the book exists; only that book's price changes.
   */
  function UpdateBookPrice(db: Db, bookId: int, newPrice: Option<Price>): (s: Step<bool>)
    ensures s.reply <==> bookId in db.books
    ensures s.db == db.(books := s.db.books)
    ensures s.db.books.Keys == db.books.Keys
    ensures forall k :: k in db.books && k != bookId ==> s.db.books[k] == db.books[k]
    ensures bookId in db.books ==> s.db.books[bookId] == db.books[bookId].(price := newPrice)
  {
    if bookId in db.books then Step(true, db.(books := db.books[bookId := db.books[bookId].(price := newPrice)]))
    else Step(false, db)
  }

  /**
   * `return_book`: UPDATE borrowings SET return_date WHERE borrowing_id AND
   * return_date IS NULL. True exactly when the borrowing exists and is still
   * out; then only its return date changes, to `now`.
   */
  function ReturnBook(db: Db, borrowingId: int, now: Time): (s: Step<bool>)
    requires db.clock <= now
    ensures s.reply <==> borrowingId in db.borrowings && db.borrowings[borrowingId].returnDate.None?
    ensures !s.reply ==> s.db == db
    ensures s.reply ==>
      s.db == db.(borrowings := db.borrowings[borrowingId := db.borrowings[borrowingId].(returnDate := Some(now))], clock := now)
  {
    if borrowingId in db.borrowings && db.borrowings[borrowingId].returnDate.None? then
      Step(true, db.(borrowings := db.borrowings[borrowingId := db.borrowings[borrowingId].(returnDate := Some(now))], clock := now))
    else Step(false, db)
  }

  /**
   * `delete_book`: DELETE FROM books WHERE book_id. True exactly when the book
   * existed. Borrowings that reference it stay, and the id counter stays.
   */
  function DeleteBook(db: Db, bookId: int): (s: Step<bool>)
    ensures s.reply <==> bookId in db.books
    ensures s.db == db.(books := db.books - {bookId})
  {
    Step(bookId in db.books, db.(books := db.books - {bookId}))
  }

  lemma AddAuthorKeepsValid(db: Db, first: Option<string>, last: Option<string>, email: Option<string>, now: Time)
    requires Valid(db) && db.clock <= now
    ensures Valid(AddAuthor(db, first, last, email, now).db)
  {
    var s := AddAuthor(db, first, last, email, now);
    if s.reply.Some? {
      var id := s.reply.value;
      assert id !in db.authors;
      forall i, j | i in s.db.authors && j in s.db.authors && i != j && s.db.authors[i].email.Some?
        ensures s.db.authors[i].email != s.db.authors[j].email
      {
        if i == id {
          assert !AuthorEmailInUse(db.authors, email.value);
          assert db.authors[j].email != Some(email.value);
        } else if j == id {
          assert db.authors[i].email == Some(db.authors[i].email.value);
        }
      }
    }
  }

  lemma AddBookKeepsValid(db: Db, title: Option<string>, authorId: Option<int>, isbn: Option<string>, year: Option<int>,
                          price: Option<Price>, now: Time)
    requires Valid(db) && db.clock <= now
    ensures Valid(AddBook(db, title, authorId, isbn, year, price, now).db)
  {
    var s := AddBook(db, title, authorId, isbn, year, price, now);
    if s.reply.Some? {
      var id := s.reply.value;
      assert id !in db.books;
      forall i, j | i in s.db.books && j in s.db.books && i != j && s.db.books[i].isbn.Some?
        ensures s.db.books[i].isbn != s.db.books[j].isbn
      {
        if i == id {
          assert !IsbnInUse(db.books, isbn.value);
          assert db.books[j].isbn != Some(isbn.value);
        } else if j == id {
          assert db.books[i].isbn == Some(db.books[i].isbn.value);
        }
      }
    }
  }

  lemma AddMemberKeepsValid(db: Db, first: Option<string>, last: Option<string>, email: Option<string>,
                            phone: Option<string>, now: Time)
    requires Valid(db) && db.clock <= now
    ensures Valid(AddMember(db, first, last, email, phone, now).db)
  {
    var s := AddMember(db, first, last, email, phone, now);
    if s.reply.Some? {
      var id := s.reply.value;
      assert id !in db.members;
      forall i, j | i in s.db.members && j in s.db.members && i != j
        ensures s.db.members[i].email != s.db.members[j].email
      {
        if i == id {
          assert db.members[j].email != email.value;
        } else if j == id {
          assert db.members[i].email != email.value;
        }
      }
    }
  }

  lemma BorrowBookKeepsValid(db: Db, memberId: Option<int>, bookId: Option<int>, now: Time)
    requires Valid(db) && db.clock <= now
    ensures Valid(BorrowBook(db, memberId, bookId, now).db)
  {
  }

  lemma ReturnBookKeepsValid(db: Db, borrowingId: int, now: Time)
    requires Valid(db) && db.clock <= now
    ensures Valid(ReturnBook(db, borrowingId, now).db)
  {
  }

  lemma UpdateBookPriceKeepsValid(db: Db, bookId: int, newPrice: Option<Price>)
    requires Valid(db)
    ensures Valid(UpdateBookPrice(db, bookId, newPrice).db)
  {
    var s := UpdateBookPrice(db, bookId, newPrice);
    assert forall k :: k in s.db.books ==> s.db.books[k].isbn == db.books[k].isbn && s.db.books[k].createdAt == db.books[k].createdAt;
  }

  lemma DeleteBookKeepsValid(db: Db, bookId: int)
    requires Valid(db)
    ensures Valid(DeleteBook(db, bookId).db)
  {
  }

  /** A second `return_book` on the same borrowing reports false and changes nothing. */
  lemma ReturnTwice(db: Db, borrowingId: int, now: Time, later: Time)
    requires db.clock <= now <= later
    ensures var first := ReturnBook(db, borrowingId, now);
            var second := ReturnBook(first.db, borrowingId, later);
            && !second.reply
            && second.db == first.db
            && (first.reply ==> second.db.borrowings[borrowingId].returnDate == Some(now))
  {
  }

  // ---------------------------------------------------------------------------
  // Runs of statements

  datatype Table = Authors | Books | Members | Borrowings

  datatype Op =
    | AddAuthorOp(first: Option<string>, last: Option<string>, email: Option<string>, now: Time)
    | AddBookOp(title: Option<string>, authorId: Option<int>, isbn: Option<string>, year: Option<int>,
                price: Option<Price>, now: Time)
    | AddMemberOp(first: Option<string>, last: Option<string>, email: Option<string>, phone: Option<string>, now: Time)
    | BorrowBookOp(borrower: Option<int>, borrowed: Option<int>, now: Time)
    | UpdateBookPriceOp(target: int, newPrice: Option<Price>)
    | ReturnBookOp(borrowing: int, now: Time)
    | DeleteBookOp(target: int)

  /** What a statement returns: a new id (or None), or whether a row changed. */
  datatype Reply = NewId(id: Option<int>) | Changed(ok: bool)

  /** The statement writes CURRENT_TIMESTAMP. */
  predicate Stamped(op: Op)
  {
    !(op.UpdateBookPriceOp? || op.DeleteBookOp?)
  }

  /** The table whose AUTOINCREMENT counter the statement may advance. */
  function Inserts(op: Op): Option<Table>
  {
    match op
    case AddAuthorOp(_, _, _, _) => Some(Authors)
    case AddBookOp(_, _, _, _, _, _) => Some(Books)
    case AddMemberOp(_, _, _, _, _) => Some(Members)
    case BorrowBookOp(_, _, _) => Some(Borrowings)
    case _ => None
  }

  function Counter(db: Db, t: Table): nat
  {
    match t
    case Authors => db.authorSeq
    case Books => db.bookSeq
    case Members => db.memberSeq
    case Borrowings => db.borrowingSeq
  }

  function Ids(db: Db, t: Table): set<int>
  {
    match t
    case Authors => db.authors.Keys
    case Books => db.books.Keys
    case Members => db.members.Keys
    case Borrowings => db.borrowings.Keys
  }

  function Apply(db: Db, op: Op): (s: Step<Reply>)
    requires Stamped(op) ==> db.clock <= op.now
    ensures s.db.clock == db.clock || (Stamped(op) && s.db.clock == op.now)
  {
    match op
    case AddAuthorOp(first, last, email, now) =>
      var s := AddAuthor(db, first, last, email, now); Step(NewId(s.reply), s.db)
    case AddBookOp(title, authorId, isbn, year, price, now) =>
      var s := AddBook(db, title, authorId, isbn, year, price, now); Step(NewId(s.reply), s.db)
    case AddMemberOp(first, last, email, phone, now) =>
      var s := AddMember(db, first, last, email, phone, now); Step(NewId(s.reply), s.db)
    case BorrowBookOp(memberId, bookId, now) =>
      var s := BorrowBook(db, memberId, bookId, now); Step(NewId(s.reply), s.db)
    case UpdateBookPriceOp(bookId, newPrice) =>
      var s := UpdateBookPrice(db, bookId, newPrice); Step(Changed(s.reply), s.db)
    case ReturnBookOp(borrowingId, now) =>
      var s := ReturnBook(db, borrowingId, now); Step(Changed(s.reply), s.db)
    case DeleteBookOp(bookId) =>
      var s := DeleteBook(db, bookId); Step(Changed(s.reply), s.db)
  }

  /** The clock never runs backwards: stamps are at least `clock` and never decrease along `ops`. */
  ghost predicate Chronological(clock: Time, ops: seq<Op>)
  {
    && (forall i :: 0 <= i < |ops| && Stamped(ops[i]) ==> clock <= ops[i].now)
    && (forall i, j :: 0 <= i < j < |ops| && Stamped(ops[i]) && Stamped(ops[j]) ==> ops[i].now <= ops[j].now)
  }

  lemma ChronologicalTail(db: Db, ops: seq<Op>)
    requires |ops| != 0 && Chronological(db.clock, ops)
    ensures Chronological(Apply(db, ops[0]).db.clock, ops[1..])
  {
    var c := Apply(db, ops[0]).db.clock;
    forall i | 0 <= i < |ops[1..]| && Stamped(ops[1..][i])
      ensures c <= ops[1..][i].now
    {
      assert ops[1..][i] == ops[i + 1];
    }
    forall i, j | 0 <= i < j < |ops[1..]| && Stamped(ops[1..][i]) && Stamped(ops[1..][j])
      ensures ops[1..][i].now <= ops[1..][j].now
    {
      assert ops[1..][i] == ops[i + 1] && ops[1..][j] == ops[j + 1];
    }
  }

  /** The replies to `ops`, issued one after the other from `db`. */
  function Replies(db: Db, ops: seq<Op>): (rs: seq<Reply>)
    requires Chronological(db.clock, ops)
    ensures |rs| == |ops|
    decreases |ops|
  {
    if |ops| == 0 then []
    else
      ChronologicalTail(db, ops);
      var s := Apply(db, ops[0]);
      [s.reply] + Replies(s.db, ops[1..])
  }

  /** The store after `ops`. */
  function Final(db: Db, ops: seq<Op>): Db
    requires Chronological(db.clock, ops)
    decreases |ops|
  {
    if |ops| == 0 then db
    else
      ChronologicalTail(db, ops);
      Final(Apply(db, ops[0]).db, ops[1..])
  }

  lemma ApplyKeepsValid(db: Db, op: Op)
    requires Valid(db) && (Stamped(op) ==> db.clock <= op.now)
    ensures Valid(Apply(db, op).db)
  {
    match op
    case AddAuthorOp(first, last, email, now) => AddAuthorKeepsValid(db, first, last, email, now);
    case AddBookOp(title, authorId, isbn, year, price, now) => AddBookKeepsValid(db, title, authorId, isbn, year, price, now);
    case AddMemberOp(first, last, email, phone, now) => AddMemberKeepsValid(db, first, last, email, phone, now);
    case BorrowBookOp(memberId, bookId, now) => BorrowBookKeepsValid(db, memberId, bookId, now);
    case UpdateBookPriceOp(bookId, newPrice) => UpdateBookPriceKeepsValid(db, bookId, newPrice);
    case ReturnBookOp(borrowingId, now) => ReturnBookKeepsValid(db, borrowingId, now);
    case DeleteBookOp(bookId) => DeleteBookKeepsValid(db, bookId);
  }

  /** Every state reached from a valid one is valid: uniqueness, bounded ids, chronology. */
  lemma {:induction false} RunKeepsValid(db: Db, ops: seq<Op>)
    requires Valid(db) && Chronological(db.clock, ops)
    ensures Valid(Final(db, ops))
    decreases |ops|
  {
    if |ops| != 0 {
      ChronologicalTail(db, ops);
      ApplyKeepsValid(db, ops[0]);
      RunKeepsValid(Apply(db, ops[0]).db, ops[1..]);
    }
  }

  /**
   * Counters never move backwards, and an insert that succeeds takes the next
   * value of its table's counter, above every id in the table.
   */
  lemma ApplyCounters(db: Db, op: Op)
    requires Stamped(op) ==> db.clock <= op.now
    ensures forall t :: Counter(Apply(db, op).db, t) >= Counter(db, t)
    ensures Apply(db, op).reply.NewId? && Apply(db, op).reply.id.Some? ==>
              && Inserts(op).Some?
              && Apply(db, op).reply.id.value == Counter(db, Inserts(op).value) + 1 == Counter(Apply(db, op).db, Inserts(op).value)
              && (Valid(db) ==> forall k :: k in Ids(db, Inserts(op).value) ==> k < Apply(db, op).reply.id.value)
  {
  }

  /** Every id an insert hands out during a run lies above the counter it started from. */
  lemma {:induction false} LaterIdsExceedCounter(db: Db, ops: seq<Op>, j: nat, x: int)
    requires Chronological(db.clock, ops)
    requires j < |ops| && Inserts(ops[j]).Some? && Replies(db, ops)[j] == NewId(Some(x))
    ensures x > Counter(db, Inserts(ops[j]).value)
    decreases j
  {
    ApplyCounters(db, ops[0]);
    if j > 0 {
      ChronologicalTail(db, ops);
      var s := Apply(db, ops[0]);
      assert Replies(db, ops)[j] == Replies(s.db, ops[1..])[j - 1];
      assert ops[j] == ops[1..][j - 1];
      LaterIdsExceedCounter(s.db, ops[1..], j - 1, x);
    }
  }

  /**
   * AUTOINCREMENT ids are never reused: along any run, the ids one table hands
   * out strictly increase, whatever rows were deleted in between, and all lie
   * above the ids of the starting store.
   */
  lemma {:induction false} IdsNeverReused(db: Db, ops: seq<Op>, i: nat, j: nat, x: int, y: int)
    requires Valid(db) && Chronological(db.clock, ops)
    requires i < j < |ops| && Inserts(ops[i]).Some? && Inserts(ops[i]) == Inserts(ops[j])
    requires Replies(db, ops)[i] == NewId(Some(x)) && Replies(db, ops)[j] == NewId(Some(y))
    ensures forall k :: k in Ids(db, Inserts(ops[i]).value) ==> k < x
    ensures x < y
    decreases i
  {
    var t := Inserts(ops[i]).value;
    ChronologicalTail(db, ops);
    ApplyCounters(db, ops[0]);
    ApplyKeepsValid(db, ops[0]);
    var s := Apply(db, ops[0]);
    assert Replies(db, ops)[j] == Replies(s.db, ops[1..])[j - 1];
    assert ops[j] == ops[1..][j - 1];
    LaterIdsExceedCounter(s.db, ops[1..], j - 1, y);
    if i == 0 {
      assert x == Counter(s.db, t);
    } else {
      assert Replies(db, ops)[i] == Replies(s.db, ops[1..])[i - 1];
      assert ops[i] == ops[1..][i - 1];
      IdsNeverReused(s.db, ops[1..], i - 1, j - 1, x, y);
      LaterIdsExceedCounter(db, ops, i, x);
    }
  }

  /** A statement never clears or moves a return date, and borrowings are never removed. */
  lemma ApplyKeepsReturnDate(db: Db, op: Op, borrowingId: int)
    requires Valid(db) && (Stamped(op) ==> db.clock <= op.now)
    requires borrowingId in db.borrowings
    ensures borrowingId in Apply(db, op).db.borrowings
    ensures db.borrowings[borrowingId].returnDate.Some? ==>
              Apply(db, op).db.borrowings[borrowingId] == db.borrowings[borrowingId]
  {
  }

  /** Once returned, a borrowing keeps its return date for the rest of any run. */
  lemma {:induction false} ReturnDateSetOnce(db: Db, ops: seq<Op>, borrowingId: int)
    requires Valid(db) && Chronological(db.clock, ops)
    requires borrowingId in db.borrowings && db.borrowings[borrowingId].returnDate.Some?
    ensures borrowingId in Final(db, ops).borrowings
    ensures Final(db, ops).borrowings[borrowingId] == db.borrowings[borrowingId]
    decreases |ops|
  {
    if |ops| != 0 {
      ChronologicalTail(db, ops);
      ApplyKeepsReturnDate(db, ops[0], borrowingId);
      ApplyKeepsValid(db, ops[0]);
      ReturnDateSetOnce(Apply(db, ops[0]).db, ops[1..], borrowingId);
    }
  }
}
