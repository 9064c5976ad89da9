# Library store: a verified model of `DatabaseManager`

This project models the library store of `database_design.py` and the six
analytical queries of `database_queries.py`. The store is an SQLite database
with four tables: authors, books, members, and borrowings of a book by a member.

The model has three layers:

- **A relational layer.** The store is the value `Schema.Db`: four tables, each
  a map from row id to row, and one AUTOINCREMENT counter per table (SQLite keeps
  these in `sqlite_sequence`). It also holds `clock`, the last `CURRENT_TIMESTAMP`
  written.
- **The statements.** Each INSERT, UPDATE and DELETE that `DatabaseManager` issues
  is a function in `Operations`. It returns the reply the Python method returns
  (`lastrowid`, or `rowcount > 0`) together with the new store.
  - The UNIQUE and NOT NULL constraints of `create_tables` decide when an insert
    fails. A failed statement leaves the store unchanged, counter included.
  - `Schema.Valid` is the invariant of every reachable store: keys never exceed
    their table's counter, author emails, ISBNs and member emails are pairwise
    distinct, and no stamp lies in the future. Every statement preserves it.
- **The class.** `Store.DatabaseManager` holds the tables as fields that its
  methods update in place. Each method is proved to match its statement function
  on the state before and after the call.

The reads (`Reads`) and the six queries (`Queries`) are functions over the
store. Each result row is `Keyed`: the selected columns, together with the
primary key of the row they were read from. Keeping the key lets "every row
exactly once" be stated even for SELECTs that do not project the key.

Each read comes with a completeness and soundness contract:

- every listed row comes from a row that passes the WHERE clause and the joins;
- every such row is listed;
- no key is listed twice;
- consecutive rows respect the ORDER BY key, with SQLite's rules: BINARY
  collation for text, NULL before everything else under ASC and after
  everything else under DESC.

`Operations` also runs whole sequences of statements. It proves that:

- the invariant holds throughout;
- ids are never reused, even after a delete;
- a return date, once set, never changes;
- `update_book_price` and `delete_book` touch only the row they target.

`Properties` links the statements to the queries. `Demo` replays the example
session from the main block of `database_design.py`.

Where the code and its comments suggest different behaviour, the model follows
the code:

- `add_book` does not check that the author exists, and `borrow_book` does not
  check that the member or the book exists. The foreign keys are declared but
  never enforced (no `PRAGMA foreign_keys`).
- `delete_book` leaves the book's borrowings behind.
- `add_book` and `borrow_book` catch every `sqlite3.Error`; `add_author` and
  `add_member` catch only `IntegrityError`. In the model the only failure is a
  constraint violation, so all four behave the same.

## Model

| member | source | states |
|---|---|---|
| Schema.CreateTables | database_design.py:37-92 | CREATE TABLE IF NOT EXISTS: an existing store is kept as is; otherwise four empty tables with counters at zero; either way the invariant holds |
| Store.DatabaseManager.constructor | database_design.py:20-25 | a new manager is open and holds exactly what `create_tables` leaves |
| Operations.AddAuthor | database_design.py:95-109 | succeeds iff both names are present and the email is absent or unused by any author; the new id is the counter plus one, the one new row holds the given columns and stamp, and nothing else changes; on failure nothing changes |
| Store.DatabaseManager.AddAuthor | database_design.py:95-109 | the method's reply and new fields are exactly those of `Operations.AddAuthor` on the old state, and the invariant is kept |
| Operations.AddAuthorKeepsValid | database_design.py:43-49 | add_author keeps author emails unique (NULLs exempt) and every other part of the invariant |
| Operations.AddBook | database_design.py:111-126 | succeeds iff the title is present and the ISBN is absent or unused; author_id is stored unchecked; new id is counter plus one; on failure nothing changes |
| Store.DatabaseManager.AddBook | database_design.py:111-126 | reply and new fields are those of `Operations.AddBook`; the invariant is kept |
| Operations.AddBookKeepsValid | database_design.py:54-63 | add_book keeps ISBNs unique and the invariant |
| Operations.AddMember | database_design.py:128-142 | succeeds iff both names and the email are present and the email is unused by any member; otherwise nothing changes |
| Store.DatabaseManager.AddMember | database_design.py:128-142 | reply and new fields are those of `Operations.AddMember`; the invariant is kept |
| Operations.AddMemberKeepsValid | database_design.py:68-75 | member emails stay present and pairwise distinct |
| Operations.BorrowBook | database_design.py:144-158 | succeeds iff both ids are given, whether or not the member or book exists; the new borrowing has a NULL return date and the stamp as borrow date |
| Store.DatabaseManager.BorrowBook | database_design.py:144-158 | reply and new fields are those of `Operations.BorrowBook`; the invariant is kept |
| Operations.BorrowBookKeepsValid | database_design.py:80-88 | borrow_book keeps the invariant |
| Operations.UpdateBookPrice | database_design.py:202-220 | returns true iff the book exists; that book's price becomes the new value, every other column and every other book and table stay as they were |
| Store.DatabaseManager.UpdateBookPrice | database_design.py:202-220 | reply and new fields are those of `Operations.UpdateBookPrice`; the invariant is kept |
| Operations.UpdateBookPriceKeepsValid | database_design.py:202-220 | update_book_price keeps the invariant |
| Operations.ReturnBook | database_design.py:222-240 | returns true iff the borrowing exists and has no return date; then only its return date changes, to the stamp; otherwise nothing changes |
| Store.DatabaseManager.ReturnBook | database_design.py:222-240 | reply and new fields are those of `Operations.ReturnBook`; the invariant is kept |
| Operations.ReturnBookKeepsValid | database_design.py:222-240 | return_book keeps the invariant, including return date not before borrow date |
| Operations.ReturnTwice | database_design.py:226-230 | a second return of the same borrowing replies false, changes nothing, and the date of the first return stays |
| Operations.DeleteBook | database_design.py:243-257 | returns true iff the book existed; exactly that row is removed and no other table, borrowings included, changes |
| Store.DatabaseManager.DeleteBook | database_design.py:243-257 | reply and new fields are those of `Operations.DeleteBook`; the invariant is kept |
| Operations.DeleteBookKeepsValid | database_design.py:243-257 | delete_book keeps the invariant |
| Store.DatabaseManager.Close | database_design.py:259-263 | close releases the connection and leaves the stored content unchanged |
| Operations.Apply | database_design.py:95-257 | one statement of any kind; the clock either stays or becomes that statement's stamp |
| Operations.Replies | database_design.py:95-257 | a run of statements produces one reply per statement |
| Operations.ChronologicalTail | database_design.py:48 | with a clock that never goes back, the rest of a run is still in order after its first statement |
| Operations.ApplyKeepsValid | database_design.py:37-92 | every statement keeps the invariant |
| Operations.RunKeepsValid | database_design.py:37-92 | every run of statements from a valid store ends in a valid store; in particular emails and ISBNs stay unique |
| Operations.ApplyCounters | database_design.py:44 | counters never decrease; a new id is the old counter plus one, becomes the new counter, and lies above every key of its table |
| Operations.LaterIdsExceedCounter | database_design.py:104 | an id returned anywhere in a run exceeds its table's counter at the start of the run |
| Operations.IdsNeverReused | database_design.py:121 | of two inserts into the same table in one run, the later id is larger, and the earlier exceeds every key present at the start, deleted rows included |
| Operations.ApplyKeepsReturnDate | database_design.py:226-230 | no statement removes a borrowing or changes one whose return date is already set |
| Operations.ReturnDateSetOnce | database_design.py:222-240 | after any run, a returned borrowing is still there and unchanged |
| Ordering.LexLeTotal | database_design.py:164 | BINARY text order is total |
| Ordering.LexLeAntisymmetric | database_design.py:164 | BINARY text order is antisymmetric |
| Ordering.LexLeTransitive | database_design.py:164 | BINARY text order is transitive |
| Ordering.SortBy | database_design.py:164 | ORDER BY returns a permutation of its input |
| Ordering.InsertSorted | database_design.py:164 | inserting into a sorted sequence under a total preorder keeps it sorted |
| Ordering.SortBySorted | database_design.py:164 | under a total preorder the result of ORDER BY is sorted |
| Relational.Select | database_design.py:181-185 | a rowid scan with WHERE and projection lists every passing row of the range once, in increasing key order, and nothing else |
| Relational.PermutedLists | database_design.py:181-186 | reordering a complete listing keeps it complete, sound and duplicate-free |
| Relational.DistinctIdsCount | database_design.py:181-186 | a listing with distinct keys names as many keys as it has rows |
| Relational.ListingSize | database_design.py:181-186 | a duplicate-free listing of exactly a set of keys has that set's size |
| Relational.OrderedSelect | database_design.py:181-186 | SELECT … WHERE … ORDER BY lists exactly the passing rows, once each, sorted by the key |
| Reads.ByNameTotal | database_design.py:164 | ORDER BY last_name, first_name is a total preorder |
| Reads.ByNameMeans | database_design.py:164 | that order means last names ascend, and first names ascend among equal last names |
| Reads.GetAllAuthors | database_design.py:161-165 | every author exactly once, all columns, sorted by last name and then first name |
| Reads.ByTitleTotal | database_design.py:174 | ORDER BY title is a total preorder |
| Reads.GetAllBooks | database_design.py:167-177 | every book exactly once; the author name is present iff the author_id names an existing author, and is then first name, space, last name; sorted by title |
| Reads.ByYearDescTotal | database_design.py:184 | ORDER BY publication_year DESC, NULLs last, is a total preorder |
| Reads.GetBooksByAuthor | database_design.py:179-187 | exactly the books with that author_id, each once, whole rows, years descending with NULL years last |
| Reads.ByBorrowDateDescTotal | database_design.py:196 | ORDER BY borrow_date DESC is a total preorder |
| Reads.GetMemberBorrowings | database_design.py:189-199 | exactly the member's borrowings whose book still exists, each once, with the book's title and both dates, latest borrowed first |
| Queries.ByYearAscTotal | database_queries.py:27 | ORDER BY publication_year with NULLs first is a total preorder |
| Queries.OrwellBooks | database_queries.py:22-28 | exactly the books whose author exists and has last name 'Orwell', each once, with title, year and price, years ascending |
| Queries.ByCountDescTotal | database_queries.py:41 | ORDER BY book_count DESC is a total preorder |
| Queries.BookCountPerAuthor | database_queries.py:35-42 | every author exactly once, with the full name and the number of books referencing them (0 if none), counts descending |
| Queries.CountSumIsUnion | database_queries.py:37-40 | counts of distinct authors add up to the number of books of all of them together |
| Queries.BookCountsSum | database_queries.py:35-42 | the counts of Query 2 add up to the number of books whose author_id names an existing author |
| Queries.ByBorrowDateAscTotal | database_queries.py:57 | ORDER BY borrow_date is a total preorder |
| Queries.CurrentlyBorrowed | database_queries.py:49-58 | exactly the unreturned borrowings whose member and book both exist, each once, with member name, title and date, earliest first |
| Queries.HasPricedBookMeans | database_queries.py:74-76 | an author passes WHERE price IS NOT NULL … HAVING COUNT(b.book_id) > 0 exactly when their count of priced books is positive |
| Queries.AuthorsWithPricedBooks | database_queries.py:68-78 | exactly the authors with at least one priced book, each once, with the positive number of such books |
| Queries.LikeIgnoresAsciiCase | database_queries.py:89 | LIKE '%…%' gives the same answer for titles that differ only in ASCII letter case |
| Queries.TitlesContainingHarry | database_queries.py:85-90 | exactly the books whose title contains 'Harry' under LIKE's case rule, authorless books included, with the author name iff the author exists |
| Queries.ByYearTotal | database_queries.py:102 | ORDER BY publication_year over the filtered rows is a total preorder |
| Queries.BooksFrom1940To1950 | database_queries.py:97-103 | exactly the books of an existing author with 1940 ≤ year ≤ 1950 (inclusive), each once, years ascending |
| Properties.CurrentLoansListed | database_queries.py:49-58 | Query 3 has one row per current loan, naming exactly those loans |
| Properties.AuthorsListed | database_design.py:161-165 | get_all_authors has as many rows as there are authors, naming all of them |
| Properties.BooksListed | database_design.py:167-177 | get_all_books has as many rows as there are books, naming all of them |
| Properties.AddAuthorListed | database_design.py:95-109 | a successful add_author adds exactly its new id to get_all_authors and one row; a failed one adds none |
| Properties.AuthorsGrow | database_design.py:161-165 | one more author means exactly one more row in get_all_authors |
| Properties.AddBookListedUnderAuthor | database_design.py:111-126 | a book added with an author id shows up under that id in get_books_by_author, exactly as stored |
| Properties.BorrowBookCurrentLoans | database_queries.py:49-58 | borrow_book adds the new borrowing to the current loans iff its member and book exist, and changes no other loan |
| Properties.ReturnBookCurrentLoans | database_queries.py:56 | after return_book, the borrowing is not a current loan and every other current loan remains |
| Properties.DeleteBookCurrentLoans | database_design.py:243-257 | delete_book keeps the borrowings table, and the current loans lose exactly the loans of the deleted book |
| Properties.DeleteBookHidesBorrowings | database_design.py:189-199 | after delete_book, no member's borrowing listing shows the deleted book |
| Properties.UpdatedPriceListed | database_design.py:202-220 | after a successful price update, get_all_books shows the new price for that book |
| Properties.PricedAuthorListed | database_queries.py:68-78 | pricing a book of an existing author puts that author in Query 4 |
| Demo.TwoBooksByYear | database_design.py:179-187 | an author with exactly two books of known, different years gets them newest first |
| Demo.TwoBookRows | database_design.py:179-187 | such a listing has exactly the two books, in some order |
| Demo.SessionOrwell | database_design.py:333-335 | in the session's store, Orwell's books come back as "1984" then "Animal Farm" |
| Demo.SessionLoanIds | database_design.py:348-350 | both borrowings of the session are current loans |
| Demo.OnlyBorrowing | database_design.py:189-199 | a member with one borrowing of a book that still exists sees exactly that book |
| Demo.AddSessionAuthors | database_design.py:325-327 | the three authors get ids 1, 2, 3, and the authors table is exactly those rows |
| Demo.AddSessionBooks | database_design.py:331-335 | the four books get ids 1 to 4, and the books table is exactly those rows |
| Demo.AddSessionMembers | database_design.py:339-340 | the two members get ids 1 and 2 (distinct emails) |
| Demo.BorrowSessionBooks | database_design.py:348-354 | both borrowings are recorded, and John's listing is Harry Potter alone |
| Demo.LibrarySession | database_design.py:322-369 | the session from a fresh store, in the script's order: the ids returned, John's one borrowing and the new price of book 1; on the final store it adds two reads the script does not run, Orwell's books newest first (get_books_by_author) and two rows in Query 3 |

## Left out

- The sqlite3 connection itself is not modelled: `connect`, `row_factory`, cursors and `commit`. Each statement is applied together with its commit.
- Errors other than constraint violations (disk, locking, a closed connection inside `try`) are not modelled. A failed insert is modelled only as a UNIQUE or NOT NULL violation.
- All `print` output, `display_authors` and `display_books` are I/O and are not modelled. The `__main__` block of `database_queries.py` and the file removal at the start of the session are also left out.
- view_members.py is not part of this model: it imports a function that `database_design.py` does not define.
- `AVG(b.price)` and the `ORDER BY avg_price DESC` of Query 4 are floating-point work. `Queries.AuthorsWithPricedBooks` lists its rows in author-id order and claims no order.
- Query 5 has no ORDER BY, so `Queries.TitlesContainingHarry` claims no order.
- Timestamps are an abstract clock, passed to each stamping operation as `now`. The environment is assumed never to move it backwards: stamping operations require `clock <= now`.
- The order of rows with equal ORDER BY keys is not claimed. SQLite does not fix it; the model happens to keep rowid order.
- `REAL` prices are integer cents. No arithmetic is done on them.
- The AUTOINCREMENT ceiling of 2^63-1 is not modelled: counters are unbounded.
- The 64-bit limit on bound integers is not modelled. sqlite3 binds every int argument (author_id, publication_year, member_id, book_id, borrowing_id, and the ids the reads take) as a 64-bit INTEGER. A Python int outside that range raises `OverflowError`, which no `except` clause catches. The model's ids and years are unbounded.
- Foreign keys are not enforced, because the code never turns them on. The model therefore has no cascade and no rejection of dangling ids.
- The context-manager protocol (`__enter__`/`__exit__`) is left out. `Demo.LibrarySession` closes the store explicitly where the `with` block would.
- Every store method requires an open connection: after `close`, getting a cursor raises outside any `try`. This raise is not modelled.
- Store.DatabaseManager.AddAuthor and the other store methods require the invariant on entry, and the read functions require it too. Every store that the constructor and the operations can produce satisfies it.
- Reads.GetMemberBorrowings and Queries.CurrentlyBorrowed return rows with the borrowing's key attached, a column the SELECT does not project. The same holds for every read that does not project the key.
- Multi-process access and locking are not modelled.
