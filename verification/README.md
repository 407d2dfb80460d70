# Personal library manager: the book catalogue

This project models the core of a single-user book-catalogue app. The
catalogue is an ordered table of records with the columns Title, Author,
Genre and Year. It is held for the whole session and changed by three forms:

- **Add** appends one record. It does so only when title, author and genre
  are non-empty; otherwise it shows the "fill in all fields" error.
- **Edit** picks a title. It overwrites the four cells of the *first* record
  with that title, in place, and does not check the new text.
- **Delete** picks a title and removes *every* record with that title.

The catalogue is also read by **Search**. For a non-empty query, Search lists
the records whose title, author or genre contains the query, ignoring case,
in catalogue order. For an empty query it lists nothing.

Modules:

- `Text` (`text.dfy`): ASCII lower-casing and substring containment. It proves
  that the recursive `Contains` agrees with the positional definition of an
  occurrence.
- `Sequences` (`sequences.dfy`): an order-preserving `Filter`. Both the
  search mask and the delete mask are filters. `Wrappers` holds `Option`.
- `Catalogue` (`catalogue.dfy`): the `Book` record, the year bounds 1800 and
  2025, and `Search`, `FirstIndex`, `Edited` and `Deleted` as pure functions,
  with lemmas about them.
- `LibraryManager` (`library.dfy`): class `Library` with a `books` field and
  the methods `AddBook`, `EditBook` and `DeleteBook`. Each method's new state
  is tied to the old one. `Session` is a client that replays the add, search,
  edit and delete sequence for "1984" by George Orwell.

The year inputs of both forms are bounded to [1800, 2025] by the input widget.
The model states this as a precondition on `AddBook` and `EditBook`, and
proves that every year these methods store stays in that range.

Where the app's design description and its code differ, the model follows
the code:

- Edit does not check its text fields for emptiness. The design description
  says it validates like add. `Catalogue.EditCanStoreEmptyFields` shows that
  an edit can store a record with empty title, author and genre.
- Edit on a title no record has is a no-op, not a "not found" error. In the
  app, the selection always comes from the existing titles. An empty
  selected title also makes edit do nothing (`if book_to_edit`).
- Add's year check is the input's bounds plus Python truthiness (year
  non-zero). Add does not raise a separate range error.

## Model

| member | source | states |
|---|---|---|
| `Text.Lower` | my-library-manager/library_manager.py:93-95 | case folding keeps the length and lower-cases each character on its own (ASCII letters only) |
| `Text.ContainsIffOccurs` | my-library-manager/library_manager.py:93-95 | the substring test is true exactly when the query occurs at some position of the cell, in both directions |
| `Text.ContainsIgnoringCaseSelf` | my-library-manager/library_manager.py:93 | every string contains itself, ignoring case |
| `Sequences.Filter` | my-library-manager/library_manager.py:92-96 | the kept rows are rows of the table that pass the mask, every row that passes is kept, and the result is no longer than the table |
| `Sequences.FilterAppend` | my-library-manager/library_manager.py:92-96 | masking a concatenation concatenates the masked parts, so relative order is kept |
| `Sequences.FilterSingleton` | my-library-manager/library_manager.py:92-96 | a single row is kept exactly when it passes the mask |
| `Sequences.FilterKeepsAll` | my-library-manager/library_manager.py:132 | a mask every row passes leaves the table unchanged |
| `Sequences.FilterIdempotent` | my-library-manager/library_manager.py:132 | applying the same mask twice equals applying it once |
| `Sequences.FilterAgreeing` | my-library-manager/library_manager.py:93-95 | two masks that agree on every row select the same rows |
| `Catalogue.Search` | my-library-manager/library_manager.py:90-102 | an empty query gives no listing; otherwise the listing holds exactly the rows whose title, author or genre contains the query ignoring case |
| `Catalogue.SearchKeepsOrder` | my-library-manager/library_manager.py:92-96 | search results from an earlier part of the table come before those from a later part |
| `Catalogue.SearchIgnoresQueryCase` | my-library-manager/library_manager.py:93-95 | queries that differ only in letter case give the same listing |
| `Catalogue.AddedBookIsFound` | my-library-manager/library_manager.py:61-64 | after a successful add, searching for the new title lists the new record |
| `Catalogue.FirstIndex` | my-library-manager/library_manager.py:109 | the found position holds the title and no earlier row does; no position is found only when no row has the title |
| `Catalogue.Edited` | my-library-manager/library_manager.py:108-120 | editing keeps the length, and an empty selection or a title no row has leaves the table unchanged |
| `Catalogue.EditChangesFirstMatchOnly` | my-library-manager/library_manager.py:109-120 | when row i is the first with the selected title, the edit replaces row i with the four new values and keeps every other row |
| `Catalogue.EditKeepsYearsInRange` | my-library-manager/library_manager.py:114-120 | with a year from the bounded input, every stored year stays within [1800, 2025] after an edit |
| `Catalogue.EditCanStoreEmptyFields` | my-library-manager/library_manager.py:111-120 | a table whose rows all pass the add check can, after an edit, hold a row with empty title, author and genre |
| `Catalogue.Deleted` | my-library-manager/library_manager.py:132 | no remaining row has the deleted title, every remaining row was in the table, and every row with another title remains |
| `Catalogue.DeletedCount` | my-library-manager/library_manager.py:132 | deleting shortens the table by the number of rows with that title |
| `Catalogue.DeleteKeepsOrder` | my-library-manager/library_manager.py:132 | the surviving rows keep their relative order |
| `Catalogue.DeleteIdempotent` | my-library-manager/library_manager.py:132 | deleting the same title a second time changes nothing |
| `Catalogue.DeleteAbsentTitle` | my-library-manager/library_manager.py:132 | deleting a title no row has leaves the table unchanged |
| `Catalogue.DeleteKeepsInvariants` | my-library-manager/library_manager.py:132 | deleting keeps stored years in range and keeps rows whose fields are all filled |
| `LibraryManager.Library.constructor` | my-library-manager/library_manager.py:20-21 | the session's catalogue starts as the loaded rows |
| `LibraryManager.Library.AddBook` | my-library-manager/library_manager.py:58-69 | reports success exactly when all fields are filled; on success appends the one new record at the end and keeps earlier rows in order; otherwise leaves the table unchanged; keeps stored years in range and filled rows filled |
| `LibraryManager.Library.EditBook` | my-library-manager/library_manager.py:107-121 | reports an update exactly when the selection is non-empty and some row has it; the new table is the first-match edit of the old one; stored years stay in range |
| `LibraryManager.Library.DeleteBook` | my-library-manager/library_manager.py:130-133 | the new table is the old one without any row having the selected title; no row has that title afterwards; stored years stay in range and filled rows stay filled |
| `LibraryManager.OrwellIsFound` | my-library-manager/library_manager.py:91-96 | the query "orwell" matches the author "George Orwell" and a search over that one record lists exactly it |

## Left out

- Loading and saving the table file (lines 9-17, 65, 121, 133) are disk I/O. The constructor takes the loaded rows as a parameter. The save after each change is not modelled.
- The CSV export (lines 139-147) is left out: its bytes come from the table library's CSV writer and UTF-8 encoding, whose quoting rules are not visible here. The export/re-load round trip is therefore not modelled either.
- Catalogue.Search: the app's `str.contains` reads the query as a regular expression. The model matches it as a plain string, so a query with regular-expression metacharacters may match differently in the app, or raise an error there.
- Catalogue.Search: `case=False` folds case by full Unicode rules. The model lower-cases ASCII letters only.
- Missing cells read from the file (NaN) and the Year column's type conversion are not modelled. Every record has four string/integer values.
- Table index labels, which stop being 0..n-1 after a delete, are not modelled. The model works by position, which picks out the same row.
- The input widgets' bounds are preconditions on `AddBook` and `EditBook`. The widget error raised when an existing year is outside [1800, 2025] at line 114 is not modelled.
- The user interface (styling, messages, balloons and snow, the listing display) and the session-state mechanism that keeps the table across reruns are left out. One long-lived `Library` object stands in for the session slot.
