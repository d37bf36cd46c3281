# Book library catalog — a verified Dafny model

This project models the in-memory catalog manager of a browser book-lending
tracker (`script.js`): the `Book` record with its cover lookup table, the
`Library` class that owns an ordered list of books and an append-only history
log, the borrow/return state machine over that list, the search and category
filter, and the sixteen-book sample seed.

Layout:

- `wrappers.dfy` — `Option`, standing for the source's `null`-able fields.
- `text.dfy` — ASCII lower-casing (`toLowerCase`) and substring search (`includes`).
- `book.dfy` — the `Book` record, its constructor `NewBook` and `BookCover`.
- `catalog.dfy` — the catalog as a value (`LibraryState`), the operations
  `Add`, `Borrow`, `Return` as functions, the invariant `Consistent` and the
  lemmas that every operation keeps it.
- `search.dfy` — the filter predicate and `Filter`, with order and exactness lemmas.
- `sample_data.dfy` — the sample books and what filtering them yields.
- `library.dfy` — the `Library` class: `books` and `history` fields updated in
  place by `AddBook`, `BorrowBook`, `ReturnBook` and `SeedSampleBooks`, each
  tied to the matching function of `catalog.dfy` and keeping `Consistent`.
- `scenarios.dfy` — a full add / search / borrow / return walk-through.

Book ids come from the clock and are not guaranteed unique, so lookups are
"the first book whose id matches" (`FirstIndexOf`), exactly as
`Array.prototype.find` behaves; nothing assumes uniqueness. The invariant
`Consistent` states, for every reachable catalog: a book is borrowed exactly
when it has a borrower (always `"User"`), a borrowed book has a borrow date,
a returned book was borrowed; a book shadowed by an earlier book with the same
id is never touched; every history record names an existing book by its first
match and carries its title; and the first book with each id agrees with the
last history record about that id (none: never lent; `borrowed`: out since
that record's date; `returned`: back since that date), while later books
sharing the id stay untouched in their initial state.

The clock is a parameter: `id`/`recordId` stand for `Date.now()` and `now` for
`new Date().toISOString()`. `returnBook` stamps `returnDate` and clears
`borrowedBy` but leaves `borrowDate` as it was (script.js:107-109).

## Model

| member | source | states |
|---|---|---|
| `BookRecord.NewBook` | CodeAlpha_Book_Library/CodeAlpha_Book_Library/script.js:3-12 | a new book carries the given id, title, author and category, is available with no borrower, borrow date or return date, and has the cover chosen for its id |
| `BookRecord.CoverTableShape` | CodeAlpha_Book_Library/CodeAlpha_Book_Library/script.js:17-34 | the cover table has exactly the keys 1..16 and no empty entry |
| `BookRecord.BookCover` | CodeAlpha_Book_Library/CodeAlpha_Book_Library/script.js:15-35 | ids 1..16 get their own table entry, every other id gets entry 1; the result is never empty (the lookup is total) |
| `Text.ToLowerChar` | CodeAlpha_Book_Library/CodeAlpha_Book_Library/script.js:126 | the result is never an upper-case letter; upper-case letters shift to their lower-case partner, every other character is kept |
| `Text.Lower` | CodeAlpha_Book_Library/CodeAlpha_Book_Library/script.js:131-132 | lower-casing keeps the length, leaves no upper-case letter and keeps every character that was not upper-case |
| `Text.LowerIdempotent` | CodeAlpha_Book_Library/CodeAlpha_Book_Library/script.js:126-132 | lower-casing an already lower-cased string changes nothing |
| `Text.Includes` | CodeAlpha_Book_Library/CodeAlpha_Book_Library/script.js:131-132 | `includes` holds exactly when the term occurs at some offset of the string (the empty term occurs everywhere) |
| `Catalog.FirstIndexOf` | CodeAlpha_Book_Library/CodeAlpha_Book_Library/script.js:84 | the result is the index of a book with that id preceded by no other such book, and it is absent exactly when no book has the id |
| `Catalog.FirstIndexOfAppend` | CodeAlpha_Book_Library/CodeAlpha_Book_Library/script.js:75 | appending a book never moves an existing first match and becomes the first match only for an id not yet present |
| `Catalog.FirstIndexOfUpdate` | CodeAlpha_Book_Library/CodeAlpha_Book_Library/script.js:86-88 | changing a book's lending fields in place changes no lookup by id |
| `Catalog.Add` | CodeAlpha_Book_Library/CodeAlpha_Book_Library/script.js:74-75 | the book list grows by one, earlier books are unchanged, the new last book is the book the constructor makes from the given fields (its cover included) and is in the initial state, the history is unchanged |
| `Catalog.Borrow` | CodeAlpha_Book_Library/CodeAlpha_Book_Library/script.js:83-96 | if the first book with the id is available it becomes borrowed by `User` with borrow date `now`, keeping its identity and return date, and exactly one `borrowed` record with its id, title and date `now` is appended; every other book is unchanged; if no book has the id or the first one is borrowed, nothing changes |
| `Catalog.Return` | CodeAlpha_Book_Library/CodeAlpha_Book_Library/script.js:104-117 | if the first book with the id is borrowed it becomes available with no borrower and return date `now`, keeping its borrow date, and exactly one `returned` record is appended; every other book is unchanged; otherwise nothing changes |
| `Catalog.LastRecord` | CodeAlpha_Book_Library/CodeAlpha_Book_Library/script.js:90-96 | the result is a record of the log that names the book and no later record names it, i.e. the last record about the book; there is none exactly when no record names it |
| `Catalog.BorrowedIffLent` | CodeAlpha_Book_Library/CodeAlpha_Book_Library/script.js:8-10 | in a consistent catalog a book is borrowed exactly when it has both a borrower and a borrow date |
| `Catalog.NoBooksNoHistory` | CodeAlpha_Book_Library/CodeAlpha_Book_Library/script.js:190 | a consistent catalog without books has an empty log, so seeding starts from an empty log |
| `Catalog.AddPreservesConsistent` | CodeAlpha_Book_Library/CodeAlpha_Book_Library/script.js:69-76 | adding a book, even one with an id already in use, keeps the catalog invariant |
| `Catalog.LendingStepPreservesConsistent` | CodeAlpha_Book_Library/CodeAlpha_Book_Library/script.js:83-123 | replacing the first book with an id by a consistent book of the same identity and logging a record that agrees with it keeps the invariant |
| `Catalog.BorrowPreservesConsistent` | CodeAlpha_Book_Library/CodeAlpha_Book_Library/script.js:83-102 | `borrowBook` keeps the catalog invariant, whether or not it lends the book |
| `Catalog.ReturnPreservesConsistent` | CodeAlpha_Book_Library/CodeAlpha_Book_Library/script.js:104-123 | `returnBook` keeps the catalog invariant, whether or not it takes the book back |
| `Catalog.NoRecordForUnknownBook` | CodeAlpha_Book_Library/CodeAlpha_Book_Library/script.js:92-93 | in a consistent catalog no history record names an id that no book carries |
| `Catalog.BorrowTwiceIsNoOp` | CodeAlpha_Book_Library/CodeAlpha_Book_Library/script.js:85 | borrowing the same id twice in a row: the second call changes nothing |
| `Catalog.ReturnTwiceIsNoOp` | CodeAlpha_Book_Library/CodeAlpha_Book_Library/script.js:106 | returning the same id twice in a row: the second call changes nothing |
| `Catalog.BorrowThenReturn` | CodeAlpha_Book_Library/CodeAlpha_Book_Library/script.js:83-123 | borrowing an available book and returning it restores the book except for its two stamped dates and logs a `borrowed` then a `returned` record |
| `Search.Filter` | CodeAlpha_Book_Library/CodeAlpha_Book_Library/script.js:129-135 | the result is no longer than the input and holds exactly the input's books that match the search term and the category filter |
| `Search.FilterAppend` | CodeAlpha_Book_Library/CodeAlpha_Book_Library/script.js:129 | filtering a concatenation is the concatenation of the filtered parts, so relative order is kept |
| `Search.FilterCount` | CodeAlpha_Book_Library/CodeAlpha_Book_Library/script.js:129-135 | every matching book appears in the result as many times as in the input, every other book not at all |
| `Search.FilterKeepsAll` | CodeAlpha_Book_Library/CodeAlpha_Book_Library/script.js:129-135 | when every book matches, the filter returns the list unchanged |
| `Search.FilterDropsAll` | CodeAlpha_Book_Library/CodeAlpha_Book_Library/script.js:129-135 | when no book matches, the filter returns nothing |
| `Search.FilterShowsAll` | CodeAlpha_Book_Library/CodeAlpha_Book_Library/script.js:130-133 | an empty term with category `all` returns the whole book list in its order |
| `SampleData.SampleBooks` | CodeAlpha_Book_Library/CodeAlpha_Book_Library/script.js:191-215 | sixteen books; book `i` has id `i + 1`, the listed title and author, the category of block `i / 4`, the cover table's entry for its id, and is in the initial state |
| `SampleData.SampleIdsDistinct` | CodeAlpha_Book_Library/CodeAlpha_Book_Library/script.js:193-214 | every sample book is the first book with its id |
| `SampleData.SeedConsistent` | CodeAlpha_Book_Library/CodeAlpha_Book_Library/script.js:190-216 | the seeded catalog with an empty log satisfies the catalog invariant |
| `SampleData.SeedFilterByCategory` | CodeAlpha_Book_Library/CodeAlpha_Book_Library/script.js:191-215 | filtering the seed by any of its categories with an empty term returns exactly that category's four books, in order |
| `SampleData.SeedScience` | CodeAlpha_Book_Library/CodeAlpha_Book_Library/script.js:204-208 | the `science` filter on the seed returns four books, with ids 9 to 12 |
| `LibraryApp.Library.constructor` | CodeAlpha_Book_Library/CodeAlpha_Book_Library/script.js:41-45 | over empty storage the library starts with no books and no history, satisfying the invariant |
| `LibraryApp.Library.AddBook` | CodeAlpha_Book_Library/CodeAlpha_Book_Library/script.js:69-81 | the fields become `Add` of their old value, and the invariant is kept |
| `LibraryApp.Library.BorrowBook` | CodeAlpha_Book_Library/CodeAlpha_Book_Library/script.js:83-102 | the fields become `Borrow` of their old value; the save happens exactly when the guard holds, which is exactly when the state changes; the invariant is kept |
| `LibraryApp.Library.ReturnBook` | CodeAlpha_Book_Library/CodeAlpha_Book_Library/script.js:104-123 | the fields become `Return` of their old value; the save happens exactly when the guard holds, which is exactly when the state changes; the invariant is kept |
| `LibraryApp.Library.FilterBooks` | CodeAlpha_Book_Library/CodeAlpha_Book_Library/script.js:125-138 | the shown books are the filter of the book list by the lower-cased search input and the category, i.e. exactly the matching books |
| `LibraryApp.Library.SeedSampleBooks` | CodeAlpha_Book_Library/CodeAlpha_Book_Library/script.js:190-217 | an empty catalog receives the sixteen sample books in order, a non-empty one is left alone, the log is untouched, the invariant is kept |
| `Scenarios.DuneIsFound` | CodeAlpha_Book_Library/CodeAlpha_Book_Library/script.js:129-134 | the search `dune` matches the book titled `Dune` |
| `Scenarios.DuneLendingCycle` | CodeAlpha_Book_Library/CodeAlpha_Book_Library/script.js:69-123 | add `Dune` to an empty catalog, borrow it, return it: one available book, then borrowed with one `borrowed` record, then available with a second, `returned`, record |

## Left out

- DOM wiring and rendering (`init`, `renderBooks`, `renderHistory`, reading and resetting the form, script.js:47-67, 70-72, 77, 80, 99-100, 120-121, 137, 140-178): user-interface work with no state of its own; `FilterBooks` takes the search text and category as parameters and returns the list that would be rendered.
- Browser storage (`localStorage` load in the constructor, script.js:42-43, and `saveToLocalStorage`, script.js:180-183): external I/O through the JSON serialiser; the constructor models empty storage, and `BorrowBook`/`ReturnBook` report through `saved` whether a save would happen. Loading a previously saved catalog, and so any load/save round trip, is not modelled.
- Clock reads (`Date.now()`, `new Date().toISOString()`, script.js:74, 87, 91, 108, 112): passed in as parameters; id uniqueness is neither assumed nor proved.
- Unicode case mapping of `toLowerCase`: only ASCII letters are lower-cased; strings are sequences of characters, not UTF-16 code units.
- The global `window.library` instance (script.js:187): environment plumbing; the seed block is the method `SeedSampleBooks` of the one `Library` object.
- Object identity of books: script.js keeps each book as a mutable object and `find` returns a reference to it; the model keeps books as values and replaces the first matching one in the list. No other holder of a book reference reads it after a change (filter results go straight to rendering), so nothing observable is lost.
- Dynamic typing: ids compared with `===` are modelled as integers, statuses as the two known values, and all book fields as present; records loaded from storage with other shapes are out of scope together with storage.
