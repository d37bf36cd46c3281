/**
  The `Library` class of script.js: the catalog manager that owns the book
  list and the history log and changes them in place. Each method's new
  state is given by the matching function of module Catalog, whose
  contracts and lemmas state what the operation does; every method keeps
  the catalog invariant `Consistent`.

  Clock reads become parameters: `id`, `recordId` stand for `Date.now()`
  and `now` for `new Date().toISOString()`. The `saved` results report
  whether the method would call `saveToLocalStorage`.
 */
module LibraryApp {
  import opened Wrappers
  import opened Text
  import opened BookRecord
  import opened Catalog
  import opened Search
  import opened SampleData

  class Library {
    var books: seq<Book>
    var history: seq<HistoryRecord>

    /** The catalog as a value. */
    function State(): LibraryState
      reads this
    {
      LibraryState(books, history)
    }

    ghost predicate Valid()
      reads this
    {
      Consistent(State())
    }

    /** A library over empty storage: no books, no history. */
    constructor ()
      ensures Valid()
      ensures books == [] && history == []
    {
      books := [];
      history := [];
    }

    /** `addBook`: push a new available book. */
    method AddBook(id: int, title: string, author: string, category: string)
      requires Valid()
      modifies this
      ensures Valid()
      ensures State() == Add(old(State()), id, title, author, category)
    {
      AddPreservesConsistent(State(), id, title, author, category);
      var book := NewBook(id, title, author, category);
      books := books + [book];
    }

    /** `borrowBook`: lend the first book with `bookId` if it is available; otherwise do nothing. */
    method BorrowBook(bookId: int, now: Timestamp, recordId: int) returns (saved: bool)
      requires Valid()
      modifies this
      ensures Valid()
      ensures State() == Borrow(old(State()), bookId, now, recordId)
      ensures saved == BorrowAllowed(old(books), bookId)
      ensures saved <==> State() != old(State())
    {
      BorrowPreservesConsistent(State(), bookId, now, recordId);
      var found := FirstIndexOf(books, bookId);
      saved := false;
      if found.Some? && books[found.value].status == Available {
        var i := found.value;
        var book := books[i];
        book := book.(status := Borrowed);
        book := book.(borrowDate := Some(now));
        book := book.(borrowedBy := Some(Borrower));
        books := books[i := book];
        history := history + [HistoryRecord(recordId, book.id, book.title, BorrowedEvent, book.borrowDate.value)];
        saved := true;
      }
    }

    /** `returnBook`: take back the first book with `bookId` if it is borrowed; otherwise do nothing. */
    method ReturnBook(bookId: int, now: Timestamp, recordId: int) returns (saved: bool)
      requires Valid()
      modifies this
      ensures Valid()
      ensures State() == Return(old(State()), bookId, now, recordId)
      ensures saved == ReturnAllowed(old(books), bookId)
      ensures saved <==> State() != old(State())
    {
      ReturnPreservesConsistent(State(), bookId, now, recordId);
      var found := FirstIndexOf(books, bookId);
      saved := false;
      if found.Some? && books[found.value].status == Borrowed {
        var i := found.value;
        var book := books[i];
        book := book.(status := Available);
        book := book.(returnDate := Some(now));
        book := book.(borrowedBy := None);
        books := books[i := book];
        history := history + [HistoryRecord(recordId, book.id, book.title, ReturnedEvent, book.returnDate.value)];
        saved := true;
      }
    }

    /**
      `filterBooks` with the search box and category selector passed in:
      the search box is lower-cased once, then each book is matched against it.
     */
    method FilterBooks(searchInput: string, categoryFilter: string) returns (shown: seq<Book>)
      ensures shown == Filter(books, Lower(searchInput), categoryFilter)
      ensures forall b :: b in shown <==> b in books && Matches(b, Lower(searchInput), categoryFilter)
    {
      var term := Lower(searchInput);
      shown := Filter(books, term, categoryFilter);
    }

    /** The start-up seed: when the catalog is empty, push the sixteen sample books one by one. */
    method SeedSampleBooks()
      requires Valid()
      modifies this
      ensures Valid()
      ensures old(books) == [] ==> books == SampleBooks()
      ensures old(books) != [] ==> books == old(books)
      ensures history == old(history)
    {
      if |books| == 0 {
        NoBooksNoHistory(State());
        var samples := SampleBooks();
        for k := 0 to |samples|
          invariant books == samples[..k]
          invariant history == old(history)
        {
          books := books + [samples[k]];
        }
        assert books == samples;
        SeedConsistent();
      }
    }
  }
}
