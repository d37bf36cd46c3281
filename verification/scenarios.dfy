/**
  End-to-end walks through the catalog operations: add a book to an empty
  catalog, find it by a lower-case search, borrow it and return it.
 */
module Scenarios {
  import opened Wrappers
  import opened Text
  import opened BookRecord
  import opened Catalog
  import opened Search

  /** Searching "dune" finds the book titled "Dune", whatever the case of the title. */
  lemma DuneIsFound(id: int)
    ensures Matches(NewBook(id, "Dune", "Frank Herbert", "fiction"), Lower("dune"), AllCategories)
  {
    var title := Lower("Dune");
    assert title[0] == 'd' && title[1] == 'u' && title[2] == 'n' && title[3] == 'e';
    assert title == "dune";
    assert Lower("dune") == "dune";
    assert OccursAt(title, "dune", 0);
  }

  /**
    Add "Dune" to an empty catalog, borrow it, return it: the book ends
    available again and the log holds a `borrowed` then a `returned` record.
   */
  lemma DuneLendingCycle(id: int, t1: Timestamp, r1: int, t2: Timestamp, r2: int)
    ensures var s1 := Add(LibraryState([], []), id, "Dune", "Frank Herbert", "fiction");
      var s2 := Borrow(s1, id, t1, r1);
      var s3 := Return(s2, id, t2, r2);
      && |s1.books| == 1 && s1.books[0].status == Available && s1.history == []
      && |s2.books| == 1 && s2.books[0].status == Borrowed
      && |s2.history| == 1 && s2.history[0].action == BorrowedEvent
      && |s3.books| == 1 && s3.books[0].status == Available
      && |s3.history| == 2 && s3.history[1].action == ReturnedEvent
  {
    var s1 := Add(LibraryState([], []), id, "Dune", "Frank Herbert", "fiction");
    FirstIndexOfIs(s1.books, id, 0);
    var s2 := Borrow(s1, id, t1, r1);
    FirstIndexOfIs(s2.books, id, 0);
  }
}
