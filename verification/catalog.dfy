/**
  The state machine behind the `Library` class of script.js, on values: the
  book list, the append-only history log, and the three operations that
  change them (`addBook`, `borrowBook`, `returnBook`). Book ids come from the
  clock and need not be unique, so every lookup is "the first book whose id
  matches", as `Array.prototype.find` does.
 */
module Catalog {
  import opened Wrappers
  import opened BookRecord

  datatype Action = BorrowedEvent | ReturnedEvent

  datatype HistoryRecord = HistoryRecord(id: int, bookId: int, bookTitle: string, action: Action, date: Timestamp)

  datatype LibraryState = LibraryState(books: seq<Book>, history: seq<HistoryRecord>)

  /** The fixed borrower name; the application has a single user. */
  const Borrower := "User"

  /** `books.find(b => b.id === bookId)`, as the index of the first match. */
  function FirstIndexOf(books: seq<Book>, bookId: int): (r: Option<nat>)
    ensures r.Some? ==> r.value < |books| && books[r.value].id == bookId
    ensures r.Some? ==> forall j :: 0 <= j < r.value ==> books[j].id != bookId
    ensures r.None? <==> forall j :: 0 <= j < |books| ==> books[j].id != bookId
    decreases |books|
  {
    if books == [] then None
    else if books[0].id == bookId then Some(0)
    else
      match FirstIndexOf(books[1..], bookId)
      case None =>
        assert forall j :: 1 <= j < |books| ==> books[j] == books[1..][j - 1];
        None
      case Some(k) =>
        assert forall j :: 1 <= j <= k ==> books[j] == books[1..][j - 1];
        Some(k + 1)
  }

  /** Index `i` holds the first book with id `bookId`. */
  predicate IsFirstMatch(books: seq<Book>, bookId: int, i: int) {
    var k := FirstIndexOf(books, bookId);
    k.Some? && k.value == i
  }

  /** Any index whose book matches and is preceded by no match is what `find` returns. */
  lemma FirstIndexOfIs(books: seq<Book>, bookId: int, i: nat)
    requires i < |books| && books[i].id == bookId
    requires forall j :: 0 <= j < i ==> books[j].id != bookId
    ensures FirstIndexOf(books, bookId) == Some(i)
  {
  }

  /** Appending a book never moves an existing first match; it becomes the first match only for a new id. */
  lemma {:induction false} FirstIndexOfAppend(books: seq<Book>, b: Book, bookId: int)
    ensures FirstIndexOf(books + [b], bookId) ==
      if FirstIndexOf(books, bookId).Some? then FirstIndexOf(books, bookId)
      else if b.id == bookId then Some(|books|)
      else None
  {
    var all := books + [b];
    match FirstIndexOf(books, bookId)
    case Some(k) =>
      FirstIndexOfIs(all, bookId, k);
    case None =>
      if b.id == bookId {
        FirstIndexOfIs(all, bookId, |books|);
      } else {
        assert forall j :: 0 <= j < |all| ==> all[j].id != bookId by {
          forall j | 0 <= j < |all| ensures all[j].id != bookId {
            if j < |books| { assert all[j] == books[j]; }
          }
        }
      }
  }

  /** Replacing a book by one with the same id changes no lookup. */
  lemma FirstIndexOfUpdate(books: seq<Book>, i: nat, b: Book, bookId: int)
    requires i < |books| && b.id == books[i].id
    ensures FirstIndexOf(books[i := b], bookId) == FirstIndexOf(books, bookId)
  {
    var updated := books[i := b];
    assert forall j :: 0 <= j < |books| ==> updated[j].id == books[j].id;
    match FirstIndexOf(books, bookId)
    case Some(k) =>
      FirstIndexOfIs(updated, bookId, k);
    case None =>
  }

  /** The title, author, category, id and cover of two books agree. */
  predicate SameIdentity(a: Book, b: Book) {
    a.id == b.id && a.title == b.title && a.author == b.author && a.category == b.category && a.coverUrl == b.coverUrl
  }

  /** `addBook`: append a new available book; the history is not touched. */
  function Add(s: LibraryState, id: int, title: string, author: string, category: string): (s': LibraryState)
    ensures |s'.books| == |s.books| + 1
    ensures s'.books[..|s.books|] == s.books
    ensures s'.books[|s.books|] == NewBook(id, title, author, category)
    ensures Pristine(s'.books[|s.books|])
    ensures s'.history == s.history
  {
    LibraryState(s.books + [NewBook(id, title, author, category)], s.history)
  }

  /** The guard of `borrowBook`: a book with this id exists and the first one is available. */
  predicate BorrowAllowed(books: seq<Book>, bookId: int) {
    var k := FirstIndexOf(books, bookId);
    k.Some? && books[k.value].status == Available
  }

  /** The guard of `returnBook`: a book with this id exists and the first one is borrowed. */
  predicate ReturnAllowed(books: seq<Book>, bookId: int) {
    var k := FirstIndexOf(books, bookId);
    k.Some? && books[k.value].status == Borrowed
  }

  /**
    `borrowBook(bookId)` at time `now`, logging a record with id `recordId`.
    Only the first book with the id may change, the log only grows at its end,
    and a call the guard rejects changes nothing.
   */
  function Borrow(s: LibraryState, bookId: int, now: Timestamp, recordId: int): (s': LibraryState)
    ensures |s'.books| == |s.books|
    ensures forall j :: 0 <= j < |s.books| && !IsFirstMatch(s.books, bookId, j) ==> s'.books[j] == s.books[j]
    ensures BorrowAllowed(s.books, bookId) ==>
      var i := FirstIndexOf(s.books, bookId).value;
      && SameIdentity(s'.books[i], s.books[i])
      && s'.books[i].status == Borrowed
      && s'.books[i].borrowedBy == Some(Borrower)
      && s'.books[i].borrowDate == Some(now)
      && s'.books[i].returnDate == s.books[i].returnDate
      && s'.history == s.history + [HistoryRecord(recordId, bookId, s.books[i].title, BorrowedEvent, now)]
    ensures !BorrowAllowed(s.books, bookId) ==> s' == s
  {
    var k := FirstIndexOf(s.books, bookId);
    if k.Some? && s.books[k.value].status == Available then
      var book := s.books[k.value];
      var lent := book.(status := Borrowed, borrowDate := Some(now), borrowedBy := Some(Borrower));
      LibraryState(
        s.books[k.value := lent],
        s.history + [HistoryRecord(recordId, lent.id, lent.title, BorrowedEvent, lent.borrowDate.value)])
    else
      s
  }

  /**
    `returnBook(bookId)` at time `now`, logging a record with id `recordId`.
    The borrow date of the book is kept; only the return date is stamped.
   */
  function Return(s: LibraryState, bookId: int, now: Timestamp, recordId: int): (s': LibraryState)
    ensures |s'.books| == |s.books|
    ensures forall j :: 0 <= j < |s.books| && !IsFirstMatch(s.books, bookId, j) ==> s'.books[j] == s.books[j]
    ensures ReturnAllowed(s.books, bookId) ==>
      var i := FirstIndexOf(s.books, bookId).value;
      && SameIdentity(s'.books[i], s.books[i])
      && s'.books[i].status == Available
      && s'.books[i].borrowedBy == None
      && s'.books[i].borrowDate == s.books[i].borrowDate
      && s'.books[i].returnDate == Some(now)
      && s'.history == s.history + [HistoryRecord(recordId, bookId, s.books[i].title, ReturnedEvent, now)]
    ensures !ReturnAllowed(s.books, bookId) ==> s' == s
  {
    var k := FirstIndexOf(s.books, bookId);
    if k.Some? && s.books[k.value].status == Borrowed then
      var book := s.books[k.value];
      var back := book.(status := Available, returnDate := Some(now), borrowedBy := None);
      LibraryState(
        s.books[k.value := back],
        s.history + [HistoryRecord(recordId, back.id, back.title, ReturnedEvent, back.returnDate.value)])
    else
      s
  }

  /** No record after position `k` of the log names `bookId`. */
  predicate NoLaterRecord(history: seq<HistoryRecord>, bookId: int, k: int) {
    forall j :: 0 <= j < |history| && k < j ==> history[j].bookId != bookId
  }

  /** The most recent history record about `bookId`, if any. */
  function LastRecord(history: seq<HistoryRecord>, bookId: int): (r: Option<HistoryRecord>)
    ensures r.Some? ==> r.value.bookId == bookId
    ensures r.Some? ==> exists k :: 0 <= k < |history| && history[k] == r.value && NoLaterRecord(history, bookId, k)
    ensures r.None? <==> forall k :: 0 <= k < |history| ==> history[k].bookId != bookId
    decreases |history|
  {
    if history == [] then None
    else if history[|history| - 1].bookId == bookId then Some(history[|history| - 1])
    else
      var r := LastRecord(history[..|history| - 1], bookId);
      assert forall k :: 0 <= k < |history| - 1 ==> history[k] == history[..|history| - 1][k];
      r
  }

  lemma LastRecordAppend(history: seq<HistoryRecord>, r: HistoryRecord, bookId: int)
    ensures LastRecord(history + [r], bookId) == if r.bookId == bookId then Some(r) else LastRecord(history, bookId)
  {
    assert (history + [r])[..|history|] == history;
  }

  /** The lending fields of one book agree with each other. */
  predicate BookConsistent(b: Book) {
    && (b.status == Borrowed <==> b.borrowedBy.Some?)
    && (b.borrowedBy.Some? ==> b.borrowedBy == Some(Borrower))
    && (b.status == Borrowed ==> b.borrowDate.Some?)
    && (b.returnDate.Some? ==> b.borrowDate.Some?)
  }

  /** A history record names a book that exists, by its first match, with that book's title. */
  predicate RecordRefersToBook(books: seq<Book>, r: HistoryRecord) {
    var k := FirstIndexOf(books, r.bookId);
    k.Some? && books[k.value].title == r.bookTitle
  }

  /**
    A book's state agrees with the last history record about it: no record
    means it was never lent; a `borrowed` record means it is out since that
    record's date; a `returned` record means it is back since that date.
   */
  predicate AgreesWithLog(b: Book, last: Option<HistoryRecord>) {
    match last
    case None => Pristine(b)
    case Some(r) =>
      if r.action == BorrowedEvent then b.status == Borrowed && b.borrowDate == Some(r.date)
      else b.status == Available && b.returnDate == Some(r.date)
  }

  /** The invariant every reachable catalog keeps. */
  predicate Consistent(s: LibraryState) {
    && (forall i :: 0 <= i < |s.books| ==> BookConsistent(s.books[i]))
    && (forall i :: 0 <= i < |s.books| && !IsFirstMatch(s.books, s.books[i].id, i) ==> Pristine(s.books[i]))
    && (forall k :: 0 <= k < |s.history| ==> RecordRefersToBook(s.books, s.history[k]))
    && (forall i :: 0 <= i < |s.books| && IsFirstMatch(s.books, s.books[i].id, i) ==>
          AgreesWithLog(s.books[i], LastRecord(s.history, s.books[i].id)))
  }

  /** In a consistent catalog a book is out exactly when it has a borrower and a borrow date. */
  lemma BorrowedIffLent(s: LibraryState, i: nat)
    requires Consistent(s) && i < |s.books|
    ensures s.books[i].status == Borrowed <==> s.books[i].borrowedBy.Some? && s.books[i].borrowDate.Some?
  {
  }

  /** A catalog without books has no history. */
  lemma NoBooksNoHistory(s: LibraryState)
    requires Consistent(s) && s.books == []
    ensures s.history == []
  {
    assert |s.history| > 0 ==> RecordRefersToBook(s.books, s.history[0]);
  }

  lemma {:induction false} AddPreservesConsistent(s: LibraryState, id: int, title: string, author: string, category: string)
    requires Consistent(s)
    ensures Consistent(Add(s, id, title, author, category))
  {
    var b := NewBook(id, title, author, category);
    var s' := Add(s, id, title, author, category);
    var n := |s.books|;
    assert s'.books == s.books + [b];
    forall bookId
      ensures FirstIndexOf(s'.books, bookId) ==
        if FirstIndexOf(s.books, bookId).Some? then FirstIndexOf(s.books, bookId)
        else if b.id == bookId then Some(n)
        else None
    {
      FirstIndexOfAppend(s.books, b, bookId);
    }
    forall i | 0 <= i < n
      ensures s'.books[i] == s.books[i]
    {
    }
    forall i | 0 <= i < |s'.books|
      ensures BookConsistent(s'.books[i])
    {
    }
    forall i | 0 <= i < |s'.books| && !IsFirstMatch(s'.books, s'.books[i].id, i)
      ensures Pristine(s'.books[i])
    {
      if i < n {
        assert !IsFirstMatch(s.books, s.books[i].id, i);
      }
    }
    forall k | 0 <= k < |s'.history|
      ensures RecordRefersToBook(s'.books, s'.history[k])
    {
      assert RecordRefersToBook(s.books, s.history[k]);
    }
    forall i | 0 <= i < |s'.books| && IsFirstMatch(s'.books, s'.books[i].id, i)
      ensures AgreesWithLog(s'.books[i], LastRecord(s'.history, s'.books[i].id))
    {
      if i < n {
        assert IsFirstMatch(s.books, s.books[i].id, i);
      } else {
        assert FirstIndexOf(s.books, id).None?;
        NoRecordForUnknownBook(s, id);
      }
    }
  }

  /** In a consistent catalog, an id no book carries has no history. */
  lemma NoRecordForUnknownBook(s: LibraryState, bookId: int)
    requires Consistent(s) && FirstIndexOf(s.books, bookId).None?
    ensures LastRecord(s.history, bookId).None?
  {
    forall k | 0 <= k < |s.history|
      ensures s.history[k].bookId != bookId
    {
      assert RecordRefersToBook(s.books, s.history[k]);
    }
  }

  /** The lookups after a lending step: no first match moves, and `r` becomes the last record about its book. */
  lemma LendingStepLookups(s: LibraryState, i: nat, nb: Book, r: HistoryRecord)
    requires i < |s.books| && nb.id == s.books[i].id
    ensures forall id :: FirstIndexOf(s.books[i := nb], id) == FirstIndexOf(s.books, id)
    ensures forall id :: LastRecord(s.history + [r], id) == if r.bookId == id then Some(r) else LastRecord(s.history, id)
  {
    forall id
      ensures FirstIndexOf(s.books[i := nb], id) == FirstIndexOf(s.books, id)
    {
      FirstIndexOfUpdate(s.books, i, nb, id);
    }
    forall id
      ensures LastRecord(s.history + [r], id) == if r.bookId == id then Some(r) else LastRecord(s.history, id)
    {
      LastRecordAppend(s.history, r, id);
    }
  }

  /** After a lending step every log record still names an existing book with its title. */
  lemma LendingStepKeepsLinks(s: LibraryState, i: nat, nb: Book, r: HistoryRecord)
    requires Consistent(s)
    requires i < |s.books| && IsFirstMatch(s.books, s.books[i].id, i)
    requires SameIdentity(nb, s.books[i])
    requires r.bookId == nb.id && r.bookTitle == nb.title
    ensures forall k :: 0 <= k < |s.history| + 1 ==> RecordRefersToBook(s.books[i := nb], (s.history + [r])[k])
  {
    var books := s.books[i := nb];
    var history := s.history + [r];
    LendingStepLookups(s, i, nb, r);
    forall k | 0 <= k < |history|
      ensures RecordRefersToBook(books, history[k])
    {
      if k < |s.history| {
        assert history[k] == s.history[k];
        assert RecordRefersToBook(s.books, s.history[k]);
      }
    }
  }

  /** After a lending step the first book with each id still agrees with the last record about that id. */
  lemma LendingStepKeepsAgreement(s: LibraryState, i: nat, nb: Book, r: HistoryRecord)
    requires Consistent(s)
    requires i < |s.books| && IsFirstMatch(s.books, s.books[i].id, i)
    requires SameIdentity(nb, s.books[i])
    requires r.bookId == nb.id && AgreesWithLog(nb, Some(r))
    ensures var books := s.books[i := nb];
      forall j :: 0 <= j < |books| && IsFirstMatch(books, books[j].id, j) ==>
        AgreesWithLog(books[j], LastRecord(s.history + [r], books[j].id))
  {
    var books := s.books[i := nb];
    var history := s.history + [r];
    LendingStepLookups(s, i, nb, r);
    forall j | 0 <= j < |books| && IsFirstMatch(books, books[j].id, j)
      ensures AgreesWithLog(books[j], LastRecord(history, books[j].id))
    {
      if j != i {
        assert books[j].id != r.bookId;
      }
    }
  }

  /**
    The common step of `borrowBook` and `returnBook`: replace the first book
    with its id by `nb` (same identity, consistent lending fields) and log `r`,
    a record about that book whose action and date `nb` agrees with.
   */
  lemma {:induction false} LendingStepPreservesConsistent(s: LibraryState, i: nat, nb: Book, r: HistoryRecord)
    requires Consistent(s)
    requires i < |s.books| && IsFirstMatch(s.books, s.books[i].id, i)
    requires SameIdentity(nb, s.books[i]) && BookConsistent(nb)
    requires r.bookId == nb.id && r.bookTitle == nb.title && AgreesWithLog(nb, Some(r))
    ensures Consistent(LibraryState(s.books[i := nb], s.history + [r]))
  {
    var books := s.books[i := nb];
    LendingStepLookups(s, i, nb, r);
    forall j | 0 <= j < |books| && !IsFirstMatch(books, books[j].id, j)
      ensures Pristine(books[j])
    {
      assert j != i;
    }
    LendingStepKeepsLinks(s, i, nb, r);
    LendingStepKeepsAgreement(s, i, nb, r);
  }

  lemma BorrowPreservesConsistent(s: LibraryState, bookId: int, now: Timestamp, recordId: int)
    requires Consistent(s)
    ensures Consistent(Borrow(s, bookId, now, recordId))
  {
    if BorrowAllowed(s.books, bookId) {
      var s' := Borrow(s, bookId, now, recordId);
      var i := FirstIndexOf(s.books, bookId).value;
      assert s'.books == s.books[i := s'.books[i]];
      LendingStepPreservesConsistent(s, i, s'.books[i], s'.history[|s.history|]);
    }
  }

  lemma ReturnPreservesConsistent(s: LibraryState, bookId: int, now: Timestamp, recordId: int)
    requires Consistent(s)
    ensures Consistent(Return(s, bookId, now, recordId))
  {
    if ReturnAllowed(s.books, bookId) {
      var s' := Return(s, bookId, now, recordId);
      var i := FirstIndexOf(s.books, bookId).value;
      assert s'.books == s.books[i := s'.books[i]];
      LendingStepPreservesConsistent(s, i, s'.books[i], s'.history[|s.history|]);
    }
  }

  /** A second `borrowBook` of the same id right after the first changes nothing. */
  lemma BorrowTwiceIsNoOp(s: LibraryState, bookId: int, now: Timestamp, recordId: int, later: Timestamp, laterId: int)
    ensures var s' := Borrow(s, bookId, now, recordId); Borrow(s', bookId, later, laterId) == s'
  {
    if BorrowAllowed(s.books, bookId) {
      var s' := Borrow(s, bookId, now, recordId);
      var i := FirstIndexOf(s.books, bookId).value;
      assert s'.books == s.books[i := s'.books[i]];
      FirstIndexOfUpdate(s.books, i, s'.books[i], bookId);
    }
  }

  /** A second `returnBook` of the same id right after the first changes nothing. */
  lemma ReturnTwiceIsNoOp(s: LibraryState, bookId: int, now: Timestamp, recordId: int, later: Timestamp, laterId: int)
    ensures var s' := Return(s, bookId, now, recordId); Return(s', bookId, later, laterId) == s'
  {
    if ReturnAllowed(s.books, bookId) {
      var s' := Return(s, bookId, now, recordId);
      var i := FirstIndexOf(s.books, bookId).value;
      assert s'.books == s.books[i := s'.books[i]];
      FirstIndexOfUpdate(s.books, i, s'.books[i], bookId);
    }
  }

  /**
    Borrowing an available book and then returning it puts the book back as
    it was, except that both dates are now stamped, and logs the two events.
   */
  lemma BorrowThenReturn(s: LibraryState, bookId: int, t1: Timestamp, r1: int, t2: Timestamp, r2: int)
    requires Consistent(s) && BorrowAllowed(s.books, bookId)
    ensures var i := FirstIndexOf(s.books, bookId).value;
      var b := s.books[i];
      var s2 := Return(Borrow(s, bookId, t1, r1), bookId, t2, r2);
      && s2.books == s.books[i := b.(borrowDate := Some(t1), returnDate := Some(t2))]
      && s2.history == s.history + [HistoryRecord(r1, bookId, b.title, BorrowedEvent, t1), HistoryRecord(r2, bookId, b.title, ReturnedEvent, t2)]
  {
    var i := FirstIndexOf(s.books, bookId).value;
    var b := s.books[i];
    var s1 := Borrow(s, bookId, t1, r1);
    assert s1.books == s.books[i := s1.books[i]];
    FirstIndexOfUpdate(s.books, i, s1.books[i], bookId);
    var s2 := Return(s1, bookId, t2, r2);
    assert s2.books == s1.books[i := s2.books[i]];
    assert s2.books[i] == b.(borrowDate := Some(t1), returnDate := Some(t2));
  }
}
