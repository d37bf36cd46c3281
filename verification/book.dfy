/**
  The `Book` record of script.js: a catalog entry with its lending state and
  a cover image chosen by id from a fixed table.
 */
module BookRecord {
  import opened Wrappers

  /** An ISO-8601 time stamp as produced by `new Date().toISOString()`. */
  type Timestamp = string

  datatype Status = Available | Borrowed

  datatype Book = Book(
    id: int,
    title: string,
    author: string,
    category: string,
    status: Status,
    borrowedBy: Option<string>,
    borrowDate: Option<Timestamp>,
    returnDate: Option<Timestamp>,
    coverUrl: string)

  /** The state every book starts in: available, never lent, never returned. */
  predicate Pristine(b: Book) {
    b.status == Available && b.borrowedBy == None && b.borrowDate == None && b.returnDate == None
  }

  /** The `Book` constructor. */
  function NewBook(id: int, title: string, author: string, category: string): (b: Book)
    ensures b.id == id && b.title == title && b.author == author && b.category == category
    ensures Pristine(b)
    ensures b.coverUrl == BookCover(id)
  {
    Book(id, title, author, category, Available, None, None, None, BookCover(id))
  }

  /** The cover table, keyed by the ids of the sixteen sample books. */
  const Covers: map<int, string> := map[
    1 := "https://images.unsplash.com/photo-1541963463532-d68292c34b19",
    2 := "https://images.unsplash.com/photo-1589829085413-56de8ae18c73",
    3 := "https://images.unsplash.com/photo-1544931170-3ca1337cce88",
    4 := "https://images.unsplash.com/photo-1544716278-ca5e3f4abd8c",
    5 := "https://images.unsplash.com/photo-1532012197267-da84d127e765",
    6 := "https://images.unsplash.com/photo-1541963463532-d68292c34b19",
    7 := "https://images.unsplash.com/photo-1532094349884-543bc11b234d",
    8 := "https://images.unsplash.com/photo-1505664194779-8beaceb93744",
    9 := "https://images.unsplash.com/photo-1532012197267-da84d127e765",
    10 := "https://images.unsplash.com/photo-1544716278-ca5e3f4abd8c",
    11 := "https://images.unsplash.com/photo-1589829085413-56de8ae18c73",
    12 := "https://images.unsplash.com/photo-1544931170-3ca1337cce88",
    13 := "https://images.unsplash.com/photo-1541963463532-d68292c34b19",
    14 := "https://images.unsplash.com/photo-1532012197267-da84d127e765",
    15 := "https://images.unsplash.com/photo-1544716278-ca5e3f4abd8c",
    16 := "https://images.unsplash.com/photo-1505664194779-8beaceb93744"
  ]

  /** The table holds exactly the ids 1 to 16, and no entry is the empty (falsy) string. */
  lemma CoverTableShape()
    ensures forall id :: id in Covers <==> 1 <= id <= 16
    ensures forall id :: id in Covers ==> Covers[id] != ""
  {
  }

  /**
    `getBookCover`: `covers[bookId] || covers[1]`. The `||` falls back on a
    missing key and also on an empty entry; since no entry is empty, the
    fallback happens exactly for ids outside 1..16.
   */
  function BookCover(bookId: int): (url: string)
    ensures 1 <= bookId <= 16 ==> url == Covers[bookId]
    ensures !(1 <= bookId <= 16) ==> url == Covers[1]
    ensures url != ""
  {
    CoverTableShape();
    if bookId in Covers && Covers[bookId] != "" then Covers[bookId] else Covers[1]
  }
}
