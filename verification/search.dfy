/**
  The predicate and the filter behind `filterBooks` in script.js. The search
  term is the already lower-cased contents of the search box; the category
  filter is either a category name or the sentinel `all`.
 */
module Search {
  import opened Text
  import opened BookRecord

  /** The category filter value that lets every category through. */
  const AllCategories := "all"

  /** Empty term, or a case-insensitive substring of the title or of the author. */
  predicate MatchesSearch(b: Book, term: string) {
    term == "" || Includes(Lower(b.title), term) || Includes(Lower(b.author), term)
  }

  predicate MatchesCategory(b: Book, categoryFilter: string) {
    categoryFilter == AllCategories || b.category == categoryFilter
  }

  predicate Matches(b: Book, term: string, categoryFilter: string) {
    MatchesSearch(b, term) && MatchesCategory(b, categoryFilter)
  }

  /** `books.filter(...)`: the matching books, in their original order. */
  function Filter(books: seq<Book>, term: string, categoryFilter: string): (r: seq<Book>)
    ensures |r| <= |books|
    ensures forall b :: b in r <==> b in books && Matches(b, term, categoryFilter)
    decreases |books|
  {
    if books == [] then []
    else
      var rest := Filter(books[1..], term, categoryFilter);
      if Matches(books[0], term, categoryFilter) then [books[0]] + rest else rest
  }

  /** Filtering distributes over concatenation, so it never reorders books. */
  lemma {:induction false} FilterAppend(a: seq<Book>, b: seq<Book>, term: string, categoryFilter: string)
    ensures Filter(a + b, term, categoryFilter) == Filter(a, term, categoryFilter) + Filter(b, term, categoryFilter)
    decreases |a|
  {
    if a == [] {
      assert a + b == b;
    } else {
      assert (a + b)[0] == a[0];
      assert (a + b)[1..] == a[1..] + b;
      FilterAppend(a[1..], b, term, categoryFilter);
    }
  }

  /** Each book occurs in the result exactly as often as in the input if it matches, and not at all otherwise. */
  lemma {:induction false} FilterCount(books: seq<Book>, term: string, categoryFilter: string, x: Book)
    ensures multiset(Filter(books, term, categoryFilter))[x] ==
      if Matches(x, term, categoryFilter) then multiset(books)[x] else 0
    decreases |books|
  {
    if books != [] {
      assert books == [books[0]] + books[1..];
      FilterCount(books[1..], term, categoryFilter, x);
    }
  }

  /** When every book matches, the filter returns the list unchanged. */
  lemma {:induction false} FilterKeepsAll(books: seq<Book>, term: string, categoryFilter: string)
    requires forall i :: 0 <= i < |books| ==> Matches(books[i], term, categoryFilter)
    ensures Filter(books, term, categoryFilter) == books
    decreases |books|
  {
    if books != [] {
      FilterKeepsAll(books[1..], term, categoryFilter);
    }
  }

  /** When no book matches, the filter returns nothing. */
  lemma {:induction false} FilterDropsAll(books: seq<Book>, term: string, categoryFilter: string)
    requires forall i :: 0 <= i < |books| ==> !Matches(books[i], term, categoryFilter)
    ensures Filter(books, term, categoryFilter) == []
    decreases |books|
  {
    if books != [] {
      FilterDropsAll(books[1..], term, categoryFilter);
    }
  }

  /** Between two runs of non-matching books, a run of matching books is exactly what the filter keeps. */
  lemma FilterMiddle(a: seq<Book>, b: seq<Book>, c: seq<Book>, term: string, categoryFilter: string)
    requires forall i :: 0 <= i < |a| ==> !Matches(a[i], term, categoryFilter)
    requires forall i :: 0 <= i < |b| ==> Matches(b[i], term, categoryFilter)
    requires forall i :: 0 <= i < |c| ==> !Matches(c[i], term, categoryFilter)
    ensures Filter(a + b + c, term, categoryFilter) == b
  {
    FilterDropsAll(a, term, categoryFilter);
    FilterKeepsAll(b, term, categoryFilter);
    FilterDropsAll(c, term, categoryFilter);
    FilterAppend(a + b, c, term, categoryFilter);
    FilterAppend(a, b, term, categoryFilter);
    assert [] + b + [] == b;
  }

  /** If exactly the books at `lo..hi` match, the filter returns that slice. */
  lemma FilterRun(books: seq<Book>, lo: nat, hi: nat, term: string, categoryFilter: string)
    requires lo <= hi <= |books|
    requires forall i :: 0 <= i < lo ==> !Matches(books[i], term, categoryFilter)
    requires forall i :: lo <= i < hi ==> Matches(books[i], term, categoryFilter)
    requires forall i :: hi <= i < |books| ==> !Matches(books[i], term, categoryFilter)
    ensures Filter(books, term, categoryFilter) == books[lo..hi]
  {
    var before, run, after := books[..lo], books[lo..hi], books[hi..];
    assert books == before + run + after;
    FilterMiddle(before, run, after, term, categoryFilter);
  }

  /** An empty search term with category `all` shows the whole catalog, in order. */
  lemma FilterShowsAll(books: seq<Book>)
    ensures Filter(books, "", AllCategories) == books
  {
    FilterKeepsAll(books, "", AllCategories);
  }
}
