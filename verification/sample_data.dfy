/**
  The sixteen sample books pushed into an empty catalog at start-up: four
  per category, with ids 1 to 16, so that each takes the cover table's entry for its id.
 */
module SampleData {
  import opened BookRecord
  import opened Catalog
  import opened Search

  /** The four sample categories, in the order the sample list uses them. */
  const SampleCategories: seq<string> := ["fiction", "non-fiction", "science", "history"]

  /** Titles of the sample books, by id - 1. */
  const SampleTitles: seq<string> := [
    "The Great Gatsby", "1984", "To Kill a Mockingbird", "Pride and Prejudice",
    "Think and Grow Rich", "The 7 Habits of Highly Effective People", "Atomic Habits",
    "Sapiens: A Brief History of Humankind",
    "A Brief History of Time", "Cosmos", "The Selfish Gene", "The Double Helix",
    "The World War II", "Guns, Germs, and Steel", "The Rise and Fall of the Third Reich",
    "A People's History of the United States"
  ]

  /** Authors of the sample books, by id - 1. */
  const SampleAuthors: seq<string> := [
    "F. Scott Fitzgerald", "George Orwell", "Harper Lee", "Jane Austen",
    "Napoleon Hill", "Stephen R. Covey", "James Clear", "Yuval Noah Harari",
    "Stephen Hawking", "Carl Sagan", "Richard Dawkins", "James D. Watson",
    "Winston Churchill", "Jared Diamond", "William L. Shirer", "Howard Zinn"
  ]

  /** The sample list: book `i` has id `i + 1` and lies in category block `i / 4`. */
  function SampleBooks(): (s: seq<Book>)
    ensures |s| == 16
    ensures forall i :: 0 <= i < 16 ==> s[i].id == i + 1 && Pristine(s[i])
    ensures forall i :: 0 <= i < 16 ==> s[i].title == SampleTitles[i] && s[i].author == SampleAuthors[i]
    ensures forall i :: 0 <= i < 16 ==> s[i].category == SampleCategories[i / 4]
    ensures forall i :: 0 <= i < 16 ==> s[i].coverUrl == Covers[i + 1]
  {
    seq(16, i requires 0 <= i < 16 => NewBook(i + 1, SampleTitles[i], SampleAuthors[i], SampleCategories[i / 4]))
  }

  /** Every sample book is the first (indeed the only) book with its id. */
  lemma SampleIdsDistinct()
    ensures forall i :: 0 <= i < 16 ==> IsFirstMatch(SampleBooks(), SampleBooks()[i].id, i)
  {
    var s := SampleBooks();
    forall i | 0 <= i < 16
      ensures IsFirstMatch(s, s[i].id, i)
    {
      FirstIndexOfIs(s, s[i].id, i);
    }
  }

  /** A freshly seeded catalog with an empty log satisfies the catalog invariant. */
  lemma SeedConsistent()
    ensures Consistent(LibraryState(SampleBooks(), []))
  {
    SampleIdsDistinct();
  }

  /** The sample categories are pairwise different and none is the `all` sentinel. */
  lemma SampleCategoriesDistinct()
    ensures forall p, q :: 0 <= p < 4 && 0 <= q < 4 && p != q ==> SampleCategories[p] != SampleCategories[q]
    ensures forall q :: 0 <= q < 4 ==> SampleCategories[q] != AllCategories
  {
    assert SampleCategories[0][0] == 'f' && SampleCategories[1][0] == 'n';
    assert SampleCategories[2][0] == 's' && SampleCategories[3][0] == 'h';
    assert AllCategories[0] == 'a';
  }

  /** In a 16-book list laid out in category blocks, only block `q` has block `q`'s category. */
  lemma CategoryBlocks(s: seq<Book>, q: nat)
    requires |s| == 16 && q < 4
    requires forall i :: 0 <= i < 16 ==> s[i].category == SampleCategories[i / 4]
    ensures forall i :: 0 <= i < 4 * q ==> !Matches(s[i], "", SampleCategories[q])
    ensures forall i :: 4 * q <= i < 4 * q + 4 ==> Matches(s[i], "", SampleCategories[q])
    ensures forall i :: 4 * q + 4 <= i < 16 ==> !Matches(s[i], "", SampleCategories[q])
  {
    SampleCategoriesDistinct();
    forall i | 0 <= i < 16
      ensures i < 4 * q ==> i / 4 < q
      ensures 4 * q <= i < 4 * q + 4 ==> i / 4 == q
      ensures 4 * q + 4 <= i ==> i / 4 > q
    {
    }
  }

  /** In any 16-book list laid out in category blocks, filtering by block `q`'s category with an empty term returns that block. */
  lemma FilterCategoryBlock(s: seq<Book>, q: nat)
    requires |s| == 16 && q < 4
    requires forall i :: 0 <= i < 16 ==> s[i].category == SampleCategories[i / 4]
    ensures Filter(s, "", SampleCategories[q]) == s[4 * q..4 * q + 4]
  {
    CategoryBlocks(s, q);
    FilterRun(s, 4 * q, 4 * q + 4, "", SampleCategories[q]);
  }

  /** With an empty term, filtering the seed by its `q`-th category returns exactly that category's four books. */
  lemma SeedFilterByCategory(q: nat)
    requires q < 4
    ensures Filter(SampleBooks(), "", SampleCategories[q]) == SampleBooks()[4 * q..4 * q + 4]
  {
    FilterCategoryBlock(SampleBooks(), q);
  }

  /** The science filter on the seed returns the four books with ids 9 to 12, in order. */
  lemma SeedScience()
    ensures var r := Filter(SampleBooks(), "", "science");
      |r| == 4 && forall i :: 0 <= i < 4 ==> r[i].id == 9 + i && r[i].category == "science"
  {
    var s := SampleBooks();
    assert SampleCategories[2] == "science";
    SeedFilterByCategory(2);
    var r := s[8..12];
    forall i | 0 <= i < 4
      ensures r[i].id == 9 + i && r[i].category == "science"
    {
      assert r[i] == s[8 + i];
      assert (8 + i) / 4 == 2;
    }
  }
}
