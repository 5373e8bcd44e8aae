/**
 * The category browser, `frontend/src/pages/user/allcategories.jsx`: the per-category count object,
 * the sorted sidebar list, the filter a click applies, each card's image and the grid of cards.
 * The page's React state is a small object updated by `Load` (the fetch) and `Click`.
 */
module AllCategories {
  import opened Common
  import opened Text
  import opened Seqs
  import opened Sorting
  import opened Tally
  import opened BookSchema

  /** The sidebar entry that stands for every category. */
  const AllEntry: string := "All"
  const NoImage: string := "https://via.placeholder.com/300x400?text=No+Image"

  /** `countMap`, built by the `forEach` loop: one pass, adding one to the count of each book's category. */
  method BuildCountMap(books: seq<Book>) returns (countMap: map<string, nat>)
    ensures countMap == CountMap(CategoriesOf(books))
    ensures forall c :: c in countMap <==> c in CategoriesOf(books)
    ensures forall c :: c in countMap ==> countMap[c] == |InCategory(books, c)|
  {
    countMap := map[];
    ghost var cats := CategoriesOf(books);
    assert cats[..0] == [];
    for i := 0 to |books|
      invariant countMap == CountMap(cats[..i])
    {
      var c := books[i].category;
      assert c == cats[i];
      CountMapPrefix(cats, i);
      countMap := countMap[c := (if c in countMap then countMap[c] else 0) + 1];
    }
    assert cats[..|books|] == cats;
    CountMapCountsBooks(books);
  }

  /** Each count in the count object is the number of books in that category. */
  lemma CountMapCountsBooks(books: seq<Book>)
    ensures forall c :: c in CountMap(CategoriesOf(books)) ==> CountMap(CategoriesOf(books))[c] == |InCategory(books, c)|
  {
    forall c | c in CountMap(CategoriesOf(books)) ensures CountMap(CategoriesOf(books))[c] == |InCategory(books, c)| {
      InCategoryCount(books, c);
    }
  }

  /** `books.filter(b => b.category === c)` */
  function InCategory(books: seq<Book>, c: string): (r: seq<Book>)
    ensures forall b :: b in r <==> b in books && b.category == c
  {
    Filter(books, (b: Book) => b.category == c)
  }

  /** The books of a category are as many as the occurrences of that category. */
  lemma {:induction false} InCategoryCount(books: seq<Book>, c: string)
    ensures |InCategory(books, c)| == multiset(CategoriesOf(books))[c]
  {
    if books != [] {
      assert CategoriesOf(books) == [books[0].category] + CategoriesOf(books[1..]);
      InCategoryCount(books[1..], c);
    }
  }

  /** `handleCategoryClick`: "All" shows every book, any other entry the books of that category. */
  function Select(books: seq<Book>, category: string): (r: seq<Book>)
    ensures category == AllEntry ==> r == books
    ensures category != AllEntry ==> r == InCategory(books, category)
  {
    if category == AllEntry then books else InCategory(books, category)
  }

  /** Selecting a category lists as many books as its count says, and only books of that category. */
  lemma SelectMatchesCount(books: seq<Book>, category: string)
    requires category != AllEntry
    ensures |Select(books, category)| == multiset(CategoriesOf(books))[category]
    ensures forall b :: b in Select(books, category) ==> b.category == category
  {
    InCategoryCount(books, category);
  }

  /** `["All", ...new Set(categories)].sort()`: the default sort orders strings character by character. */
  function CategoryList(books: seq<Book>): (r: seq<string>)
    ensures |r| == 1 + |Distinct(CategoriesOf(books))|
    ensures forall c :: c in r <==> c == AllEntry || c in CategoriesOf(books)
    ensures SortedBy(r, LexLe)
  {
    var entries := [AllEntry] + Distinct(CategoriesOf(books));
    var r := Sort(entries, LexLe);
    LexLeIsTotalPreorder();
    SortSorted(entries, LexLe);
    assert forall c :: c in r <==> c in multiset(entries);
    r
  }

  lemma LexLeIsTotalPreorder()
    ensures TotalPreorder(LexLe)
  {
    forall a, b ensures LexLe(a, b) || LexLe(b, a) {
      LexLeTotal(a, b);
    }
    forall a, b, c | LexLe(a, b) && LexLe(b, c) ensures LexLe(a, c) {
      LexLeTransitive(a, b, c);
    }
  }

  /** Each category is listed once, unless a book's category is itself "All", which is then listed twice. */
  lemma CategoryListNoDuplicates(books: seq<Book>)
    ensures NoDuplicates(CategoryList(books)) <==> AllEntry !in CategoriesOf(books)
  {
    var d := Distinct(CategoriesOf(books));
    var unsorted := [AllEntry] + d;
    var r := CategoryList(books);
    assert multiset(r) == multiset(unsorted);
    if AllEntry in CategoriesOf(books) {
      AllEntryListedTwice(d);
      assert !NoDuplicates(r) by {
        if NoDuplicates(r) {
          NoDuplicatesCount(r, AllEntry);
        }
      }
    } else {
      assert AllEntry !in d;
      NoDuplicatesAfterEntry(d);
      NoDuplicatesPermutation(unsorted, r);
    }
  }

  /** A category named "All" puts the entry "All" in the list twice. */
  lemma AllEntryListedTwice(d: seq<string>)
    requires AllEntry in d
    ensures multiset([AllEntry] + d)[AllEntry] >= 2
  {
    assert multiset([AllEntry] + d) == multiset{AllEntry} + multiset(d);
  }

  /** Putting "All" in front of distinct categories that do not include it keeps them distinct. */
  lemma NoDuplicatesAfterEntry(d: seq<string>)
    requires NoDuplicates(d) && AllEntry !in d
    ensures NoDuplicates([AllEntry] + d)
  {
    var u := [AllEntry] + d;
    forall i, j | 0 <= i < j < |u| ensures u[i] != u[j] {
      assert u[j] == d[j - 1];
      if i > 0 {
        assert u[i] == d[i - 1];
      }
    }
  }

  /** "All" is sorted with the rest, not pinned to the top: a category ordered before it comes first. */
  lemma AllNotPinnedFirst(books: seq<Book>, c: string)
    requires exists b :: b in books && b.category == c
    requires LexLe(c, AllEntry) && c != AllEntry
    ensures CategoryList(books)[0] != AllEntry
  {
    var r := CategoryList(books);
    CategoryListed(books, c);
    assert c in r;
    var k :| 0 <= k < |r| && r[k] == c;
    if k > 0 && r[0] == AllEntry {
      assert LexLe(r[0], r[k]);
      LexLeAntisymmetric(AllEntry, c);
    }
  }

  /** A shelf with an "Adventure" book lists "Adventure" above "All". */
  lemma AdventureBeforeAll(books: seq<Book>)
    requires exists b :: b in books && b.category == "Adventure"
    ensures CategoryList(books)[0] != AllEntry
  {
    assert LexLe("dventure", "ll");
    AllNotPinnedFirst(books, "Adventure");
  }

  /** `b.coverImage && b.coverImage.trim() !== ""` */
  predicate HasCover(b: Book) {
    b.coverImage.Some? && Trim(b.coverImage.value) != ""
  }

  /** A book of category `c` whose cover the card may use. */
  predicate CoverFor(c: string, b: Book) {
    b.category == c && HasCover(b)
  }

  /** `catBooks.find(...)`: the position of the first book of category `c` with a cover, if any. */
  function FirstCover(books: seq<Book>, c: string): (k: Option<nat>)
    ensures k.None? ==> forall i :: 0 <= i < |books| ==> !CoverFor(c, books[i])
    ensures k.Some? ==> k.value < |books| && CoverFor(c, books[k.value])
    ensures k.Some? ==> forall i :: 0 <= i < k.value ==> !CoverFor(c, books[i])
  {
    var p := (b: Book) => CoverFor(c, b);
    var k := FirstWhere(books, p, 0);
    if k == -1 then None else Some(k)
  }

  /** `getCategoryImage`: the cover of the first book of the category whose cover is not blank, else the
      placeholder. */
  function CategoryImage(books: seq<Book>, c: string): (img: string)
    ensures (forall i :: 0 <= i < |books| ==> !CoverFor(c, books[i])) ==> img == NoImage
    ensures (exists i :: 0 <= i < |books| && CoverFor(c, books[i])) ==>
      exists i :: 0 <= i < |books| && CoverFor(c, books[i]) && img == books[i].coverImage.value &&
        forall j :: 0 <= j < i ==> !CoverFor(c, books[j])
    ensures img != ""
  {
    var k := FirstCover(books, c);
    if k.None? then NoImage
    else
      var cover := books[k.value].coverImage.value;
      TrimEmptyIffBlank(cover);
      assert cover != [] by {
        assert !IsBlank(cover);
      }
      cover
  }

  /** A card of the grid. */
  datatype Card = Card(category: string, image: string, count: nat)

  /** The cards for the books shown: each category among them once, in the order it first appears. */
  function Grid(books: seq<Book>, shown: seq<Book>, counts: map<string, nat>): (cards: seq<Card>)
    ensures |cards| == |Distinct(CategoriesOf(shown))|
    ensures forall i :: 0 <= i < |cards| ==>
      && cards[i].category == Distinct(CategoriesOf(shown))[i]
      && cards[i].image == CategoryImage(books, cards[i].category)
      && cards[i].count == if cards[i].category in counts then counts[cards[i].category] else 0
  {
    var cats := Distinct(CategoriesOf(shown));
    seq(|cats|, i requires 0 <= i < |cats| =>
      Card(cats[i], CategoryImage(books, cats[i]), if cats[i] in counts then counts[cats[i]] else 0))
  }

  /** Every category of the books shown has a card, and no card is for any other category. */
  lemma GridCoversShown(books: seq<Book>, shown: seq<Book>, counts: map<string, nat>)
    ensures var cards := Grid(books, shown, counts);
      forall c :: c in CategoriesOf(shown) ==> exists k :: 0 <= k < |cards| && cards[k].category == c
    ensures var cards := Grid(books, shown, counts);
      forall k :: 0 <= k < |cards| ==> cards[k].category in CategoriesOf(shown)
  {
    var cards := Grid(books, shown, counts);
    var d := Distinct(CategoriesOf(shown));
    forall c | c in CategoriesOf(shown) ensures exists k :: 0 <= k < |cards| && cards[k].category == c {
      var k :| 0 <= k < |d| && d[k] == c;
      assert cards[k].category == c;
    }
  }

  /** No category has two cards, and cards appear in the order their categories first occur. */
  lemma GridOrder(books: seq<Book>, shown: seq<Book>, counts: map<string, nat>, i: nat, j: nat)
    requires i < j < |Grid(books, shown, counts)|
    ensures var cards := Grid(books, shown, counts);
      && cards[i].category != cards[j].category
      && FirstIndex(CategoriesOf(shown), cards[i].category) < FirstIndex(CategoriesOf(shown), cards[j].category)
  {
    DistinctFirstOccurrenceOrder(CategoriesOf(shown), i, j);
  }

  /** The page's state: the fetched books, the books shown, the highlighted entry and the count object. */
  class CategoriesPage {
    var books: seq<Book>
    var filteredBooks: seq<Book>
    var activeCategory: string
    var categoryCounts: map<string, nat>

    /** The shown books are the selection of the highlighted entry and the counts are those of all books. */
    predicate InSync()
      reads this
    {
      filteredBooks == Select(books, activeCategory) && categoryCounts == CountMap(CategoriesOf(books))
    }

    constructor()
      ensures books == [] && filteredBooks == [] && activeCategory == AllEntry && categoryCounts == map[]
      ensures InSync()
    {
      books, filteredBooks, activeCategory, categoryCounts := [], [], AllEntry, map[];
    }

    /** `fetchCategories` once the list has arrived: every book is shown and counted; the entry is kept. */
    method Load(fetched: seq<Book>)
      modifies this
      ensures books == fetched && filteredBooks == fetched && activeCategory == old(activeCategory)
      ensures categoryCounts == CountMap(CategoriesOf(fetched))
      ensures old(activeCategory) == AllEntry ==> InSync()
    {
      books := fetched;
      filteredBooks := fetched;
      categoryCounts := BuildCountMap(fetched);
    }

    /** `handleCategoryClick`: highlight the entry and show its selection. */
    method Click(category: string)
      modifies this
      ensures activeCategory == category && filteredBooks == Select(books, category)
      ensures books == old(books) && categoryCounts == old(categoryCounts)
      ensures old(InSync()) ==> InSync()
    {
      activeCategory := category;
      filteredBooks := Select(books, category);
    }

    /** The grid of cards for the books shown. */
    function Cards(): seq<Card>
      reads this
    {
      Grid(books, filteredBooks, categoryCounts)
    }

    /** In a synced page each card counts all books of its category, whichever entry is highlighted,
        and so never shows 0. */
    lemma CardCountsAllBooks(i: nat)
      requires InSync() && i < |Cards()|
      ensures Cards()[i].count == |InCategory(books, Cards()[i].category)|
      ensures Cards()[i].count >= 1
    {
      var c := Cards()[i].category;
      var cats := CategoriesOf(filteredBooks);
      assert c in Distinct(cats);
      CategoryListed(filteredBooks, c);
      var b :| b in filteredBooks && b.category == c;
      assert b in books;
      CategoryListed(books, c);
      InCategoryCount(books, c);
      assert b in InCategory(books, c);
    }
  }
}
