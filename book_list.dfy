/** The book list screen: the data it derives from the fetched books (category pills,
    filtered, sorted and paginated lists, the page count, the names shown in the delete
    dialog, the empty-state flags) and the screen's state with the handlers that change it. */
module BookList {
  import opened Common
  import opened BookTypes
  import JsString
  import BookSort
  import Pagination
  import TableView

  /** The category filter value that selects every book. */
  const AllCategories: string := "all"

  /** The label a book is shown and grouped under: its category, or "General" when the
      category is empty. */
  function CategoryLabel(b: Book): string {
    if b.category == "" then DefaultCategory else b.category
  }

  // ---------------------------------------------------------------- category pills

  /** Every string is strictly smaller than the next one, hence no string repeats. */
  predicate StrictlyAscending(t: seq<string>) {
    forall i, j :: 0 <= i < j < |t| ==> JsString.Less(t[i], t[j])
  }

  /** Adds `x` to a strictly ascending list unless it is already there. */
  function InsertDistinct(t: seq<string>, x: string): seq<string>
    decreases |t|
  {
    if t == [] then [x]
    else if x == t[0] then t
    else if JsString.Less(x, t[0]) then [x] + t
    else [t[0]] + InsertDistinct(t[1..], x)
  }

  /** `Array.from(new Set(books.map(label))).sort()`: the distinct labels, in ascending
      string order. */
  function Categories(books: seq<Book>): seq<string>
    decreases |books|
  {
    if books == [] then []
    else InsertDistinct(Categories(books[..|books| - 1]), CategoryLabel(books[|books| - 1]))
  }

  lemma {:induction false} InsertDistinctCorrect(t: seq<string>, x: string)
    requires StrictlyAscending(t)
    ensures StrictlyAscending(InsertDistinct(t, x))
    ensures forall c :: c in InsertDistinct(t, x) <==> c in t || c == x
    decreases |t|
  {
    if t == [] || x == t[0] {
    } else if JsString.Less(x, t[0]) {
      forall j | 0 <= j < |t| ensures JsString.Less(x, t[j]) {
        if j > 0 {
          JsString.LessTransitive(x, t[0], t[j]);
        }
      }
    } else {
      JsString.LessTotal(x, t[0]);
      var rest := InsertDistinct(t[1..], x);
      InsertDistinctCorrect(t[1..], x);
      forall c | c in rest ensures JsString.Less(t[0], c) {
        if c != x {
          var j :| 0 <= j < |t[1..]| && t[1..][j] == c;
          assert t[j + 1] == c;
        }
      }
      var r := [t[0]] + rest;
      forall i, j | 0 <= i < j < |r| ensures JsString.Less(r[i], r[j]) {
        if i == 0 {
          assert r[j] == rest[j - 1] && r[j] in rest;
        } else {
          assert r[i] == rest[i - 1] && r[j] == rest[j - 1];
        }
      }
      assert forall c :: c in t <==> c == t[0] || c in t[1..];
    }
  }

  /** The pills list every label exactly once, in ascending order, and nothing else. */
  lemma {:induction false} CategoriesCorrect(books: seq<Book>)
    ensures StrictlyAscending(Categories(books))
    ensures forall i, j :: 0 <= i < j < |Categories(books)| ==> Categories(books)[i] != Categories(books)[j]
    ensures forall c :: c in Categories(books) <==> exists b :: b in books && CategoryLabel(b) == c
    decreases |books|
  {
    if books != [] {
      var init := books[..|books| - 1];
      var last := books[|books| - 1];
      CategoriesCorrect(init);
      InsertDistinctCorrect(Categories(init), CategoryLabel(last));
      assert forall b :: b in books <==> b in init || b == last;
    }
    var r := Categories(books);
    forall i, j | 0 <= i < j < |r| ensures r[i] != r[j] {
      JsString.LessAsymmetric(r[i], r[j]);
    }
  }

  /** A book with an empty category is listed under the "General" pill, yet choosing
      that pill keeps only the books whose category is literally "General". */
  lemma BlankCategoryHiddenByItsPill(b: Book)
    requires b.category == ""
    ensures DefaultCategory in Categories([b])
    ensures CategoryStage([b], DefaultCategory) == []
  {
    assert DefaultCategory != AllCategories;
    assert [b][1..] == [];
    assert Keep([b], InCategory(DefaultCategory)) == [] + Keep([], InCategory(DefaultCategory));
  }

  // ---------------------------------------------------------------- filtering

  /** The tests a book can be filtered by. */
  datatype Criterion =
    | InCategory(category: string)    // `book.category === selectedCategory`
    | MatchesQuery(query: string)     // the search matcher, with an already lowercased query
    | InView(category: string, search: string)  // both stages of the list's filter
    | SelectedIn(ids: set<int>)       // `selectedBookIds.has(book.id)`

  /** The search matcher: the query occurs in the lowercased name, description or
      category. */
  predicate Matches(b: Book, query: string) {
    JsString.Includes(JsString.ToLower(b.name), query)
    || JsString.Includes(JsString.ToLower(b.description), query)
    || JsString.Includes(JsString.ToLower(b.category), query)
  }

  predicate Holds(c: Criterion, b: Book) {
    match c
    case InCategory(category) => b.category == category
    case MatchesQuery(query) => Matches(b, query)
    case InView(category, search) =>
      (category == AllCategories || b.category == category)
      && (JsString.IsBlank(search) || Matches(b, JsString.ToLower(search)))
    case SelectedIn(ids) => b.id in ids
  }

  /** `s.filter(test)`. */
  function Keep(s: seq<Book>, c: Criterion): seq<Book>
    decreases |s|
  {
    if s == [] then [] else (if Holds(c, s[0]) then [s[0]] else []) + Keep(s[1..], c)
  }

  lemma {:induction false} KeepMultiset(s: seq<Book>, c: Criterion)
    ensures forall b :: multiset(Keep(s, c))[b] == if Holds(c, b) then multiset(s)[b] else 0
    ensures |Keep(s, c)| <= |s|
    decreases |s|
  {
    if s != [] {
      KeepMultiset(s[1..], c);
      var rest := Keep(s[1..], c);
      assert s == [s[0]] + s[1..];
      assert multiset(s) == multiset{s[0]} + multiset(s[1..]);
      if Holds(c, s[0]) {
        assert multiset(Keep(s, c)) == multiset{s[0]} + multiset(rest) by {
          assert Keep(s, c) == [s[0]] + rest;
        }
      } else {
        assert Keep(s, c) == [] + rest;
      }
    }
  }

  /** A filter keeps every copy of a book that passes and no copy of one that fails. */
  lemma KeepCounts(s: seq<Book>, c: Criterion)
    ensures forall b :: multiset(Keep(s, c))[b] == if Holds(c, b) then multiset(s)[b] else 0
    ensures forall b :: b in Keep(s, c) <==> b in s && Holds(c, b)
    ensures |Keep(s, c)| <= |s|
  {
    KeepMultiset(s, c);
    forall b ensures b in Keep(s, c) <==> b in s && Holds(c, b) {
      assert (b in Keep(s, c)) == (b in multiset(Keep(s, c)));
      assert (b in s) == (b in multiset(s));
    }
  }

  /** `t` is `s` with some elements left out and the rest in their order. */
  predicate IsSubsequence(t: seq<Book>, s: seq<Book>)
    decreases |s|
  {
    t == [] || (s != [] && ((t[0] == s[0] && IsSubsequence(t[1..], s[1..])) || IsSubsequence(t, s[1..])))
  }

  lemma {:induction false} KeepIsSubsequence(s: seq<Book>, c: Criterion)
    ensures IsSubsequence(Keep(s, c), s)
    decreases |s|
  {
    if s != [] {
      KeepIsSubsequence(s[1..], c);
      var rest := Keep(s[1..], c);
      if Holds(c, s[0]) {
        assert Keep(s, c) == [s[0]] + rest;
        assert ([s[0]] + rest)[0] == s[0] && ([s[0]] + rest)[1..] == rest;
      } else {
        assert Keep(s, c) == rest;
      }
    }
  }

  /** Two filters in a row are one filter by the conjunction of their tests, kept in
      the original order. */
  lemma {:induction false} KeepKeep(s: seq<Book>, c1: Criterion, c2: Criterion, both: Criterion)
    requires forall b :: Holds(both, b) <==> Holds(c1, b) && Holds(c2, b)
    ensures Keep(Keep(s, c1), c2) == Keep(s, both)
    decreases |s|
  {
    if s != [] {
      KeepKeep(s[1..], c1, c2, both);
      if Holds(c1, s[0]) {
        var kept := Keep(s[1..], c1);
        assert Keep(s, c1) == [s[0]] + kept;
        assert ([s[0]] + kept)[1..] == kept;
        assert Keep([s[0]] + kept, c2) == (if Holds(c2, s[0]) then [s[0]] else []) + Keep(kept, c2);
      } else {
        assert Keep(s, c1) == Keep(s[1..], c1);
        assert !Holds(both, s[0]);
      }
    }
  }

  /** Filtering by a test every element passes changes nothing. */
  lemma {:induction false} KeepAll(s: seq<Book>, c: Criterion)
    requires forall b :: b in s ==> Holds(c, b)
    ensures Keep(s, c) == s
    decreases |s|
  {
    if s != [] {
      KeepAll(s[1..], c);
    }
  }

  /** The category stage: every book for "all", else the books of that category. */
  function CategoryStage(books: seq<Book>, selectedCategory: string): seq<Book> {
    if selectedCategory != AllCategories then Keep(books, InCategory(selectedCategory)) else books
  }

  /** The search stage: skipped for a blank query, else the matcher run with the
      lowercased, untrimmed query. */
  function SearchStage(books: seq<Book>, searchQuery: string): seq<Book> {
    if JsString.Trim(searchQuery) != "" then Keep(books, MatchesQuery(JsString.ToLower(searchQuery)))
    else books
  }

  /** `filteredBooks`. */
  function FilteredBooks(books: seq<Book>, selectedCategory: string, searchQuery: string): seq<Book> {
    SearchStage(CategoryStage(books, selectedCategory), searchQuery)
  }

  /** Filters by tests that agree on every book are the same filter. */
  lemma {:induction false} KeepSame(s: seq<Book>, c1: Criterion, c2: Criterion)
    requires forall b :: Holds(c1, b) <==> Holds(c2, b)
    ensures Keep(s, c1) == Keep(s, c2)
    decreases |s|
  {
    if s != [] {
      KeepSame(s[1..], c1, c2);
    }
  }

  /** The two stages together are one filter by the combined test. */
  lemma FilteredIsKeep(books: seq<Book>, selectedCategory: string, searchQuery: string)
    ensures FilteredBooks(books, selectedCategory, searchQuery) == Keep(books, InView(selectedCategory, searchQuery))
  {
    var view := InView(selectedCategory, searchQuery);
    JsString.TrimEmptyIffBlank(searchQuery);
    var query := JsString.ToLower(searchQuery);
    var blank := JsString.IsBlank(searchQuery);
    if selectedCategory != AllCategories && !blank {
      KeepKeep(books, InCategory(selectedCategory), MatchesQuery(query), view);
    } else if selectedCategory != AllCategories {
      KeepSame(books, InCategory(selectedCategory), view);
    } else if !blank {
      KeepSame(books, MatchesQuery(query), view);
    } else {
      KeepAll(books, view);
    }
  }

  /** The filtered list is the fetched list with exactly the books in view, each copy
      kept, in their original order; with no filter it is the fetched list, and
      filtering it again changes nothing. */
  lemma FilteredBooksCorrect(books: seq<Book>, selectedCategory: string, searchQuery: string)
    ensures FilteredBooks(books, selectedCategory, searchQuery) == Keep(books, InView(selectedCategory, searchQuery))
    ensures forall b :: b in FilteredBooks(books, selectedCategory, searchQuery) <==>
      b in books && (selectedCategory == AllCategories || b.category == selectedCategory)
      && (JsString.IsBlank(searchQuery) || Matches(b, JsString.ToLower(searchQuery)))
    ensures forall b ::
      multiset(FilteredBooks(books, selectedCategory, searchQuery))[b] ==
        if Holds(InView(selectedCategory, searchQuery), b) then multiset(books)[b] else 0
    ensures selectedCategory == AllCategories && JsString.IsBlank(searchQuery) ==>
      FilteredBooks(books, selectedCategory, searchQuery) == books
    ensures FilteredBooks(FilteredBooks(books, selectedCategory, searchQuery), selectedCategory, searchQuery)
      == FilteredBooks(books, selectedCategory, searchQuery)
    ensures IsSubsequence(FilteredBooks(books, selectedCategory, searchQuery), books)
  {
    var view := InView(selectedCategory, searchQuery);
    FilteredIsKeep(books, selectedCategory, searchQuery);
    var r := Keep(books, view);
    FilteredIsKeep(r, selectedCategory, searchQuery);
    KeepCounts(books, view);
    KeepKeep(books, view, view, view);
    KeepIsSubsequence(books, view);
    if selectedCategory == AllCategories && JsString.IsBlank(searchQuery) {
      KeepAll(books, view);
    }
  }

  // ---------------------------------------------------------------- paging

  /** How `Array.prototype.slice` resolves an index: negative counts from the end, and
      the result is clamped to the length. */
  function SliceIndex(i: int, length: nat): (k: nat)
    ensures k <= length
    ensures 0 <= i <= length ==> k == i
  {
    if i < 0 then Max(length + i, 0) else Min(i, length)
  }

  /** `s.slice(start, end)`. */
  function Slice(s: seq<Book>, start: int, end: int): seq<Book> {
    var from := SliceIndex(start, |s|);
    var to := SliceIndex(end, |s|);
    if from < to then s[from..to] else []
  }

  /** `paginatedBooks`. */
  function PaginatedBooks(sorted: seq<Book>, currentPage: int, itemsPerPage: int): seq<Book> {
    var startIndex := (currentPage - 1) * itemsPerPage;
    Slice(sorted, startIndex, startIndex + itemsPerPage)
  }

  /** `Math.ceil(count / itemsPerPage)`, on integers. */
  function TotalPages(count: nat, itemsPerPage: int): int
    requires itemsPerPage > 0
  {
    (count + itemsPerPage - 1) / itemsPerPage
  }

  lemma MulLe(a: int, b: int, n: int)
    requires a <= b && n >= 0
    ensures a * n <= b * n
  {
    assert b * n - a * n == (b - a) * n;
  }

  /** The page count is the ceiling of the quotient: the smallest number of pages
      holding every item. */
  lemma TotalPagesIsCeiling(count: nat, itemsPerPage: int)
    requires itemsPerPage > 0
    ensures TotalPages(count, itemsPerPage) >= 0
    ensures count <= TotalPages(count, itemsPerPage) * itemsPerPage
    ensures count == 0 <==> TotalPages(count, itemsPerPage) == 0
    ensures count > 0 ==> (TotalPages(count, itemsPerPage) - 1) * itemsPerPage < count
  {
    var t := TotalPages(count, itemsPerPage);
    var r := (count + itemsPerPage - 1) % itemsPerPage;
    assert count + itemsPerPage - 1 == t * itemsPerPage + r;
    assert (t - 1) * itemsPerPage == t * itemsPerPage - itemsPerPage;
    if t < 0 {
      MulLe(t, -1, itemsPerPage);
    }
    if count == 0 && t != 0 {
      MulLe(1, t, itemsPerPage);
    }
  }

  /** A slice from a non-negative start is the window of that length, cut short at the
      end of the list. */
  lemma SliceWindow(s: seq<Book>, start: int, length: int)
    requires start >= 0 && length >= 1
    ensures Slice(s, start, start + length) == s[Min(start, |s|)..Min(start + length, |s|)]
  {
  }

  /** A page from 1 on is the window of `itemsPerPage` books starting at its first index,
      cut short at the end of the list. */
  lemma PageIsWindow(sorted: seq<Book>, currentPage: int, itemsPerPage: int)
    requires currentPage >= 1 && itemsPerPage >= 1
    ensures var start := (currentPage - 1) * itemsPerPage;
      PaginatedBooks(sorted, currentPage, itemsPerPage) == sorted[Min(start, |sorted|)..Min(start + itemsPerPage, |sorted|)]
    ensures |PaginatedBooks(sorted, currentPage, itemsPerPage)| <= itemsPerPage
  {
    MulLe(0, currentPage - 1, itemsPerPage);
    SliceWindow(sorted, (currentPage - 1) * itemsPerPage, itemsPerPage);
  }

  /** On a page in range the "Showing start to end" bounds count exactly the books shown,
      and the page is not empty. */
  lemma ShowingMatchesPage(sorted: seq<Book>, currentPage: int, itemsPerPage: int)
    requires itemsPerPage >= 1
    requires 1 <= currentPage <= TotalPages(|sorted|, itemsPerPage)
    ensures Pagination.StartItem(currentPage, itemsPerPage, |sorted|) >= 1
    ensures |PaginatedBooks(sorted, currentPage, itemsPerPage)| ==
      Pagination.EndItem(currentPage, itemsPerPage, |sorted|) - Pagination.StartItem(currentPage, itemsPerPage, |sorted|) + 1
    ensures |PaginatedBooks(sorted, currentPage, itemsPerPage)| >= 1
  {
    var t := TotalPages(|sorted|, itemsPerPage);
    TotalPagesIsCeiling(|sorted|, itemsPerPage);
    PageIsWindow(sorted, currentPage, itemsPerPage);
    var start := (currentPage - 1) * itemsPerPage;
    MulLe(0, currentPage - 1, itemsPerPage);
    MulLe(currentPage - 1, t - 1, itemsPerPage);
    assert currentPage * itemsPerPage == start + itemsPerPage;
    assert 0 <= start < |sorted|;
  }

  /** A page past the last one shows no book, and its "Showing" bounds run backwards. */
  lemma PastLastPageIsEmpty(sorted: seq<Book>, currentPage: int, itemsPerPage: int)
    requires itemsPerPage >= 1
    requires currentPage > TotalPages(|sorted|, itemsPerPage)
    ensures PaginatedBooks(sorted, currentPage, itemsPerPage) == []
    ensures |sorted| > 0 ==>
      Pagination.StartItem(currentPage, itemsPerPage, |sorted|) > Pagination.EndItem(currentPage, itemsPerPage, |sorted|)
  {
    var t := TotalPages(|sorted|, itemsPerPage);
    TotalPagesIsCeiling(|sorted|, itemsPerPage);
    MulLe(t, currentPage - 1, itemsPerPage);
    PageIsWindow(sorted, currentPage, itemsPerPage);
    assert (currentPage - 1) * itemsPerPage >= |sorted|;
  }

  /** Index `i` of a list of `count` books falls in the window of page `i / n + 1`,
      which is a page in range. */
  lemma IndexPage(count: nat, n: int, i: int)
    requires n >= 1 && 0 <= i < count
    ensures 0 <= i / n < TotalPages(count, n)
    ensures (i / n) * n <= i < (i / n) * n + n
    ensures i % n == i - (i / n) * n
  {
    var q := i / n;
    var t := TotalPages(count, n);
    TotalPagesIsCeiling(count, n);
    assert i == q * n + i % n;
    assert (q + 1) * n == q * n + n;
    if q >= t {
      MulLe(t, q, n);
    }
    if q < 0 {
      MulLe(q, -1, n);
    }
  }

  /** The windows of pages other than `q + 1` miss an index inside the window of `q + 1`. */
  lemma OtherPagesMissIndex(n: int, i: int, q: int)
    requires n >= 1 && q * n <= i < q * n + n
    ensures forall p :: p >= 1 && p != q + 1 ==> (p - 1) * n > i || p * n <= i
  {
    forall p | p >= 1 && p != q + 1 ensures (p - 1) * n > i || p * n <= i {
      if p > q + 1 {
        MulLe(q + 1, p - 1, n);
        assert (q + 1) * n == q * n + n;
      } else {
        MulLe(p, q, n);
      }
    }
  }

  /** Every book of the sorted list is on a page in range, at the position its index
      gives, and the windows of all other pages miss its index. */
  lemma EveryBookOnItsPage(sorted: seq<Book>, itemsPerPage: int, i: int)
    requires itemsPerPage >= 1 && 0 <= i < |sorted|
    ensures 1 <= i / itemsPerPage + 1 <= TotalPages(|sorted|, itemsPerPage)
    ensures var page := PaginatedBooks(sorted, i / itemsPerPage + 1, itemsPerPage);
      i % itemsPerPage < |page| && page[i % itemsPerPage] == sorted[i]
    ensures forall p :: p >= 1 && p != i / itemsPerPage + 1 ==>
      (p - 1) * itemsPerPage > i || p * itemsPerPage <= i
  {
    var q := i / itemsPerPage;
    IndexPage(|sorted|, itemsPerPage, i);
    PageIsWindow(sorted, q + 1, itemsPerPage);
    var start := q * itemsPerPage;
    assert (q + 1 - 1) * itemsPerPage == start;
    var page := PaginatedBooks(sorted, q + 1, itemsPerPage);
    assert page == sorted[start..Min(start + itemsPerPage, |sorted|)];
    assert page[i - start] == sorted[i];
    OtherPagesMissIndex(itemsPerPage, i, q);
  }


  /** Choosing a category keeps the current page, so when the filtered list no longer
      reaches that page the screen shows neither a book nor the "no results" state. */
  lemma StalePageShowsNothing(books: seq<Book>, selectedCategory: string, searchQuery: string,
                              field: SortField, direction: SortDirection, currentPage: int, itemsPerPage: int)
    requires itemsPerPage >= 1
    requires |FilteredBooks(books, selectedCategory, searchQuery)| > 0
    requires currentPage > TotalPages(|FilteredBooks(books, selectedCategory, searchQuery)|, itemsPerPage)
    ensures var sorted := BookSort.StableSort(FilteredBooks(books, selectedCategory, searchQuery), field, direction);
      PaginatedBooks(sorted, currentPage, itemsPerPage) == []
    ensures !HasNoResults(false, false, books, FilteredBooks(books, selectedCategory, searchQuery))
  {
    var filtered := FilteredBooks(books, selectedCategory, searchQuery);
    var sorted := BookSort.StableSort(filtered, field, direction);
    BookSort.StableSortCorrect(filtered, field, direction);
    assert |sorted| == |multiset(sorted)| == |multiset(filtered)| == |filtered|;
    PastLastPageIsEmpty(sorted, currentPage, itemsPerPage);
  }

  // ---------------------------------------------------------------- delete dialog

  /** `s.map(b => b.name)`. */
  function Names(s: seq<Book>): (names: seq<string>)
    ensures |names| == |s|
    ensures forall i :: 0 <= i < |s| ==> names[i] == s[i].name
  {
    seq(|s|, i requires 0 <= i < |s| => s[i].name)
  }

  /** The ids `handleDeleteConfirm` sends a delete for: the whole selection in bulk
      mode, else the book the dialog was opened for. */
  function DeleteRequestIds(bulkDeleteMode: bool, selectedBookIds: set<int>, bookToDelete: Option<Book>): set<int> {
    if bulkDeleteMode then selectedBookIds
    else if bookToDelete.Some? then {bookToDelete.value.id}
    else {}
  }

  /** How a confirmed delete ends: a delete request was rejected, every delete went
      through but the reload of the list was rejected, or both went through. */
  datatype DeleteOutcome = DeleteFailed | ReloadFailed | Done

  /** `booksToDeleteNames`, the names the confirmation dialog lists. */
  function BooksToDeleteNames(bulkDeleteMode: bool, selectedBookIds: set<int>, bookToDelete: Option<Book>, books: seq<Book>): seq<string> {
    if bulkDeleteMode then Names(Keep(books, SelectedIn(selectedBookIds)))
    else if bookToDelete.Some? then [bookToDelete.value.name]
    else []
  }

  /** The dialog names exactly the books that are about to be deleted: in bulk mode the
      fetched books whose id is requested, in list order; otherwise the one target. */
  /** A name is listed exactly when some book of the list carries it. */
  lemma NamesMembers(s: seq<Book>)
    ensures forall n :: n in Names(s) <==> exists b :: b in s && b.name == n
  {
    var names := Names(s);
    forall n ensures n in names <==> exists b :: b in s && b.name == n {
      if n in names {
        var i :| 0 <= i < |names| && names[i] == n;
        assert s[i] in s;
      }
      if b :| b in s && b.name == n {
        var i :| 0 <= i < |s| && s[i] == b;
        assert names[i] == n;
      }
    }
  }

  /** The dialog names exactly the books that are about to be deleted: in bulk mode the
      fetched books whose id is requested, in list order; otherwise the one target. */
  lemma DeleteDialogNamesRequested(bulkDeleteMode: bool, selectedBookIds: set<int>, bookToDelete: Option<Book>, books: seq<Book>)
    ensures var names := BooksToDeleteNames(bulkDeleteMode, selectedBookIds, bookToDelete, books);
      var ids := DeleteRequestIds(bulkDeleteMode, selectedBookIds, bookToDelete);
      var kept := Keep(books, SelectedIn(ids));
      (bulkDeleteMode ==>
        && names == Names(kept)
        && IsSubsequence(kept, books)
        && (forall b :: multiset(kept)[b] == if b.id in ids then multiset(books)[b] else 0)
        && |names| <= |books|
        && forall n :: n in names <==> exists b :: b in books && b.id in ids && b.name == n)
      && (!bulkDeleteMode ==> |names| == |ids| && forall b :: bookToDelete == Some(b) ==> names == [b.name] && ids == {b.id})
  {
    if bulkDeleteMode {
      var kept := Keep(books, SelectedIn(selectedBookIds));
      KeepCounts(books, SelectedIn(selectedBookIds));
      KeepIsSubsequence(books, SelectedIn(selectedBookIds));
      NamesMembers(kept);
      forall n ensures n in Names(kept) <==> exists b :: b in books && b.id in selectedBookIds && b.name == n {
        if b :| b in kept && b.name == n {
          assert b in books && b.id in selectedBookIds;
        }
        if b :| b in books && b.id in selectedBookIds && b.name == n {
          assert b in kept;
        }
      }
    }
  }

  // ---------------------------------------------------------------- empty states

  /** `hasNoResults`: books were fetched but the filter keeps none of them. */
  predicate HasNoResults(loading: bool, failed: bool, books: seq<Book>, filtered: seq<Book>) {
    !loading && !failed && |books| > 0 && |filtered| == 0
  }

  /** `isLibraryEmpty`: the fetch succeeded and returned no book. */
  predicate IsLibraryEmpty(loading: bool, failed: bool, books: seq<Book>) {
    !loading && !failed && |books| == 0
  }

  /** The two empty states never show together, and "no results" can only come from an
      active filter. */
  lemma EmptyStatesExclusive(loading: bool, failed: bool, books: seq<Book>, selectedCategory: string, searchQuery: string)
    ensures var filtered := FilteredBooks(books, selectedCategory, searchQuery);
      !(HasNoResults(loading, failed, books, filtered) && IsLibraryEmpty(loading, failed, books))
      && (HasNoResults(loading, failed, books, filtered) ==>
        selectedCategory != AllCategories || !JsString.IsBlank(searchQuery))
  {
    FilteredBooksCorrect(books, selectedCategory, searchQuery);
  }

  // ---------------------------------------------------------------- selection

  /** `new Set(page.map(b => b.id))`. */
  function IdsOf(s: seq<Book>): (ids: set<int>)
    ensures forall b :: b in s ==> b.id in ids
    ensures forall id :: id in ids ==> exists b :: b in s && b.id == id
  {
    set b | b in s :: b.id
  }

  /** Select-all ticks the header checkbox exactly when the page has a book, and neither
      select-all nor clearing leaves it indeterminate. */
  lemma SelectAllTicksHeader(page: seq<Book>)
    ensures TableView.AllSelected(page, IdsOf(page)) <==> |page| > 0
    ensures !TableView.SomeSelected(page, IdsOf(page))
    ensures !TableView.AllSelected(page, {}) && !TableView.SomeSelected(page, {})
    ensures forall b :: b in page ==> TableView.RowState(b, IdsOf(page)).checked
  {
    TableView.HeaderCheckboxTriState(page, {});
  }

  // ---------------------------------------------------------------- the screen

  /** The screen's state: the fetched books and the query status, the filters, the sort,
      the page, the selection and the delete dialog. */
  class BookListView {
    var books: seq<Book>          // `data?.books || []`
    var loading: bool
    var failed: bool              // the query reported an error
    var searchQuery: string
    var selectedCategory: string
    var sortField: SortField
    var sortDirection: SortDirection
    var currentPage: int
    var itemsPerPage: int
    var selectedBookIds: set<int>
    var bookToDelete: Option<Book>
    var bulkDeleteMode: bool
    var deleteDialogOpen: bool

    /** The page size is one of the selector's options and the page counts from 1. */
    ghost predicate Valid()
      reads this
    {
      itemsPerPage in Pagination.PageSizeOptions && currentPage >= 1
    }

    /** The initial state: the query in flight, no filter, sorted by id ascending, the
        first page of ten, nothing selected. */
    constructor()
      ensures Valid()
      ensures books == [] && loading && !failed
      ensures searchQuery == "" && selectedCategory == AllCategories
      ensures sortField == IdField && sortDirection == Asc
      ensures currentPage == 1 && itemsPerPage == 10
      ensures selectedBookIds == {} && bookToDelete == None && !bulkDeleteMode && !deleteDialogOpen
    {
      books := [];
      loading := true;
      failed := false;
      searchQuery := "";
      selectedCategory := AllCategories;
      sortField := IdField;
      sortDirection := Asc;
      currentPage := 1;
      itemsPerPage := 10;
      selectedBookIds := {};
      bookToDelete := None;
      bulkDeleteMode := false;
      deleteDialogOpen := false;
    }

    function Filtered(): seq<Book>
      reads this
    {
      FilteredBooks(books, selectedCategory, searchQuery)
    }

    function Sorted(): seq<Book>
      reads this
    {
      BookSort.StableSort(Filtered(), sortField, sortDirection)
    }

    function Page(): seq<Book>
      reads this
    {
      PaginatedBooks(Sorted(), currentPage, itemsPerPage)
    }

    function PageCount(): int
      reads this
      requires itemsPerPage > 0
    {
      TotalPages(|Sorted()|, itemsPerPage)
    }

    /** The pagination bar is shown: the books are loaded, and neither empty state is. */
    predicate ShowsPagination()
      reads this
    {
      !loading && !failed && !HasNoResults(loading, failed, books, Filtered())
      && !IsLibraryEmpty(loading, failed, books)
    }

    /** When the pagination bar shows, there is at least one page. An in-range page holds
        between one and a page size of books, exactly as many as its "Showing" bounds
        count; a page past the last one holds none. */
    lemma ShownPage()
      requires Valid()
      ensures ShowsPagination() ==> PageCount() >= 1
      ensures ShowsPagination() && currentPage <= PageCount() ==>
        1 <= |Page()| <= itemsPerPage
        && |Page()| == Pagination.EndItem(currentPage, itemsPerPage, |Sorted()|)
                       - Pagination.StartItem(currentPage, itemsPerPage, |Sorted()|) + 1
      ensures currentPage > PageCount() ==> Page() == []
    {
      var sorted := Sorted();
      BookSort.StableSortPermutes(Filtered(), sortField, sortDirection);
      assert |sorted| == |multiset(sorted)| == |multiset(Filtered())| == |Filtered()|;
      TotalPagesIsCeiling(|sorted|, itemsPerPage);
      PageIsWindow(sorted, currentPage, itemsPerPage);
      if ShowsPagination() && currentPage <= PageCount() {
        ShowingMatchesPage(sorted, currentPage, itemsPerPage);
      }
      if currentPage > PageCount() {
        PastLastPageIsEmpty(sorted, currentPage, itemsPerPage);
      }
    }

    /** The query delivered the books. */
    method QueryCompleted(data: seq<Book>)
      modifies this`books, this`loading, this`failed
      ensures books == data && !loading && !failed
    {
      books := data;
      loading := false;
      failed := false;
    }

    /** The query failed: no data, so no books. */
    method QueryFailed()
      modifies this`books, this`loading, this`failed
      ensures books == [] && !loading && failed
    {
      books := [];
      loading := false;
      failed := true;
    }

    /** A category pill (or "All") was clicked. The page and the selection are kept. */
    method SelectCategory(category: string)
      modifies this`selectedCategory
      ensures selectedCategory == category
    {
      selectedCategory := category;
    }

    /** `handleSort`: the active field flips direction, another field becomes active
        ascending. */
    method HandleSort(field: SortField)
      modifies this`sortField, this`sortDirection
      ensures sortField == field
      ensures old(sortField) == field ==> sortDirection != old(sortDirection)
      ensures old(sortField) != field ==> sortDirection == Asc
    {
      if sortField == field {
        sortDirection := if sortDirection == Asc then Desc else Asc;
      } else {
        sortField := field;
        sortDirection := Asc;
      }
    }

    /** `handleDeleteClick`: the dialog opens for one book. */
    method HandleDeleteClick(book: Book)
      modifies this`bookToDelete, this`bulkDeleteMode, this`deleteDialogOpen
      ensures bookToDelete == Some(book) && !bulkDeleteMode && deleteDialogOpen
    {
      bookToDelete := Some(book);
      bulkDeleteMode := false;
      deleteDialogOpen := true;
    }

    /** `handleBulkDeleteClick`: the dialog opens for the selection. */
    method HandleBulkDeleteClick()
      modifies this`bulkDeleteMode, this`deleteDialogOpen
      ensures bulkDeleteMode && deleteDialogOpen
    {
      bulkDeleteMode := true;
      deleteDialogOpen := true;
    }

    /** `handleDeleteConfirm`. It returns the ids a delete was sent for. Deletes that
        went through clear a bulk selection, even when the reload after them fails; only
        a completed reload closes the dialog; the single target is dropped either way. */
    method HandleDeleteConfirm(outcome: DeleteOutcome) returns (requested: set<int>)
      modifies this`selectedBookIds, this`bookToDelete, this`deleteDialogOpen
      ensures requested == DeleteRequestIds(old(bulkDeleteMode), old(selectedBookIds), old(bookToDelete))
      ensures selectedBookIds == if bulkDeleteMode && outcome != DeleteFailed then {} else old(selectedBookIds)
      ensures bookToDelete == None
      ensures deleteDialogOpen == (old(deleteDialogOpen) && outcome != Done)
    {
      if bulkDeleteMode {
        requested := selectedBookIds;
      } else if bookToDelete.Some? {
        requested := {bookToDelete.value.id};
      } else {
        requested := {};
      }
      if outcome != DeleteFailed {
        if bulkDeleteMode {
          selectedBookIds := {};
        }
        if outcome == Done {
          deleteDialogOpen := false;
        }
      }
      bookToDelete := None;
    }

    /** `handleSelectAll`: every book of the current page, or none. */
    method HandleSelectAll(checked: bool)
      modifies this`selectedBookIds
      ensures selectedBookIds == if checked then IdsOf(Page()) else {}
      ensures checked ==> (TableView.AllSelected(Page(), selectedBookIds) <==> |Page()| > 0)
      ensures !TableView.SomeSelected(Page(), selectedBookIds)
    {
      if checked {
        selectedBookIds := IdsOf(Page());
      } else {
        selectedBookIds := {};
      }
      SelectAllTicksHeader(Page());
    }

    /** `handleSelectOne`: adds or removes one id. */
    method HandleSelectOne(id: int, checked: bool)
      modifies this`selectedBookIds
      ensures selectedBookIds == if checked then old(selectedBookIds) + {id} else old(selectedBookIds) - {id}
    {
      if checked {
        selectedBookIds := selectedBookIds + {id};
      } else {
        selectedBookIds := selectedBookIds - {id};
      }
    }

    method HandleClearSelection()
      modifies this`selectedBookIds
      ensures selectedBookIds == {}
    {
      selectedBookIds := {};
    }

    /** `handlePageChange`: moves to a page and clears the selection. The page bar only
        offers pages from 1 on. */
    method HandlePageChange(page: int)
      requires Valid() && page >= 1
      modifies this`currentPage, this`selectedBookIds
      ensures Valid()
      ensures currentPage == page && selectedBookIds == {}
    {
      currentPage := page;
      selectedBookIds := {};
    }

    /** `handleItemsPerPageChange`: a new page size, back to the first page, nothing
        selected. */
    method HandleItemsPerPageChange(count: int)
      requires count in Pagination.PageSizeOptions
      modifies this`itemsPerPage, this`currentPage, this`selectedBookIds
      ensures Valid()
      ensures itemsPerPage == count && currentPage == 1 && selectedBookIds == {}
    {
      itemsPerPage := count;
      currentPage := 1;
      selectedBookIds := {};
    }

    /** `handleClearFilters`: no query, every category, the first page; the fetched list
        is then shown whole. */
    method HandleClearFilters()
      requires Valid()
      modifies this`searchQuery, this`selectedCategory, this`currentPage
      ensures Valid()
      ensures searchQuery == "" && selectedCategory == AllCategories && currentPage == 1
      ensures Filtered() == books
    {
      searchQuery := "";
      selectedCategory := AllCategories;
      currentPage := 1;
      FilteredBooksCorrect(books, selectedCategory, searchQuery);
    }
  }
}
