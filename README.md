# Book catalog: verified model of the service and the list screen

This project models the core of a small book-catalog application in Dafny:

- the backend `BooksService`, an id-keyed table of books with seeding, create, find,
  update (a field-wise merge) and remove (`catalog.dfy`, class `Catalog.BooksService`);
- the list screen's derived data: category pills, the category and search filters,
  the stable sort by id, name or category, the page slice and page count, the names in
  the delete dialog, and the two empty-state flags. Its state and handlers make up the
  class `BookList.BookListView` (`book_list.dfy`). The sort is an in-place insertion sort
  on a fresh array, proved against a stable-sort specification (`book_sort.dfy`);
- the pagination bar: the "Showing start to end of N" bounds, the compressed page list
  built by `getPageNumbers`, the previous/next guards and the page-size options
  (`pagination.dfy`);
- the table view's tri-state header checkbox, row highlighting, sortable headers and
  sort icon (`table_view.dfy`);
- the add/edit dialog: validation, the submit gate and payload, the reset on
  open/close/target change, and per-field error clearing (`book_modal.dfy`, class
  `BookModal.BookForm`).

JavaScript's string operations are modelled in `js_string.dfy`:

- `trim` strips the ECMAScript white-space and line-terminator characters;
- `toLowerCase` lowercases ASCII letters;
- `includes` is a substring test;
- `<` on strings is lexicographic order on characters.

Three behaviours of the code are easy to misread; the model states them as the code has them:

- Choosing a category pill does not reset the current page; only a page-size change and
  "clear filters" do. After a filter shrinks the list, the page can lie past the last page.
  It then shows no book and no "no results" state (`BookList.StalePageShowsNothing`).
  The list has no search input, so `searchQuery` changes only when filters are cleared.
  The search stage is modelled as a function of the query.
- A book whose category is empty is listed under the "General" pill. Choosing that pill
  keeps only books whose category is literally "General", so it hides that book
  (`BookList.BlankCategoryHiddenByItsPill`).
- `update` takes its key from the input's `id`, and the merge copies that same `id`.
  The record therefore keeps its id.

## Model

| member | source | states |
|---|---|---|
| Catalog.SeedTableShape | backend/src/books/books.service.ts:16-47 | the seeded table holds the six seed books under consecutive fresh ids, each with its name, description and category |
| Catalog.BooksService.SeedDatabase | backend/src/books/books.service.ts:62-72 | on an empty store inserts exactly the six seed books one by one (the table equals the seed table, six rows); a non-empty store is left untouched |
| Catalog.BooksService.BootTwice | backend/src/books/books.service.ts:57-72 | seeding on two boots in a row leaves exactly the six seed books and advances the counter by six; a non-empty table and its counter are left as they were |
| Catalog.BooksService.Create | backend/src/books/books.service.ts:75-78 | the returned record has the input's fields and an id larger than every stored id; the table grows by exactly that record |
| Catalog.BooksService.FindAll | backend/src/books/books.service.ts:81-83 | a book is returned iff it is stored, in ascending id order |
| Catalog.NotFoundMessage | backend/src/books/books.service.ts:89 | the error text is "Book #", the decimal id, then " not found" |
| Catalog.NatToDecimal | backend/src/books/books.service.ts:89 | the template literal's rendering of a non-negative id: a non-empty string of decimal digits (read back exactly by `Catalog.DecimalRoundTrip`) |
| Catalog.DecimalRoundTrip | backend/src/books/books.service.ts:89 | reading the rendered digits back gives the id, and the rendering has no leading zero unless the id is 0 |
| Catalog.BooksService.FindOne | backend/src/books/books.service.ts:86-92 | returns the stored record when the id is present, else NotFound for that id; the store is unchanged |
| Catalog.Merge | backend/src/books/books.service.ts:97 | each field present in the patch overwrites, each absent one is kept, and the id is the patch's id |
| Catalog.BooksService.Update | backend/src/books/books.service.ts:95-98 | an absent id fails with NotFound and changes nothing; a present id's record is replaced by its merge with the patch, the id kept and every other record unchanged |
| Catalog.BooksService.Remove | backend/src/books/books.service.ts:102-105 | returns true iff the id was stored; afterwards the id is absent and every other record is unchanged; an absent id changes nothing |
| JsString.TrimEmptyIffBlank | frontend/src/components/BookList.tsx:72 | `trim()` yields the empty string exactly when every character is white space |
| JsString.ToLowerFacts | frontend/src/components/BookList.tsx:73-77 | lowercasing keeps the length, leaves non-letters alone, leaves no upper-case ASCII letter and is idempotent |
| JsString.LessTotal | frontend/src/components/BookList.tsx:92-93 | string `<` relates any two different strings one way or the other |
| JsString.LessTransitive | frontend/src/components/BookList.tsx:92-93 | string `<` is transitive |
| JsString.LessAsymmetric | frontend/src/components/BookList.tsx:92-93 | string `<` is irreflexive and asymmetric |
| BookSort.NotBeforeTransitive | frontend/src/components/BookList.tsx:85-95 | the comparator's "not before" relation is transitive, so the comparator is consistent |
| BookSort.StableSortCorrect | frontend/src/components/BookList.tsx:83-97 | the sorted list is a permutation of the filtered list, ordered by the lowercased (or numeric id) key in the chosen direction, and books with equal keys keep their relative order |
| BookSort.StableSortPermutes | frontend/src/components/BookList.tsx:83-97 | sorting neither adds nor drops a book: the sorted list has the same multiset as the filtered list |
| BookSort.StableSortSorts | frontend/src/components/BookList.tsx:83-97 | no book of the sorted list comes after one the comparator puts it before |
| BookSort.StableSortKeepsTies | frontend/src/components/BookList.tsx:83-97 | for every key, the books carrying that key appear in the sorted list in their filtered-list order |
| BookSort.InsertAt | frontend/src/components/BookList.tsx:85 | one insertion step places the next book after every book it does not precede, leaving the rest of the array alone |
| BookSort.SortedBooks | frontend/src/components/BookList.tsx:84-96 | sorting a fresh copy in place yields the stable sort: a permutation, sorted, ties in input order |
| BookList.CategoriesCorrect | frontend/src/components/BookList.tsx:65 | the pills are strictly ascending, duplicate-free, and list a label iff some book has it (an empty category counting as "General") |
| BookList.Categories | frontend/src/components/BookList.tsx:65 | definition of the pill list: each book's category, or "General" for an empty one, deduplicated and sorted (its properties are `BookList.CategoriesCorrect`) |
| BookList.BlankCategoryHiddenByItsPill | frontend/src/components/BookList.tsx:65-71 | a book with an empty category shows under "General", but the "General" filter drops it |
| BookList.KeepCounts | frontend/src/components/BookList.tsx:70 | a filter keeps every copy of each book that passes and drops every book that fails |
| BookList.KeepIsSubsequence | frontend/src/components/BookList.tsx:70-78 | a filter's result is a subsequence of its input |
| BookList.KeepKeep | frontend/src/components/BookList.tsx:67-81 | two filters in a row equal one filter by both tests |
| BookList.FilteredBooksCorrect | frontend/src/components/BookList.tsx:67-81 | the filtered list is the order-preserving subsequence of books in view: the category is "all" or equal, and the query is blank or its lowercased untrimmed text occurs in the lowercased name, description or category; with no filter it is the whole list; filtering twice equals filtering once |
| BookList.FilteredBooks | frontend/src/components/BookList.tsx:67-81 | definition of `filteredBooks`: the category stage unless "all" is chosen, then the search stage unless the query trims to ""; its properties are `BookList.FilteredBooksCorrect` |
| BookList.TotalPagesIsCeiling | frontend/src/components/BookList.tsx:104 | the page count is the ceiling of count / page size: enough pages for every book, zero exactly when there are none, and no spare page |
| BookList.TotalPages | frontend/src/components/BookList.tsx:104 | definition of `totalPages` as the integer ceiling of the count over the page size (proved so by `BookList.TotalPagesIsCeiling`) |
| BookList.PaginatedBooks | frontend/src/components/BookList.tsx:99-102 | definition of `paginatedBooks` as the JavaScript `slice` of the sorted list from `(page - 1) * n` for `n` books (its window is `BookList.PageIsWindow`) |
| BookList.PageIsWindow | frontend/src/components/BookList.tsx:99-102 | page p is `sorted[(p-1)*n .. min((p-1)*n+n, len))` (clamped) and holds at most n books |
| BookList.ShowingMatchesPage | frontend/src/components/Pagination.tsx:27-28 | for a page in range, start is at least 1 and end - start + 1 is the number of books on the page, which is at least 1 |
| BookList.PastLastPageIsEmpty | frontend/src/components/BookList.tsx:99-104 | a page past the last shows no book and its "Showing" bounds run backwards |
| BookList.EveryBookOnItsPage | frontend/src/components/BookList.tsx:99-104 | each book at index i appears on page i/n+1, which is in range, at position i mod n, and no other page's window holds index i |
| BookList.StalePageShowsNothing | frontend/src/components/BookList.tsx:239-256 | when a category choice leaves the page past the end of the filtered list, the page is empty and the "no results" state is off |
| BookList.DeleteDialogNamesRequested | frontend/src/components/BookList.tsx:118-127 | in bulk mode the dialog lists, in list order, the names of exactly the fetched books whose ids are about to be deleted; otherwise the single target's name |
| BookList.BooksToDeleteNames | frontend/src/components/BookList.tsx:163-166 | definition of the dialog's name list: the selected books' names in bulk mode, else the target's name, else none (its properties are `BookList.DeleteDialogNamesRequested`) |
| BookList.EmptyStatesExclusive | frontend/src/components/BookList.tsx:168-169 | "no results" and "library empty" never hold together, and "no results" needs a category or a non-blank query |
| BookList.HasNoResults | frontend/src/components/BookList.tsx:168 | definition of `hasNoResults`: loaded without error, some books fetched, and none passes the filter |
| BookList.IsLibraryEmpty | frontend/src/components/BookList.tsx:169 | definition of `isLibraryEmpty`: loaded without error and no book fetched |
| BookList.SelectAllTicksHeader | frontend/src/components/BookList.tsx:140-143 | after select-all the header checkbox is checked iff the page has a book, never indeterminate, and every row is ticked; after clearing nothing is ticked |
| BookList.BookListView.ShownPage | frontend/src/components/BookList.tsx:454-463 | in a valid view, whenever the pagination bar shows there is a page; an in-range page holds one to a page size of books, as many as the "Showing" bounds count; a page past the last is empty |
| BookList.BookListView.constructor | frontend/src/components/BookList.tsx:44-58 | initial state: loading, no books, category "all", empty query, sorted by id ascending, page 1 of 10, nothing selected |
| BookList.BookListView.HandleSort | frontend/src/components/BookList.tsx:106-113 | the active field flips direction; another field becomes active ascending; nothing else changes |
| BookList.BookListView.HandleSelectAll | frontend/src/components/BookList.tsx:140-143 | selection becomes exactly the ids of the current page, or empty |
| BookList.BookListView.HandleSelectOne | frontend/src/components/BookList.tsx:145-150 | adds or removes only the given id |
| BookList.BookListView.HandleClearSelection | frontend/src/components/BookList.tsx:152 | empties the selection |
| BookList.BookListView.HandlePageChange | frontend/src/components/BookList.tsx:153 | moves to the page and clears the selection |
| BookList.BookListView.HandleItemsPerPageChange | frontend/src/components/BookList.tsx:154 | sets the size (one of the options), page 1 and an empty selection |
| BookList.BookListView.HandleClearFilters | frontend/src/components/BookList.tsx:155 | empty query, category "all", page 1; the filtered list is then every fetched book |
| BookList.BookListView.SelectCategory | frontend/src/components/BookList.tsx:243 | sets the category filter and changes neither the page nor the selection |
| BookList.BookListView.HandleDeleteClick | frontend/src/components/BookList.tsx:115 | opens the dialog for one book, single mode |
| BookList.BookListView.HandleBulkDeleteClick | frontend/src/components/BookList.tsx:116 | opens the dialog in bulk mode |
| BookList.BookListView.HandleDeleteConfirm | frontend/src/components/BookList.tsx:118-138 | deletes are sent for the selection (bulk) or the target; once the deletes went through a bulk selection is cleared, even if the reload then fails; only a completed reload closes the dialog; the target is dropped either way |
| BookList.BookListView.QueryCompleted | frontend/src/components/BookList.tsx:44-64 | the fetched books become the list, loading and error off |
| BookList.BookListView.QueryFailed | frontend/src/components/BookList.tsx:44-64 | an error leaves no books, loading off, error on |
| Pagination.LayoutSmall | frontend/src/components/Pagination.tsx:35-39 | with at most seven pages the list is exactly 1..total |
| Pagination.LayoutLargeEnds | frontend/src/components/Pagination.tsx:42-59 | over seven pages the list has 3 to 7 entries, starts with 1, ends with the last page, and every marker sits between two numbers |
| Pagination.LayoutLargeCurrent | frontend/src/components/Pagination.tsx:44-57 | for a page in range the leading marker appears iff the page is above 3, the trailing one iff it is below total - 2, and the page itself is listed |
| Pagination.LayoutLargeOrder | frontend/src/components/Pagination.tsx:48-57 | the numbers rise strictly, lie within 1..total, and neighbours without a marker between them differ by 1 |
| Pagination.LayoutProperties | frontend/src/components/Pagination.tsx:31-63 | the compressed layout keeps every promise above, for every current page |
| Pagination.GetPageNumbers | frontend/src/components/Pagination.tsx:31-63 | the list pushed by the two loops is the compressed layout and keeps all its promises |
| Pagination.ArrowsStayInRange | frontend/src/components/Pagination.tsx:112-113 | previous is disabled exactly on page 1 and next exactly on the last page; from a page in range an enabled arrow leads to a page in range |
| Pagination.NextEnabledPastLastPage | frontend/src/components/Pagination.tsx:141 | the next guard is an equality, so past the last page the arrow stays enabled and leads further away |
| Pagination.StartItem | frontend/src/components/Pagination.tsx:27 | definition of the first item shown: 0 for no items, else `(page - 1) * n + 1` (related to the page by `BookList.ShowingMatchesPage`) |
| Pagination.EndItem | frontend/src/components/Pagination.tsx:28 | definition of the last item shown: `page * n`, capped at the item count |
| Pagination.PrevDisabled | frontend/src/components/Pagination.tsx:113 | definition of the disabled previous arrow: exactly on page 1 (see `Pagination.ArrowsStayInRange`) |
| Pagination.NextDisabled | frontend/src/components/Pagination.tsx:141 | definition of the disabled next arrow: exactly when the page equals the page count (see `Pagination.NextEnabledPastLastPage`) |
| TableView.HeaderCheckboxTriState | frontend/src/components/TableView.tsx:47-48 | all-selected and some-selected never hold together; some-selected iff one visible book is selected and one is not; neither iff no visible book is selected; both false on an empty page |
| TableView.AllSelected | frontend/src/components/TableView.tsx:47 | definition of `allSelected`: the page is not empty and every book on it is selected |
| TableView.RowState | frontend/src/components/TableView.tsx:113-118 | a row is ticked and highlighted iff its id is selected |
| TableView.SortableHeaders | frontend/src/components/TableView.tsx:65-103 | only the ID, Category and Name headers sort, each by its own field; Description does not |
| TableView.OneActiveHeader | frontend/src/components/TableView.tsx:29-34 | exactly the sort field's header shows an arrow, up for ascending and down for descending; the others show the neutral icon |
| TableView.SortIconFor | frontend/src/components/TableView.tsx:29-34 | definition of the sort icon: neutral when the column is not the active one, else up for ascending and down for descending |
| TableView.OnSortField | frontend/src/components/TableView.tsx:65-103 | definition of which header sorts by which field: ID, Category and Name each by their own, the other columns by none (see `TableView.SortableHeaders`) |
| BookModal.ValidationRules | frontend/src/components/BookModal.tsx:66-87 | name: "required" iff blank, "too long" iff non-blank and over 100 untrimmed; category: error iff empty; description: same as name with 500 |
| BookModal.Validation | frontend/src/components/BookModal.tsx:66-87 | definition of the errors `validate` records for the three fields (characterised by `BookModal.ValidationRules`) |
| BookModal.PaddingCountsTowardsLimit | frontend/src/components/BookModal.tsx:71 | trailing spaces that push a non-blank name past 100 characters make it "too long" |
| BookModal.FormValidIffNoErrors | frontend/src/components/BookModal.tsx:149-150 | the submit button is enabled exactly when validation records no error |
| BookModal.IsFormValid | frontend/src/components/BookModal.tsx:149-150 | definition of `isFormValid`: name and description non-blank after trim, a category chosen, and both texts within their limits |
| BookModal.EditPayloadReplacesFields | frontend/src/components/BookModal.tsx:94-103 | the update an edit sends, merged by the service, replaces all three fields and keeps the id |
| BookModal.BookForm.constructor | frontend/src/components/BookModal.tsx:36-39 | the fields start as the target's values, or empty, with no error |
| BookModal.BookForm.Reset | frontend/src/components/BookModal.tsx:53-64 | the fields take the target's values (an absent category as "") or become empty, and every error is cleared |
| BookModal.BookForm.Open | frontend/src/components/BookModal.tsx:53-64 | opening resets the form as above |
| BookModal.BookForm.Close | frontend/src/components/BookModal.tsx:53-64 | closing resets the form as above |
| BookModal.BookForm.ChangeTarget | frontend/src/components/BookModal.tsx:53-64 | a new target resets the form to its values |
| BookModal.BookForm.ChangeName | frontend/src/components/BookModal.tsx:206-209 | typing a name clears the name error and no other |
| BookModal.BookForm.ChangeCategory | frontend/src/components/BookModal.tsx:231-234 | choosing a category clears the category error and no other |
| BookModal.BookForm.ChangeDescription | frontend/src/components/BookModal.tsx:257-260 | typing a description clears the description error and no other |
| BookModal.BookForm.Validate | frontend/src/components/BookModal.tsx:66-87 | records the field errors and returns true iff there are none, which is iff the form is valid |
| BookModal.BookForm.HandleSubmit | frontend/src/components/BookModal.tsx:89-135 | an invalid form sends nothing and keeps its fields; an edit sends the target's id with all three fields; a create sends the three fields; success closes and resets the fields (to the target's values after an edit, to empty after a create); failure keeps the fields |

## Left out

- Authentication (the JWT guard and strategy, the Auth0 provider): foreign libraries and network calls.
- The GraphQL resolver: it only delegates, and its one detail, the update key, is folded into `Catalog.BooksService.Update`.
- Apollo queries, mutations, `refetch` and their timing: network I/O. A query's outcome is a call to `QueryCompleted` or `QueryFailed`. A mutation's outcome is the `succeeded` parameter, and a delete's outcome (delete rejected, reload rejected, or done) is a `DeleteOutcome`.
- BookList.BookListView.HandleDeleteConfirm: the bulk delete runs as concurrent requests (`Promise.all`). A partial failure, where some deletes went through, is not modelled. The `isDeleting` spinner flag is not modelled either.
- TypeORM and sql.js persistence, `synchronize`, autosave and the server bootstrap: the store is modelled as a map plus an auto-increment counter. Ids are never reused, and `find` returns rows in ascending id order.
- Catalog.BooksService.Update: a patch field sent as an explicit `null` is treated as absent. The database default category applies only to inserts that omit the column, and the service never does that.
- JsString.ToLowerFacts: `toLowerCase` is modelled on ASCII letters only. Unicode and locale case mapping is not modelled.
- JsString.LessTotal: JavaScript compares and measures strings in UTF-16 code units. The model uses Dafny characters, so the order and the `length` limits in validation differ for characters outside the Basic Multilingual Plane.
- Rendering, styling, animation, toasts, the grid/table view toggle, the stats cards and the loading skeleton: UI with no statable logic.
- BookModal.BookForm.HandleSubmit: `isSubmitting` (which disables the buttons while a request is in flight) is not modelled.
