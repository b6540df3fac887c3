/** The table rendering of a page of books, reduced to its logic: the tri-state
    "select all" checkbox, the per-row selection test, the sortable headers and the
    sort indicator each header shows. */
module TableView {
  import opened Common
  import opened BookTypes

  /** `allSelected`: the page is non-empty and every book on it is selected. */
  predicate AllSelected(books: seq<Book>, selectedIds: set<int>) {
    |books| > 0 && forall b :: b in books ==> b.id in selectedIds
  }

  /** `someSelected`: some book on the page is selected, but not all of them. */
  predicate SomeSelected(books: seq<Book>, selectedIds: set<int>) {
    (exists b :: b in books && b.id in selectedIds) && !AllSelected(books, selectedIds)
  }

  /** The header checkbox is in exactly one of three states: checked, indeterminate, or
      clear with no visible book selected; an empty page shows it clear. */
  lemma HeaderCheckboxTriState(books: seq<Book>, selectedIds: set<int>)
    ensures !(AllSelected(books, selectedIds) && SomeSelected(books, selectedIds))
    ensures SomeSelected(books, selectedIds) <==>
      (exists b :: b in books && b.id in selectedIds) && (exists b :: b in books && b.id !in selectedIds)
    ensures !AllSelected(books, selectedIds) && !SomeSelected(books, selectedIds) <==>
      forall b :: b in books ==> b.id !in selectedIds
    ensures |books| == 0 ==> !AllSelected(books, selectedIds) && !SomeSelected(books, selectedIds)
  {
    if |books| > 0 && forall b :: b in books ==> b.id !in selectedIds {
      assert books[0] in books;
    }
  }

  /** How a row is drawn: its checkbox ticked, its background highlighted. */
  datatype RowLook = RowLook(checked: bool, highlighted: bool)

  function RowState(b: Book, selectedIds: set<int>): (look: RowLook)
    ensures look.checked <==> b.id in selectedIds
    ensures look.highlighted <==> b.id in selectedIds
  {
    var selected := b.id in selectedIds;
    RowLook(selected, selected)
  }

  /** The indicator next to a sortable header. */
  datatype SortIcon = Neutral | ArrowUp | ArrowDown

  /** `SortIcon`: the faded two-way arrow when the header is not the sort field, else the
      arrow of the direction. */
  function SortIconFor(active: bool, direction: SortDirection): SortIcon {
    if !active then Neutral else if direction == Asc then ArrowUp else ArrowDown
  }

  /** The columns of the table header, left to right. */
  datatype Column = SelectColumn | IdColumn | CategoryColumn | NameColumn | DescriptionColumn | ActionsColumn

  const Columns: seq<Column> :=
    [SelectColumn, IdColumn, CategoryColumn, NameColumn, DescriptionColumn, ActionsColumn]

  /** The field a click on the header sorts by, if the header is sortable. */
  function OnSortField(c: Column): Option<SortField> {
    match c
    case IdColumn => Some(IdField)
    case CategoryColumn => Some(CategoryField)
    case NameColumn => Some(NameField)
    case _ => None
  }

  /** The indicator a header shows, if it is sortable. */
  function HeaderIcon(c: Column, sortField: SortField, direction: SortDirection): Option<SortIcon> {
    match OnSortField(c)
    case Some(f) => Some(SortIconFor(f == sortField, direction))
    case None => None
  }

  /** Exactly the ID, Category and Name headers sort, each by its own field, so every
      field has exactly one header. */
  lemma SortableHeaders()
    ensures forall c :: OnSortField(c).Some? <==> c in {IdColumn, CategoryColumn, NameColumn}
    ensures OnSortField(DescriptionColumn) == None
    ensures forall f: SortField :: exists i :: 0 <= i < |Columns| && OnSortField(Columns[i]) == Some(f)
    ensures forall i, j :: 0 <= i < j < |Columns| && OnSortField(Columns[i]).Some? ==>
      OnSortField(Columns[i]) != OnSortField(Columns[j])
  {
    forall f: SortField ensures exists i :: 0 <= i < |Columns| && OnSortField(Columns[i]) == Some(f) {
      match f
      case IdField => assert OnSortField(Columns[1]) == Some(f);
      case CategoryField => assert OnSortField(Columns[2]) == Some(f);
      case NameField => assert OnSortField(Columns[3]) == Some(f);
    }
  }

  /** Exactly one header shows a direction arrow, the one of the sort field, and its
      arrow points up exactly when the direction is ascending. */
  lemma OneActiveHeader(sortField: SortField, direction: SortDirection)
    ensures forall c ::
      (HeaderIcon(c, sortField, direction).Some? && HeaderIcon(c, sortField, direction).value != Neutral)
        <==> OnSortField(c) == Some(sortField)
    ensures forall c :: OnSortField(c) == Some(sortField) ==>
      HeaderIcon(c, sortField, direction) == Some(if direction == Asc then ArrowUp else ArrowDown)
  {
  }
}
