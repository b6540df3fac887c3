/** The records exchanged between the catalog service and the client: the `Book` entity,
    the two mutation inputs, and the client's sort configuration. */
module BookTypes {
  import opened Common

  /** A catalog record. The server entity and the client's `Book` interface carry the
      same four fields; `createdAt`, which the client type declares as optional and the
      server never sends, is not modelled. */
  datatype Book = Book(id: int, name: string, description: string, category: string)

  /** The column default of `category`; the database applies it only when an insert
      omits the column. */
  const DefaultCategory: string := "General"

  /** `createBook`'s input: all three fields are required. */
  datatype CreateBookInput = CreateBookInput(name: string, description: string, category: string)

  /** `updateBook`'s input: the id is required, every other field may be omitted. */
  datatype UpdateBookInput = UpdateBookInput(
    id: int,
    name: Option<string>,
    description: Option<string>,
    category: Option<string>)

  /** The client's `SortField`: 'id' | 'name' | 'category'. */
  datatype SortField = IdField | NameField | CategoryField

  /** The client's `SortDirection`: 'asc' | 'desc'. */
  datatype SortDirection = Asc | Desc
}
