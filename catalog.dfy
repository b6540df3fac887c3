/** The catalog service: CRUD over one table of books, with first-boot seeding.
    The relational table is a map from id to record; the auto-increment column is a
    counter that only grows, so an id is never handed out twice. */
module Catalog {
  import opened Common
  import opened BookTypes

  /** The `NotFoundException` thrown by `findOne` and, through it, by `update`. */
  datatype ServiceError = NotFound(id: int)

  /** The six sample books inserted into an empty table at boot. */
  const SeedBooks: seq<CreateBookInput> := [
    CreateBookInput(
      "The Toxin Audit",
      "Dr. Helena Voss provides a comprehensive field guide to identifying, cataloging, and safely recovering toxic chemicals from industrial waste streams.",
      "Industrial"),
    CreateBookInput(
      "Industrial Streams",
      "Marcus Chen explores innovative methods for transforming factory byproducts into valuable resources, featuring case studies from leading facilities.",
      "Industrial"),
    CreateBookInput(
      "From Curb to Commodity",
      "Sarah Kellerman traces the complete lifecycle of municipal waste, from collection to processing, revealing opportunities for value recovery.",
      "Municipal"),
    CreateBookInput(
      "Zero Waste Cities",
      "James Okafor presents actionable strategies for municipalities aiming to achieve zero waste status, with examples from successful programs.",
      "Municipal"),
    CreateBookInput(
      "The Decomposition Advantage",
      "Maria Sandoval demonstrates how organic waste can be transformed into premium compost and biogas, creating environmental and economic value.",
      "Organic"),
    CreateBookInput(
      "Soil Regeneration",
      "Dr. Patrick Greenway explains the science behind using composted organic matter to restore depleted soils and enhance agricultural productivity.",
      "Organic")
  ]

  /** The decimal digits of `n`, as a template literal renders a non-negative number. */
  function NatToDecimal(n: nat): (s: string)
    ensures |s| >= 1 && forall i :: 0 <= i < |s| ==> '0' <= s[i] <= '9'
    decreases n
  {
    var digit := ['0' + (n % 10) as char];
    if n < 10 then digit else NatToDecimal(n / 10) + digit
  }

  /** The number a string of decimal digits denotes, read most significant digit first. */
  function DecimalValue(s: string): int
    decreases |s|
  {
    if s == [] then 0 else DecimalValue(s[..|s| - 1]) * 10 + (s[|s| - 1] as int - '0' as int)
  }

  /** The rendering reads back as the number, and has no leading zero unless it is "0". */
  lemma {:induction false} DecimalRoundTrip(n: nat)
    ensures DecimalValue(NatToDecimal(n)) == n
    ensures NatToDecimal(n)[0] == '0' ==> n == 0
    decreases n
  {
    var digit := ['0' + (n % 10) as char];
    if n >= 10 {
      var high := NatToDecimal(n / 10);
      DecimalRoundTrip(n / 10);
      assert NatToDecimal(n) == high + digit;
      assert (high + digit)[..|high|] == high;
      assert (high + digit)[0] == high[0];
    }
  }

  /** The message of the not-found error: `Book #<id> not found`, with the id in decimal. */
  function NotFoundMessage(id: int): (msg: string)
    ensures |msg| > 16
    ensures msg[..6] == "Book #" && msg[|msg| - 10..] == " not found"
    ensures id >= 0 ==> DecimalValue(msg[6..|msg| - 10]) == id && (msg[6] == '0' ==> id == 0)
    ensures id < 0 ==> msg[6] == '-' && DecimalValue(msg[7..|msg| - 10]) == -id && msg[7] != '0'
  {
    var digits := if id < 0 then "-" + NatToDecimal(-id) else NatToDecimal(id);
    DecimalRoundTrip(if id < 0 then -id else id);
    var msg := "Book #" + digits + " not found";
    assert msg[6..|msg| - 10] == digits;
    assert id < 0 ==> msg[7..|msg| - 10] == NatToDecimal(-id) && msg[7] == NatToDecimal(-id)[0];
    msg
  }

  /** The record the table stores when `input` is inserted under `id`. */
  function NewRecord(id: int, input: CreateBookInput): Book {
    Book(id, input.name, input.description, input.category)
  }

  /** `Object.assign(book, patch)`: every field present in the patch, the id included,
      overwrites the record's field; every omitted field keeps its value. */
  function Merge(book: Book, patch: UpdateBookInput): (r: Book)
    ensures r.id == patch.id
    ensures patch.name.Some? ==> r.name == patch.name.value
    ensures patch.name.None? ==> r.name == book.name
    ensures patch.description.Some? ==> r.description == patch.description.value
    ensures patch.description.None? ==> r.description == book.description
    ensures patch.category.Some? ==> r.category == patch.category.value
    ensures patch.category.None? ==> r.category == book.category
  {
    Book(patch.id,
         patch.name.GetOr(book.name),
         patch.description.GetOr(book.description),
         patch.category.GetOr(book.category))
  }

  /** Applying the same patch twice is the same as applying it once. */
  lemma MergeIdempotent(book: Book, patch: UpdateBookInput)
    ensures Merge(Merge(book, patch), patch) == Merge(book, patch)
  {
  }

  /** A patch naming only the record's own id changes nothing. */
  lemma MergeEmptyPatch(book: Book)
    ensures Merge(book, UpdateBookInput(book.id, None, None, None)) == book
  {
  }

  /** The rows that inserting `seeds` one by one produces when the counter stands at `start`. */
  function SeedTable(start: int, seeds: seq<CreateBookInput>): map<int, Book>
    decreases |seeds|
  {
    if seeds == [] then map[]
    else
      var last := start + |seeds| - 1;
      SeedTable(start, seeds[..|seeds| - 1])[last := NewRecord(last, seeds[|seeds| - 1])]
  }

  /** Seeding gives the k-th seed the id `start + k`, and nothing else. */
  lemma {:induction false} SeedTableShape(start: int, seeds: seq<CreateBookInput>)
    ensures forall id :: id in SeedTable(start, seeds) <==> start <= id < start + |seeds|
    ensures forall k :: 0 <= k < |seeds| ==> SeedTable(start, seeds)[start + k] == NewRecord(start + k, seeds[k])
    ensures |SeedTable(start, seeds)| == |seeds|
    decreases |seeds|
  {
    if seeds != [] {
      var init := seeds[..|seeds| - 1];
      SeedTableShape(start, init);
      var last := start + |seeds| - 1;
      assert last !in SeedTable(start, init);
      forall k | 0 <= k < |seeds| - 1
        ensures SeedTable(start, seeds)[start + k] == NewRecord(start + k, seeds[k])
      {
        assert init[k] == seeds[k];
      }
    }
  }

  /** The service over its table. `rows` is the table keyed by id; `nextId` is the value
      the auto-increment column hands out next. */
  class BooksService {
    var rows: map<int, Book>
    var nextId: int

    /** Every stored record sits under its own id, and every id is positive and below
        the counter. */
    ghost predicate Valid()
      reads this
    {
      && 1 <= nextId
      && forall id :: id in rows ==> 1 <= id < nextId && rows[id].id == id
    }

    /** A fresh, empty table. */
    constructor ()
      ensures Valid() && rows == map[] && nextId == 1
    {
      rows := map[];
      nextId := 1;
    }

    /** Inserts `seeds` into the empty table one at a time, in order. */
    method InsertEach(seeds: seq<CreateBookInput>)
      requires Valid() && rows == map[]
      modifies this
      ensures Valid()
      ensures rows == SeedTable(old(nextId), seeds) && nextId == old(nextId) + |seeds|
    {
      ghost var start := nextId;
      var i := 0;
      while i < |seeds|
        invariant 0 <= i <= |seeds|
        invariant Valid()
        invariant nextId == start + i
        invariant rows == SeedTable(start, seeds[..i])
      {
        var _ := Create(seeds[i]);
        assert seeds[..i + 1][..i] == seeds[..i];
        i := i + 1;
      }
      assert seeds[..|seeds|] == seeds;
    }

    /** Seeds the table with the sample books, one insert at a time, if it is empty;
        a non-empty table is left as it is. */
    method SeedDatabase()
      requires Valid()
      modifies this
      ensures Valid()
      ensures old(rows) == map[] ==> rows == SeedTable(old(nextId), SeedBooks) && nextId == old(nextId) + |SeedBooks|
      ensures old(rows) == map[] ==> |rows| == |SeedBooks| == 6
      ensures old(rows) != map[] ==> rows == old(rows) && nextId == old(nextId)
    {
      if |rows| == 0 {
        ghost var start := nextId;
        InsertEach(SeedBooks);
        SeedTableShape(start, SeedBooks);
      }
    }

    /** The boot hook runs the seeding; two boots over the same table insert the seed
        set once. */
    method BootTwice()
      requires Valid()
      modifies this
      ensures Valid()
      ensures old(rows) == map[] ==> |rows| == |SeedBooks| && rows == SeedTable(old(nextId), SeedBooks)
      ensures old(rows) == map[] ==> nextId == old(nextId) + |SeedBooks|
      ensures old(rows) != map[] ==> rows == old(rows) && nextId == old(nextId)
    {
      SeedDatabase();
      SeedDatabase();
    }

    /** Inserts a record built from the input under a fresh id. */
    method Create(input: CreateBookInput) returns (book: Book)
      requires Valid()
      modifies this
      ensures Valid()
      ensures book.id == old(nextId)
      ensures book.id !in old(rows) && forall id :: id in old(rows) ==> id < book.id
      ensures book == NewRecord(book.id, input)
      ensures rows == old(rows)[book.id := book]
      ensures nextId == old(nextId) + 1
    {
      book := NewRecord(nextId, input);
      rows := rows[nextId := book];
      nextId := nextId + 1;
    }

    /** Every stored record and no other, in ascending id order (the table's rowid order). */
    method FindAll() returns (books: seq<Book>)
      requires Valid()
      ensures forall b :: b in books <==> b.id in rows && rows[b.id] == b
      ensures forall i, j :: 0 <= i < j < |books| ==> books[i].id < books[j].id
    {
      books := [];
      var id := 1;
      while id < nextId
        invariant 1 <= id <= nextId
        invariant forall b :: b in books <==> b.id < id && b.id in rows && rows[b.id] == b
        invariant forall i :: 0 <= i < |books| ==> books[i].id < id
        invariant forall i, j :: 0 <= i < j < |books| ==> books[i].id < books[j].id
      {
        if id in rows {
          books := books + [rows[id]];
        }
        id := id + 1;
      }
    }

    /** The record stored under `id`, or the not-found error. */
    method FindOne(id: int) returns (r: Result<Book, ServiceError>)
      ensures id in rows ==> r == Ok(rows[id])
      ensures id !in rows ==> r == Err(NotFound(id))
    {
      if id in rows {
        r := Ok(rows[id]);
      } else {
        r := Err(NotFound(id));
      }
    }

    /** `updateBook`: looks the record up under `patch.id`, merges the patch onto it and
        stores it back; an absent id fails and changes nothing. */
    method Update(patch: UpdateBookInput) returns (r: Result<Book, ServiceError>)
      requires Valid()
      modifies this
      ensures Valid()
      ensures patch.id !in old(rows) ==> r == Err(NotFound(patch.id)) && rows == old(rows)
      ensures patch.id in old(rows) ==>
        && r == Ok(Merge(old(rows)[patch.id], patch))
        && r.value.id == old(rows)[patch.id].id
        && rows == old(rows)[patch.id := r.value]
      ensures nextId == old(nextId)
    {
      var found := FindOne(patch.id);
      match found
      case Err(e) =>
        r := Err(e);
      case Ok(book) =>
        var updated := Merge(book, patch);
        rows := rows[patch.id := updated];
        r := Ok(updated);
    }

    /** Deletes the record under `id`, reporting whether one was there; an absent id is
        not an error. */
    method Remove(id: int) returns (removed: bool)
      requires Valid()
      modifies this
      ensures Valid()
      ensures removed <==> id in old(rows)
      ensures rows == old(rows) - {id} && id !in rows
      ensures !removed ==> rows == old(rows)
      ensures nextId == old(nextId)
    {
      removed := id in rows;
      rows := rows - {id};
    }
  }
}
