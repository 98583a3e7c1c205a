/** The table `save_to_csv` writes: a header row of field names, then one row per record,
    each cell holding the record's value for the field named at the head of its column.
    Reading the table back goes through the header, as a dictionary reader does. */
module Exporter {
  import opened Wrappers
  import opened PyFloat
  import opened Catalog

  /** A cell before `csv` turns it into text. */
  datatype Cell = Str(s: string) | Num(d: Decimal) | Int(n: nat)

  type Row = seq<Cell>

  /** `fieldnames`, in the column order of the file. */
  const FieldNames: seq<string> := ["title", "price", "rating", "availability", "url"]

  /** No name occurs twice. */
  predicate Distinct(names: seq<string>) {
    forall i, j :: 0 <= i < j < |names| ==> names[i] != names[j]
  }

  /** The record seen as the dictionary handed to `writerow`: its value under each of its
      five keys, and the writer's `restval`, the empty string, under any other name. */
  function FieldValue(book: Book, name: string): Cell {
    if name == "title" then Str(book.title)
    else if name == "price" then Num(book.price)
    else if name == "rating" then Int(book.rating)
    else if name == "availability" then Str(book.availability)
    else if name == "url" then Str(book.url)
    else Str("")
  }

  /** A header row: each name as a text cell. */
  function HeaderOf(names: seq<string>): (row: Row)
    ensures |row| == |names|
    ensures forall k :: 0 <= k < |names| ==> row[k] == Str(names[k])
  {
    if names == [] then [] else HeaderOf(names[..|names| - 1]) + [Str(names[|names| - 1])]
  }

  /** A data row: the record's value for each name, column by column. */
  function Cells(book: Book, names: seq<string>): (row: Row)
    ensures |row| == |names|
    ensures forall k :: 0 <= k < |names| ==> row[k] == FieldValue(book, names[k])
  {
    if names == [] then [] else Cells(book, names[..|names| - 1]) + [FieldValue(book, names[|names| - 1])]
  }

  /** What `writeheader()` writes. */
  const HeaderRow: Row := HeaderOf(FieldNames)

  /** What `writerow(book)` writes: under each field name, the record's value for it. */
  function RowOf(book: Book): (row: Row)
    ensures |row| == |FieldNames|
    ensures forall k :: 0 <= k < |FieldNames| ==> row[k] == FieldValue(book, FieldNames[k])
  {
    Cells(book, FieldNames)
  }

  /** The first column whose header cell is `name`, if any. */
  function Column(header: Row, name: string): (k: Option<nat>)
    ensures k.Some? ==> k.value < |header| && header[k.value] == Str(name)
    ensures k.Some? ==> forall j :: 0 <= j < k.value ==> header[j] != Str(name)
    ensures k.None? ==> forall j :: 0 <= j < |header| ==> header[j] != Str(name)
  {
    if header == [] then None
    else if header[0] == Str(name) then Some(0)
    else
      match Column(header[1..], name)
      case None => None
      case Some(j) => Some(j + 1)
  }

  /** In a header of distinct names, each name heads exactly its own column. */
  lemma ColumnOfDistinct(names: seq<string>, k: nat)
    requires Distinct(names) && k < |names|
    ensures Column(HeaderOf(names), names[k]) == Some(k)
  {
    var header := HeaderOf(names);
    assert header[k] == Str(names[k]);
    var c := Column(header, names[k]);
    assert c.Some?;
    var j := c.value;
    assert header[j] == Str(names[j]);
    DistinctAt(names, j, k);
  }

  lemma DistinctAt(names: seq<string>, i: nat, j: nat)
    requires Distinct(names) && i < |names| && j < |names| && names[i] == names[j]
    ensures i == j
  {
  }

  /** The cell of `row` under the header cell `name`; `None` when there is no such column or
      the row is too short. */
  function Field(header: Row, row: Row, name: string): (c: Option<Cell>)
    ensures c.Some? ==> Column(header, name).Some? && Column(header, name).value < |row|
    ensures c.Some? ==> c.value == row[Column(header, name).value]
  {
    match Column(header, name)
    case None => None
    case Some(k) => if k < |row| then Some(row[k]) else None
  }

  /** Reading a data row back into a record through the header; `None` when a field is
      missing or holds the wrong kind of value. */
  function BookOfRow(header: Row, row: Row): Option<Book> {
    match (Field(header, row, "title"), Field(header, row, "price"), Field(header, row, "rating"),
           Field(header, row, "availability"), Field(header, row, "url"))
    case (Some(Str(title)), Some(Num(price)), Some(Int(rating)), Some(Str(availability)), Some(Str(url))) =>
      Some(Book(title, price, rating, availability, url))
    case _ => None
  }

  lemma FieldNamesDistinct()
    ensures Distinct(FieldNames)
  {
  }

  /** A row written under any header of distinct names that holds the five field names, in
      whatever order, reads back as the record. */
  lemma CellsRoundTrip(book: Book, names: seq<string>, t: nat, p: nat, r: nat, a: nat, u: nat)
    requires Distinct(names)
    requires t < |names| && p < |names| && r < |names| && a < |names| && u < |names|
    requires names[t] == "title" && names[p] == "price" && names[r] == "rating"
    requires names[a] == "availability" && names[u] == "url"
    ensures BookOfRow(HeaderOf(names), Cells(book, names)) == Some(book)
  {
    ColumnOfDistinct(names, t);
    ColumnOfDistinct(names, p);
    ColumnOfDistinct(names, r);
    ColumnOfDistinct(names, a);
    ColumnOfDistinct(names, u);
  }

  /** A written row holds the whole record. */
  lemma RowRoundTrip(book: Book)
    ensures BookOfRow(HeaderRow, RowOf(book)) == Some(book)
  {
    FieldNamesDistinct();
    CellsRoundTrip(book, FieldNames, 0, 1, 2, 3, 4);
  }

  /** Different records give different rows. */
  lemma RowOfInjective(a: Book, b: Book)
    requires RowOf(a) == RowOf(b)
    ensures a == b
  {
    RowRoundTrip(a);
    RowRoundTrip(b);
  }

  /** The data rows, one per record, in order. */
  function Rows(data: seq<Book>): (rows: seq<Row>)
    ensures |rows| == |data|
    ensures forall i :: 0 <= i < |data| ==> rows[i] == RowOf(data[i])
  {
    if data == [] then [] else Rows(data[..|data| - 1]) + [RowOf(data[|data| - 1])]
  }

  /** The whole file: the header, then row i + 1 for record i. */
  function Table(data: seq<Book>): (t: seq<Row>)
    ensures |t| == |data| + 1 && t[0] == HeaderRow
    ensures forall i :: 0 <= i < |data| ==> t[i + 1] == RowOf(data[i])
  {
    [HeaderRow] + Rows(data)
  }

  /** Reading the data rows back through `header`; `None` if any row does not read. */
  function ReadRows(header: Row, rows: seq<Row>): (data: Option<seq<Book>>)
    ensures data.Some? ==> |data.value| == |rows|
  {
    if rows == [] then Some([])
    else
      match (ReadRows(header, rows[..|rows| - 1]), BookOfRow(header, rows[|rows| - 1]))
      case (Some(init), Some(last)) => Some(init + [last])
      case _ => None
  }

  /** Reading one more row that reads adds its record at the end. */
  lemma ReadRowsStep(header: Row, rows: seq<Row>, init: seq<Book>, last: Book)
    requires rows != []
    requires ReadRows(header, rows[..|rows| - 1]) == Some(init)
    requires BookOfRow(header, rows[|rows| - 1]) == Some(last)
    ensures ReadRows(header, rows) == Some(init + [last])
  {
  }

  /** Reading a file: its first row is the header the others are read through. */
  function ReadTable(table: seq<Row>): Option<seq<Book>> {
    if table == [] then None else ReadRows(table[0], table[1..])
  }

  /** What `save_to_csv` writes reads back as exactly the records, in order. */
  lemma {:induction false} RowsRoundTrip(data: seq<Book>)
    ensures ReadRows(HeaderRow, Rows(data)) == Some(data)
  {
    if data != [] {
      var init := data[..|data| - 1];
      var last := data[|data| - 1];
      RowsSnoc(data);
      RowsRoundTrip(init);
      RowRoundTrip(last);
      ReadRowsStep(HeaderRow, Rows(data), init, last);
      assert init + [last] == data;
    }
  }

  lemma RowsSnoc(data: seq<Book>)
    requires data != []
    ensures Rows(data)[..|data| - 1] == Rows(data[..|data| - 1])
    ensures Rows(data)[|data| - 1] == RowOf(data[|data| - 1])
  {
  }

  lemma TableRoundTrip(data: seq<Book>)
    ensures ReadTable(Table(data)) == Some(data)
  {
    var t := Table(data);
    assert t[1..] == Rows(data);
    RowsRoundTrip(data);
  }
}
