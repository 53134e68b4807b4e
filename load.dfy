/**
 * The insert task: one INSERT INTO raw_data per index below the published
 * count, each filled from that row of the published table.  Statements are
 * modelled as records (the row index and the four values in the column
 * order of raw_data), not as SQL text.
 */
module Load {
  import opened Records

  /** Column names of raw_data, in the order its CREATE TABLE declares them. */
  const RawDataColumnNames: seq<string> := ["date", "title", "abstract", "url"]

  /** The table column a raw_data column is filled from. */
  function SourceColumn(name: string): Column
    requires name in RawDataColumnNames
  {
    if name == "date" then CreatedDate
    else if name == "title" then Title
    else if name == "abstract" then Abstract
    else Url
  }

  /** One INSERT INTO raw_data VALUES(...), reading row `index` of the table. */
  datatype InsertRecord = InsertRecord(index: nat, date: string, title: string, abstractText: string, url: string)

  /** The VALUES list of a statement, positionally. */
  function Values(stmt: InsertRecord): seq<string>
  {
    [stmt.date, stmt.title, stmt.abstractText, stmt.url]
  }

  /** The statement the template yields for index `i` once row `i` is looked up. */
  function InsertFor(i: nat, row: Row): InsertRecord
  {
    InsertRecord(i, row.createdDate, row.title, row.abstractText, row.url)
  }

  /** The statement list built over `range(count)`.  The count is read apart
      from the table, so it must not exceed the table's length for every
      row lookup to succeed. */
  function InsertStatements(rows: seq<Row>, count: nat): (stmts: seq<InsertRecord>)
    requires count <= |rows|
    ensures |stmts| == count
    ensures forall i :: 0 <= i < count ==> stmts[i].index == i
    ensures forall i, c :: 0 <= i < count && 0 <= c < |RawDataColumnNames| ==>
      Values(stmts[i])[c] == Field(rows[i], SourceColumn(RawDataColumnNames[c]))
  {
    seq(count, i requires 0 <= i < count <= |rows| => InsertFor(i, rows[i]))
  }

  /** The row a statement adds to raw_data, read back in the table's column order. */
  function RowInserted(stmt: InsertRecord): Row
  {
    Row(stmt.title, stmt.abstractText, stmt.url, stmt.date)
  }

  /** The rows a statement list carries into raw_data, in execution order
      (constraint checks of the database are not modelled). */
  function Loaded(stmts: seq<InsertRecord>): seq<Row>
    decreases |stmts|
  {
    if stmts == [] then []
    else Loaded(stmts[..|stmts| - 1]) + [RowInserted(stmts[|stmts| - 1])]
  }

  /** A shorter count yields a prefix of the statements of a longer one. */
  lemma InsertStatementsPrefix(rows: seq<Row>, count: nat, k: nat)
    requires k <= count <= |rows|
    ensures InsertStatements(rows, count)[..k] == InsertStatements(rows, k)
  {
  }

  /** The rows the statements for count `count` carry are exactly the first
      `count` rows of the table, in order. */
  lemma {:induction false} InsertsLoadPrefix(rows: seq<Row>, count: nat)
    requires count <= |rows|
    ensures Loaded(InsertStatements(rows, count)) == rows[..count]
    decreases count
  {
    if count > 0 {
      var stmts := InsertStatements(rows, count);
      InsertStatementsPrefix(rows, count, count - 1);
      InsertsLoadPrefix(rows, count - 1);
      assert rows[..count] == rows[..count - 1] + [rows[count - 1]];
    }
  }

  /** When the count is the table's length, the statements carry the whole table. */
  lemma InsertsLoadTable(rows: seq<Row>)
    ensures Loaded(InsertStatements(rows, |rows|)) == rows
  {
    InsertsLoadPrefix(rows, |rows|);
    assert rows[..|rows|] == rows;
  }

  /** Each generated statement's VALUES follow the column order of raw_data:
      the value in column `date` is the row's creation date, and so on. */
  lemma ValuesFollowDdl(rows: seq<Row>, count: nat, i: nat, c: nat)
    requires count <= |rows| && i < count && c < |RawDataColumnNames|
    ensures RawDataColumnNames[c] == "date" ==> Values(InsertStatements(rows, count)[i])[c] == rows[i].createdDate
    ensures RawDataColumnNames[c] == "title" ==> Values(InsertStatements(rows, count)[i])[c] == rows[i].title
    ensures RawDataColumnNames[c] == "abstract" ==> Values(InsertStatements(rows, count)[i])[c] == rows[i].abstractText
    ensures RawDataColumnNames[c] == "url" ==> Values(InsertStatements(rows, count)[i])[c] == rows[i].url
  {
  }
}
