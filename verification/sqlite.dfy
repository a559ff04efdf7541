/**
 * SQLiteDatabase.swift: the `DBValue` sum type, the column classification of
 * `OpaquePointer.value(at:)` and the row collection of `execute(querySql:)`.
 * The SQLite engine is abstract: a database maps query text to a prepared
 * statement (or to a preparation failure), and a statement is the column
 * count and the results `sqlite3_step` returns in turn.
 */
module SQLite {
  import opened Wrappers
  import opened Bytes

  /** A column value as the app sees it: text or blob, either possibly nil. */
  datatype DBValue = Text(text: Option<string>) | Blob(blob: Option<seq<byte>>) {

    /** `DBValue.string`: the payload of `.text`, nil for `.blob`. */
    function StringValue(): (r: Option<string>)
      ensures Text? ==> this == Text(r)
      ensures Blob? ==> r.None?
    {
      match this
      case Text(s) => s
      case Blob(_) => None
    }

    /** `DBValue.data`: the payload of `.blob`, nil for `.text`. */
    function DataValue(): (r: Option<seq<byte>>)
      ensures Blob? ==> this == Blob(r)
      ensures Text? ==> r.None?
    {
      match this
      case Text(_) => None
      case Blob(d) => d
    }
  }

  /** At most one projection is non-nil, and the case together with its projection gives the value back. */
  lemma Projections(v: DBValue)
    ensures v.StringValue().None? || v.DataValue().None?
    ensures v == if v.Text? then Text(v.StringValue()) else Blob(v.DataValue())
  {
  }

  // The fundamental datatype codes of the SQLite C interface.
  const SQLITE_INTEGER: int := 1
  const SQLITE_FLOAT: int := 2
  const SQLITE_TEXT: int := 3
  const SQLITE_BLOB: int := 4
  const SQLITE_NULL: int := 5

  /** `DBValue.ValueType`: raw values 1 to 5. */
  datatype ValueType = Integer | Float | TextType | BlobType | Null

  /** `DBValue.ValueType(rawValue:)`. */
  function ValueTypeOf(raw: int): (r: Option<ValueType>)
    ensures r.Some? <==> SQLITE_INTEGER <= raw <= SQLITE_NULL
    ensures r == Some(BlobType) <==> raw == SQLITE_BLOB
    ensures r == Some(TextType) <==> raw == SQLITE_TEXT
  {
    if raw == SQLITE_INTEGER then Some(Integer)
    else if raw == SQLITE_FLOAT then Some(Float)
    else if raw == SQLITE_TEXT then Some(TextType)
    else if raw == SQLITE_BLOB then Some(BlobType)
    else if raw == SQLITE_NULL then Some(Null)
    else None
  }

  /**
   * What the SQLite interface reports for one column of the current row:
   * `sqlite3_column_type`, and what `text(at:)` and `blob(at:)` read from
   * `sqlite3_column_text` and `sqlite3_column_blob` (nil for a NULL pointer).
   */
  datatype Cell = Cell(typeCode: int, text: Option<string>, blob: Option<seq<byte>>)

  /** A column outside the row reads as SQL NULL with no text and no blob. */
  const NullCell: Cell := Cell(SQLITE_NULL, None, None)

  /** `value(at:)`: blob columns become `.blob`, every other code, known or not, becomes `.text`. */
  function ValueAt(cell: Cell): (v: DBValue)
    ensures v.Blob? <==> cell.typeCode == SQLITE_BLOB
    ensures v.DataValue() == if cell.typeCode == SQLITE_BLOB then cell.blob else None
    ensures v.StringValue() == if cell.typeCode == SQLITE_BLOB then None else cell.text
  {
    var valueType := ValueTypeOf(cell.typeCode).GetOr(TextType);
    match valueType
    case BlobType => Blob(cell.blob)
    case _ => Text(cell.text)
  }

  /** One result of `sqlite3_step`: a row (SQLITE_ROW), the end (SQLITE_DONE), or an error code. */
  datatype Step = RowStep(cells: seq<Cell>) | DoneStep | ErrorStep(code: int) {

    /** The cell `sqlite3_column_*` read for column i of this row. */
    function CellAt(i: nat): Cell {
      if RowStep? && i < |cells| then cells[i] else NullCell
    }
  }

  /**
   * A prepared statement: `sqlite3_column_count` and the results of successive
   * `sqlite3_step` calls; stepping past the end reports SQLITE_DONE.
   */
  datatype Statement = Statement(columnCount: nat, steps: seq<Step>) {

    /** Whether step k returns SQLITE_ROW. */
    predicate IsRowAt(k: nat) {
      k < |steps| && steps[k].RowStep?
    }
  }

  /** A database handle: `prepareStatement(sql:)`, None where `sqlite3_prepare_v2` fails. */
  datatype Database = Database(prepare: string -> Option<Statement>)

  /** The number of leading steps that return SQLITE_ROW. */
  function RowRun(st: Statement, from: nat): (n: nat)
    requires from <= |st.steps|
    ensures from + n <= |st.steps|
    ensures forall k :: from <= k < from + n ==> st.IsRowAt(k)
    ensures !st.IsRowAt(from + n)
    decreases |st.steps| - from
  {
    if from < |st.steps| && st.steps[from].RowStep? then 1 + RowRun(st, from + 1) else 0
  }

  /** The values of one row, columns 0 to count - 1. */
  function RowValues(step: Step, count: nat): (row: seq<DBValue>)
    ensures |row| == count
    ensures forall j :: 0 <= j < count ==> row[j] == ValueAt(step.CellAt(j))
  {
    seq(count, j requires 0 <= j < count => ValueAt(step.CellAt(j)))
  }

  /**
   * The rows a statement yields: one per step, in step order, up to the first
   * step that is not SQLITE_ROW; every row as wide as the column count.
   */
  function Rows(st: Statement): (rows: seq<seq<DBValue>>)
    ensures |rows| == RowRun(st, 0)
    ensures forall i :: 0 <= i < |rows| ==> st.IsRowAt(i) && rows[i] == RowValues(st.steps[i], st.columnCount)
  {
    RowsFrom(st, 0)
  }

  function RowsFrom(st: Statement, from: nat): (rows: seq<seq<DBValue>>)
    requires from <= |st.steps|
    ensures |rows| == RowRun(st, from)
    ensures forall i :: 0 <= i < |rows| ==> rows[i] == RowValues(st.steps[from + i], st.columnCount)
    decreases |st.steps| - from
  {
    if from < |st.steps| && st.steps[from].RowStep? then
      [RowValues(st.steps[from], st.columnCount)] + RowsFrom(st, from + 1)
    else []
  }

  /** What `execute(querySql:)` returns: no rows when preparation fails. */
  function Query(db: Database, sql: string): (rows: seq<seq<DBValue>>)
    ensures db.prepare(sql).None? ==> rows == []
    ensures db.prepare(sql).Some? ==> rows == Rows(db.prepare(sql).value)
  {
    match db.prepare(sql)
    case None => []
    case Some(st) => Rows(st)
  }

  /**
   * `execute(querySql:)`: step while the result is SQLITE_ROW, reading columns
   * 0 to count - 1 of each row.
   */
  method Execute(db: Database, querySql: string) returns (rows: seq<seq<DBValue>>)
    ensures rows == Query(db, querySql)
    ensures db.prepare(querySql).None? ==> rows == []
    ensures db.prepare(querySql).Some? ==>
              var st := db.prepare(querySql).value;
              && |rows| == RowRun(st, 0)
              && forall i :: 0 <= i < |rows| ==>
                   |rows[i]| == st.columnCount
                   && forall j :: 0 <= j < st.columnCount ==> rows[i][j] == ValueAt(st.steps[i].CellAt(j))
  {
    var prepared := db.prepare(querySql);
    if prepared.None? {
      return [];
    }
    var queryStatement := prepared.value;
    var count := queryStatement.columnCount;
    rows := [];
    var k := 0;
    while queryStatement.IsRowAt(k)
      invariant k == |rows| <= RowRun(queryStatement, 0)
      invariant forall i :: 0 <= i < k ==>
                  |rows[i]| == count
                  && forall j :: 0 <= j < count ==> rows[i][j] == ValueAt(queryStatement.steps[i].CellAt(j))
      decreases |queryStatement.steps| - k
    {
      var columnValues: seq<DBValue> := [];
      for i := 0 to count
        invariant |columnValues| == i
        invariant forall j :: 0 <= j < i ==> columnValues[j] == ValueAt(queryStatement.steps[k].CellAt(j))
      {
        var value := ValueAt(queryStatement.steps[k].CellAt(i));
        columnValues := columnValues + [value];
      }
      rows := rows + [columnValues];
      k := k + 1;
    }
    forall i | 0 <= i < |rows|
      ensures rows[i] == RowValues(queryStatement.steps[i], count)
    {
    }
  }
}
