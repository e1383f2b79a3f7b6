/** Shared vocabulary of the Summary-of-Deposits loader: failure-compatible
    wrappers, the error taxonomy, raw tables as read from an archive entry,
    and the typed records that are appended to the historical store. */
module Types {

  /** Some/None, used for values that may be absent. */
  datatype Option<+T> = None | Some(value: T)

  /** Ok/Err, used for every operation of the source that can raise. */
  datatype Result<+T, +E> = Ok(value: T) | Err(error: E) {

    predicate IsFailure() {
      Err?
    }

    function PropagateFailure<U>(): Result<U, E>
      requires Err?
    {
      Err(error)
    }

    function Extract(): T
      requires Ok?
    {
      value
    }
  }

  /** The exceptions the pipeline can raise, one constructor per cause. */
  datatype Error =
    | FetchFailed(year: int)                // the HTTP request or the zip decoding failed
    | Unparseable(entry: string)            // reading a `.csv` entry as a table failed
    | NoTables                              // concatenating an empty collection of tables
    | MissingColumns(columns: set<string>)  // a designated column is not in the frame
    | Malformed(column: string, text: string) // a designated cell failed coercion
    | AppendFailed(year: int)               // the store refused the append
    | NoSuchTable                           // the store file exists but holds no table yet
    | NullStartYear                         // MAX(YEAR) + 1 evaluated to NULL

  /** A calendar date, as produced by parsing `%m/%d/%Y`. */
  datatype Date = Date(year: int, month: int, day: int)

  /** One cell of a cleaned record. `Missing` is pandas' NaN / NaT. */
  datatype Value = Missing | Text(text: string) | Number(n: int) | Day(date: Date)

  /** One row of a raw table: column name to text. A column of the table
      that is absent from the row map is an empty (NaN) field. */
  type Row = map<string, string>

  datatype RawTable = RawTable(columns: set<string>, rows: seq<Row>)

  /** A raw table is rectangular: no row has a column its header lacks. */
  type Table = t: RawTable | forall i | 0 <= i < |t.rows| :: t.rows[i].Keys <= t.columns
    witness RawTable({}, [])

  /** A cleaned record: its provenance in the concatenated frame (the
      source entry name and the row position inside that entry) and its
      typed cells. */
  datatype Record = Record(source: string, position: nat, cells: map<string, Value>)
}
