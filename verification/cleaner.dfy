/** Record cleaning, `annual_info_cleaner`: the tables of one archive are
    concatenated into one frame, the four designated numeric columns are
    coerced by the numeric rule, the designated date column by the date
    rule, and every other column passes through as text. */
module Cleaner {
  import opened Types
  import opened Archive
  import Normalize

  /** The numeric columns, in the order the cleaner converts them. */
  const NumericColumns: seq<string> := ["DEPSUM", "DEPDOM", "ASSET", "DEPSUMBR"]

  /** The date column, converted after the numeric ones. */
  const DateColumn: string := "SIMS_ESTABLISHED_DATE"

  predicate IsDesignated(c: string) {
    c in NumericColumns || c == DateColumn
  }

  /** A row of the concatenated frame: the dict key of its table, its
      position in that table, and its raw cells. */
  datatype FrameRow = FrameRow(source: string, position: nat, cells: Row)

  function TotalRows(tables: Tables): nat {
    if |tables| == 0 then 0 else |tables[0].1.rows| + TotalRows(tables[1..])
  }

  /** Number of frame rows contributed by the first `j` tables. */
  function Offset(tables: Tables, j: nat): nat
    requires j <= |tables|
  {
    if j == 0 then 0 else |tables[0].1.rows| + Offset(tables[1..], j - 1)
  }

  function TagRows(name: string, rows: seq<Row>): (f: seq<FrameRow>)
    ensures |f| == |rows|
  {
    seq(|rows|, k requires 0 <= k < |rows| => FrameRow(name, k, rows[k]))
  }

  /** `pd.concat(info_dict)`: the rows of every table in dict order. */
  function Concat(tables: Tables): (frame: seq<FrameRow>)
    ensures |frame| == TotalRows(tables)
  {
    if |tables| == 0 then [] else TagRows(tables[0].0, tables[0].1.rows) + Concat(tables[1..])
  }

  /** Row `k` of table `j` sits at position `Offset(j) + k` of the frame,
      tagged with the table's name and its own position. */
  lemma {:induction false} ConcatIndex(tables: Tables, j: nat, k: nat)
    requires j < |tables| && k < |tables[j].1.rows|
    ensures Offset(tables, j) + k < |Concat(tables)|
    ensures Concat(tables)[Offset(tables, j) + k] == FrameRow(tables[j].0, k, tables[j].1.rows[k])
  {
    var head := TagRows(tables[0].0, tables[0].1.rows);
    if j == 0 {
      assert Concat(tables)[k] == head[k];
    } else {
      ConcatIndex(tables[1..], j - 1, k);
      assert tables[1..][j - 1] == tables[j];
      assert Concat(tables)[Offset(tables, j) + k] == Concat(tables[1..])[Offset(tables[1..], j - 1) + k];
    }
  }

  /** Every frame row comes from some table row: nothing is invented. */
  lemma {:induction false} ConcatSource(tables: Tables, i: nat)
    requires i < |Concat(tables)|
    ensures exists j, k | 0 <= j < |tables| && 0 <= k < |tables[j].1.rows| ::
      Offset(tables, j) + k == i
      && Concat(tables)[i] == FrameRow(tables[j].0, k, tables[j].1.rows[k])
  {
    var n := |tables[0].1.rows|;
    if i < n {
      ConcatIndex(tables, 0, i);
    } else {
      ConcatSource(tables[1..], i - n);
      var j, k :| 0 <= j < |tables[1..]| && 0 <= k < |tables[1..][j].1.rows|
        && Offset(tables[1..], j) + k == i - n
        && Concat(tables[1..])[i - n] == FrameRow(tables[1..][j].0, k, tables[1..][j].1.rows[k]);
      ConcatIndex(tables, j + 1, k);
    }
  }

  /** The columns of the concatenated frame: the union of the headers. */
  function FrameColumns(tables: Tables): (cols: set<string>)
    ensures forall c :: c in cols <==> exists j | 0 <= j < |tables| :: c in tables[j].1.columns
  {
    if |tables| == 0 then {}
    else
      var rest := FrameColumns(tables[1..]);
      assert forall c :: (exists j | 0 <= j < |tables| :: c in tables[j].1.columns) <==>
        c in tables[0].1.columns || exists j | 0 <= j < |tables[1..]| :: c in tables[1..][j].1.columns
      by {
        forall c | exists j | 0 <= j < |tables| :: c in tables[j].1.columns
          ensures c in tables[0].1.columns || exists j | 0 <= j < |tables[1..]| :: c in tables[1..][j].1.columns
        {
          var j :| 0 <= j < |tables| && c in tables[j].1.columns;
          if j > 0 {
            assert tables[1..][j - 1] == tables[j];
          }
        }
        forall c | c in rest
          ensures exists j | 0 <= j < |tables| :: c in tables[j].1.columns
        {
          var j :| 0 <= j < |tables[1..]| && c in tables[1..][j].1.columns;
          assert tables[j + 1] == tables[1..][j];
        }
      }
      tables[0].1.columns + rest
  }

  /** Cells of a frame row lie in the frame's columns. */
  lemma {:induction false} ConcatCellsInColumns(tables: Tables, i: nat)
    requires i < |Concat(tables)|
    ensures Concat(tables)[i].cells.Keys <= FrameColumns(tables)
  {
    var n := |tables[0].1.rows|;
    if i < n {
      assert Concat(tables)[i] == TagRows(tables[0].0, tables[0].1.rows)[i];
    } else {
      ConcatCellsInColumns(tables[1..], i - n);
    }
  }

  function Cell(row: Row, c: string): Option<string> {
    if c in row then Some(row[c]) else None
  }

  /** Conversion of one cell of column `c`; None when it raises. A NaN
      cell stays NaN in every column. */
  function Coerce(c: string, raw: Option<string>): (r: Option<Value>)
    ensures raw.None? ==> r == Some(Missing)
    ensures !IsDesignated(c) ==> r.Some?
    ensures !IsDesignated(c) && raw.Some? ==> r == Some(Text(raw.value))
    ensures c in NumericColumns && r.Some? ==> r.value.Missing? || r.value.Number?
    ensures c == DateColumn && r.Some? ==> r.value.Missing? || (r.value.Day? && Normalize.ValidDate(r.value.date))
    ensures c in NumericColumns && raw.Some? ==> r == Normalize.Numeric(raw.value)
  {
    match raw
    case None => Some(Missing)
    case Some(s) =>
      if c in NumericColumns then Normalize.Numeric(s)
      else if c == DateColumn then Normalize.DateCell(s)
      else Some(Text(s))
  }

  /** Every cell of `column` in the frame converts. */
  predicate ColumnConverts(frame: seq<FrameRow>, column: string) {
    forall i | 0 <= i < |frame| :: Coerce(column, Cell(frame[i].cells, column)).Some?
  }

  /** Row `i` holds the first cell of `column` whose conversion raises:
      it is present, it fails, and every earlier cell converts. */
  predicate FailsFirstAt(frame: seq<FrameRow>, column: string, i: int) {
    && 0 <= i < |frame|
    && column in frame[i].cells
    && Coerce(column, Cell(frame[i].cells, column)).None?
    && forall i' | 0 <= i' < i :: Coerce(column, Cell(frame[i'].cells, column)).Some?
  }

  /** The first cell of `column`, in frame order, whose conversion raises:
      `pd.to_numeric` and `pd.to_datetime` raise at the first position
      they cannot convert. */
  function FirstMalformedIn(frame: seq<FrameRow>, column: string): (r: Option<Error>)
    ensures r.None? <==> ColumnConverts(frame, column)
    ensures r.Some? ==> exists i ::
      && FailsFirstAt(frame, column, i)
      && r.value == Malformed(column, frame[i].cells[column])
  {
    if |frame| == 0 then None
    else if Coerce(column, Cell(frame[0].cells, column)).None? then
      assert FailsFirstAt(frame, column, 0);
      Some(Malformed(column, frame[0].cells[column]))
    else
      var r := FirstMalformedIn(frame[1..], column);
      assert forall i | 1 <= i < |frame| :: frame[i] == frame[1..][i - 1];
      if r.Some? then
        var i :| FailsFirstAt(frame[1..], column, i) && r.value == Malformed(column, frame[1..][i].cells[column]);
        assert FailsFirstAt(frame, column, i + 1);
        r
      else
        r
  }

  /** Column by column, then row by row: the first conversion that raises.
      The error is in the first column, in `columns` order, that holds a
      failing cell, at the first failing cell of that column. */
  function FirstMalformed(frame: seq<FrameRow>, columns: seq<string>): (r: Option<Error>)
    ensures r.None? <==> forall c | c in columns :: ColumnConverts(frame, c)
    ensures r.Some? ==> exists k, i | 0 <= k < |columns| ::
      && (forall k' | 0 <= k' < k :: ColumnConverts(frame, columns[k']))
      && FailsFirstAt(frame, columns[k], i)
      && r.value == Malformed(columns[k], frame[i].cells[columns[k]])
  {
    if |columns| == 0 then None
    else
      ColumnsConvertCons(frame, columns);
      match FirstMalformedIn(frame, columns[0])
      case Some(e) =>
        FirstColumnFails(frame, columns, e);
        Some(e)
      case None =>
        var r := FirstMalformed(frame, columns[1..]);
        LaterColumnFails(frame, columns, r);
        r
  }

  /** A failure in the first column is the first failure overall. */
  lemma FirstColumnFails(frame: seq<FrameRow>, columns: seq<string>, e: Error)
    requires |columns| > 0
    requires exists i :: FailsFirstAt(frame, columns[0], i) && e == Malformed(columns[0], frame[i].cells[columns[0]])
    ensures exists k, i | 0 <= k < |columns| ::
      && (forall k' | 0 <= k' < k :: ColumnConverts(frame, columns[k']))
      && FailsFirstAt(frame, columns[k], i)
      && e == Malformed(columns[k], frame[i].cells[columns[k]])
  {
    var i :| FailsFirstAt(frame, columns[0], i) && e == Malformed(columns[0], frame[i].cells[columns[0]]);
    assert FailsFirstAt(frame, columns[0], i);
  }

  /** When the first column converts, a first failure among the rest is
      the first failure overall, one column further on. */
  lemma LaterColumnFails(frame: seq<FrameRow>, columns: seq<string>, r: Option<Error>)
    requires |columns| > 0 && ColumnConverts(frame, columns[0])
    requires r.Some? ==> exists k, i | 0 <= k < |columns[1..]| ::
      && (forall k' | 0 <= k' < k :: ColumnConverts(frame, columns[1..][k']))
      && FailsFirstAt(frame, columns[1..][k], i)
      && r.value == Malformed(columns[1..][k], frame[i].cells[columns[1..][k]])
    ensures r.Some? ==> exists k, i | 0 <= k < |columns| ::
      && (forall k' | 0 <= k' < k :: ColumnConverts(frame, columns[k']))
      && FailsFirstAt(frame, columns[k], i)
      && r.value == Malformed(columns[k], frame[i].cells[columns[k]])
  {
    if r.Some? {
      var k, i :| 0 <= k < |columns[1..]|
        && (forall k' | 0 <= k' < k :: ColumnConverts(frame, columns[1..][k']))
        && FailsFirstAt(frame, columns[1..][k], i)
        && r.value == Malformed(columns[1..][k], frame[i].cells[columns[1..][k]]);
      PrefixConvertsCons(frame, columns, k);
      assert columns[k + 1] == columns[1..][k];
    }
  }

  lemma ColumnsConvertCons(frame: seq<FrameRow>, columns: seq<string>)
    requires |columns| > 0
    ensures (forall c | c in columns :: ColumnConverts(frame, c)) <==>
      ColumnConverts(frame, columns[0]) && forall c | c in columns[1..] :: ColumnConverts(frame, c)
  {
    assert columns[0] in columns;
    assert forall c | c in columns[1..] :: c in columns;
    assert forall c | c in columns :: c == columns[0] || c in columns[1..];
  }

  lemma PrefixConvertsCons(frame: seq<FrameRow>, columns: seq<string>, k: nat)
    requires k + 1 < |columns|
    requires ColumnConverts(frame, columns[0])
    requires forall k' | 0 <= k' < k :: ColumnConverts(frame, columns[1..][k'])
    ensures forall k' | 0 <= k' < k + 1 :: ColumnConverts(frame, columns[k'])
  {
    forall k' | 0 <= k' < k + 1 ensures ColumnConverts(frame, columns[k']) {
      if k' > 0 { assert columns[k'] == columns[1..][k' - 1]; }
    }
  }

  /** The cleaned record of one frame row over the frame's columns. */
  function CleanRow(cols: set<string>, fr: FrameRow): (rec: Record)
    requires forall c | c in cols :: Coerce(c, Cell(fr.cells, c)).Some?
  {
    Record(fr.source, fr.position, map c | c in cols :: Coerce(c, Cell(fr.cells, c)).value)
  }

  /** The numeric columns that no table of the frame has. */
  function MissingNumeric(cols: set<string>): set<string> {
    set c | c in NumericColumns && c !in cols
  }

  /** `annual_info_cleaner`. Concatenating no tables raises; selecting the
      numeric columns raises when one is absent; converting them raises
      on the first malformed cell; selecting the date column raises when
      it is absent; converting it raises on the first malformed date. */
  function Clean(tables: Tables): (r: Result<seq<Record>, Error>)
    ensures r.Ok? ==> |r.value| == TotalRows(tables)
  {
    if |tables| == 0 then Err(NoTables)
    else
      var cols := FrameColumns(tables);
      var frame := Concat(tables);
      if MissingNumeric(cols) != {} then Err(MissingColumns(MissingNumeric(cols)))
      else match FirstMalformed(frame, NumericColumns)
        case Some(e) => Err(e)
        case None =>
          if DateColumn !in cols then Err(MissingColumns({DateColumn}))
          else match FirstMalformedIn(frame, DateColumn)
            case Some(e) => Err(e)
            case None =>
              assert forall i, c | 0 <= i < |frame| && c in cols ::
                Coerce(c, Cell(frame[i].cells, c)).Some?;
              Ok(seq(|frame|, i requires 0 <= i < |frame| => CleanRow(cols, frame[i])))
  }

  /** Every designated cell of the frame converts. */
  ghost predicate AllDesignatedConvert(tables: Tables) {
    forall c, i | IsDesignated(c) && 0 <= i < |Concat(tables)| ::
      Coerce(c, Cell(Concat(tables)[i].cells, c)).Some?
  }

  lemma MissingNumericEmpty(cols: set<string>)
    ensures MissingNumeric(cols) == {} <==> forall c | c in NumericColumns :: c in cols
  {
    if MissingNumeric(cols) == {} {
      forall c | c in NumericColumns ensures c in cols {
        assert c !in cols ==> c in MissingNumeric(cols);
      }
    }
  }

  lemma NoMalformedIff(tables: Tables)
    ensures
      (FirstMalformed(Concat(tables), NumericColumns).None? && FirstMalformedIn(Concat(tables), DateColumn).None?)
      <==> AllDesignatedConvert(tables)
  {
    var frame := Concat(tables);
    if FirstMalformed(frame, NumericColumns).None? && FirstMalformedIn(frame, DateColumn).None? {
      forall c, i | IsDesignated(c) && 0 <= i < |frame|
        ensures Coerce(c, Cell(frame[i].cells, c)).Some?
      {
        if c in NumericColumns {
        } else {
          assert c == DateColumn;
        }
      }
    }
    if AllDesignatedConvert(tables) {
      forall c, i | c in NumericColumns && 0 <= i < |frame|
        ensures Coerce(c, Cell(frame[i].cells, c)).Some?
      {
        assert IsDesignated(c);
      }
      forall i | 0 <= i < |frame|
        ensures Coerce(DateColumn, Cell(frame[i].cells, DateColumn)).Some?
      {
        assert IsDesignated(DateColumn);
      }
    }
  }

  /** Cleaning succeeds exactly when there is a table, every designated
      column is present, and every designated cell converts. */
  lemma CleanSucceedsIff(tables: Tables)
    ensures Clean(tables).Ok? <==>
      && |tables| > 0
      && (forall c | IsDesignated(c) :: c in FrameColumns(tables))
      && AllDesignatedConvert(tables)
  {
    var cols := FrameColumns(tables);
    MissingNumericEmpty(cols);
    NoMalformedIff(tables);
    assert (forall c | IsDesignated(c) :: c in cols) <==>
      (forall c | c in NumericColumns :: c in cols) && DateColumn in cols;
    assert Clean(tables).Ok? <==>
      && |tables| > 0
      && MissingNumeric(cols) == {}
      && FirstMalformed(Concat(tables), NumericColumns).None?
      && DateColumn in cols
      && FirstMalformedIn(Concat(tables), DateColumn).None?;
  }

  /** A designated column absent from every table makes cleaning fail; an
      absent numeric column fails with exactly the absent numeric names. */
  lemma CleanMissingColumnFails(tables: Tables, c: string)
    requires IsDesignated(c) && c !in FrameColumns(tables)
    ensures Clean(tables).Err?
    ensures |tables| > 0 && c in NumericColumns ==>
      Clean(tables) == Err(MissingColumns(set n | n in NumericColumns && n !in FrameColumns(tables)))
  {
    var cols := FrameColumns(tables);
    if |tables| > 0 {
      if c in NumericColumns {
        assert c in MissingNumeric(cols);
      } else {
        CleanSucceedsIff(tables);
      }
    }
  }

  /** A conversion error names a designated column and the raw text of a
      frame cell of that column that the rule rejects. It is the first
      such cell: the numeric columns are converted in the order DEPSUM,
      DEPDOM, ASSET, DEPSUMBR, each from its first row, and the date
      column only after every numeric cell has converted. */
  lemma CleanMalformedIsGenuine(tables: Tables)
    requires Clean(tables).Err? && Clean(tables).error.Malformed?
    ensures var e := Clean(tables).error;
      && IsDesignated(e.column)
      && exists i | 0 <= i < |Concat(tables)| ::
        && e.column in Concat(tables)[i].cells
        && Concat(tables)[i].cells[e.column] == e.text
        && Coerce(e.column, Some(e.text)).None?
    ensures NumericErrorIsFirst(Concat(tables), Clean(tables).error)
    ensures DateErrorIsFirst(Concat(tables), Clean(tables).error)
  {
    CleanMalformedCases(tables);
    MalformedCell(Concat(tables), Clean(tables).error);
    MalformedNumericOrder(Concat(tables), Clean(tables).error);
    MalformedDateOrder(Concat(tables), Clean(tables).error);
  }

  /** The date column is not one of the numeric columns. */
  lemma DateIsNotNumeric()
    ensures DateColumn !in NumericColumns
  {
    assert forall c | c in NumericColumns :: |c| <= 8;
  }

  lemma FailingCellWitness(frame: seq<FrameRow>, i: int, e: Error)
    requires e.Malformed? && FailsFirstAt(frame, e.column, i) && e.text == frame[i].cells[e.column]
    ensures exists i' | 0 <= i' < |frame| ::
      && e.column in frame[i'].cells
      && frame[i'].cells[e.column] == e.text
      && Coerce(e.column, Some(e.text)).None?
  {
    assert Cell(frame[i].cells, e.column) == Some(e.text);
  }

  /** Where a conversion error of `Clean` can come from: the numeric
      columns, or, when those all convert, the date column. */
  predicate MalformedSource(frame: seq<FrameRow>, e: Error) {
    || FirstMalformed(frame, NumericColumns) == Some(e)
    || (FirstMalformed(frame, NumericColumns).None? && FirstMalformedIn(frame, DateColumn) == Some(e))
  }

  /** An error in a numeric column sits at the first failing cell of the
      first numeric column, in conversion order, that has one. */
  ghost predicate NumericErrorIsFirst(frame: seq<FrameRow>, e: Error)
    requires e.Malformed?
  {
    e.column in NumericColumns ==> exists k, i | 0 <= k < |NumericColumns| ::
      && e.column == NumericColumns[k]
      && (forall k' | 0 <= k' < k :: ColumnConverts(frame, NumericColumns[k']))
      && FailsFirstAt(frame, e.column, i)
      && frame[i].cells[e.column] == e.text
  }

  /** An error in the date column comes after every numeric cell
      converted, at the first failing date cell. */
  ghost predicate DateErrorIsFirst(frame: seq<FrameRow>, e: Error)
    requires e.Malformed?
  {
    e.column == DateColumn ==>
      && (forall c | c in NumericColumns :: ColumnConverts(frame, c))
      && exists i :: FailsFirstAt(frame, DateColumn, i) && frame[i].cells[DateColumn] == e.text
  }

  /** Such an error names a designated column and a cell of it that the
      rule rejects. */
  lemma MalformedCell(frame: seq<FrameRow>, e: Error)
    requires MalformedSource(frame, e)
    ensures e.Malformed? && IsDesignated(e.column)
    ensures exists i | 0 <= i < |frame| ::
      && e.column in frame[i].cells
      && frame[i].cells[e.column] == e.text
      && Coerce(e.column, Some(e.text)).None?
  {
    if FirstMalformed(frame, NumericColumns).Some? {
      NumericMalformedFirst(frame, e);
      var k, i :| 0 <= k < |NumericColumns| && e.Malformed? && e.column == NumericColumns[k]
        && FailsFirstAt(frame, e.column, i) && frame[i].cells[e.column] == e.text;
      FailingCellWitness(frame, i, e);
    } else {
      DateMalformedFirst(frame, e);
      var i :| FailsFirstAt(frame, DateColumn, i) && frame[i].cells[DateColumn] == e.text;
      FailingCellWitness(frame, i, e);
    }
  }

  lemma MalformedNumericOrder(frame: seq<FrameRow>, e: Error)
    requires MalformedSource(frame, e) && e.Malformed?
    ensures NumericErrorIsFirst(frame, e)
  {
    DateIsNotNumeric();
    if FirstMalformed(frame, NumericColumns).Some? {
      NumericMalformedFirst(frame, e);
    } else {
      DateMalformedFirst(frame, e);
    }
  }

  lemma MalformedDateOrder(frame: seq<FrameRow>, e: Error)
    requires MalformedSource(frame, e) && e.Malformed?
    ensures DateErrorIsFirst(frame, e)
  {
    DateIsNotNumeric();
    if FirstMalformed(frame, NumericColumns).Some? {
      NumericMalformedFirst(frame, e);
    } else {
      DateMalformedFirst(frame, e);
    }
  }

  /** An error from the numeric columns is at the first failing cell of
      the first failing one. */
  lemma NumericMalformedFirst(frame: seq<FrameRow>, e: Error)
    requires FirstMalformed(frame, NumericColumns) == Some(e)
    ensures exists k, i | 0 <= k < |NumericColumns| ::
      && e.Malformed?
      && e.column == NumericColumns[k]
      && (forall k' | 0 <= k' < k :: ColumnConverts(frame, NumericColumns[k']))
      && FailsFirstAt(frame, e.column, i)
      && frame[i].cells[e.column] == e.text
  {
    var k, i :| 0 <= k < |NumericColumns|
      && (forall k' | 0 <= k' < k :: ColumnConverts(frame, NumericColumns[k']))
      && FailsFirstAt(frame, NumericColumns[k], i)
      && e == Malformed(NumericColumns[k], frame[i].cells[NumericColumns[k]]);
  }

  /** An error from the date column comes after every numeric cell
      converted, at the first failing date cell. */
  lemma DateMalformedFirst(frame: seq<FrameRow>, e: Error)
    requires FirstMalformed(frame, NumericColumns).None? && FirstMalformedIn(frame, DateColumn) == Some(e)
    ensures e == Malformed(DateColumn, e.text)
    ensures forall c | c in NumericColumns :: ColumnConverts(frame, c)
    ensures exists i :: FailsFirstAt(frame, DateColumn, i) && frame[i].cells[DateColumn] == e.text
  {
  }

  /** A conversion error of `Clean` comes from the numeric columns, or,
      when those all convert, from the date column. */
  lemma CleanMalformedCases(tables: Tables)
    requires Clean(tables).Err? && Clean(tables).error.Malformed?
    ensures MalformedSource(Concat(tables), Clean(tables).error)
  {
  }

  /** A cleaned record keeps its frame row's provenance and is defined on
      exactly the frame's columns. */
  lemma CleanKeepsProvenance(tables: Tables, i: nat)
    requires Clean(tables).Ok? && i < |Clean(tables).value|
    ensures var rec, fr := Clean(tables).value[i], Concat(tables)[i];
      && rec.source == fr.source
      && rec.position == fr.position
      && rec.cells.Keys == FrameColumns(tables)
  {
  }

  /** Every column other than the five designated ones passes through
      unchanged: the raw text, or NaN where the row has no cell. */
  lemma CleanPassesOtherColumns(tables: Tables, i: nat, c: string)
    requires Clean(tables).Ok? && i < |Clean(tables).value|
    requires c in FrameColumns(tables) && !IsDesignated(c)
    ensures var rec, fr := Clean(tables).value[i], Concat(tables)[i];
      rec.cells[c] == (if c in fr.cells then Text(fr.cells[c]) else Missing)
  {
  }

  /** A numeric cell holds what the numeric rule makes of its raw text. */
  lemma CleanConvertsNumeric(tables: Tables, i: nat, c: string)
    requires Clean(tables).Ok? && i < |Clean(tables).value|
    requires c in NumericColumns
    ensures var rec, fr := Clean(tables).value[i], Concat(tables)[i];
      && c in rec.cells
      && (c in fr.cells ==> Normalize.Numeric(fr.cells[c]) == Some(rec.cells[c]))
      && (c !in fr.cells ==> rec.cells[c] == Missing)
  {
    CleanSucceedsIff(tables);
    assert IsDesignated(c);
    var fr := Concat(tables)[i];
    assert Clean(tables).value[i] == CleanRow(FrameColumns(tables), fr);
    if c in fr.cells {
      assert Coerce(c, Cell(fr.cells, c)) == Normalize.Numeric(fr.cells[c]);
    }
  }

  /** The date cell holds the parsed date of its raw text, or NaT when the
      raw cell is empty or absent. */
  lemma CleanConvertsDate(tables: Tables, i: nat)
    requires Clean(tables).Ok? && i < |Clean(tables).value|
    ensures var rec, fr := Clean(tables).value[i], Concat(tables)[i];
      && DateColumn in rec.cells
      && (DateColumn in fr.cells && fr.cells[DateColumn] != [] ==>
            && rec.cells[DateColumn].Day?
            && Normalize.ParseDate(fr.cells[DateColumn]) == Some(rec.cells[DateColumn].date))
      && (DateColumn !in fr.cells || fr.cells[DateColumn] == [] ==> rec.cells[DateColumn] == Missing)
  {
    CleanSucceedsIff(tables);
    assert IsDesignated(DateColumn);
    var fr := Concat(tables)[i];
    assert Clean(tables).value[i] == CleanRow(FrameColumns(tables), fr);
    if DateColumn in fr.cells && fr.cells[DateColumn] != [] {
      assert Coerce(DateColumn, Cell(fr.cells, DateColumn)) == Normalize.DateCell(fr.cells[DateColumn]);
    }
  }
}
