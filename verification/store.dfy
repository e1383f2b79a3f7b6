/** The historical store, `bank_info.db`, seen through the three things
    the loader asks of it: does the file exist, what is `MAX(YEAR)` of the
    `annual_info` table, and append a cleaned frame. */
module HistoricalStore {
  import opened Types
  import Normalize

  /** One `to_sql(..., if_exists='append')` call: the year the load loop
      was processing and the records it appended. */
  datatype Batch = Batch(year: int, records: seq<Record>)

  /** `Absent`: no database file. `Present(batches)`: the file exists.
      Here the `annual_info` table exists exactly when a batch has been
      appended; an append that fails leaves no trace. (pandas creates the
      table before inserting and commits that separately, so a failing
      first insert would leave an empty table; that state is not
      represented.) */
  datatype Store = Absent | Present(batches: seq<Batch>)

  predicate HasTable(s: Store) {
    s.Present? && |s.batches| > 0
  }

  /** The YEAR column of a record as the store reads it: an integer, or
      NULL when the cell is absent or not an integer. */
  function RecordYear(r: Record): Option<int> {
    if "YEAR" !in r.cells then None
    else match r.cells["YEAR"]
      case Number(n) => Some(n)
      case Text(t) => Normalize.ParseInteger(t)
      case _ => None
  }

  /** How a YEAR cell reads: an absent cell, NaN or a date is NULL, a
      number is itself, and a text is an integer exactly when it spells
      one, every integer's own spelling reading back as that integer. */
  lemma RecordYearReads(r: Record, y: int)
    ensures "YEAR" !in r.cells ==> RecordYear(r).None?
    ensures "YEAR" in r.cells && (r.cells["YEAR"].Missing? || r.cells["YEAR"].Day?) ==> RecordYear(r).None?
    ensures "YEAR" in r.cells && r.cells["YEAR"] == Number(y) ==> RecordYear(r) == Some(y)
    ensures "YEAR" in r.cells && r.cells["YEAR"].Text? ==>
      (RecordYear(r).Some? <==> Normalize.IsIntegerText(r.cells["YEAR"].text))
    ensures "YEAR" in r.cells && r.cells["YEAR"] == Text(Normalize.ShowInteger(y)) ==> RecordYear(r) == Some(y)
  {
    Normalize.ParseShowInteger(y);
  }

  /** SQL `MAX` of two possibly-NULL values. */
  function MaxOpt(a: Option<int>, b: Option<int>): Option<int> {
    match (a, b)
    case (None, _) => b
    case (_, None) => a
    case (Some(x), Some(y)) => Some(if x < y then y else x)
  }

  /** NULLs are ignored: the result is NULL only when both are, is one of
      the two values, and is at least as large as each non-NULL value. */
  lemma MaxOptIsMax(a: Option<int>, b: Option<int>)
    ensures MaxOpt(a, b).None? <==> a.None? && b.None?
    ensures MaxOpt(a, b).Some? ==> MaxOpt(a, b) == a || MaxOpt(a, b) == b
    ensures a.Some? ==> MaxOpt(a, b).Some? && a.value <= MaxOpt(a, b).value
    ensures b.Some? ==> MaxOpt(a, b).Some? && b.value <= MaxOpt(a, b).value
  {
  }

  lemma MaxOptAssociates(a: Option<int>, b: Option<int>, c: Option<int>)
    ensures MaxOpt(MaxOpt(a, b), c) == MaxOpt(a, MaxOpt(b, c))
  {
  }

  /** Some record of the batches carries YEAR `y`. */
  ghost predicate YearOccurs(bs: seq<Batch>, y: int) {
    exists i, k | 0 <= i < |bs| && 0 <= k < |bs[i].records| :: RecordYear(bs[i].records[k]) == Some(y)
  }

  /** A year occurs in a non-empty store exactly when it occurs before
      the last batch or in the last batch. */
  lemma YearOccursSplit(bs: seq<Batch>)
    requires |bs| > 0
    ensures var init, last := bs[..|bs| - 1], bs[|bs| - 1];
      forall y :: YearOccurs(bs, y) <==>
        YearOccurs(init, y) || exists k | 0 <= k < |last.records| :: RecordYear(last.records[k]) == Some(y)
  {
    var init, last := bs[..|bs| - 1], bs[|bs| - 1];
    assert forall i | 0 <= i < |init| :: init[i] == bs[i];
    forall y ensures YearOccurs(bs, y) ==>
      YearOccurs(init, y) || exists k | 0 <= k < |last.records| :: RecordYear(last.records[k]) == Some(y)
    {
      if YearOccurs(bs, y) {
        var i, k :| 0 <= i < |bs| && 0 <= k < |bs[i].records| && RecordYear(bs[i].records[k]) == Some(y);
        if i < |init| {
          assert RecordYear(init[i].records[k]) == Some(y);
        }
      }
    }
    forall y | exists k | 0 <= k < |last.records| :: RecordYear(last.records[k]) == Some(y)
      ensures YearOccurs(bs, y)
    {
      var k :| 0 <= k < |last.records| && RecordYear(last.records[k]) == Some(y);
      assert RecordYear(bs[|bs| - 1].records[k]) == Some(y);
    }
  }

  /** `MAX(YEAR)` over the records of one batch. */
  function MaxRecordYear(rs: seq<Record>): (r: Option<int>)
    ensures r.None? <==> forall k | 0 <= k < |rs| :: RecordYear(rs[k]).None?
    ensures r.Some? ==> exists k | 0 <= k < |rs| :: RecordYear(rs[k]) == r
    ensures r.Some? ==> forall k | 0 <= k < |rs| && RecordYear(rs[k]).Some? :: RecordYear(rs[k]).value <= r.value
  {
    if |rs| == 0 then None
    else
      var init := rs[..|rs| - 1];
      assert forall k | 0 <= k < |init| :: init[k] == rs[k];
      MaxOpt(MaxRecordYear(init), RecordYear(rs[|rs| - 1]))
  }

  /** `SELECT MAX(YEAR) FROM annual_info`: NULL when no record has a
      year, otherwise the largest year of any record. */
  function MaxYear(bs: seq<Batch>): (r: Option<int>)
    ensures r.None? <==> !exists y :: YearOccurs(bs, y)
    ensures r.Some? ==> YearOccurs(bs, r.value)
    ensures r.Some? ==> forall i, k | 0 <= i < |bs| && 0 <= k < |bs[i].records| && RecordYear(bs[i].records[k]).Some? ::
      RecordYear(bs[i].records[k]).value <= r.value
  {
    if |bs| == 0 then None
    else
      var init := bs[..|bs| - 1];
      var last := bs[|bs| - 1];
      var m := MaxYear(init);
      var n := MaxRecordYear(last.records);
      assert forall i | 0 <= i < |init| :: init[i] == bs[i];
      YearOccursSplit(bs);
      MaxOpt(m, n)
  }

  /** `sql.connect('bank_info.db')`: creates the file when it is absent,
      and changes nothing when it exists. */
  function Open(s: Store): (r: Store)
    ensures r.Present?
    ensures s.Present? ==> r == s
    ensures s.Absent? ==> r.batches == []
  {
    if s.Absent? then Present([]) else s
  }

  /** A batch carries the year it was loaded for: it holds at least one
      record, and every record's YEAR is that year. */
  predicate TaggedWith(rs: seq<Record>, y: int) {
    |rs| > 0 && forall k | 0 <= k < |rs| :: RecordYear(rs[k]) == Some(y)
  }

  function Years(bs: seq<Batch>): (ys: seq<int>)
    ensures |ys| == |bs|
  {
    seq(|bs|, i requires 0 <= i < |bs| => bs[i].year)
  }

  /** Batches whose years run `lo, lo+1, ...` and whose records are tagged
      with those years. */
  predicate AscendingTagged(bs: seq<Batch>, lo: int) {
    forall i | 0 <= i < |bs| :: bs[i].year == lo + i && TaggedWith(bs[i].records, bs[i].year)
  }

  lemma TaggedMax(rs: seq<Record>, y: int)
    requires TaggedWith(rs, y)
    ensures MaxRecordYear(rs) == Some(y)
  {
    assert RecordYear(rs[0]) == Some(y);
  }

  /** `MAX(YEAR)` of ascending tagged batches is the year of the last one. */
  lemma {:induction false} AscendingTaggedMax(bs: seq<Batch>, lo: int)
    requires AscendingTagged(bs, lo)
    ensures MaxYear(bs) == if |bs| == 0 then None else Some(lo + |bs| - 1)
  {
    if |bs| > 0 {
      var init := bs[..|bs| - 1];
      assert AscendingTagged(init, lo) by {
        assert forall i | 0 <= i < |init| :: init[i] == bs[i];
      }
      AscendingTaggedMax(init, lo);
      TaggedMax(bs[|bs| - 1].records, lo + |bs| - 1);
    }
  }

  /** `MAX(YEAR)` after appending batches is the larger of the two maxima. */
  lemma {:induction false} MaxYearAppend(a: seq<Batch>, b: seq<Batch>)
    ensures MaxYear(a + b) == MaxOpt(MaxYear(a), MaxYear(b))
  {
    if |b| == 0 {
      assert a + b == a;
    } else {
      var binit, last := b[..|b| - 1], MaxRecordYear(b[|b| - 1].records);
      assert (a + b)[..|a + b| - 1] == a + binit;
      assert (a + b)[|a + b| - 1] == b[|b| - 1];
      assert MaxYear(a + b) == MaxOpt(MaxYear(a + binit), last);
      assert MaxYear(b) == MaxOpt(MaxYear(binit), last);
      MaxYearAppend(a, binit);
      MaxOptAssociates(MaxYear(a), MaxYear(binit), last);
    }
  }
}
