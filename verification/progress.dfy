/** The progress tracker, `get_start_year` and `get_year_markers`: which
    years the next run must load. The wall clock is a parameter. */
module Progress {
  import opened Types
  import opened HistoricalStore

  /** The first year loaded into a store that does not exist yet. */
  const DefaultStart: int := 2015

  /** `get_start_year` as written. No file: the default. A file without the
      `annual_info` table: the query raises. A table whose records carry
      no YEAR: `MAX(YEAR) + 1` is NULL, and the `range` built from it
      raises. Otherwise one past the largest committed year. */
  function StartYear(s: Store): (r: Result<int, Error>)
    ensures s.Absent? ==> r == Ok(DefaultStart)
    ensures s.Present? && !HasTable(s) ==> r == Err(NoSuchTable)
    ensures HasTable(s) ==> (r == Err(NullStartYear) <==> !exists y :: YearOccurs(s.batches, y))
    ensures HasTable(s) && (exists y :: YearOccurs(s.batches, y)) ==> r.Ok?
    ensures HasTable(s) && r.Ok? ==> YearOccurs(s.batches, r.value - 1)
    ensures HasTable(s) && r.Ok? ==>
      forall i, k | 0 <= i < |s.batches| && 0 <= k < |s.batches[i].records| && RecordYear(s.batches[i].records[k]).Some? ::
        RecordYear(s.batches[i].records[k]).value < r.value
  {
    match s
    case Absent => Ok(DefaultStart)
    case Present(bs) =>
      if |bs| == 0 then Err(NoSuchTable)
      else match MaxYear(bs)
        case None => Err(NullStartYear)
        case Some(m) => Ok(m + 1)
  }

  /** `range(lo, hi)`: the integers `lo, lo+1, ..., hi-1`. */
  function Range(lo: int, hi: int): (r: seq<int>)
    ensures |r| == if lo < hi then hi - lo else 0
    ensures forall i | 0 <= i < |r| :: r[i] == lo + i
    decreases hi - lo
  {
    if lo >= hi then [] else [lo] + Range(lo + 1, hi)
  }

  /** `get_year_markers`: every year from the start year up to, but not
      including, the current year. */
  function YearMarkers(s: Store, currentYear: int): (r: Result<seq<int>, Error>)
    ensures r.Ok? <==> StartYear(s).Ok?
    ensures r.Err? ==> r.error == StartYear(s).error
  {
    var start :- StartYear(s);
    Ok(Range(start, currentYear))
  }

  /** The markers are exactly the years in `[start, currentYear)`, in
      strictly increasing order with no gap, never the current year, and
      none at all when the start is not before the current year. */
  lemma YearMarkersShape(s: Store, currentYear: int)
    requires StartYear(s).Ok?
    ensures var start, ms := StartYear(s).value, YearMarkers(s, currentYear).value;
      && (forall y :: y in ms <==> start <= y < currentYear)
      && (forall i, j | 0 <= i < j < |ms| :: ms[i] < ms[j])
      && (forall i | 0 <= i < |ms| - 1 :: ms[i + 1] == ms[i] + 1)
      && currentYear !in ms
      && (|ms| == 0 <==> currentYear <= start)
      && (|ms| > 0 ==> ms[0] == start && ms[|ms| - 1] == currentYear - 1)
  {
    var start, ms := StartYear(s).value, YearMarkers(s, currentYear).value;
    forall y | start <= y < currentYear ensures y in ms {
      assert ms[y - start] == y;
    }
  }

  /** A store that does not exist yet is loaded from the default year. */
  lemma FreshStoreStartsAtDefault(currentYear: int)
    ensures YearMarkers(Absent, currentYear) == Ok(Range(DefaultStart, currentYear))
  {
  }

  lemma RangeMembers(lo: int, hi: int)
    ensures forall y :: y in Range(lo, hi) <==> lo <= y < hi
  {
    var r := Range(lo, hi);
    forall y | lo <= y < hi ensures y in r {
      assert r[y - lo] == y;
    }
  }

  lemma {:induction false} RangeSplit(lo: int, mid: int, hi: int)
    requires lo <= mid <= hi
    ensures Range(lo, hi) == Range(lo, mid) + Range(mid, hi)
  {
    var a, b, c := Range(lo, hi), Range(lo, mid), Range(mid, hi);
    assert |a| == |b + c|;
    forall i | 0 <= i < |a| ensures a[i] == (b + c)[i] {
      if i < |b| {
        assert (b + c)[i] == b[i];
      } else {
        assert (b + c)[i] == c[i - |b|];
      }
    }
  }

  /** Dropping the first `n` years of a range leaves the range that
      starts `n` years later. */
  lemma RangeDrop(lo: int, hi: int, n: nat)
    requires lo + n <= hi
    ensures Range(lo, hi)[n..] == Range(lo + n, hi)
  {
    RangeSplit(lo, lo + n, hi);
    assert |Range(lo, lo + n)| == n;
  }

  /** The start year a retry needs: a store without any committed YEAR is
      treated like a missing one and loaded from the default year. */
  function StartYearResumable(s: Store): (r: int)
    ensures s.Present? && MaxYear(s.batches).Some? ==> r == MaxYear(s.batches).value + 1
    ensures (s.Absent? || !exists y :: YearOccurs(s.batches, y)) ==> r == DefaultStart
  {
    if s.Absent? then DefaultStart
    else match MaxYear(s.batches)
      case None => DefaultStart
      case Some(m) => m + 1
  }

  function YearMarkersResumable(s: Store, currentYear: int): (r: seq<int>)
    ensures forall y :: y in r <==> StartYearResumable(s) <= y < currentYear
  {
    RangeMembers(StartYearResumable(s), currentYear);
    Range(StartYearResumable(s), currentYear)
  }

  /** Wherever the as-written start year is defined, the corrected one
      agrees with it. */
  lemma ResumableAgrees(s: Store)
    requires StartYear(s).Ok?
    ensures StartYearResumable(s) == StartYear(s).value
  {
  }
}
