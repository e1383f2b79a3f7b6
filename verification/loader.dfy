/** The load orchestrator, `load_annual_info`: compute the year markers,
    open (and if need be create) the store, then for each marker in order
    fetch the archive, clean its tables and append the result. The first
    exception ends the run. */
module Loader {
  import opened Types
  import opened Archive
  import opened Cleaner
  import opened HistoricalStore
  import opened Progress

  /** The outside world of one run. `fetch(y)` is the download and unzip
      of the archive for year `y` (None when either raises); `accepts(s, rs)`
      is whether the database engine completes the append of `rs` to `s`. */
  datatype Env = Env(fetch: int -> Option<seq<Entry>>, accepts: (Store, seq<Record>) -> bool)

  /** Fetch, filter and clean the archive of one year. */
  function Prepare(env: Env, year: int): (r: Result<seq<Record>, Error>)
    ensures env.fetch(year).None? ==> r == Err(FetchFailed(year))
  {
    match env.fetch(year)
    case None => Err(FetchFailed(year))
    case Some(entries) =>
      var tables :- CsvTables(entries);
      Clean(tables)
  }

  /** A year is prepared exactly when its archive downloads, every CSV
      name in it opens to a readable entry (the last entry carrying that
      name reads), and the resulting tables clean; the records are then
      one per row of the CSV tables. */
  lemma PrepareSucceedsIff(env: Env, year: int)
    ensures Prepare(env, year).Ok? <==>
      && env.fetch(year).Some?
      && AllCsvReadable(env.fetch(year).value)
      && Clean(CsvTables(env.fetch(year).value).value).Ok?
    ensures Prepare(env, year).Ok? ==>
      |Prepare(env, year).value| == TotalRows(CsvTables(env.fetch(year).value).value)
  {
  }

  /** The error a year raises is the download failure, the first unreadable
      CSV entry, or the error cleaning raises, in that order. */
  lemma PrepareFailsFirstStep(env: Env, year: int)
    requires env.fetch(year).Some?
    ensures var tables := CsvTables(env.fetch(year).value);
      && (tables.Err? ==> Prepare(env, year) == Err(tables.error) && tables.error.Unparseable?)
      && (tables.Ok? ==> Prepare(env, year) == Clean(tables.value))
  {
    var entries := env.fetch(year).value;
    if CsvTables(entries).Err? {
      CsvTablesFirstFailure(entries);
    }
  }

  /** One iteration of the loop body: prepare the year, then append the
      whole cleaned frame as one batch, or raise. */
  function Commit(s: Store, env: Env, year: int): (r: Result<Store, Error>)
    requires s.Present?
    ensures r.Ok? <==> Prepare(env, year).Ok? && env.accepts(s, Prepare(env, year).value)
    ensures r.Ok? ==> r.value == Present(s.batches + [Batch(year, Prepare(env, year).value)])
    ensures Prepare(env, year).Err? ==> r == Err(Prepare(env, year).error)
    ensures Prepare(env, year).Ok? && r.Err? ==> r.error == AppendFailed(year)
  {
    var records :- Prepare(env, year);
    if env.accepts(s, records) then Ok(Present(s.batches + [Batch(year, records)]))
    else Err(AppendFailed(year))
  }

  /** The state a run ends in: the store, the markers committed, and the
      exception that ended it, if any. */
  datatype Outcome = Outcome(store: Store, committed: seq<int>, failure: Option<Error>)

  lemma PrefixThenRest<T>(s: seq<T>, p: seq<T>)
    requires |p| <= |s| && s[..|p|] == p
    ensures s == p + s[|p|..]
  {
  }

  lemma PrefixCons<T>(m: seq<T>, k: nat)
    requires k < |m|
    ensures m[..1 + k] == [m[0]] + m[1..][..k]
  {
  }

  /** The `for` loop of `load_annual_info` over `markers`: the years are
      committed in order until the first one whose step raises. */
  function LoadLoop(s: Store, markers: seq<int>, env: Env): (o: Outcome)
    requires s.Present?
    ensures o.store.Present?
    ensures |o.committed| <= |markers| && o.committed == markers[..|o.committed|]
    ensures o.failure.None? <==> |o.committed| == |markers|
    decreases |markers|
  {
    if |markers| == 0 then Outcome(s, [], None)
    else match Commit(s, env, markers[0])
      case Err(e) => Outcome(s, [], Some(e))
      case Ok(next) =>
        var rest := LoadLoop(next, markers[1..], env);
        PrefixCons(markers, |rest.committed|);
        Outcome(rest.store, [markers[0]] + rest.committed, rest.failure)
  }

  /** The loop keeps every batch already in the store and adds one per
      committed year. */
  lemma {:induction false} LoadLoopKeepsOld(s: Store, markers: seq<int>, env: Env)
    requires s.Present?
    ensures var o := LoadLoop(s, markers, env);
      && |o.store.batches| == |s.batches| + |o.committed|
      && o.store.batches[..|s.batches|] == s.batches
    decreases |markers|
  {
    if |markers| > 0 && Commit(s, env, markers[0]).Ok? {
      var next := Commit(s, env, markers[0]).value;
      LoadLoopKeepsOld(next, markers[1..], env);
      var o := LoadLoop(next, markers[1..], env);
      assert o.store.batches[..|next.batches|] == next.batches;
      assert next.batches[..|s.batches|] == s.batches;
    }
  }

  /** The batch appended for the `i`-th committed year carries that year
      and exactly what the year's archive cleans to. */
  lemma {:induction false} LoadLoopBatch(s: Store, markers: seq<int>, env: Env, i: nat)
    requires s.Present?
    requires i < |LoadLoop(s, markers, env).committed|
    ensures var o := LoadLoop(s, markers, env);
      && |s.batches| + i < |o.store.batches|
      && o.store.batches[|s.batches| + i].year == o.committed[i]
      && Prepare(env, o.committed[i]) == Ok(o.store.batches[|s.batches| + i].records)
    decreases |markers|
  {
    LoadLoopKeepsOld(s, markers, env);
    var next := Commit(s, env, markers[0]).value;
    var rest := LoadLoop(next, markers[1..], env);
    LoadLoopKeepsOld(next, markers[1..], env);
    if i == 0 {
      assert rest.store.batches[|s.batches|] == next.batches[|s.batches|];
    } else {
      LoadLoopBatch(next, markers[1..], env, i - 1);
    }
  }

  /** Each committed year's append was accepted by the store as it stood
      just before it: the batches already there plus those committed
      earlier in the same loop. */
  lemma {:induction false} LoadLoopAccepted(s: Store, markers: seq<int>, env: Env, i: nat)
    requires s.Present?
    requires i < |LoadLoop(s, markers, env).committed|
    ensures var o := LoadLoop(s, markers, env);
      && |s.batches| + i < |o.store.batches|
      && env.accepts(Present(o.store.batches[..|s.batches| + i]), o.store.batches[|s.batches| + i].records)
    decreases |markers|
  {
    LoadLoopKeepsOld(s, markers, env);
    var next := Commit(s, env, markers[0]).value;
    var rest := LoadLoop(next, markers[1..], env);
    LoadLoopKeepsOld(next, markers[1..], env);
    if i == 0 {
      assert rest.store.batches[..|next.batches|] == next.batches;
      CommitAccepted(s, env, markers[0], rest.store.batches);
    } else {
      LoadLoopAccepted(next, markers[1..], env, i - 1);
      assert rest.store.batches[..|next.batches|] == next.batches;
    }
  }

  /** Any store that extends the result of a successful `Commit` holds, at
      the committed position, a batch the store before it accepted. */
  lemma CommitAccepted(s: Store, env: Env, year: int, b: seq<Batch>)
    requires s.Present? && Commit(s, env, year).Ok?
    requires |Commit(s, env, year).value.batches| <= |b|
    requires b[..|Commit(s, env, year).value.batches|] == Commit(s, env, year).value.batches
    ensures |s.batches| < |b| && env.accepts(Present(b[..|s.batches|]), b[|s.batches|].records)
  {
    var next := Commit(s, env, year).value;
    assert b[|s.batches|] == next.batches[|s.batches|];
    assert b[..|s.batches|] == next.batches[..|s.batches|] == s.batches;
  }

  /** A batch that its year prepares to, and that the store before it
      accepts, is exactly what `Commit` appends there. */
  lemma CommitOfBatch(b: seq<Batch>, k: nat, env: Env)
    requires k < |b|
    requires Prepare(env, b[k].year) == Ok(b[k].records)
    requires env.accepts(Present(b[..k]), b[k].records)
    ensures Commit(Present(b[..k]), env, b[k].year) == Ok(Present(b[..k + 1]))
  {
    assert b[..k + 1] == b[..k] + [Batch(b[k].year, b[k].records)];
  }

  /** The loop only appends: one batch per committed year, holding exactly
      what that year's archive cleans to, after the batches already there. */
  lemma LoadLoopAppends(s: Store, markers: seq<int>, env: Env)
    requires s.Present?
    ensures var o := LoadLoop(s, markers, env);
      && |o.store.batches| == |s.batches| + |o.committed|
      && o.store.batches[..|s.batches|] == s.batches
      && forall i | 0 <= i < |o.committed| ::
        && o.store.batches[|s.batches| + i].year == o.committed[i]
        && Prepare(env, o.committed[i]) == Ok(o.store.batches[|s.batches| + i].records)
  {
    LoadLoopKeepsOld(s, markers, env);
    forall i | 0 <= i < |LoadLoop(s, markers, env).committed| {
      LoadLoopBatch(s, markers, env, i);
    }
  }

  lemma LoadLoopLength(s: Store, markers: seq<int>, env: Env)
    requires s.Present?
    ensures |LoadLoop(s, markers, env).store.batches| == |s.batches| + |LoadLoop(s, markers, env).committed|
  {
    LoadLoopKeepsOld(s, markers, env);
  }

  /** The loop stops at the first year whose step raises, and the step on
      the final store raises the same exception: nothing was committed for it. */
  lemma {:induction false} LoadLoopStopsAtFailure(s: Store, markers: seq<int>, env: Env)
    requires s.Present?
    ensures var o := LoadLoop(s, markers, env);
      o.failure.Some? ==> Commit(o.store, env, markers[|o.committed|]) == Err(o.failure.value)
    decreases |markers|
  {
    if |markers| > 0 && Commit(s, env, markers[0]).Ok? {
      var next := Commit(s, env, markers[0]).value;
      LoadLoopStopsAtFailure(next, markers[1..], env);
    }
  }

  /** `load_annual_info` as written: the markers are computed before the
      store is opened, so an exception there leaves the store untouched. */
  function Run(s: Store, currentYear: int, env: Env): (o: Outcome)
    ensures YearMarkers(s, currentYear).Err? ==> o == Outcome(s, [], Some(StartYear(s).error))
    ensures YearMarkers(s, currentYear).Ok? ==>
      && o.store.Present?
      && |o.committed| <= |YearMarkers(s, currentYear).value|
      && o.committed == YearMarkers(s, currentYear).value[..|o.committed|]
  {
    match YearMarkers(s, currentYear)
    case Err(e) => Outcome(s, [], Some(e))
    case Ok(markers) => LoadLoop(Open(s), markers, env)
  }

  /** The batches the loop appended after those already in `s`: one per
      committed year, each holding exactly what that year's archive
      cleans to. */
  function Appended(s: Store, markers: seq<int>, env: Env): (r: seq<Batch>)
    requires s.Present?
    ensures LoadLoop(s, markers, env).store.batches == s.batches + r
    ensures |r| == |LoadLoop(s, markers, env).committed|
    ensures forall i | 0 <= i < |r| ::
      && r[i].year == LoadLoop(s, markers, env).committed[i]
      && Prepare(env, r[i].year) == Ok(r[i].records)
    ensures forall i | 0 <= i < |r| :: env.accepts(Present(s.batches + r[..i]), r[i].records)
  {
    var o := LoadLoop(s, markers, env);
    LoadLoopKeepsOld(s, markers, env);
    var r := o.store.batches[|s.batches|..];
    PrefixThenRest(o.store.batches, s.batches);
    forall i | 0 <= i < |r|
      ensures r[i].year == o.committed[i] && Prepare(env, r[i].year) == Ok(r[i].records)
      ensures env.accepts(Present(s.batches + r[..i]), r[i].records)
    {
      LoadLoopBatch(s, markers, env, i);
      LoadLoopAccepted(s, markers, env, i);
      assert r[i] == o.store.batches[|s.batches| + i];
      assert s.batches + r[..i] == o.store.batches[..|s.batches| + i];
    }
    r
  }

  /** Replaying the appended batches one `Commit` at a time from `s`
      reproduces the loop: each committed year's step, on the store as it
      stood just before it, succeeds and appends exactly its batch. */
  lemma AppendedCommits(s: Store, markers: seq<int>, env: Env)
    requires s.Present?
    ensures var r := Appended(s, markers, env);
      forall i | 0 <= i < |r| ::
        Commit(Present(s.batches + r[..i]), env, r[i].year) == Ok(Present(s.batches + r[..i + 1]))
  {
    var r := Appended(s, markers, env);
    forall i | 0 <= i < |r|
      ensures Commit(Present(s.batches + r[..i]), env, r[i].year) == Ok(Present(s.batches + r[..i + 1]))
    {
      var b := s.batches + r;
      var k := |s.batches| + i;
      assert b[k] == r[i];
      assert b[..k] == s.batches + r[..i];
      assert b[..k + 1] == s.batches + r[..i + 1];
      CommitOfBatch(b, k, env);
    }
  }

  /** With the markers known, a run is the loop on the opened store. */
  lemma RunIsLoop(s: Store, currentYear: int, env: Env)
    requires StartYear(s).Ok?
    ensures Run(s, currentYear, env) == LoadLoop(Open(s), Range(StartYear(s).value, currentYear), env)
  {
  }

  /** A loop over consecutive years commits consecutive years from the
      first, appends exactly those years in that order, and appends no
      batch for the year whose step raised. */
  lemma LoopOverRange(base: seq<Batch>, start: int, currentYear: int, env: Env)
    ensures var o, added := LoadLoop(Present(base), Range(start, currentYear), env),
      Appended(Present(base), Range(start, currentYear), env);
      && (forall i | 0 <= i < |o.committed| :: o.committed[i] == start + i)
      && Years(added) == o.committed
      && (o.failure.Some? ==> start + |o.committed| !in Years(added))
  {
    var ms := Range(start, currentYear);
    var o := LoadLoop(Present(base), ms, env);
    var n := |o.committed|;
    AppendedYears(Present(base), ms, env);
    forall i | 0 <= i < n ensures o.committed[i] == start + i {
      assert o.committed[i] == ms[i];
    }
  }

  /** The years of the appended batches are the committed years. */
  lemma AppendedYears(s: Store, markers: seq<int>, env: Env)
    requires s.Present?
    ensures Years(Appended(s, markers, env)) == LoadLoop(s, markers, env).committed
  {
    var added := Appended(s, markers, env);
    forall i | 0 <= i < |added| ensures Years(added)[i] == LoadLoop(s, markers, env).committed[i] {
    }
  }

  /** Only appends happen: the store after a run starts with every batch
      it held before; the years committed are an ascending, gap-free
      prefix of the markers, each with its own batch; and the year whose
      step raised has no batch. */
  lemma RunCommitsAscendingPrefix(s: Store, currentYear: int, env: Env)
    requires YearMarkers(s, currentYear).Ok?
    ensures var o, ms := Run(s, currentYear, env), YearMarkers(s, currentYear).value;
      var added := Appended(Open(s), ms, env);
      && o.store == Present(Open(s).batches + added)
      && o.committed == ms[..|o.committed|]
      && Years(added) == o.committed
      && (o.failure.Some? ==> |o.committed| < |ms| && ms[|o.committed|] !in Years(added))
  {
    var start := StartYear(s).value;
    var base := Open(s).batches;
    var ms := Range(start, currentYear);
    assert YearMarkers(s, currentYear).value == ms;
    assert Open(s) == Present(base);
    RunIsLoop(s, currentYear, env);
    var o := LoadLoop(Present(base), ms, env);
    assert Run(s, currentYear, env) == o;
    LoopOverRange(base, start, currentYear, env);
    if o.failure.Some? {
      assert ms[|o.committed|] == start + |o.committed|;
    }
  }

  /** The years a run commits are consecutive, from its start year. */
  lemma RunCommitsConsecutiveYears(s: Store, currentYear: int, env: Env)
    requires StartYear(s).Ok?
    ensures var start, o := StartYear(s).value, Run(s, currentYear, env);
      forall i | 0 <= i < |o.committed| :: o.committed[i] == start + i
  {
    var start, base := StartYear(s).value, Open(s).batches;
    RunIsLoop(s, currentYear, env);
    assert Open(s) == Present(base);
    var o := LoadLoop(Present(base), Range(start, currentYear), env);
    LoopOverRange(base, start, currentYear, env);
    assert Run(s, currentYear, env) == o;
  }

  /** Every year's cleaned records carry YEAR equal to that year, and the
      archive of every year holds at least one record. */
  ghost predicate YearTagged(env: Env, year: int) {
    Prepare(env, year).Ok? ==> TaggedWith(Prepare(env, year).value, year)
  }

  /** The new batches of a run are tagged with ascending years from the
      start year. */
  lemma LoopAscendingTagged(base: seq<Batch>, start: int, currentYear: int, env: Env)
    requires forall y :: YearTagged(env, y)
    ensures AscendingTagged(Appended(Present(base), Range(start, currentYear), env), start)
  {
    var added := Appended(Present(base), Range(start, currentYear), env);
    LoopOverRange(base, start, currentYear, env);
    forall i | 0 <= i < |added|
      ensures added[i].year == start + i && TaggedWith(added[i].records, added[i].year)
    {
      assert Years(added)[i] == added[i].year;
      assert YearTagged(env, added[i].year);
    }
  }

  /** Appending batches tagged `start, start+1, ...` to batches whose
      largest year is `start - 1` (or which carry no year) makes the last
      appended year the largest. */
  lemma MaxAfterAppend(base: seq<Batch>, added: seq<Batch>, start: int)
    requires AscendingTagged(added, start) && |added| > 0
    requires MaxYear(base).Some? ==> MaxYear(base).value == start - 1
    ensures MaxYear(base + added) == Some(start + |added| - 1)
  {
    AscendingTaggedMax(added, start);
    MaxYearAppend(base, added);
  }

  lemma StartYearOfMax(s: Store, m: int)
    requires HasTable(s) && MaxYear(s.batches) == Some(m)
    ensures StartYear(s) == Ok(m + 1)
  {
  }

  /** Appending such batches moves the start year of the next run past
      the last of them. */
  lemma StartAfterAppend(base: seq<Batch>, added: seq<Batch>, start: int)
    requires AscendingTagged(added, start) && |added| > 0
    requires MaxYear(base).Some? ==> MaxYear(base).value == start - 1
    ensures StartYear(Present(base + added)) == Ok(start + |added|)
  {
    MaxAfterAppend(base, added, start);
    StartYearOfMax(Present(base + added), start + |added| - 1);
  }

  /** Idempotence: after a run that loads every marker, a second run
      finds nothing to do, provided each year's records carry that year
      and the first run did not start from a missing store with nothing
      to load (that run only creates an empty file). */
  lemma RerunAfterFullLoadIsEmpty(s: Store, currentYear: int, env: Env)
    requires forall y :: YearTagged(env, y)
    requires Run(s, currentYear, env).failure.None?
    requires s.Absent? ==> DefaultStart < currentYear
    ensures YearMarkers(Run(s, currentYear, env).store, currentYear) == Ok([])
  {
    assert StartYear(s).Ok?;
    var start := StartYear(s).value;
    var base := Open(s).batches;
    assert Open(s) == Present(base);
    RunIsLoop(s, currentYear, env);
    var added := Appended(Present(base), Range(start, currentYear), env);
    FullLoopBatches(base, start, currentYear, env);
    assert Run(s, currentYear, env).store == Present(base + added);
    ResumeAtEnd(s, base, added, currentYear);
  }

  /** The store a full run leaves, stated without the run: the old batches
      followed by one tagged batch per year from the start year on. */
  lemma ResumeAtEnd(s: Store, base: seq<Batch>, added: seq<Batch>, currentYear: int)
    requires StartYear(s).Ok? && Open(s) == Present(base)
    requires |added| == |Range(StartYear(s).value, currentYear)|
    requires AscendingTagged(added, StartYear(s).value)
    requires s.Absent? ==> DefaultStart < currentYear
    ensures YearMarkers(Present(base + added), currentYear) == Ok([])
  {
    var start := StartYear(s).value;
    if start < currentYear {
      StartYearBelow(s);
      StartAfterAppend(base, added, start);
    } else {
      assert base + added == base;
    }
  }

  /** The batches such a loop leaves: the old ones, then one tagged batch
      for each year of the range. */
  lemma FullLoopBatches(base: seq<Batch>, start: int, currentYear: int, env: Env)
    requires forall y :: YearTagged(env, y)
    requires LoadLoop(Present(base), Range(start, currentYear), env).failure.None?
    ensures var added := Appended(Present(base), Range(start, currentYear), env);
      && LoadLoop(Present(base), Range(start, currentYear), env).store == Present(base + added)
      && |added| == |Range(start, currentYear)|
      && AscendingTagged(added, start)
  {
    var ms := Range(start, currentYear);
    var o := LoadLoop(Present(base), ms, env);
    LoopAscendingTagged(base, start, currentYear, env);
    assert o.store.batches == base + Appended(Present(base), ms, env);
  }

  /** Wherever the start year is defined, the store's largest year, if
      any, is the one just before it. */
  lemma StartYearBelow(s: Store)
    requires StartYear(s).Ok?
    ensures MaxYear(Open(s).batches).Some? ==> MaxYear(Open(s).batches).value == StartYear(s).value - 1
  {
  }

  // ---------------------------------------------------------------------
  // Contiguity across runs
  // ---------------------------------------------------------------------

  /** The contiguity invariant: the committed batches are tagged with the
      years `DefaultStart, DefaultStart+1, ...` in order, with no gap. */
  predicate Contiguous(s: Store) {
    s.Absent? || AscendingTagged(s.batches, DefaultStart)
  }

  /** On a contiguous store the start year is one past the last batch. */
  lemma ContiguousStart(s: Store)
    requires Contiguous(s) && HasTable(s)
    ensures StartYear(s) == Ok(DefaultStart + |s.batches|)
  {
    AscendingTaggedMax(s.batches, DefaultStart);
  }

  lemma AscendingTaggedConcat(a: seq<Batch>, b: seq<Batch>, lo: int)
    requires AscendingTagged(a, lo) && AscendingTagged(b, lo + |a|)
    ensures AscendingTagged(a + b, lo)
  {
    forall i | 0 <= i < |a + b|
      ensures (a + b)[i].year == lo + i && TaggedWith((a + b)[i].records, (a + b)[i].year)
    {
      if i >= |a| {
        assert (a + b)[i] == b[i - |a|];
      }
    }
  }

  /** Every run, whether it completes, raises midway or raises before
      loading anything, keeps the store contiguous. */
  lemma RunPreservesContiguity(s: Store, currentYear: int, env: Env)
    requires forall y :: YearTagged(env, y)
    requires Contiguous(s)
    ensures Contiguous(Run(s, currentYear, env).store)
  {
    if StartYear(s).Ok? {
      var start := StartYear(s).value;
      var base := Open(s).batches;
      if s.Present? {
        ContiguousStart(s);
      }
      RunIsLoop(s, currentYear, env);
      LoopAscendingTagged(base, start, currentYear, env);
      AscendingTaggedConcat(base, Appended(Present(base), Range(start, currentYear), env), DefaultStart);
    }
  }

  // ---------------------------------------------------------------------
  // Retrying after a failure
  // ---------------------------------------------------------------------

  /** As written, a first run whose first download fails leaves behind a
      database file without the `annual_info` table (line 99 creates it
      before the loop), and from then on every run, whatever the clock
      and whatever the network does, raises before loading anything. */
  lemma FailedFirstRunBlocksEveryRetry(env: Env, currentYear: int, laterYear: int, later: Env)
    requires DefaultStart < currentYear
    requires env.fetch(DefaultStart).None?
    ensures var o := Run(Absent, currentYear, env);
      && o.failure == Some(FetchFailed(DefaultStart))
      && o.store == Present([])
      && Run(o.store, laterYear, later) == Outcome(Present([]), [], Some(NoSuchTable))
  {
    assert Range(DefaultStart, currentYear)[0] == DefaultStart;
  }

  /** The same happens, as written, after a first run with nothing to
      load (the clock at or before the default year): it completes
      without an error, yet leaves a file without the table, and every
      later run raises before loading anything. */
  lemma EmptyFirstRunBlocksEveryRetry(env: Env, currentYear: int, laterYear: int, later: Env)
    requires currentYear <= DefaultStart
    ensures var o := Run(Absent, currentYear, env);
      && o == Outcome(Present([]), [], None)
      && Run(o.store, laterYear, later) == Outcome(Present([]), [], Some(NoSuchTable))
  {
  }

  /** `load_annual_info` with the corrected start year. */
  function RunResumable(s: Store, currentYear: int, env: Env): (o: Outcome)
    ensures o.store.Present?
  {
    LoadLoop(Open(s), YearMarkersResumable(s, currentYear), env)
  }

  /** With the corrected rule, a contiguous store resumes one past its
      last batch, and an empty one at the default year. */
  lemma ContiguousResumableStart(s: Store)
    requires Contiguous(s)
    ensures StartYearResumable(s) == DefaultStart + |Open(s).batches|
  {
    AscendingTaggedMax(Open(s).batches, DefaultStart);
  }

  lemma ContiguousResumableMarkers(s: Store, currentYear: int)
    requires Contiguous(s)
    ensures YearMarkersResumable(s, currentYear) == Range(DefaultStart + |Open(s).batches|, currentYear)
  {
    ContiguousResumableStart(s);
  }

  /** A contiguous store holding `n` batches past `start` resumes with
      the years of `[start, currentYear)` left after the first `n`. */
  lemma ResumeAfterCommitted(t: Store, start: int, currentYear: int, n: nat)
    requires Contiguous(t) && t.Present? && DefaultStart + |t.batches| == start + n
    requires start + n <= currentYear
    ensures YearMarkersResumable(t, currentYear) == Range(start, currentYear)[n..]
  {
    ContiguousResumableMarkers(t, currentYear);
    RangeDrop(start, currentYear, n);
  }

  /** The loop over the years after a contiguous store's last batch keeps
      it contiguous. */
  lemma LoopKeepsContiguous(base: seq<Batch>, currentYear: int, env: Env)
    requires forall y :: YearTagged(env, y)
    requires AscendingTagged(base, DefaultStart)
    ensures Contiguous(LoadLoop(Present(base), Range(DefaultStart + |base|, currentYear), env).store)
  {
    var start := DefaultStart + |base|;
    LoopAscendingTagged(base, start, currentYear, env);
    AscendingTaggedConcat(base, Appended(Present(base), Range(start, currentYear), env), DefaultStart);
  }

  lemma RunResumableIsLoop(s: Store, currentYear: int, env: Env)
    ensures RunResumable(s, currentYear, env) == LoadLoop(Open(s), Range(StartYearResumable(s), currentYear), env)
  {
  }

  /** After a loop over the years following a contiguous store's last
      batch stops on a failure, the corrected markers of the next run are
      the markers the loop did not commit. */
  lemma LoopResumesAtFailure(base: seq<Batch>, currentYear: int, env: Env)
    requires Contiguous(LoadLoop(Present(base), Range(DefaultStart + |base|, currentYear), env).store)
    ensures var start := DefaultStart + |base|;
      var o := LoadLoop(Present(base), Range(start, currentYear), env);
      o.failure.Some? ==> YearMarkersResumable(o.store, currentYear) == Range(start, currentYear)[|o.committed|..]
  {
    var start := DefaultStart + |base|;
    var ms := Range(start, currentYear);
    var o := LoadLoop(Present(base), ms, env);
    if o.failure.Some? {
      var n := |o.committed|;
      assert n < |ms|;
      LoadLoopLength(Present(base), ms, env);
      ResumeAfterCommitted(o.store, start, currentYear, n);
    }
  }

  /** With the corrected start year, a retry after any failure resumes at
      exactly the year that failed, and the store stays contiguous. */
  lemma ResumableRetryStartsAtFailedYear(s: Store, currentYear: int, env: Env)
    requires forall y :: YearTagged(env, y)
    requires Contiguous(s)
    ensures var o, ms := RunResumable(s, currentYear, env), YearMarkersResumable(s, currentYear);
      && Contiguous(o.store)
      && (o.failure.Some? ==> YearMarkersResumable(o.store, currentYear) == ms[|o.committed|..])
  {
    var base := Open(s).batches;
    var start := DefaultStart + |base|;
    ContiguousResumableStart(s);
    RunResumableIsLoop(s, currentYear, env);
    assert Open(s) == Present(base);
    LoopKeepsContiguous(base, currentYear, env);
    LoopResumesAtFailure(base, currentYear, env);
  }

  /** With the corrected start year, the run that left an empty file
      behind is simply retried from the default year. */
  lemma FailedFirstRunResumes(env: Env, currentYear: int, laterYear: int)
    requires DefaultStart < currentYear
    requires env.fetch(DefaultStart).None?
    ensures var o := RunResumable(Absent, currentYear, env);
      && o.failure == Some(FetchFailed(DefaultStart))
      && o.store == Present([])
      && YearMarkersResumable(o.store, laterYear) == Range(DefaultStart, laterYear)
  {
    assert Range(DefaultStart, currentYear)[0] == DefaultStart;
  }

  /** With the corrected start year, a first run with nothing to load
      leaves an empty file that a later run loads from the default year. */
  lemma EmptyFirstRunResumes(env: Env, currentYear: int, laterYear: int)
    requires currentYear <= DefaultStart
    ensures var o := RunResumable(Absent, currentYear, env);
      && o == Outcome(Present([]), [], None)
      && YearMarkersResumable(o.store, laterYear) == Range(DefaultStart, laterYear)
  {
  }
}
