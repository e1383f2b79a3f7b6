/** The entry filter of `get_annual_info`: of the entries of the yearly
    archive, only those whose name ends in ".csv" are read, and each is
    stored in a dictionary under its file name. Each entry is opened by
    its name, so a name that occurs several times always reads the last
    entry carrying it. Downloading, unzipping and CSV reading themselves
    are not modelled; an entry arrives with the outcome of reading its
    own bytes already attached. */
module Archive {
  import opened Types

  /** One archive entry: its file name and what the CSV reader makes of
      its bytes (None when reading it would raise). */
  datatype Entry = Entry(name: string, parsed: Option<Table>)

  /** `filename.endswith('.csv')`, case-sensitive. */
  predicate IsCsvName(name: string) {
    |name| >= 4 && name[|name| - 4..] == ".csv"
  }

  /** Any stem followed by ".csv" passes the filter; the test is
      case-sensitive, so ".CSV" does not, nor does a name ending in ".csv"
      followed by anything else. */
  lemma CsvNameSuffix(stem: string)
    ensures IsCsvName(stem + ".csv")
    ensures !IsCsvName(stem + ".CSV")
    ensures !IsCsvName(stem + ".csv.bak")
  {
    assert (stem + ".csv")[|stem + ".csv"| - 4..] == ".csv";
    assert (stem + ".CSV")[|stem + ".CSV"| - 4..] == ".CSV";
    assert (stem + ".csv.bak")[|stem + ".csv.bak"| - 4..] == ".bak";
  }

  /** A Python dict from entry name to table, in insertion order. */
  type Tables = seq<(string, Table)>

  predicate HasName(d: Tables, k: string) {
    exists j | 0 <= j < |d| :: d[j].0 == k
  }

  predicate DistinctNames(d: Tables) {
    forall i, j | 0 <= i < j < |d| :: d[i].0 != d[j].0
  }

  /** Dict assignment `d[k] = v`: an existing key keeps its position and
      takes the new value; a new key is added at the end. */
  function Put(d: Tables, k: string, v: Table): (r: Tables)
    requires DistinctNames(d)
    ensures HasName(d, k) ==> |r| == |d|
    ensures !HasName(d, k) ==> r == d + [(k, v)]
    ensures forall j | 0 <= j < |d| :: r[j] == (if d[j].0 == k then (k, v) else d[j])
    ensures DistinctNames(r)
  {
    if |d| == 0 then [(k, v)]
    else if d[0].0 == k then [(k, v)] + d[1..]
    else
      var rest := Put(d[1..], k, v);
      PutStep(d, k, v, rest);
      [d[0]] + rest
  }

  lemma HasNameTail(d: Tables, k: string)
    requires |d| > 0
    ensures HasName(d, k) <==> d[0].0 == k || HasName(d[1..], k)
  {
    if HasName(d, k) && d[0].0 != k {
      var j :| 0 <= j < |d| && d[j].0 == k;
      assert d[1..][j - 1] == d[j];
    }
    if HasName(d[1..], k) {
      var j :| 0 <= j < |d[1..]| && d[1..][j].0 == k;
      assert d[j + 1] == d[1..][j];
    }
  }

  /** The recursive step of `Put`: a leading entry with another name stays
      in front of the updated remainder. */
  lemma PutStep(d: Tables, k: string, v: Table, rest: Tables)
    requires DistinctNames(d) && |d| > 0 && d[0].0 != k
    requires HasName(d[1..], k) ==> |rest| == |d| - 1
    requires !HasName(d[1..], k) ==> rest == d[1..] + [(k, v)]
    requires forall j | 0 <= j < |d| - 1 :: rest[j] == (if d[j + 1].0 == k then (k, v) else d[j + 1])
    requires DistinctNames(rest)
    ensures var r := [d[0]] + rest;
      && (HasName(d, k) ==> |r| == |d|)
      && (!HasName(d, k) ==> r == d + [(k, v)])
      && (forall j | 0 <= j < |d| :: r[j] == (if d[j].0 == k then (k, v) else d[j]))
      && DistinctNames(r)
  {
    var r := [d[0]] + rest;
    HasNameTail(d, k);
    if !HasName(d, k) {
      assert r == d + [(k, v)];
    }
    forall j | 0 <= j < |d| ensures r[j] == (if d[j].0 == k then (k, v) else d[j]) {
      if j > 0 {
        assert r[j] == rest[j - 1];
      }
    }
    forall j | 0 < j < |r| ensures r[j].0 != d[0].0 {
      assert r[j] == rest[j - 1];
    }
  }

  /** After `d[k] = v` the dict holds the old names and `k`. */
  lemma PutNames(d: Tables, k: string, v: Table, k': string)
    requires DistinctNames(d)
    ensures HasName(Put(d, k, v), k') <==> HasName(d, k') || k' == k
  {
    var r := Put(d, k, v);
    if HasName(d, k') {
      var j :| 0 <= j < |d| && d[j].0 == k';
      assert r[j].0 == k';
    }
    if k' == k && !HasName(d, k) {
      assert r[|d|].0 == k;
    }
    if HasName(r, k') && k' != k {
      var j :| 0 <= j < |r| && r[j].0 == k';
      if j < |d| {
        assert d[j].0 == k';
      }
    }
  }

  /** After `d[k] = v` the name `k` is bound to `v`. */
  lemma PutBinds(d: Tables, k: string, v: Table, j: nat)
    requires DistinctNames(d)
    requires j < |Put(d, k, v)| && Put(d, k, v)[j].0 == k
    ensures Put(d, k, v)[j].1 == v
  {
  }

  /** Entry `i` is the last one in the archive carrying its name. */
  predicate LastOfName(entries: seq<Entry>, i: nat)
    requires i < |entries|
  {
    forall i' | i < i' < |entries| :: entries[i'].name != entries[i].name
  }

  /** The position of the last entry named `k`, or -1 when none is. */
  function LastIndexOf(entries: seq<Entry>, k: string): (r: int)
    ensures -1 <= r < |entries|
    ensures r >= 0 ==> entries[r].name == k
    ensures forall i | r < i < |entries| :: entries[i].name != k
  {
    if |entries| == 0 then -1
    else if entries[|entries| - 1].name == k then |entries| - 1
    else LastIndexOf(entries[..|entries| - 1], k)
  }

  /** `zip_file.open(k)`: the zip directory maps each name to the last
      entry carrying it, so opening by name reads that entry; None when
      reading it raises, or when no entry has the name. */
  function Opened(entries: seq<Entry>, k: string): (r: Option<Table>)
    ensures forall i | 0 <= i < |entries| && entries[i].name == k && LastOfName(entries, i) :: r == entries[i].parsed
    ensures r.Some? ==> exists i | 0 <= i < |entries| :: entries[i].name == k && LastOfName(entries, i) && entries[i].parsed == r
    ensures (forall i | 0 <= i < |entries| :: entries[i].name != k) ==> r.None?
  {
    var l := LastIndexOf(entries, k);
    if l < 0 then None
    else
      assert LastOfName(entries, l);
      entries[l].parsed
  }

  /** One step of the dict comprehension of `get_annual_info`: a non-CSV
      entry is skipped; a CSV entry is opened by its name in `archive`,
      which raises when what the name opens cannot be read, and otherwise
      assigns the table under the name. */
  function AddEntry(archive: seq<Entry>, d: Tables, e: Entry): (r: Result<Tables, Error>)
    requires DistinctNames(d)
    ensures !IsCsvName(e.name) ==> r == Ok(d)
    ensures r.Err? <==> IsCsvName(e.name) && Opened(archive, e.name).None?
    ensures r.Err? ==> r.error == Unparseable(e.name)
    ensures r.Ok? ==> DistinctNames(r.value)
    ensures r.Ok? && IsCsvName(e.name) ==> |r.value| == |d| + (if HasName(d, e.name) then 0 else 1)
  {
    if !IsCsvName(e.name) then Ok(d)
    else match Opened(archive, e.name)
      case None => Err(Unparseable(e.name))
      case Some(t) => Ok(Put(d, e.name, t))
  }

  /** The comprehension over the entries `pending` of `archive`, in order. */
  function Comprehend(archive: seq<Entry>, pending: seq<Entry>): (r: Result<Tables, Error>)
    ensures r.Ok? ==> DistinctNames(r.value)
    ensures r.Ok? ==> forall j | 0 <= j < |r.value| :: IsCsvName(r.value[j].0)
    ensures r.Ok? <==>
      forall i | 0 <= i < |pending| && IsCsvName(pending[i].name) :: Opened(archive, pending[i].name).Some?
  {
    if |pending| == 0 then Ok([])
    else
      var init := pending[..|pending| - 1];
      assert forall i | 0 <= i < |init| :: init[i] == pending[i];
      var d :- Comprehend(archive, init);
      AddEntry(archive, d, pending[|pending| - 1])
  }

  /** Every CSV name of the archive opens to something readable: the
      last entry carrying each CSV name reads. */
  predicate AllCsvReadable(entries: seq<Entry>) {
    forall i | 0 <= i < |entries| && IsCsvName(entries[i].name) && LastOfName(entries, i) ::
      entries[i].parsed.Some?
  }

  lemma CsvReadable(entries: seq<Entry>)
    ensures AllCsvReadable(entries) <==>
      forall i | 0 <= i < |entries| && IsCsvName(entries[i].name) :: Opened(entries, entries[i].name).Some?
  {
    if AllCsvReadable(entries) {
      forall i | 0 <= i < |entries| && IsCsvName(entries[i].name)
        ensures Opened(entries, entries[i].name).Some?
      {
        var l := LastIndexOf(entries, entries[i].name);
        assert i <= l;
        assert LastOfName(entries, l);
      }
    }
  }

  /** The whole comprehension of `get_annual_info`. */
  function CsvTables(entries: seq<Entry>): (r: Result<Tables, Error>)
    ensures r.Ok? ==> DistinctNames(r.value)
    ensures r.Ok? ==> forall j | 0 <= j < |r.value| :: IsCsvName(r.value[j].0)
    ensures r.Ok? <==> AllCsvReadable(entries)
  {
    CsvReadable(entries);
    Comprehend(entries, entries)
  }

  /** Some entry of the archive is a CSV entry named `k`. */
  predicate CsvNamed(entries: seq<Entry>, k: string) {
    exists i | 0 <= i < |entries| :: entries[i].name == k && IsCsvName(k)
  }

  lemma CsvNamedSnoc(entries: seq<Entry>, k: string)
    requires |entries| > 0
    ensures CsvNamed(entries, k) <==>
      CsvNamed(entries[..|entries| - 1], k) || (entries[|entries| - 1].name == k && IsCsvName(k))
  {
    var init := entries[..|entries| - 1];
    if CsvNamed(entries, k) {
      var i :| 0 <= i < |entries| && entries[i].name == k && IsCsvName(k);
      if i < |init| {
        assert init[i] == entries[i];
      }
    }
    if CsvNamed(init, k) {
      var i :| 0 <= i < |init| && init[i].name == k && IsCsvName(k);
      assert entries[i] == init[i];
    }
  }

  lemma {:induction false} ComprehendNames(archive: seq<Entry>, pending: seq<Entry>, k: string)
    requires Comprehend(archive, pending).Ok?
    ensures HasName(Comprehend(archive, pending).value, k) <==> CsvNamed(pending, k)
  {
    if |pending| > 0 {
      var init := pending[..|pending| - 1];
      var e := pending[|pending| - 1];
      CsvNamedSnoc(pending, k);
      ComprehendNames(archive, init, k);
      var d := Comprehend(archive, init).value;
      assert Comprehend(archive, pending) == AddEntry(archive, d, e);
      if IsCsvName(e.name) {
        PutNames(d, e.name, Opened(archive, e.name).value, k);
      }
    }
  }

  /** The dict holds exactly the names of the CSV entries. */
  lemma CsvTablesNames(entries: seq<Entry>, k: string)
    requires CsvTables(entries).Ok?
    ensures HasName(CsvTables(entries).value, k) <==> CsvNamed(entries, k)
  {
    ComprehendNames(entries, entries, k);
  }

  lemma {:induction false} ComprehendBinds(archive: seq<Entry>, pending: seq<Entry>, j: nat)
    requires Comprehend(archive, pending).Ok?
    requires j < |Comprehend(archive, pending).value|
    ensures var (k, t) := Comprehend(archive, pending).value[j]; Opened(archive, k) == Some(t)
  {
    var init := pending[..|pending| - 1];
    var e := pending[|pending| - 1];
    var d := Comprehend(archive, init).value;
    assert Comprehend(archive, pending) == AddEntry(archive, d, e);
    var r := Comprehend(archive, pending).value;
    if j < |d| {
      ComprehendBinds(archive, init, j);
      if IsCsvName(e.name) && d[j].0 == e.name {
        assert r[j] == (e.name, Opened(archive, e.name).value);
      }
    } else {
      assert r[j] == (e.name, Opened(archive, e.name).value);
    }
  }

  /** The last CSV entry carrying a name wins: the table stored under a
      name is the one read from the latest entry of that name. */
  lemma CsvTablesLastWins(entries: seq<Entry>, j: nat)
    requires CsvTables(entries).Ok?
    requires j < |CsvTables(entries).value|
    ensures var (k, t) := CsvTables(entries).value[j];
      exists i | 0 <= i < |entries| ::
        && entries[i] == Entry(k, Some(t))
        && forall i' | i < i' < |entries| :: entries[i'].name != k
  {
    ComprehendBinds(entries, entries, j);
    var (k, t) := CsvTables(entries).value[j];
    var i :| 0 <= i < |entries| && entries[i].name == k && LastOfName(entries, i) && entries[i].parsed == Some(t);
    assert entries[i] == Entry(k, Some(t));
  }

  lemma {:induction false} ComprehendFirstFailure(archive: seq<Entry>, pending: seq<Entry>)
    requires Comprehend(archive, pending).Err?
    ensures exists i | 0 <= i < |pending| ::
      && IsCsvName(pending[i].name)
      && Opened(archive, pending[i].name).None?
      && Comprehend(archive, pending).error == Unparseable(pending[i].name)
      && forall i' | 0 <= i' < i && IsCsvName(pending[i'].name) :: Opened(archive, pending[i'].name).Some?
  {
    var init := pending[..|pending| - 1];
    var e := pending[|pending| - 1];
    assert forall i | 0 <= i < |init| :: init[i] == pending[i];
    if Comprehend(archive, init).Err? {
      ComprehendFirstFailure(archive, init);
      var i :| 0 <= i < |init| && IsCsvName(init[i].name) && Opened(archive, init[i].name).None?
        && Comprehend(archive, init).error == Unparseable(init[i].name)
        && forall i' | 0 <= i' < i && IsCsvName(init[i'].name) :: Opened(archive, init[i'].name).Some?;
      assert pending[i] == init[i];
    } else {
      assert Comprehend(archive, pending).error == Unparseable(e.name);
    }
  }

  /** The comprehension raises on the first CSV entry, in archive order,
      whose name opens to an unreadable entry: the last entry carrying
      that name cannot be read, whatever the earlier ones hold. */
  lemma CsvTablesFirstFailure(entries: seq<Entry>)
    requires CsvTables(entries).Err?
    ensures exists i | 0 <= i < |entries| ::
      && IsCsvName(entries[i].name)
      && CsvTables(entries).error == Unparseable(entries[i].name)
      && (forall l | 0 <= l < |entries| && entries[l].name == entries[i].name && LastOfName(entries, l) ::
            entries[l].parsed.None?)
      && forall i' | 0 <= i' < i && IsCsvName(entries[i'].name) :: Opened(entries, entries[i'].name).Some?
  {
    ComprehendFirstFailure(entries, entries);
  }

  /** The entries the comprehension looks at: those whose name ends in
      ".csv", in archive order. */
  function CsvOnly(entries: seq<Entry>): (r: seq<Entry>)
    ensures forall i | 0 <= i < |r| :: IsCsvName(r[i].name) && r[i] in entries
    ensures forall i | 0 <= i < |entries| && IsCsvName(entries[i].name) :: entries[i] in r
    ensures |r| <= |entries|
  {
    if |entries| == 0 then []
    else
      var init := entries[..|entries| - 1];
      var e := entries[|entries| - 1];
      assert forall i | 0 <= i < |init| :: init[i] == entries[i];
      CsvOnly(init) + (if IsCsvName(e.name) then [e] else [])
  }

  lemma {:induction false} ComprehendSkipsOthers(archive: seq<Entry>, pending: seq<Entry>)
    ensures Comprehend(archive, CsvOnly(pending)) == Comprehend(archive, pending)
  {
    if |pending| > 0 {
      var init := pending[..|pending| - 1];
      var e := pending[|pending| - 1];
      ComprehendSkipsOthers(archive, init);
      var f := CsvOnly(init);
      if IsCsvName(e.name) {
        assert CsvOnly(pending) == f + [e];
        assert (f + [e])[..|f + [e]| - 1] == f;
      } else {
        assert CsvOnly(pending) == f;
        assert Comprehend(archive, pending) == Comprehend(archive, init);
      }
    }
  }

  /** Appending an entry changes what its own name opens, and nothing else. */
  lemma OpenedSnoc(entries: seq<Entry>, e: Entry, k: string)
    ensures Opened(entries + [e], k) == if e.name == k then e.parsed else Opened(entries, k)
  {
    var s := entries + [e];
    assert s[..|s| - 1] == entries;
    assert s[|s| - 1] == e;
    if e.name != k {
      assert LastIndexOf(s, k) == LastIndexOf(entries, k);
    }
  }

  /** Dropping the other entries does not change what a CSV name opens. */
  lemma {:induction false} OpenedCsvOnly(entries: seq<Entry>, k: string)
    requires IsCsvName(k)
    ensures Opened(CsvOnly(entries), k) == Opened(entries, k)
  {
    if |entries| > 0 {
      var init := entries[..|entries| - 1];
      var e := entries[|entries| - 1];
      var f := CsvOnly(init);
      assert entries == init + [e];
      OpenedCsvOnly(init, k);
      OpenedSnoc(init, e, k);
      if IsCsvName(e.name) {
        assert CsvOnly(entries) == f + [e];
        OpenedSnoc(f, e, k);
      } else {
        assert CsvOnly(entries) == f;
      }
    }
  }

  /** The comprehension depends on the archive only through what its
      names open to. */
  lemma {:induction false} ComprehendOpenedOnly(a1: seq<Entry>, a2: seq<Entry>, pending: seq<Entry>)
    requires forall i | 0 <= i < |pending| && IsCsvName(pending[i].name) ::
      Opened(a1, pending[i].name) == Opened(a2, pending[i].name)
    ensures Comprehend(a1, pending) == Comprehend(a2, pending)
  {
    if |pending| > 0 {
      var init := pending[..|pending| - 1];
      assert forall i | 0 <= i < |init| :: init[i] == pending[i];
      ComprehendOpenedOnly(a1, a2, init);
    }
  }

  /** Non-CSV entries never matter: dropping them leaves the outcome,
      success or failure, unchanged. */
  lemma CsvTablesIgnoresOtherEntries(entries: seq<Entry>)
    ensures CsvTables(CsvOnly(entries)) == CsvTables(entries)
  {
    var f := CsvOnly(entries);
    forall i | 0 <= i < |f| && IsCsvName(f[i].name)
      ensures Opened(f, f[i].name) == Opened(entries, f[i].name)
    {
      OpenedCsvOnly(entries, f[i].name);
    }
    ComprehendOpenedOnly(f, entries, f);
    ComprehendSkipsOthers(entries, entries);
  }

  /** A name that occurs twice reads its last entry at both occurrences:
      an unreadable first copy does not matter when the last one reads,
      and an unreadable last copy raises already at the first one. */
  lemma DuplicateNameExamples(t: Table)
    ensures CsvTables([Entry("a.csv", None), Entry("a.csv", Some(t))]) == Ok([("a.csv", t)])
    ensures CsvTables([Entry("a.csv", Some(t)), Entry("b.csv", None), Entry("a.csv", None)])
      == Err(Unparseable("a.csv"))
  {
    var one := [Entry("a.csv", None), Entry("a.csv", Some(t))];
    CsvNameSuffix("a");
    assert LastIndexOf(one, "a.csv") == 1;
    assert one[..1][..0] == [];
    assert Comprehend(one, one[..1][..0]) == Ok([]);
    assert Opened(one, "a.csv") == Some(t);
    assert Comprehend(one, one[..1]) == Ok([("a.csv", t)]);
    assert Put([("a.csv", t)], "a.csv", t) == [("a.csv", t)];
    assert Comprehend(one, one) == AddEntry(one, [("a.csv", t)], one[1]);
    var two := [Entry("a.csv", Some(t)), Entry("b.csv", None), Entry("a.csv", None)];
    assert LastIndexOf(two, "a.csv") == 2;
    assert two[..1][..0] == [];
    assert Comprehend(two, two[..1]) == Err(Unparseable("a.csv"));
    assert Comprehend(two, two[..2]) == Err(Unparseable("a.csv"));
  }
}
