/** `ext_source_metric_process`: a yearly Scopus source-metrics file is
    read row by row; each row's source is found (or made), its missing
    publisher, country and subject are filled in, and the metrics of the
    file's year it does not have yet are appended to it. */

module ExtMetrics {
  import opened Wrappers
  import opened Py
  import Helpers
  import opened Models
  import Importers
  import ExtSources

  // ================================================================ metrics

  /** The metric columns of the file, in the order they are read, each with
      the name its metrics are stored under. */
  const MetricTypes: seq<(string, string)> := [
    ("citescore", "CiteScore"), ("percentile", "Percentile"), ("snip", "SNIP"),
    ("sjr", "SJR"), ("citations", "Citations"), ("documents", "Documents"),
    ("percent_cited", "Percent Cited")]

  /** No two metric columns are stored under the same name. */
  predicate DistinctNames(types: seq<(string, string)>) {
    forall i, j :: 0 <= i < j < |types| ==> types[i].1 != types[j].1
  }

  lemma MetricTypesDistinct()
    ensures |MetricTypes| == 7 && DistinctNames(MetricTypes)
  {
  }

  /** A source holds at most one metric of each kind per year. */
  predicate UniqueKindYear(ms: seq<SourceMetric>) {
    forall i, j :: 0 <= i < j < |ms| ==> ms[i].kind != ms[j].kind || ms[i].year != ms[j].year
  }

  /** The kinds of the metrics of `year`: the keys of `source_metrics`. */
  function YearKinds(ms: seq<SourceMetric>, year: int): set<string> {
    set m | m in ms && m.year == year :: m.kind
  }

  /** `float(row[column])`, with KeyError, TypeError and ValueError taken
      as "value not available". */
  function MetricValue(row: Dict, column: string): Option<real> {
    match Importers.Field(row, column)
    case Err(_) => None
    case Ok(v) =>
      match PyFloat(v)
      case Ok(x) => Some(x)
      case Err(_) => None
  }

  /** The metrics the loop over `types` appends: one per column whose value
      is available and whose name is not among the kinds `have`. */
  function Added(types: seq<(string, string)>, row: Dict, have: set<string>, year: int): seq<SourceMetric>
    decreases |types|
  {
    if types == [] then []
    else
      var t := types[|types| - 1];
      var v := MetricValue(row, t.0);
      Added(types[..|types| - 1], row, have, year)
        + if v.Some? && t.1 !in have then [SourceMetric(t.1, v.value, year)] else []
  }

  /** The metrics a row appends to a source that has `ms`. */
  function NewMetrics(ms: seq<SourceMetric>, row: Dict, year: int): seq<SourceMetric> {
    Added(MetricTypes, row, YearKinds(ms, year), year)
  }

  lemma AddedSnoc(types: seq<(string, string)>, t: (string, string), row: Dict, have: set<string>, year: int)
    ensures var v := MetricValue(row, t.0);
            Added(types + [t], row, have, year)
              == Added(types, row, have, year) + if v.Some? && t.1 !in have then [SourceMetric(t.1, v.value, year)] else []
  {
    assert (types + [t])[..|types|] == types;
  }

  lemma AddedAppend(types: seq<(string, string)>, t: (string, string), row: Dict, have: set<string>, year: int)
    ensures Added(types + [t], row, have, year) == Added(types, row, have, year) + Added([t], row, have, year)
  {
    AddedSnoc(types, t, row, have, year);
    AddedSnoc([], t, row, have, year);
  }

  /** Some column of `types` stored under `m`'s kind holds `m`'s value. */
  ghost predicate Supplies(types: seq<(string, string)>, row: Dict, m: SourceMetric) {
    exists i :: 0 <= i < |types| && types[i].1 == m.kind && MetricValue(row, types[i].0) == Some(m.value)
  }

  lemma SuppliesSnoc(types: seq<(string, string)>, row: Dict, m: SourceMetric)
    requires types != []
    ensures var p, t := types[..|types| - 1], types[|types| - 1];
            Supplies(types, row, m) <==> Supplies(p, row, m) || (t.1 == m.kind && MetricValue(row, t.0) == Some(m.value))
  {
    var p := types[..|types| - 1];
    if Supplies(types, row, m) {
      var i :| 0 <= i < |types| && types[i].1 == m.kind && MetricValue(row, types[i].0) == Some(m.value);
      if i < |p| {
        assert p[i] == types[i];
      }
    }
    if Supplies(p, row, m) {
      var i :| 0 <= i < |p| && p[i].1 == m.kind && MetricValue(row, p[i].0) == Some(m.value);
      assert types[i] == p[i];
    }
  }

  /** A metric is appended exactly when it is of the year, its kind is not
      there yet, and some column stored under its kind holds its value. */
  lemma {:induction false} AddedMembers(types: seq<(string, string)>, row: Dict, have: set<string>, year: int,
                                        m: SourceMetric)
    decreases |types|
    ensures m in Added(types, row, have, year) <==> m.year == year && m.kind !in have && Supplies(types, row, m)
  {
    if types != [] {
      AddedMembers(types[..|types| - 1], row, have, year, m);
      SuppliesSnoc(types, row, m);
    }
  }

  /** At most one metric per column is appended. */
  lemma {:induction false} AddedLength(types: seq<(string, string)>, row: Dict, have: set<string>, year: int)
    decreases |types|
    ensures |Added(types, row, have, year)| <= |types|
  {
    if types != [] {
      AddedLength(types[..|types| - 1], row, have, year);
    }
  }

  /** With distinct names, the appended metrics have distinct kinds. */
  lemma {:induction false} AddedDistinct(types: seq<(string, string)>, row: Dict, have: set<string>, year: int)
    requires DistinctNames(types)
    decreases |types|
    ensures var a := Added(types, row, have, year);
            forall i, j :: 0 <= i < j < |a| ==> a[i].kind != a[j].kind
  {
    if types != [] {
      var p := types[..|types| - 1];
      var t := types[|types| - 1];
      assert DistinctNames(p) by {
        assert forall i :: 0 <= i < |p| ==> p[i] == types[i];
      }
      AddedDistinct(p, row, have, year);
      var a := Added(p, row, have, year);
      forall k | 0 <= k < |a| ensures a[k].kind != t.1 {
        AddedMembers(p, row, have, year, a[k]);
        var i :| 0 <= i < |p| && p[i].1 == a[k].kind && MetricValue(row, p[i].0) == Some(a[k].value);
        assert p[i] == types[i] && i < |types| - 1;
      }
    }
  }

  /** When every available column is stored under a kind in `have`, the
      loop appends nothing. */
  lemma {:induction false} AddedNone(types: seq<(string, string)>, row: Dict, have: set<string>, year: int)
    requires forall i :: 0 <= i < |types| && MetricValue(row, types[i].0).Some? ==> types[i].1 in have
    decreases |types|
    ensures Added(types, row, have, year) == []
  {
    if types != [] {
      var p := types[..|types| - 1];
      assert forall i :: 0 <= i < |p| ==> p[i] == types[i];
      AddedNone(p, row, have, year);
    }
  }

  /** A row never gives a source two metrics of one kind for one year. */
  lemma NewMetricsKeepUnique(ms: seq<SourceMetric>, row: Dict, year: int)
    requires UniqueKindYear(ms)
    ensures UniqueKindYear(ms + NewMetrics(ms, row, year))
  {
    var a := NewMetrics(ms, row, year);
    var all := ms + a;
    MetricTypesDistinct();
    AddedDistinct(MetricTypes, row, YearKinds(ms, year), year);
    forall i, j | 0 <= i < j < |all| ensures all[i].kind != all[j].kind || all[i].year != all[j].year {
      if j >= |ms| {
        AddedMembers(MetricTypes, row, YearKinds(ms, year), year, a[j - |ms|]);
        if i < |ms| {
          assert all[i] in ms;
        }
      }
    }
  }

  /** After a row, the source has a metric of the year for every column of
      the row whose value is available. */
  lemma NewMetricsCover(ms: seq<SourceMetric>, row: Dict, year: int, i: nat)
    requires i < |MetricTypes| && MetricValue(row, MetricTypes[i].0).Some?
    ensures MetricTypes[i].1 in YearKinds(ms + NewMetrics(ms, row, year), year)
  {
    var a := NewMetrics(ms, row, year);
    var have := YearKinds(ms, year);
    var t := MetricTypes[i];
    if t.1 in have {
      var m :| m in ms && m.year == year && m.kind == t.1;
      assert m in ms + a;
    } else {
      var m := SourceMetric(t.1, MetricValue(row, t.0).value, year);
      AddedMembers(MetricTypes, row, have, year, m);
      assert m in ms + a;
    }
  }

  /** Reading the same row a second time, for the same year, appends
      nothing more. */
  lemma NewMetricsIdempotent(ms: seq<SourceMetric>, row: Dict, year: int)
    ensures NewMetrics(ms + NewMetrics(ms, row, year), row, year) == []
  {
    var a := NewMetrics(ms, row, year);
    forall i | 0 <= i < |MetricTypes| && MetricValue(row, MetricTypes[i].0).Some?
      ensures MetricTypes[i].1 in YearKinds(ms + a, year)
    {
      NewMetricsCover(ms, row, year, i);
    }
    AddedNone(MetricTypes, row, YearKinds(ms + a, year), year);
  }

  /** `for metric in source.metrics: if metric.year == file_year: ...`:
      the kinds the source already has for the year. */
  method CurrentKinds(ms: seq<SourceMetric>, year: int) returns (kinds: set<string>)
    ensures kinds == YearKinds(ms, year)
  {
    kinds := {};
    var i := 0;
    while i < |ms|
      invariant 0 <= i <= |ms|
      invariant kinds == YearKinds(ms[..i], year)
    {
      assert ms[..i + 1] == ms[..i] + [ms[i]];
      if ms[i].year == year {
        kinds := kinds + {ms[i].kind};
      }
      i := i + 1;
    }
    assert ms[..i] == ms;
  }

  /** The body of the loop over the metric columns, for column `t`. */
  method AddMetric(source: Source, row: Dict, t: (string, string), have: set<string>, year: int)
    modifies source
    ensures source.metrics == old(source.metrics) + Added([t], row, have, year)
    ensures source.publisher == old(source.publisher) && source.country == old(source.country)
    ensures source.subjects == old(source.subjects)
  {
    var (column, name) := t;
    var v := MetricValue(row, column);
    AddedSnoc([], t, row, have, year);
    if v.Some? && name !in have {
      source.metrics := source.metrics + [SourceMetric(name, v.value, year)];
    }
  }

  /** The loop over the metric columns: each available value whose kind the
      source does not have for the year is appended as a new metric. */
  method AddMetrics(source: Source, row: Dict, year: int)
    modifies source
    ensures source.metrics == old(source.metrics) + NewMetrics(old(source.metrics), row, year)
    ensures source.publisher == old(source.publisher) && source.country == old(source.country)
    ensures source.subjects == old(source.subjects)
  {
    var have := CurrentKinds(source.metrics, year);
    ghost var added: seq<SourceMetric> := [];
    var i := 0;
    while i < |MetricTypes|
      invariant 0 <= i <= |MetricTypes|
      invariant added == Added(MetricTypes[..i], row, have, year)
      invariant source.metrics == old(source.metrics) + added
      invariant source.publisher == old(source.publisher) && source.country == old(source.country)
      invariant source.subjects == old(source.subjects)
    {
      ghost var step := Added([MetricTypes[i]], row, have, year);
      AddMetric(source, row, MetricTypes[i], have, year);
      AddedAppend(MetricTypes[..i], MetricTypes[i], row, have, year);
      assert MetricTypes[..i + 1] == MetricTypes[..i] + [MetricTypes[i]];
      assert old(source.metrics) + added + step == old(source.metrics) + (added + step);
      added := added + step;
      i := i + 1;
    }
    assert MetricTypes[..i] == MetricTypes;
  }

  // ================================================================ one source

  /** The attributes of a source that a row may fill in. */
  datatype SourceState = SourceState(publisher: JsonVal, country: Country?, subjects: seq<Subject>,
                                     metrics: seq<SourceMetric>)

  function State(s: Source): SourceState
    reads s
  {
    SourceState(s.publisher, s.country, s.subjects, s.metrics)
  }

  /** What a source made by `Source(...)` starts with. */
  const Blank: SourceState := SourceState(Null, null, [], [])

  /** The countries of the stored sources of `publisher` that have one:
      what `filter(Source.publisher == publisher, Source.country != None)`
      can hand to `.first().country`. */
  ghost function Donors(store: Store, publisher: JsonVal): set<Country>
    reads store.sources.Values
  {
    set s | s in store.sources.Values && s.publisher == publisher && s.country != null :: s.country
  }

  /** The query for the country of another source of the same publisher:
      some such source's country, or None when there is none (the
      AttributeError of `None.country`, caught). Which of several sources
      comes `.first()` is up to the database. */
  method PublisherCountry(store: Store, publisher: JsonVal) returns (country: Country?)
    ensures country == null <==> Donors(store, publisher) == {}
    ensures country != null ==> country in Donors(store, publisher)
  {
    if s :| s in store.sources.Values && s.publisher == publisher && s.country != null {
      country := s.country;
      assert country in Donors(store, publisher);
    } else {
      country := null;
      assert Donors(store, publisher) == {};
    }
  }

  /** `if row['asjc'] and not source.subjects: source.subjects.append(subjects[int(row['asjc'])])`,
      where `asjc` is the outcome of `row['asjc']` and the KeyError of
      `subjects[...]` is caught. */
  function FillSubject(asjc: Result<JsonVal>, current: seq<Subject>, table: map<int, Subject>): (r: Result<seq<Subject>>)
    ensures asjc.Err? ==> r == Err(asjc.error)
    ensures r.Ok? && current != [] ==> r.value == current
    ensures r.Ok? && current == [] ==> |r.value| <= 1 && forall s :: s in r.value ==> s in table.Values
    ensures r.Err? && asjc.Ok? ==> current == [] && Truthy(asjc.value) && PyInt(asjc.value) == Err(r.error)
    ensures asjc.Ok? && current == [] && Truthy(asjc.value) && PyInt(asjc.value).Ok? && PyInt(asjc.value).value in table
            ==> r == Ok([table[PyInt(asjc.value).value]])
  {
    var v :- asjc;
    if Truthy(v) && current == [] then
      var code :- PyInt(v);
      Ok(if code in table then [table[code]] else [])
    else Ok(current)
  }

  /** One row's effect on a source, from `before` to `after`: a falsy
      publisher is replaced by the row's, a missing country is looked up
      among `donors` when the row names a publisher, a missing subject is
      filled from the 'asjc' column, and the metrics the row adds are
      appended; a failing 'asjc' column raises before any metric is read. */
  ghost predicate Filled(before: SourceState, after: SourceState, donors: set<Country>, publisher: JsonVal,
                         row: Dict, table: map<int, Subject>, year: int, error: Option<PyError>)
  {
    HeaderFilled(before, after, donors, publisher) && BodyFilled(before, after, row, table, year, error)
  }

  /** The publisher and country rules. */
  ghost predicate HeaderFilled(before: SourceState, after: SourceState, donors: set<Country>, publisher: JsonVal) {
    after.publisher == (if Truthy(before.publisher) then before.publisher else publisher)
    && (if Truthy(publisher) && before.country == null
        then (after.country == null <==> donors == {}) && (after.country != null ==> after.country in donors)
        else after.country == before.country)
  }

  /** The subject and metrics rules. */
  ghost predicate BodyFilled(before: SourceState, after: SourceState, row: Dict, table: map<int, Subject>, year: int,
                             error: Option<PyError>)
  {
    var f := FillSubject(Importers.Field(row, "asjc"), before.subjects, table);
    (f.Err? ==> error == Some(f.error) && after.subjects == before.subjects && after.metrics == before.metrics)
    && (f.Ok? ==> error == None && after.subjects == f.value
                  && after.metrics == before.metrics + NewMetrics(before.metrics, row, year))
  }

  /** What a source keeps across rows: a truthy publisher, a country, a
      non-empty subject list, and every metric, in place; and no kind is
      ever doubled for a year. */
  ghost predicate Grows(before: SourceState, after: SourceState) {
    (Truthy(before.publisher) ==> after.publisher == before.publisher)
    && (before.country != null ==> after.country == before.country)
    && (before.subjects != [] ==> after.subjects == before.subjects)
    && |before.metrics| <= |after.metrics| && after.metrics[..|before.metrics|] == before.metrics
    && (UniqueKindYear(before.metrics) ==> UniqueKindYear(after.metrics))
  }

  lemma GrowsTrans(a: SourceState, b: SourceState, c: SourceState)
    requires Grows(a, b) && Grows(b, c)
    ensures Grows(a, c)
  {
    assert c.metrics[..|a.metrics|] == c.metrics[..|b.metrics|][..|a.metrics|];
  }

  /** Filling a source in never overwrites what it has, and adds at most
      one metric per column. */
  lemma FilledGrows(before: SourceState, after: SourceState, donors: set<Country>, publisher: JsonVal,
                    row: Dict, table: map<int, Subject>, year: int, error: Option<PyError>)
    requires Filled(before, after, donors, publisher, row, table, year, error)
    ensures Grows(before, after)
    ensures |after.metrics| <= |before.metrics| + |MetricTypes|
  {
    AddedLength(MetricTypes, row, YearKinds(before.metrics, year), year);
    if UniqueKindYear(before.metrics) {
      NewMetricsKeepUnique(before.metrics, row, year);
    }
    assert (before.metrics + NewMetrics(before.metrics, row, year))[..|before.metrics|] == before.metrics;
  }

  /** Reading a row into a source a second time changes neither its
      publisher, nor its subjects, nor its metrics. */
  lemma FilledTwice(s0: SourceState, s1: SourceState, s2: SourceState, d1: set<Country>, d2: set<Country>,
                    publisher: JsonVal, row: Dict, table: map<int, Subject>, year: int, e2: Option<PyError>)
    requires Filled(s0, s1, d1, publisher, row, table, year, None)
    requires Filled(s1, s2, d2, publisher, row, table, year, e2)
    ensures e2 == None && s2.publisher == s1.publisher && s2.subjects == s1.subjects && s2.metrics == s1.metrics
  {
    NewMetricsIdempotent(s0.metrics, row, year);
    var asjc := Importers.Field(row, "asjc");
    var f1 := FillSubject(asjc, s0.subjects, table);
    assert f1.Ok? && asjc.Ok?;
    if s1.subjects == [] {
      assert s0.subjects == [];
      if Truthy(asjc.value) {
        assert PyInt(asjc.value).Ok? && PyInt(asjc.value).value !in table;
      }
      assert FillSubject(asjc, s1.subjects, table) == f1;
    } else {
      assert FillSubject(asjc, s1.subjects, table) == Ok(s1.subjects);
    }
  }

  /** Everything after the source is found or made: lines that fill in
      the publisher, the country, the subject and the metrics. */
  method FillSource(store: Store, source: Source, row: Dict, publisher: JsonVal, year: int)
    returns (error: Option<PyError>)
    modifies source
    ensures Filled(old(State(source)), State(source), old(Donors(store, publisher)), publisher,
                   row, store.subjects, year, error)
  {
    ghost var before := State(source);
    FillHeader(store, source, publisher);
    ghost var middle := State(source);
    error := FillBody(source, row, store.subjects, year);
    assert BodyFilled(middle, State(source), row, store.subjects, year, error);
  }

  /** The publisher and the country. */
  method FillHeader(store: Store, source: Source, publisher: JsonVal)
    modifies source
    ensures HeaderFilled(old(State(source)), State(source), old(Donors(store, publisher)), publisher)
    ensures source.subjects == old(source.subjects) && source.metrics == old(source.metrics)
  {
    ghost var donors := Donors(store, publisher);
    if !Truthy(source.publisher) {
      source.publisher := publisher;
    }
    if Truthy(publisher) && source.country == null {
      assert Donors(store, publisher) == donors;
      var country := PublisherCountry(store, publisher);
      if country != null {
        source.country := country;
      }
    }
  }

  /** The subject and the metrics. */
  method FillBody(source: Source, row: Dict, table: map<int, Subject>, year: int) returns (error: Option<PyError>)
    modifies source
    ensures BodyFilled(old(State(source)), State(source), row, table, year, error)
    ensures source.publisher == old(source.publisher) && source.country == old(source.country)
  {
    var asjc := Importers.Field(row, "asjc");
    var f := FillSubject(asjc, source.subjects, table);
    if f.Err? {
      error := Some(f.error);
    } else {
      source.subjects := f.value;
      AddMetrics(source, row, year);
      error := None;
    }
  }

  // ================================================================ one row

  /** `int(row['id_scp'])` of the nullified row: it raises, gives `None`
      for a row to skip (the caught TypeError), or gives the id. */
  function RowId(raw: Dict): Result<Option<int>> {
    ExtSources.SourceId(Helpers.Nullified(raw, Helpers.NullTypes))
  }

  /** The keyword arguments of `Source(...)` for a source not yet stored. */
  datatype MetricSourceArgs = MetricSourceArgs(title: JsonVal, kind: JsonVal, issn: JsonVal, eIssn: JsonVal)

  /** The title defaults to NOT AVAILABLE; issn and e_issn go through
      `strip(..., max_len=8)`, which raises AttributeError on a truthy value
      that is not a str. */
  function NewSourceArgs(row: Dict): Result<MetricSourceArgs> {
    var issn :- Helpers.Strip(Importers.Cell(row, "issn", Null), Helpers.IssnChars, 8);
    var eIssn :- Helpers.Strip(Importers.Cell(row, "e_issn", Null), Helpers.IssnChars, 8);
    Ok(MetricSourceArgs(Importers.Cell(row, "title", NotAvailable), Importers.Cell(row, "type", Null), issn, eIssn))
  }

  /** A stripped ISSN is None, an empty str, or at most 8 ISSN characters. */
  predicate IssnLike(v: JsonVal) {
    v.Null? || (v.Str? && |v.s| <= 8 && forall c :: c in v.s ==> c in Helpers.IssnChars)
  }

  /** On a CSV row the arguments are always made, with ISSNs cut to shape. */
  lemma CsvSourceArgs(row: Dict)
    requires Importers.CsvRow(row)
    ensures NewSourceArgs(row).Ok?
    ensures IssnLike(NewSourceArgs(row).value.issn) && IssnLike(NewSourceArgs(row).value.eIssn)
  {
    CsvCell(row, "issn");
    CsvCell(row, "e_issn");
  }

  lemma CsvCell(row: Dict, k: string)
    requires Importers.CsvRow(row)
    ensures var v := Importers.Cell(row, k, Null);
            (v.Null? || v.Str?) && Helpers.Strip(v, Helpers.IssnChars, 8).Ok? && IssnLike(Helpers.Strip(v, Helpers.IssnChars, 8).value)
  {
    var v := Importers.Cell(row, k, Null);
    if Lookup(row, k).Some? {
      var i :| 0 <= i < |row| && row[i] == (k, Lookup(row, k).value);
    }
    if v.Str? && v.s == "" {
      assert Helpers.Strip(v, Helpers.IssnChars, 8) == Ok(v);
    }
  }

  /** One pass of the row loop. `target` is the source the row found or
      made; it is yielded (as `source`) unless filling it in raised. */
  method MetricRow(store: Store, year: int, raw: Dict)
    returns (source: Source?, error: Option<PyError>, ghost target: Source?)
    modifies store.sources.Values
    ensures RowId(raw).Err? ==> error == Some(RowId(raw).error) && target == null
    ensures RowId(raw) == Ok(None) ==> error == None && target == null
    ensures var row := Helpers.Nullified(raw, Helpers.NullTypes);
            var publisher := Importers.Cell(row, "publisher", Null);
            RowId(raw).Ok? && RowId(raw).value.Some? && RowId(raw).value.value in store.sources ==>
              target == store.sources[RowId(raw).value.value]
              && Filled(old(State(target)), State(target), old(Donors(store, publisher)), publisher,
                        row, store.subjects, year, error)
    ensures var row := Helpers.Nullified(raw, Helpers.NullTypes);
            var publisher := Importers.Cell(row, "publisher", Null);
            var args := NewSourceArgs(row);
            RowId(raw).Ok? && RowId(raw).value.Some? && RowId(raw).value.value !in store.sources ==>
              (args.Err? ==> error == Some(args.error) && target == null)
              && (args.Ok? ==>
                    target != null && fresh(target) && target.idScp == RowId(raw).value.value
                    && target.title == args.value.title && target.kind == args.value.kind
                    && target.issn == args.value.issn && target.eIssn == args.value.eIssn
                    && target.isbn == Null && target.url == SourceUrl(target.idScp)
                    && Filled(Blank, State(target), old(Donors(store, publisher)), publisher,
                              row, store.subjects, year, error))
    ensures source == if error.None? then target else null
    ensures forall s :: s in store.sources.Values && s != target ==> State(s) == old(State(s))
  {
    var row := Helpers.Nullified(raw, Helpers.NullTypes);
    var id := ExtSources.SourceId(row);
    source, error, target := null, None, null;
    if id.Err? {
      error := Some(id.error);
    } else if id.value.Some? {
      var n := id.value.value;
      var publisher := Importers.Cell(row, "publisher", Null);
      var found: Source? := null;
      if n in store.sources {
        found := store.sources[n];
      } else {
        var args := NewSourceArgs(row);
        if args.Err? {
          error := Some(args.error);
        } else {
          var a := args.value;
          found := new Source(n, a.title, a.kind, a.issn, a.eIssn, Null, Null);
        }
      }
      if found != null {
        error := FillSource(store, found, row, publisher, year);
        if error.None? {
          source := found;
        }
      }
      target := found;
    }
  }

  // ================================================================ the generator

  /** The kinds a row has a value for: the columns `float(row[metric])`
      reads without an exception. */
  function Available(raw: Dict): set<string> {
    AvailableIn(MetricTypes, Helpers.Nullified(raw, Helpers.NullTypes))
  }

  function AvailableIn(types: seq<(string, string)>, row: Dict): set<string>
    decreases |types|
  {
    if types == [] then {}
    else
      var t := types[|types| - 1];
      AvailableIn(types[..|types| - 1], row) + if MetricValue(row, t.0).Some? then {t.1} else {}
  }

  /** The kinds a row carries are the names of its columns with a value. */
  lemma {:induction false} AvailableInMembers(types: seq<(string, string)>, row: Dict, k: string)
    decreases |types|
    ensures k in AvailableIn(types, row) <==>
              exists c :: 0 <= c < |types| && types[c].1 == k && MetricValue(row, types[c].0).Some?
  {
    if types != [] {
      var p := types[..|types| - 1];
      AvailableInMembers(p, row, k);
      if exists c :: 0 <= c < |types| && types[c].1 == k && MetricValue(row, types[c].0).Some? {
        var c :| 0 <= c < |types| && types[c].1 == k && MetricValue(row, types[c].0).Some?;
        if c < |p| {
          assert p[c] == types[c];
        }
      }
      if exists c :: 0 <= c < |p| && p[c].1 == k && MetricValue(row, p[c].0).Some? {
        var c :| 0 <= c < |p| && p[c].1 == k && MetricValue(row, p[c].0).Some?;
        assert types[c] == p[c];
      }
    }
  }

  /** What a row decides before the store is consulted: its id, the kinds
      of the metrics it carries, the exception of a new source's arguments,
      the exception of filling in a missing subject (reading the 'asjc'
      column, then `int()` of a truthy code), and whether the column could
      be read at all. */
  datatype RowFact = RowFact(id: Result<Option<int>>, kinds: set<string>, argsError: Option<PyError>,
                             subjectError: Option<PyError>, asjcRead: bool)

  function ErrorOf<T>(r: Result<T>): Option<PyError> {
    if r.Err? then Some(r.error) else None
  }

  function Fact(raw: Dict): RowFact {
    var row := Helpers.Nullified(raw, Helpers.NullTypes);
    var asjc := Importers.Field(row, "asjc");
    RowFact(RowId(raw), Available(raw), ErrorOf(NewSourceArgs(row)), ErrorOf(FillSubject(asjc, [], map[])), asjc.Ok?)
  }

  function Facts(rows: seq<Dict>): (r: seq<RowFact>)
    ensures |r| == |rows|
  {
    if rows == [] then [] else Facts(rows[..|rows| - 1]) + [Fact(rows[|rows| - 1])]
  }

  lemma {:induction false} FactsAt(rows: seq<Dict>, i: nat)
    requires i < |rows|
    decreases |rows|
    ensures Facts(rows)[i] == Fact(rows[i])
  {
    if i < |rows| - 1 {
      assert rows[..|rows| - 1][i] == rows[i];
      FactsAt(rows[..|rows| - 1], i);
    }
  }

  /** Metrics are only ever appended, so the kinds of a year only grow. */
  lemma YearKindsGrow(ms: seq<SourceMetric>, ms': seq<SourceMetric>, year: int)
    requires |ms| <= |ms'| && ms'[..|ms|] == ms
    ensures YearKinds(ms, year) <= YearKinds(ms', year)
  {
    forall m | m in ms ensures m in ms' {
      var k :| 0 <= k < |ms| && ms[k] == m;
      assert ms'[k] == m;
    }
  }

  /** Once a row is read into a source, the source has a metric of the
      year for every kind the row carries. */
  lemma FilledCovers(before: SourceState, after: SourceState, donors: set<Country>, publisher: JsonVal,
                     raw: Dict, table: map<int, Subject>, year: int)
    requires Filled(before, after, donors, publisher, Helpers.Nullified(raw, Helpers.NullTypes), table, year, None)
    ensures Available(raw) <= YearKinds(after.metrics, year)
  {
    var row := Helpers.Nullified(raw, Helpers.NullTypes);
    forall k | k in Available(raw) ensures k in YearKinds(after.metrics, year) {
      AvailableInMembers(MetricTypes, row, k);
      var c :| 0 <= c < |MetricTypes| && MetricTypes[c].1 == k && MetricValue(row, MetricTypes[c].0).Some?;
      NewMetricsCover(before.metrics, row, year, c);
    }
  }

  /** The exception a row with fact `f` raises when the source it finds or
      makes has no subject yet: the id's, a new source's arguments', or the
      subject's. */
  function RowError(store: Store, f: RowFact): Option<PyError> {
    if f.id.Err? then Some(f.id.error)
    else if f.id.value.None? then None
    else if f.id.value.value !in store.sources && f.argsError.Some? then f.argsError
    else f.subjectError
  }

  /** A row that raised nothing: it has no exception to raise, or its
      source is stored and its 'asjc' column could be read, so `int()` of
      the code was skipped because the source already had a subject. */
  predicate Quiet(store: Store, f: RowFact) {
    RowError(store, f).None? || (f.id.Ok? && f.id.value.Some? && f.id.value.value in store.sources && f.asjcRead)
  }

  /** The rows before `n` all raised nothing. */
  predicate QuietUpTo(store: Store, facts: seq<RowFact>, n: nat)
    requires n <= |facts|
  {
    n == 0 || (QuietUpTo(store, facts, n - 1) && Quiet(store, facts[n - 1]))
  }

  lemma {:induction false} QuietUpToAll(store: Store, facts: seq<RowFact>, n: nat)
    requires n <= |facts| && QuietUpTo(store, facts, n)
    ensures forall j :: 0 <= j < n ==> Quiet(store, facts[j])
  {
    if n > 0 {
      QuietUpToAll(store, facts, n - 1);
    }
  }

  /** Filling in a subject raises what filling in an empty subject list
      raises, whatever the table, and fails to raise it only for a source
      that has a subject. */
  lemma FillSubjectCurrent(asjc: Result<JsonVal>, current: seq<Subject>, table: map<int, Subject>)
    ensures FillSubject(asjc, current, table).Err? ==> ErrorOf(FillSubject(asjc, [], map[])) == Some(FillSubject(asjc, current, table).error)
    ensures FillSubject(asjc, current, table).Ok? && FillSubject(asjc, [], map[]).Err? ==> current != [] && asjc.Ok?
    ensures current == [] ==> FillSubject(asjc, current, table).Err? == FillSubject(asjc, [], map[]).Err?
  {
  }

  /** Row `i` of the file read into the store: what the row loop needs to
      know of `MetricRow`. The row raises `RowError`, except that a stored
      source that already has a subject skips `int()` of the code. */
  method ReadRow(store: Store, year: int, rows: seq<Dict>, i: nat) returns (source: Source?, error: Option<PyError>)
    requires Consistent(store) && i < |rows|
    modifies store.sources.Values
    ensures var f := Facts(rows)[i];
            (error.Some? ==> error == RowError(store, f))
            && (error.None? ==> Quiet(store, f))
            && (RowError(store, f).Some? && error.None? ==> old(store.sources[f.id.value.value].subjects) != [])
    ensures var f := Facts(rows)[i];
            (error.None? && f.id.Ok? && f.id.value.Some? ==> source != null)
            && (source != null ==> error.None? && f.id == Ok(Some(source.idScp))
                                   && f.kinds <= YearKinds(source.metrics, year)
                                   && (source in store.sources.Values || fresh(source)))
    ensures var f := Facts(rows)[i];
            source != null && f.id.value.value in store.sources ==> source == store.sources[f.id.value.value]
    ensures forall s :: s in store.sources.Values ==> Grows(old(State(s)), State(s))
  {
    ghost var target;
    source, error, target := MetricRow(store, year, rows[i]);
    FactsAt(rows, i);
    ghost var row := Helpers.Nullified(rows[i], Helpers.NullTypes);
    ghost var publisher := Importers.Cell(row, "publisher", Null);
    ghost var before := if target in store.sources.Values then old(State(target)) else Blank;
    if target != null {
      FilledGrows(before, State(target), old(Donors(store, publisher)), publisher, row, store.subjects, year, error);
      FillSubjectCurrent(Importers.Field(row, "asjc"), before.subjects, store.subjects);
      if error.None? {
        FilledCovers(before, State(target), old(Donors(store, publisher)), publisher, rows[i], store.subjects, year);
      }
    }
    forall s | s in store.sources.Values ensures Grows(old(State(s)), State(s)) {
      if s != target {
        assert State(s) == old(State(s));
      }
    }
  }

  /** `source` was yielded for a row with fact `f`: it carries the row's id
      and, for the file's year, a metric of every kind the row carries. */
  ghost predicate YieldedFor(source: Source, f: RowFact, year: int)
    reads source
  {
    f.id == Ok(Some(source.idScp)) && f.kinds <= YearKinds(source.metrics, year)
  }

  /** The sources yielded so far, each with the row it was yielded for. */
  ghost predicate Yields(yielded: seq<Source>, origin: seq<nat>, facts: seq<RowFact>, year: int, i: nat)
    reads yielded
  {
    |origin| == |yielded| && i <= |facts|
    && (forall k, l :: 0 <= k < l < |origin| ==> origin[k] < origin[l])
    && (forall k :: 0 <= k < |origin| ==> origin[k] < i && YieldedFor(yielded[k], facts[origin[k]], year))
  }

  /** The rows before `n` that have an id, in row order. */
  function IdRows(facts: seq<RowFact>, n: nat): (r: seq<nat>)
    requires n <= |facts|
  {
    if n == 0 then []
    else IdRows(facts, n - 1) + (if facts[n - 1].id.Ok? && facts[n - 1].id.value.Some? then [n - 1] else [])
  }

  /** The rows `IdRows` lists are exactly the rows before `n` with an id,
      each once and in increasing order. */
  lemma {:induction false} IdRowsMembers(facts: seq<RowFact>, n: nat)
    requires n <= |facts|
    ensures forall j :: j in IdRows(facts, n) <==> 0 <= j < n && facts[j].id.Ok? && facts[j].id.value.Some?
    ensures forall k, l :: 0 <= k < l < |IdRows(facts, n)| ==> IdRows(facts, n)[k] < IdRows(facts, n)[l]
  {
    if n > 0 {
      IdRowsMembers(facts, n - 1);
      var prev := IdRows(facts, n - 1);
      assert forall k :: 0 <= k < |prev| ==> prev[k] in prev;
    }
  }

  /** The state of the row loop before row `i`: the rows before `stop`
      raised nothing, and each of them with an id yielded a source (the
      `origin` of a source yielded); when `i` is past `stop`, row `stop`
      raised its `RowError`. */
  predicate Progress(store: Store, origin: seq<nat>, facts: seq<RowFact>, i: nat, error: Option<PyError>, stop: nat)
  {
    stop <= i <= |facts|
    && origin == IdRows(facts, stop) && QuietUpTo(store, facts, stop)
    && (error.None? ==> stop == i)
    && (error.Some? ==> i == stop + 1 && error == RowError(store, facts[stop]))
  }

  /** Row `i` moves the yielded sources on: it yields nothing or the one
      source it was read into. */
  lemma YieldsNext(yielded: seq<Source>, origin: seq<nat>, facts: seq<RowFact>, year: int, i: nat,
                   next: seq<Source>, origin': seq<nat>)
    requires Yields(yielded, origin, facts, year, i) && i < |facts|
    requires (next == yielded && origin' == origin)
             || (|next| == |yielded| + 1 && next[..|yielded|] == yielded && origin' == origin + [i]
                 && YieldedFor(next[|yielded|], facts[i], year))
    ensures Yields(next, origin', facts, year, i + 1)
  {
    if next != yielded || origin' != origin {
      forall k | 0 <= k < |yielded| ensures next[k] == yielded[k] {
        assert next[k] == next[..|yielded|][k];
      }
    }
  }

  /** Row `i` moves the row loop on: it raises its `RowError`, or it is
      `Quiet` and yields a source exactly when it has an id. */
  lemma ProgressNext(store: Store, origin: seq<nat>, facts: seq<RowFact>, i: nat, origin': seq<nat>,
                     error: Option<PyError>)
    requires Progress(store, origin, facts, i, None, i) && i < |facts|
    requires error.Some? ==> origin' == origin && error == RowError(store, facts[i])
    requires error.None? ==> Quiet(store, facts[i])
    requires error.None? ==> origin' == origin + (if facts[i].id.Ok? && facts[i].id.value.Some? then [i] else [])
    ensures Progress(store, origin', facts, i + 1, error, if error.None? then i + 1 else i)
  {
  }

  /** A source yielded for a row whose id is stored is that stored source. */
  ghost predicate StoredYields(yielded: seq<Source>, origin: seq<nat>, facts: seq<RowFact>, stored: map<int, Source>) {
    |origin| == |yielded|
    && forall k :: 0 <= k < |origin| && origin[k] < |facts| ==>
         var id := facts[origin[k]].id;
         (id.Ok? && id.value.Some? && id.value.value in stored ==> yielded[k] == stored[id.value.value])
  }

  /** Every stored source keeps what it had in `start`, the store before
      the file. */
  ghost predicate StoreGrows(store: Store, start: map<Source, SourceState>)
    reads store.sources.Values
  {
    forall s :: s in store.sources.Values ==> s in start && Grows(start[s], State(s))
  }

  /** One pass of the row loop. */
  method RowStep(store: Store, year: int, rows: seq<Dict>, i: nat, yielded: seq<Source>, ghost origin: seq<nat>,
                 ghost start: map<Source, SourceState>)
    returns (next: seq<Source>, error: Option<PyError>, ghost origin': seq<nat>)
    requires Consistent(store) && i < |rows|
    requires Yields(yielded, origin, Facts(rows), year, i) && StoreGrows(store, start)
    requires StoredYields(yielded, origin, Facts(rows), store.sources)
    modifies store.sources.Values
    ensures Yields(next, origin', Facts(rows), year, i + 1) && StoreGrows(store, start)
    ensures var f := Facts(rows)[i];
            (error.Some? ==> origin' == origin && error == RowError(store, f))
            && (error.None? ==> Quiet(store, f) && origin' == origin + (if f.id.Ok? && f.id.value.Some? then [i] else []))
    ensures StoredYields(next, origin', Facts(rows), store.sources)
    ensures |yielded| <= |next| <= |yielded| + 1 && next[..|yielded|] == yielded
    ensures |next| == |yielded| ==> next == yielded
    ensures |next| > |yielded| ==> next[|yielded|] in store.sources.Values || fresh(next[|yielded|])
  {
    ghost var facts := Facts(rows);
    var source;
    source, error := ReadRow(store, year, rows, i);
    forall s | s in store.sources.Values ensures s in start && Grows(start[s], State(s)) {
      GrowsTrans(start[s], old(State(s)), State(s));
    }
    forall k | 0 <= k < |yielded| ensures YieldedFor(yielded[k], facts[origin[k]], year) {
      var y := yielded[k];
      if y in store.sources.Values {
        YearKindsGrow(old(y.metrics), y.metrics, year);
      }
    }
    if source != null {
      next, origin' := yielded + [source], origin + [i];
      assert next[..|yielded|] == yielded;
    } else {
      next, origin' := yielded, origin;
    }
    YieldsNext(yielded, origin, facts, year, i, next, origin');
  }

  /** A source appended that is stored or fresh keeps every source listed
      stored or fresh. */
  twostate lemma FreshSnoc(new before: seq<Source>, new next: seq<Source>, new stored: set<Source>)
    requires forall k :: 0 <= k < |before| ==> before[k] in stored || fresh(before[k])
    requires |next| == |before| + 1 && next[..|before|] == before
    requires next[|before|] in stored || fresh(next[|before|])
    ensures forall k :: 0 <= k < |next| ==> next[k] in stored || fresh(next[k])
  {
    forall k | 0 <= k < |before| ensures next[k] == before[k] {
      assert next[k] == next[..|before|][k];
    }
  }

  /** `ext_source_metric_process(db, file_path, file_year)`. The rows are
      read up to `stop`, the first row that raises, or to the end when
      none does; the sources yielded are one per row with an id before
      `stop`, each the stored source of that id or a fresh one, covering
      the row's metrics; the exception is that row's `RowError`. Every row
      before `stop` is `Quiet`, so a file none of whose rows has an
      exception to raise is read to the end. */
  method ExtMetricProcess(store: Store, year: int, rows: seq<Dict>)
    returns (yielded: seq<Source>, error: Option<PyError>, ghost origin: seq<nat>, ghost stop: nat)
    requires Consistent(store)
    modifies store.sources.Values
    ensures stop <= |rows| && (error.None? <==> stop == |rows|)
    ensures error.Some? ==> error == RowError(store, Facts(rows)[stop])
    ensures forall j :: 0 <= j < stop ==> Quiet(store, Facts(rows)[j])
    ensures (forall j :: 0 <= j < |rows| ==> RowError(store, Facts(rows)[j]).None?) ==> error.None?
    ensures origin == IdRows(Facts(rows), stop)
    ensures Yields(yielded, origin, Facts(rows), year, |rows|)
    ensures StoredYields(yielded, origin, Facts(rows), store.sources)
    ensures forall k :: 0 <= k < |yielded| ==> yielded[k] in store.sources.Values || fresh(yielded[k])
    ensures forall s :: s in store.sources.Values ==> Grows(old(State(s)), State(s))
  {
    yielded, error, origin, stop := ReadRows(store, year, rows);
    ProgressDone(store, origin, Facts(rows), error, stop);
  }

  /** What the row loop has established once it stops. */
  lemma ProgressDone(store: Store, origin: seq<nat>, facts: seq<RowFact>, error: Option<PyError>, stop: nat)
    requires stop <= |facts| && Progress(store, origin, facts, if error.None? then |facts| else stop + 1, error, stop)
    ensures stop <= |facts| && (error.None? <==> stop == |facts|)
    ensures error.Some? ==> error == RowError(store, facts[stop])
    ensures forall j :: 0 <= j < stop ==> Quiet(store, facts[j])
    ensures (forall j :: 0 <= j < |facts| ==> RowError(store, facts[j]).None?) ==> error.None?
    ensures origin == IdRows(facts, stop)
  {
    QuietUpToAll(store, facts, stop);
  }

  /** The row loop of lines 44-106. */
  method ReadRows(store: Store, year: int, rows: seq<Dict>)
    returns (yielded: seq<Source>, error: Option<PyError>, ghost origin: seq<nat>, ghost stop: nat)
    requires Consistent(store)
    modifies store.sources.Values
    ensures stop <= |rows| && Progress(store, origin, Facts(rows), if error.None? then |rows| else stop + 1, error, stop)
    ensures Yields(yielded, origin, Facts(rows), year, |rows|)
    ensures StoredYields(yielded, origin, Facts(rows), store.sources)
    ensures forall k :: 0 <= k < |yielded| ==> yielded[k] in store.sources.Values || fresh(yielded[k])
    ensures forall s :: s in store.sources.Values ==> Grows(old(State(s)), State(s))
  {
    ghost var start := map s | s in store.sources.Values :: State(s);
    ghost var facts := Facts(rows);
    yielded, error, origin, stop := [], None, [], 0;
    var i := 0;
    while i < |rows| && error.None?
      invariant 0 <= i <= |rows|
      invariant Yields(yielded, origin, facts, year, i) && Progress(store, origin, facts, i, error, stop)
      invariant StoreGrows(store, start)
      invariant StoredYields(yielded, origin, facts, store.sources)
      invariant forall k :: 0 <= k < |yielded| ==> yielded[k] in store.sources.Values || fresh(yielded[k])
    {
      ghost var before := yielded;
      ghost var origin0 := origin;
      yielded, error, origin := RowStep(store, year, rows, i, yielded, origin, start);
      ProgressNext(store, origin0, facts, i, origin, error);
      stop := if error.None? then i + 1 else i;
      if |yielded| > |before| {
        FreshSnoc(before, yielded, store.sources.Values);
      }
      i := i + 1;
    }
  }
}
